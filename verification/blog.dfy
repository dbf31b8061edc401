/**
 The older flaskblog variant of the application: languages instead of
 courses, `Classes` rows instead of course members, and no role checks.
 Its user table is not modelled: the session is the logged-in user's id, or
 None for an anonymous visitor, on whom reading `id` fails.
 */
module Blog {
  import opened Orm
  import opened Enrollment
  import Forms
  import Models
  import Routes

  datatype Language = Language(id: int, name: string, info: string)

  /** A row of `classes`: user `userId` follows language `languageId`. */
  datatype Class = Class(userId: int, languageId: int, teacherId: int, location: string)

  function ClassKey(c: Class): Pair {
    Pair(c.userId, c.languageId)
  }

  /** Teacher and location every subscription is created with. */
  const DefaultTeacherId := 1
  const DefaultLocation := "hier"

  datatype BlogStore = BlogStore(languages: seq<Language>, classes: seq<Class>)

  datatype View =
    | FormView
    | HomeView(languages: seq<Language>, subscriptions: seq<int>)
    | LanguageView(language: Language, show: bool)
    | LanguageListView(languages: seq<Language>)

  datatype Outcome =
    | Rendered(view: View)
    | Rejected
    | NotFound
    | ServerError
    | Subscribed
    | Unsubscribed
    | LanguageUpdated

  datatype Response = Response(store: BlogStore, outcome: Outcome)

  /** `Language.query.get(id)`. */
  function LanguageById(languages: seq<Language>, id: int): (r: Option<nat>)
    ensures r.Some? ==> r.value < |languages| && languages[r.value].id == id
    ensures r.None? <==> forall i :: 0 <= i < |languages| ==> languages[i].id != id
  {
    First(languages, (l: Language) => l.id == id)
  }

  /** `home`: every language and the ids of the languages the visitor follows. */
  function Home(s: BlogStore, session: Option<int>): (r: Response)
    ensures r.store == s
    ensures r.outcome.ServerError? <==> session.None?
    ensures session.Some? ==>
      && r.outcome.Rendered? && r.outcome.view.HomeView?
      && r.outcome.view.languages == s.languages
      && (forall c :: c in r.outcome.view.subscriptions <==> Enrolled(s.classes, ClassKey, Pair(session.value, c)))
      && (AtMostOncePerPair(s.classes, ClassKey) ==> Distinct(r.outcome.view.subscriptions))
  {
    match session
    case None => Response(s, ServerError)
    case Some(id) =>
      assert AtMostOncePerPair(s.classes, ClassKey) ==> Distinct(CoursesOf(s.classes, ClassKey, id)) by {
        if AtMostOncePerPair(s.classes, ClassKey) {
          CoursesOfDistinct(s.classes, ClassKey, id);
        }
      }
      Response(s, Rendered(HomeView(s.languages, CoursesOf(s.classes, ClassKey, id))))
  }

  /**
   `course`: the same two-form page as in pgmles, but the subscription lookup
   runs first and for every visitor; a new subscription gets teacher 1 and
   location "hier".
   */
  function CoursePage(s: BlogStore, session: Option<int>, courseId: int, req: Request<()>): (r: Response)
    ensures r.store.languages == s.languages
    ensures session.None? ==> r == Response(s, ServerError)
    ensures r.outcome.Subscribed? <==>
      req.Post? && session.Some? && !Enrolled(s.classes, ClassKey, Pair(session.value, courseId))
    ensures r.outcome.Subscribed? ==>
      r.store.classes == s.classes + [Class(session.value, courseId, DefaultTeacherId, DefaultLocation)]
    ensures r.outcome.Unsubscribed? <==>
      req.Post? && session.Some? && Enrolled(s.classes, ClassKey, Pair(session.value, courseId))
    ensures r.outcome.Unsubscribed? ==>
      exists i :: 0 <= i < |s.classes|
        && ClassKey(s.classes[i]) == Pair(session.value, courseId)
        && (forall j :: 0 <= j < i ==> ClassKey(s.classes[j]) != ClassKey(s.classes[i]))
        && r.store.classes == s.classes[..i] + s.classes[i + 1..]
    ensures !r.outcome.Subscribed? && !r.outcome.Unsubscribed? ==> r.store == s
    ensures r.outcome.NotFound? <==> session.Some? && req.Get? && LanguageById(s.languages, courseId).None?
    ensures session.Some? && req.Get? && LanguageById(s.languages, courseId).Some? ==>
      r.outcome == Rendered(LanguageView(
        s.languages[LanguageById(s.languages, courseId).value],
        !Enrolled(s.classes, ClassKey, Pair(session.value, courseId))))
  {
    match session
    case None => Response(s, ServerError)
    case Some(id) =>
      var subscription := Lookup(s.classes, ClassKey, Pair(id, courseId));
      var show := subscription.None?;
      if req.Post? && show then
        Response(s.(classes := s.classes + [Class(id, courseId, DefaultTeacherId, DefaultLocation)]), Subscribed)
      else if req.Post? && !show then
        Response(s.(classes := Delete(s.classes, subscription.value)), Unsubscribed)
      else match LanguageById(s.languages, courseId)
        case None => Response(s, NotFound)
        case Some(k) => Response(s, Rendered(LanguageView(s.languages[k], show)))
  }

  /** `admin`: lists every language, whoever asks. */
  function AdminPage(s: BlogStore, session: Option<int>): (r: Response)
    ensures r.store == s && r.outcome.Rendered? && r.outcome.view.LanguageListView?
    ensures r.outcome.view.languages == s.languages
  {
    Response(s, Rendered(LanguageListView(s.languages)))
  }

  /**
   `update_lang`: whoever asks; a missing language answers 404; a valid
   submission rewrites that language's name and info and nothing else.
   */
  function UpdateLanguage(s: BlogStore, session: Option<int>, langId: int, req: Request<Forms.LanguageForm>): (r: Response)
    ensures r.store.classes == s.classes
    ensures r.outcome.NotFound? <==> LanguageById(s.languages, langId).None?
    ensures r.outcome.LanguageUpdated? <==>
      LanguageById(s.languages, langId).Some? && req.Post? && Forms.ValidLanguage(req.form)
    ensures !r.outcome.LanguageUpdated? ==> r.store == s
    ensures r.outcome.LanguageUpdated? ==>
      var k := LanguageById(s.languages, langId).value;
      && |r.store.languages| == |s.languages|
      && (forall j :: 0 <= j < |s.languages| && j != k ==> r.store.languages[j] == s.languages[j])
      && r.store.languages[k] == Language(langId, req.form.name, req.form.info)
  {
    match LanguageById(s.languages, langId)
    case None => Response(s, NotFound)
    case Some(k) =>
      match req
      case Get => Response(s, Rendered(FormView))
      case Post(f) =>
        if Forms.ValidLanguage(f) then
          Response(s.(languages := s.languages[k := s.languages[k].(name := f.name, info := f.info)]), LanguageUpdated)
        else Response(s, Rejected)
  }

  /** Neither `admin` nor `update_lang` looks at who is asking: an anonymous visitor gets what an administrator gets. */
  lemma AdminPagesUnguarded(s: BlogStore, langId: int, req: Request<Forms.LanguageForm>, session: Option<int>)
    requires LanguageById(s.languages, langId).Some? && req.Post? && Forms.ValidLanguage(req.form)
    ensures AdminPage(s, None) == AdminPage(s, session)
    ensures UpdateLanguage(s, None, langId, req).outcome == LanguageUpdated
    ensures UpdateLanguage(s, None, langId, req) == UpdateLanguage(s, session, langId, req)
  {
  }

  /** On a POST by a logged-in visitor the course page is the toggle of that visitor's subscription. */
  lemma CoursePageIsToggle(s: BlogStore, id: int, courseId: int)
    ensures CoursePage(s, Some(id), courseId, Post(())).store.classes ==
      Toggle(s.classes, ClassKey, Class(id, courseId, DefaultTeacherId, DefaultLocation))
  {
  }

  /**
   Both variants' course pages keep at most one enrollment row per
   (user, course): they are the same toggle over different rows.
   */
  lemma BothTogglesKeepAtMostOnce(
    s: Models.Store, session: Option<int>, b: BlogStore, blogSession: Option<int>, courseId: int, req: Request<()>)
    requires AtMostOncePerPair(s.members, Models.MemberKey)
    requires AtMostOncePerPair(b.classes, ClassKey)
    ensures AtMostOncePerPair(Routes.CoursePage(s, session, courseId, req).store.members, Models.MemberKey)
    ensures AtMostOncePerPair(CoursePage(b, blogSession, courseId, req).store.classes, ClassKey)
  {
    if req.Post? && Models.CurrentUser(s, session).Some? {
      var id := s.users[Models.CurrentUser(s, session).value].id;
      Routes.CoursePageIsToggle(s, session, courseId);
      ToggleKeepsAtMostOnce(s.members, Models.MemberKey, Models.CourseMember(courseId, id));
    }
    if req.Post? && blogSession.Some? {
      CoursePageIsToggle(b, blogSession.value, courseId);
      ToggleKeepsAtMostOnce(b.classes, ClassKey, Class(blogSession.value, courseId, DefaultTeacherId, DefaultLocation));
    }
  }
}
