/**
 The request handlers of pgmles with HTTP, sessions and templates stripped
 away: each handler is a function from the store, the session's user id and
 the request to the new store and the outcome the visitor sees.
 */
module Routes {
  import opened Orm
  import opened Enrollment
  import opened Models
  import opened Forms

  /** What a rendered page shows that depends on the store. */
  datatype View =
    | FormView
    | IndexView(courses: seq<Course>, subscriptions: seq<int>, teachers: seq<TeacherChoice>)
    | CourseView(course: Course, show: bool, teachers: seq<TeacherChoice>)
    | CourseListView(courses: seq<Course>)
    | PermissionView(user: User)

  /**
   The answer to a request. A handler that redirects after writing is named
   by what it wrote; `Rejected` is a submitted form shown again with errors;
   `ServerError` is an attribute read on the anonymous user or on a missing row.
   */
  datatype Outcome =
    | Rendered(view: View)
    | Rejected
    | AlreadyAuthenticated
    | LoginRequired
    | Forbidden
    | NotFound
    | ServerError
    | Registered(id: int)
    | AccountUpdated
    | CourseCreated(id: int)
    | CourseUpdated
    | CourseDeleted
    | Subscribed
    | Unsubscribed
    | UserFound(id: int)
    | UnknownUsername
    | PermissionsUpdated

  datatype Response = Response(store: Store, outcome: Outcome)

  /** The type of the logged-in user, None for an anonymous visitor. */
  function RoleOf(s: Store, session: Option<int>): Option<string> {
    match CurrentUser(s, session)
    case None => None
    case Some(me) => Some(s.users[me].role)
  }

  /** The course ids of the current user's memberships; empty for an anonymous visitor. */
  function Subscriptions(s: Store, session: Option<int>): seq<int> {
    match CurrentUser(s, session)
    case None => []
    case Some(me) => CoursesOf(s.members, MemberKey, s.users[me].id)
  }

  /** `index`: the catalogue, the visitor's subscriptions and the teachers. */
  function Index(s: Store, session: Option<int>): (r: Response)
    ensures r.store == s && r.outcome.Rendered? && r.outcome.view.IndexView?
    ensures r.outcome.view.courses == s.courses
    ensures CurrentUser(s, session).None? ==> r.outcome.view.subscriptions == []
    ensures CurrentUser(s, session).Some? ==>
      var id := s.users[CurrentUser(s, session).value].id;
      forall c :: c in r.outcome.view.subscriptions <==> CourseMember(c, id) in s.members
    ensures WellFormed(s) ==> Distinct(r.outcome.view.subscriptions)
    ensures forall id :: Offers(r.outcome.view.teachers, id) <==> IsTeacher(s.users, id)
  {
    var subs := Subscriptions(s, session);
    assert CurrentUser(s, session).Some? ==>
      var id := s.users[CurrentUser(s, session).value].id;
      forall c :: c in subs <==> CourseMember(c, id) in s.members
    by {
      if CurrentUser(s, session).Some? {
        var id := s.users[CurrentUser(s, session).value].id;
        forall c
          ensures c in subs <==> CourseMember(c, id) in s.members
        {
          if CourseMember(c, id) in s.members {
            var k :| 0 <= k < |s.members| && s.members[k] == CourseMember(c, id);
            assert MemberKey(s.members[k]) == Pair(id, c);
          }
          if c in subs {
            var k :| 0 <= k < |s.members| && MemberKey(s.members[k]) == Pair(id, c);
            assert s.members[k] == CourseMember(c, id);
          }
        }
      }
    }
    assert WellFormed(s) ==> Distinct(subs) by {
      if WellFormed(s) && CurrentUser(s, session).Some? {
        CoursesOfDistinct(s.members, MemberKey, s.users[CurrentUser(s, session).value].id);
      }
    }
    Response(s, Rendered(IndexView(s.courses, subs, TeacherChoices(s.users))))
  }

  /**
   `register`: a logged-in visitor is sent away; a valid submission inserts a
   user with the column defaults for type and picture.
   */
  function Register(s: Store, session: Option<int>, req: Request<RegistrationForm>, isEmail: string -> bool): (r: Response)
    ensures CurrentUser(s, session).Some? ==> r == Response(s, AlreadyAuthenticated)
    ensures r.outcome.Registered? <==>
      CurrentUser(s, session).None? && req.Post? && ValidateRegistration(s.users, req.form, isEmail)
    ensures !r.outcome.Registered? ==> r.store == s
    ensures r.outcome.Registered? ==>
      && r.store.courses == s.courses && r.store.members == s.members
      && |r.store.users| == |s.users| + 1 && r.store.users[..|s.users|] == s.users
      && var u := r.store.users[|s.users|];
      && u.id == r.outcome.id && u.username == req.form.username && u.email == req.form.email
      && u.role == ClientRole && u.imageFile == DefaultImage
      && 2 <= |u.username| <= 20 && req.form.confirmPassword == req.form.password
      && forall i :: 0 <= i < |s.users| ==>
           s.users[i].id < u.id && s.users[i].username != u.username && s.users[i].email != u.email
  {
    if CurrentUser(s, session).Some? then Response(s, AlreadyAuthenticated)
    else match req
      case Get => Response(s, Rendered(FormView))
      case Post(f) =>
        if ValidateRegistration(s.users, f, isEmail) then
          var id := NextUserId(s.users);
          var users := s.users + [NewUser(id, None, f.username, f.email)];
          assert users[..|s.users|] == s.users;
          Response(s.(users := users), Registered(id))
        else Response(s, Rejected)
  }

  /**
   `account`: a valid submission rewrites the logged-in user's username,
   address and, when a picture was uploaded, the picture's stored name
   (`pictureName`, chosen by the upload helper).
   */
  function Account(
    s: Store, session: Option<int>, req: Request<AccountForm>,
    isEmail: string -> bool, fileAllowed: string -> bool, pictureName: string): (r: Response)
    ensures CurrentUser(s, session).None? ==> r == Response(s, LoginRequired)
    ensures r.outcome.AccountUpdated? <==>
      CurrentUser(s, session).Some? && req.Post? &&
      ValidateAccount(s.users, CurrentUser(s, session).value, req.form, isEmail, fileAllowed)
    ensures !r.outcome.AccountUpdated? ==> r.store == s
    ensures r.outcome.AccountUpdated? ==>
      var me := CurrentUser(s, session).value;
      && r.store.courses == s.courses && r.store.members == s.members
      && |r.store.users| == |s.users|
      && (forall i :: 0 <= i < |s.users| && i != me ==> r.store.users[i] == s.users[i])
      && r.store.users[me].id == s.users[me].id && r.store.users[me].role == s.users[me].role
      && r.store.users[me].username == req.form.username && r.store.users[me].email == req.form.email
      && r.store.users[me].imageFile == (if req.form.picture.Some? then pictureName else s.users[me].imageFile)
  {
    match CurrentUser(s, session)
    case None => Response(s, LoginRequired)
    case Some(me) =>
      match req
      case Get => Response(s, Rendered(FormView))
      case Post(f) =>
        if ValidateAccount(s.users, me, f, isEmail, fileAllowed) then
          var u := s.users[me];
          var image := if f.picture.Some? then pictureName else u.imageFile;
          var u' := u.(username := f.username, email := f.email, imageFile := image);
          Response(s.(users := s.users[me := u']), AccountUpdated)
        else Response(s, Rejected)
  }

  /** `course_overview`: staff only, shows every course. */
  function CourseOverview(s: Store, session: Option<int>): (r: Response)
    ensures r.store == s
    ensures RoleOf(s, session).None? <==> r.outcome.LoginRequired?
    ensures r.outcome.Forbidden? <==> RoleOf(s, session).Some? && !IsStaff(RoleOf(s, session).value)
    ensures r.outcome.Rendered? ==> r.outcome.view == CourseListView(s.courses)
    ensures RoleOf(s, session).Some? && IsStaff(RoleOf(s, session).value) ==> r.outcome == Rendered(CourseListView(s.courses))
  {
    match RoleOf(s, session)
    case None => Response(s, LoginRequired)
    case Some(role) =>
      if !IsStaff(role) then Response(s, Forbidden)
      else Response(s, Rendered(CourseListView(s.courses)))
  }

  /**
   `new_course`: staff only; a valid submission appends a course taught by one
   of the users whose type is teacher.
   */
  function NewCourse(s: Store, session: Option<int>, req: Request<CourseForm>): (r: Response)
    ensures RoleOf(s, session).None? <==> r.outcome.LoginRequired?
    ensures r.outcome.Forbidden? <==> RoleOf(s, session).Some? && !IsStaff(RoleOf(s, session).value)
    ensures r.outcome.CourseCreated? <==>
      RoleOf(s, session).Some? && IsStaff(RoleOf(s, session).value) && req.Post? && ValidateCourse(s.users, req.form)
    ensures !r.outcome.CourseCreated? ==> r.store == s
    ensures r.outcome.CourseCreated? ==>
      && r.store.users == s.users && r.store.members == s.members
      && |r.store.courses| == |s.courses| + 1 && r.store.courses[..|s.courses|] == s.courses
      && var c := r.store.courses[|s.courses|];
      && c.id == r.outcome.id && (forall k :: 0 <= k < |s.courses| ==> s.courses[k].id < c.id)
      && (|s.courses| == 0 ==> c.id == 1)
      && (|s.courses| > 0 ==> exists k :: 0 <= k < |s.courses| && s.courses[k].id == c.id - 1)
      && IsTeacher(s.users, c.teacherId) && Some(c.teacherId) == req.form.teacherId
      && c.name == req.form.name && c.description == req.form.description
      && c.weekday == req.form.weekday && c.start == req.form.start && c.end == req.form.end
      && c.location == req.form.location
  {
    match RoleOf(s, session)
    case None => Response(s, LoginRequired)
    case Some(role) =>
      if !IsStaff(role) then Response(s, Forbidden)
      else match req
        case Get => Response(s, Rendered(FormView))
        case Post(f) =>
          if ValidateCourse(s.users, f) then
            var id := NextCourseId(s.courses);
            var c := Course(id, f.name, f.description, f.teacherId.value, f.weekday, f.start, f.end, f.location);
            var courses := s.courses + [c];
            assert courses[..|s.courses|] == s.courses;
            Response(s.(courses := courses), CourseCreated(id))
          else Response(s, Rejected)
  }

  /**
   `update_course`: staff only; a missing course answers 404; a valid
   submission rewrites every field of that one course but its id.
   */
  function UpdateCourse(s: Store, session: Option<int>, courseId: int, req: Request<CourseForm>): (r: Response)
    ensures RoleOf(s, session).None? <==> r.outcome.LoginRequired?
    ensures r.outcome.Forbidden? <==> RoleOf(s, session).Some? && !IsStaff(RoleOf(s, session).value)
    ensures r.outcome.NotFound? <==>
      RoleOf(s, session).Some? && IsStaff(RoleOf(s, session).value) && CourseById(s.courses, courseId).None?
    ensures r.outcome.CourseUpdated? <==>
      && RoleOf(s, session).Some? && IsStaff(RoleOf(s, session).value)
      && CourseById(s.courses, courseId).Some? && req.Post? && ValidateCourse(s.users, req.form)
    ensures !r.outcome.CourseUpdated? ==> r.store == s
    ensures r.outcome.CourseUpdated? ==>
      var k := CourseById(s.courses, courseId).value;
      && r.store.users == s.users && r.store.members == s.members
      && |r.store.courses| == |s.courses|
      && (forall j :: 0 <= j < |s.courses| && j != k ==> r.store.courses[j] == s.courses[j])
      && r.store.courses[k].id == courseId
      && IsTeacher(s.users, r.store.courses[k].teacherId)
      && r.store.courses[k] == Course(
           courseId, req.form.name, req.form.description, req.form.teacherId.value,
           req.form.weekday, req.form.start, req.form.end, req.form.location)
  {
    match RoleOf(s, session)
    case None => Response(s, LoginRequired)
    case Some(role) =>
      if !IsStaff(role) then Response(s, Forbidden)
      else match CourseById(s.courses, courseId)
        case None => Response(s, NotFound)
        case Some(k) =>
          match req
          case Get => Response(s, Rendered(FormView))
          case Post(f) =>
            if ValidateCourse(s.users, f) then
              var c := s.courses[k].(
                name := f.name, description := f.description, teacherId := f.teacherId.value,
                weekday := f.weekday, start := f.start, end := f.end, location := f.location);
              Response(s.(courses := s.courses[k := c]), CourseUpdated)
            else Response(s, Rejected)
  }

  /**
   `course`: the page's subscribe and unsubscribe forms carry the same fields
   and no validators, so any POST validates both. A POST inserts a membership
   for the current user when none exists and deletes the one found otherwise;
   the course itself is only looked up when nothing was written.
   */
  function CoursePage(s: Store, session: Option<int>, courseId: int, req: Request<()>): (r: Response)
    ensures r.store.users == s.users && r.store.courses == s.courses
    ensures r.outcome.ServerError? <==> req.Post? && CurrentUser(s, session).None?
    ensures r.outcome.Subscribed? <==>
      && req.Post? && CurrentUser(s, session).Some?
      && CourseMember(courseId, s.users[CurrentUser(s, session).value].id) !in s.members
    ensures r.outcome.Subscribed? ==>
      r.store.members == s.members + [CourseMember(courseId, s.users[CurrentUser(s, session).value].id)]
    ensures r.outcome.Unsubscribed? <==>
      && req.Post? && CurrentUser(s, session).Some?
      && CourseMember(courseId, s.users[CurrentUser(s, session).value].id) in s.members
    ensures r.outcome.Unsubscribed? ==>
      exists i :: 0 <= i < |s.members|
        && s.members[i] == CourseMember(courseId, s.users[CurrentUser(s, session).value].id)
        && (forall j :: 0 <= j < i ==> s.members[j] != s.members[i])
        && r.store.members == s.members[..i] + s.members[i + 1..]
    ensures !r.outcome.Subscribed? && !r.outcome.Unsubscribed? ==> r.store == s
    ensures r.outcome.NotFound? <==> req.Get? && CourseById(s.courses, courseId).None?
    ensures req.Get? && CourseById(s.courses, courseId).Some? ==>
      r.outcome == Rendered(CourseView(
        s.courses[CourseById(s.courses, courseId).value],
        CurrentUser(s, session).None? || CourseMember(courseId, s.users[CurrentUser(s, session).value].id) !in s.members,
        TeacherChoices(s.users)))
  {
    var me := CurrentUser(s, session);
    var subscribed := if me.Some? then Lookup(s.members, MemberKey, Pair(s.users[me.value].id, courseId)) else None;
    assert me.Some? ==> (subscribed.Some? <==> CourseMember(courseId, s.users[me.value].id) in s.members) by {
      if me.Some? {
        var m := CourseMember(courseId, s.users[me.value].id);
        if m in s.members {
          var k :| 0 <= k < |s.members| && s.members[k] == m;
          assert MemberKey(s.members[k]) == MemberKey(m);
        }
        if subscribed.Some? {
          assert s.members[subscribed.value] == m;
        }
      }
    }
    if req.Post? && subscribed.None? then
      if me.None? then Response(s, ServerError)
      else Response(s.(members := s.members + [CourseMember(courseId, s.users[me.value].id)]), Subscribed)
    else if req.Post? && subscribed.Some? then
      var i := subscribed.value;
      assert s.members[i] == CourseMember(courseId, s.users[me.value].id);
      assert forall j :: 0 <= j < i ==> s.members[j] != s.members[i] by {
        forall j | 0 <= j < i
          ensures s.members[j] != s.members[i]
        {
          assert MemberKey(s.members[j]) != MemberKey(s.members[i]);
        }
      }
      Response(s.(members := Delete(s.members, i)), Unsubscribed)
    else match CourseById(s.courses, courseId)
      case None => Response(s, NotFound)
      case Some(k) => Response(s, Rendered(CourseView(s.courses[k], subscribed.None?, TeacherChoices(s.users))))
  }

  /** `delete_course`: administrators only; removes the course row and no membership. */
  function DeleteCourse(s: Store, session: Option<int>, courseId: int): (r: Response)
    ensures RoleOf(s, session).None? <==> r.outcome.LoginRequired?
    ensures r.outcome.Forbidden? <==> RoleOf(s, session).Some? && !IsAdmin(RoleOf(s, session).value)
    ensures r.outcome.NotFound? <==>
      RoleOf(s, session).Some? && IsAdmin(RoleOf(s, session).value) && CourseById(s.courses, courseId).None?
    ensures r.outcome.CourseDeleted? <==>
      RoleOf(s, session).Some? && IsAdmin(RoleOf(s, session).value) && CourseById(s.courses, courseId).Some?
    ensures !r.outcome.CourseDeleted? ==> r.store == s
    ensures r.outcome.CourseDeleted? ==>
      && r.store.users == s.users && r.store.members == s.members
      && exists k :: 0 <= k < |s.courses| && s.courses[k].id == courseId
           && r.store.courses == s.courses[..k] + s.courses[k + 1..]
  {
    match RoleOf(s, session)
    case None => Response(s, LoginRequired)
    case Some(role) =>
      if !IsAdmin(role) then Response(s, Forbidden)
      else match CourseById(s.courses, courseId)
        case None => Response(s, NotFound)
        case Some(k) => Response(s.(courses := Delete(s.courses, k)), CourseDeleted)
  }

  /** `admin`: administrators only, shows every course. */
  function AdminPage(s: Store, session: Option<int>): (r: Response)
    ensures r.store == s
    ensures RoleOf(s, session).None? <==> r.outcome.LoginRequired?
    ensures r.outcome.Forbidden? <==> RoleOf(s, session).Some? && !IsAdmin(RoleOf(s, session).value)
    ensures r.outcome.Rendered? ==> r.outcome.view == CourseListView(s.courses)
    ensures RoleOf(s, session).Some? && IsAdmin(RoleOf(s, session).value) ==> r.outcome == Rendered(CourseListView(s.courses))
  {
    match RoleOf(s, session)
    case None => Response(s, LoginRequired)
    case Some(role) =>
      if !IsAdmin(role) then Response(s, Forbidden)
      else Response(s, Rendered(CourseListView(s.courses)))
  }

  /** `permissions`: administrators only; looks a user up by the submitted username. */
  function Permissions(s: Store, session: Option<int>, req: Request<string>): (r: Response)
    ensures r.store == s
    ensures RoleOf(s, session).None? <==> r.outcome.LoginRequired?
    ensures r.outcome.Forbidden? <==> RoleOf(s, session).Some? && !IsAdmin(RoleOf(s, session).value)
    ensures r.outcome.UserFound? <==>
      && RoleOf(s, session).Some? && IsAdmin(RoleOf(s, session).value)
      && req.Post? && exists i :: 0 <= i < |s.users| && s.users[i].username == req.form
    ensures r.outcome.UserFound? ==>
      exists i :: 0 <= i < |s.users| && s.users[i].id == r.outcome.id && s.users[i].username == req.form
        && forall j :: 0 <= j < i ==> s.users[j].username != req.form
    ensures r.outcome.UnknownUsername? <==>
      && RoleOf(s, session).Some? && IsAdmin(RoleOf(s, session).value)
      && req.Post? && forall i :: 0 <= i < |s.users| ==> s.users[i].username != req.form
  {
    match RoleOf(s, session)
    case None => Response(s, LoginRequired)
    case Some(role) =>
      if !IsAdmin(role) then Response(s, Forbidden)
      else match req
        case Get => Response(s, Rendered(FormView))
        case Post(name) =>
          match First(s.users, (u: User) => u.username == name)
          case None => Response(s, UnknownUsername)
          case Some(i) => Response(s, UserFound(s.users[i].id))
  }

  /**
   `updatePermissions`: administrators only; an unknown user id fails when
   the page reads the missing user's picture; a submission writes the new
   type of that one user.
   */
  function UpdatePermissions(s: Store, session: Option<int>, userId: int, req: Request<string>): (r: Response)
    ensures RoleOf(s, session).None? <==> r.outcome.LoginRequired?
    ensures r.outcome.Forbidden? <==> RoleOf(s, session).Some? && !IsAdmin(RoleOf(s, session).value)
    ensures r.outcome.ServerError? <==>
      RoleOf(s, session).Some? && IsAdmin(RoleOf(s, session).value) && UserById(s.users, userId).None?
    ensures r.outcome.PermissionsUpdated? <==>
      RoleOf(s, session).Some? && IsAdmin(RoleOf(s, session).value) && UserById(s.users, userId).Some? && req.Post?
    ensures !r.outcome.PermissionsUpdated? ==> r.store == s
    ensures r.outcome.PermissionsUpdated? ==>
      var k := UserById(s.users, userId).value;
      && r.store.courses == s.courses && r.store.members == s.members
      && |r.store.users| == |s.users|
      && (forall j :: 0 <= j < |s.users| && j != k ==> r.store.users[j] == s.users[j])
      && r.store.users[k] == s.users[k].(role := req.form)
  {
    match RoleOf(s, session)
    case None => Response(s, LoginRequired)
    case Some(role) =>
      if !IsAdmin(role) then Response(s, Forbidden)
      else match UserById(s.users, userId)
        case None => Response(s, ServerError)
        case Some(k) =>
          match req
          case Get => Response(s, Rendered(PermissionView(s.users[k])))
          case Post(t) => Response(s.(users := s.users[k := s.users[k].(role := t)]), PermissionsUpdated)
  }

  /** On a POST by a logged-in user the course page is the toggle of that user's membership. */
  lemma CoursePageIsToggle(s: Store, session: Option<int>, courseId: int)
    requires CurrentUser(s, session).Some?
    ensures var id := s.users[CurrentUser(s, session).value].id;
      CoursePage(s, session, courseId, Post(())).store.members == Toggle(s.members, MemberKey, CourseMember(courseId, id))
  {
  }

  /**
   Subscribing never looks at the course table: a POST for a course id no
   course has still inserts a membership naming it.
   */
  lemma SubscribeIgnoresMissingCourse(s: Store, session: Option<int>, courseId: int)
    requires CurrentUser(s, session).Some?
    requires CourseMember(courseId, s.users[CurrentUser(s, session).value].id) !in s.members
    requires CourseById(s.courses, courseId).None?
    ensures var r := CoursePage(s, session, courseId, Post(()));
      && r.outcome == Subscribed
      && |r.store.members| == |s.members| + 1
      && forall k :: 0 <= k < |r.store.courses| ==> r.store.courses[k].id != r.store.members[|s.members|].courseId
  {
  }

  /**
   A second POST after subscribing unsubscribes, and leaves exactly the store
   the visitor started from.
   */
  lemma SecondPostUnsubscribes(s: Store, session: Option<int>, courseId: int)
    requires CurrentUser(s, session).Some?
    requires CourseMember(courseId, s.users[CurrentUser(s, session).value].id) !in s.members
    ensures var once := CoursePage(s, session, courseId, Post(()));
      && once.outcome == Subscribed
      && CoursePage(once.store, session, courseId, Post(())) == Response(s, Unsubscribed)
  {
    var id := s.users[CurrentUser(s, session).value].id;
    var m := CourseMember(courseId, id);
    var once := CoursePage(s, session, courseId, Post(()));
    assert !Enrolled(s.members, MemberKey, MemberKey(m));
    CoursePageIsToggle(s, session, courseId);
    assert CurrentUser(once.store, session) == CurrentUser(s, session);
    CoursePageIsToggle(once.store, session, courseId);
    ToggleTwiceRestores(s.members, MemberKey, m);
    assert once.store.members == s.members + [m];
    assert m in once.store.members by {
      assert once.store.members[|s.members|] == m;
    }
    var twice := CoursePage(once.store, session, courseId, Post(()));
    assert twice.store.members == s.members;
    assert twice.store == s;
  }

  /**
   Unsubscribing and subscribing again restores the same memberships, the
   re-inserted one now last.
   */
  lemma UnsubscribeThenSubscribe(s: Store, session: Option<int>, courseId: int)
    requires AtMostOncePerPair(s.members, MemberKey)
    requires CurrentUser(s, session).Some?
    requires CourseMember(courseId, s.users[CurrentUser(s, session).value].id) in s.members
    ensures var once := CoursePage(s, session, courseId, Post(()));
      && once.outcome == Unsubscribed
      && CoursePage(once.store, session, courseId, Post(())).outcome == Subscribed
      && multiset(CoursePage(once.store, session, courseId, Post(())).store.members) == multiset(s.members)
  {
    var id := s.users[CurrentUser(s, session).value].id;
    var m := CourseMember(courseId, id);
    var k :| 0 <= k < |s.members| && s.members[k] == m;
    assert Enrolled(s.members, MemberKey, MemberKey(m)) by {
      assert MemberKey(s.members[k]) == MemberKey(m);
    }
    forall j | 0 <= j < |s.members| && MemberKey(s.members[j]) == MemberKey(m)
      ensures s.members[j] == m
    {
    }
    var once := CoursePage(s, session, courseId, Post(()));
    CoursePageIsToggle(s, session, courseId);
    assert CurrentUser(once.store, session) == CurrentUser(s, session);
    CoursePageIsToggle(once.store, session, courseId);
    ToggleTwiceSameRows(s.members, MemberKey, m);
    var i := Lookup(s.members, MemberKey, MemberKey(m)).value;
    DeleteKeepsAtMostOnce(s.members, MemberKey, i);
    assert s.members[i] == m;
  }

  /**
   Deleting a course keeps every membership, so the memberships naming it
   now name a course the store no longer has.
   */
  lemma DeleteCourseLeavesOrphans(s: Store, session: Option<int>, courseId: int, i: nat)
    requires UniqueCourseIds(s.courses)
    requires RoleOf(s, session).Some? && IsAdmin(RoleOf(s, session).value)
    requires CourseById(s.courses, courseId).Some?
    requires i < |s.members| && s.members[i].courseId == courseId
    ensures var r := DeleteCourse(s, session, courseId);
      && r.outcome == CourseDeleted
      && r.store.members[i] == s.members[i]
      && forall k :: 0 <= k < |r.store.courses| ==> r.store.courses[k].id != r.store.members[i].courseId
  {
    var k := CourseById(s.courses, courseId).value;
    var courses := DeleteCourse(s, session, courseId).store.courses;
    assert courses == Delete(s.courses, k);
    forall j | 0 <= j < |courses|
      ensures courses[j].id != courseId
    {
      var j' := if j < k then j else j + 1;
      assert courses[j] == s.courses[j'] && j' != k;
    }
  }

  /**
   Removing the course with the largest id, when the id below it is taken
   (or it is the only course, with id 1), makes its id the next one handed out.
   */
  lemma RemovingLargestIdFreesIt(courses: seq<Course>, k: nat)
    requires k < |courses|
    requires forall j :: 0 <= j < |courses| && j != k ==> courses[j].id < courses[k].id
    requires |courses| == 1 ==> courses[k].id == 1
    requires |courses| > 1 ==> exists j :: 0 <= j < |courses| && courses[j].id == courses[k].id - 1
    ensures NextCourseId(Delete(courses, k)) == courses[k].id
  {
    var rest := Delete(courses, k);
    var id := courses[k].id;
    forall j | 0 <= j < |rest|
      ensures rest[j].id < id
    {
      var j' := if j < k then j else j + 1;
      assert rest[j] == courses[j'];
    }
    if |rest| > 0 {
      var j :| 0 <= j < |courses| && courses[j].id == id - 1;
      var j' := if j < k then j else j - 1;
      assert rest[j'] == courses[j];
    }
    NextKeyIs(rest, (c: Course) => c.id, id);
  }

  /** An administrator's deletion of an existing course removes the row that the lookup found. */
  lemma DeleteCourseRemovesRow(s: Store, session: Option<int>, courseId: int)
    requires RoleOf(s, session).Some? && IsAdmin(RoleOf(s, session).value)
    requires CourseById(s.courses, courseId).Some?
    ensures DeleteCourse(s, session, courseId) ==
      Response(s.(courses := Delete(s.courses, CourseById(s.courses, courseId).value)), CourseDeleted)
  {
  }

  /** A staff member's valid submission creates a course under the next free id, found by that id. */
  lemma NewCourseTakesNextId(s: Store, session: Option<int>, f: CourseForm)
    requires RoleOf(s, session).Some? && IsStaff(RoleOf(s, session).value)
    requires ValidateCourse(s.users, f)
    ensures var created := NewCourse(s, session, Post(f));
      && created.outcome == CourseCreated(NextCourseId(s.courses))
      && created.store.members == s.members
      && CourseById(created.store.courses, NextCourseId(s.courses)) == Some(|s.courses|)
  {
    var created := NewCourse(s, session, Post(f));
    var id := NextCourseId(s.courses);
    assert created.outcome == CourseCreated(id);
    assert created.store.courses[..|s.courses|] == s.courses;
    forall j | 0 <= j < |s.courses|
      ensures created.store.courses[j].id != id
    {
      assert created.store.courses[j] == s.courses[j];
    }
  }

  /**
   Course ids are not reserved: once the course with the largest id is
   deleted, the next course created gets that id again, and the memberships
   the deleted course left behind name the new course.
   */
  lemma DeletedIdIsReused(s: Store, session: Option<int>, courseId: int, f: CourseForm)
    requires UniqueCourseIds(s.courses)
    requires RoleOf(s, session).Some? && IsAdmin(RoleOf(s, session).value)
    requires CourseById(s.courses, courseId).Some?
    requires forall j :: 0 <= j < |s.courses| ==> s.courses[j].id <= courseId
    requires |s.courses| == 1 ==> courseId == 1
    requires |s.courses| > 1 ==> exists j :: 0 <= j < |s.courses| && s.courses[j].id == courseId - 1
    requires ValidateCourse(s.users, f)
    ensures var deleted := DeleteCourse(s, session, courseId).store;
      var created := NewCourse(deleted, session, Post(f));
      && created.outcome == CourseCreated(courseId)
      && created.store.members == s.members
      && CourseById(created.store.courses, courseId) == Some(|deleted.courses|)
  {
    var k := CourseById(s.courses, courseId).value;
    forall j | 0 <= j < |s.courses| && j != k
      ensures s.courses[j].id < courseId
    {
      if j < k {
        assert s.courses[j].id != s.courses[k].id;
      } else {
        assert s.courses[k].id != s.courses[j].id;
      }
    }
    RemovingLargestIdFreesIt(s.courses, k);
    DeleteCourseRemovesRow(s, session, courseId);
    var deleted := s.(courses := Delete(s.courses, k));
    assert RoleOf(deleted, session) == RoleOf(s, session);
    NewCourseTakesNextId(deleted, session, f);
  }
}
