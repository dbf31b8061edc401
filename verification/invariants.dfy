/**
 Every pgmles handler keeps a well-formed store well-formed, so any sequence
 of requests starting from the seeded store keeps usernames and addresses
 unique, course teachers existing and memberships at most one per
 (user, course).
 */
module Invariants {
  import opened Orm
  import opened Enrollment
  import opened Models
  import opened Forms
  import opened Routes

  /** Rewriting users without touching their ids keeps every course teacher existing. */
  lemma SameIdsKeepTeachers(s: Store, users: seq<User>)
    requires TeachersExist(s)
    requires |users| == |s.users|
    requires forall i :: 0 <= i < |users| ==> users[i].id == s.users[i].id
    ensures TeachersExist(s.(users := users))
  {
    forall k | 0 <= k < |s.courses|
      ensures HasUser(users, s.courses[k].teacherId)
    {
      var i :| 0 <= i < |s.users| && s.users[i].id == s.courses[k].teacherId;
      assert users[i].id == s.courses[k].teacherId;
    }
  }

  lemma RegisterKeepsWellFormed(s: Store, session: Option<int>, req: Request<RegistrationForm>, isEmail: string -> bool)
    requires WellFormed(s)
    ensures WellFormed(Register(s, session, req, isEmail).store)
  {
    var r := Register(s, session, req, isEmail);
    if r.outcome.Registered? {
      var users := r.store.users;
      var n := |s.users|;
      assert forall i :: 0 <= i < n ==> users[i] == s.users[i] by {
        forall i | 0 <= i < n
          ensures users[i] == s.users[i]
        {
          assert users[..n][i] == users[i];
        }
      }
      forall k | 0 <= k < |s.courses|
        ensures HasUser(users, s.courses[k].teacherId)
      {
        var i :| 0 <= i < n && s.users[i].id == s.courses[k].teacherId;
        assert users[i].id == s.courses[k].teacherId;
      }
    }
  }

  lemma AccountKeepsWellFormed(
    s: Store, session: Option<int>, req: Request<AccountForm>,
    isEmail: string -> bool, fileAllowed: string -> bool, pictureName: string)
    requires WellFormed(s)
    ensures WellFormed(Account(s, session, req, isEmail, fileAllowed, pictureName).store)
  {
    var r := Account(s, session, req, isEmail, fileAllowed, pictureName);
    if r.outcome.AccountUpdated? {
      var me := CurrentUser(s, session).value;
      var users := r.store.users;
      var f := req.form;
      assert f.username == s.users[me].username || forall i :: 0 <= i < |s.users| ==> s.users[i].username != f.username;
      assert f.email == s.users[me].email || forall i :: 0 <= i < |s.users| ==> s.users[i].email != f.email;
      forall i, j | 0 <= i < j < |users|
        ensures users[i].username != users[j].username && users[i].email != users[j].email
      {
        if i == me {
          assert users[j] == s.users[j];
        } else if j == me {
          assert users[i] == s.users[i];
        } else {
          assert users[i] == s.users[i] && users[j] == s.users[j];
        }
      }
      SameIdsKeepTeachers(s, users);
    }
  }

  lemma NewCourseKeepsWellFormed(s: Store, session: Option<int>, req: Request<CourseForm>)
    requires WellFormed(s)
    ensures WellFormed(NewCourse(s, session, req).store)
  {
    var r := NewCourse(s, session, req);
    if r.outcome.CourseCreated? {
      var courses := r.store.courses;
      var n := |s.courses|;
      assert forall k :: 0 <= k < n ==> courses[k] == s.courses[k] by {
        forall k | 0 <= k < n
          ensures courses[k] == s.courses[k]
        {
          assert courses[..n][k] == courses[k];
        }
      }
      assert HasUser(s.users, courses[n].teacherId);
    }
  }

  lemma UpdateCourseKeepsWellFormed(s: Store, session: Option<int>, courseId: int, req: Request<CourseForm>)
    requires WellFormed(s)
    ensures WellFormed(UpdateCourse(s, session, courseId, req).store)
  {
    var r := UpdateCourse(s, session, courseId, req);
    if r.outcome.CourseUpdated? {
      var k := CourseById(s.courses, courseId).value;
      assert HasUser(s.users, r.store.courses[k].teacherId);
      forall i, j | 0 <= i < j < |r.store.courses|
        ensures r.store.courses[i].id != r.store.courses[j].id
      {
        assert r.store.courses[i].id == s.courses[i].id;
        assert r.store.courses[j].id == s.courses[j].id;
      }
    }
  }

  lemma CoursePageKeepsWellFormed(s: Store, session: Option<int>, courseId: int, req: Request<()>)
    requires WellFormed(s)
    ensures WellFormed(CoursePage(s, session, courseId, req).store)
  {
    if req.Post? && CurrentUser(s, session).Some? {
      var id := s.users[CurrentUser(s, session).value].id;
      CoursePageIsToggle(s, session, courseId);
      ToggleKeepsAtMostOnce(s.members, MemberKey, CourseMember(courseId, id));
    }
  }

  lemma DeleteCourseKeepsWellFormed(s: Store, session: Option<int>, courseId: int)
    requires WellFormed(s)
    ensures WellFormed(DeleteCourse(s, session, courseId).store)
  {
    var r := DeleteCourse(s, session, courseId);
    if r.outcome.CourseDeleted? {
      var k := CourseById(s.courses, courseId).value;
      var courses := Delete(s.courses, k);
      assert r.store.courses == courses;
      forall a, b | 0 <= a < b < |courses|
        ensures courses[a].id != courses[b].id
      {
        var a' := if a < k then a else a + 1;
        var b' := if b < k then b else b + 1;
        assert courses[a] == s.courses[a'] && courses[b] == s.courses[b'];
      }
      forall j | 0 <= j < |courses|
        ensures HasUser(s.users, courses[j].teacherId)
      {
        var j' := if j < k then j else j + 1;
        assert courses[j] == s.courses[j'];
      }
    }
  }

  lemma UpdatePermissionsKeepsWellFormed(s: Store, session: Option<int>, userId: int, req: Request<string>)
    requires WellFormed(s)
    ensures WellFormed(UpdatePermissions(s, session, userId, req).store)
  {
    var r := UpdatePermissions(s, session, userId, req);
    if r.outcome.PermissionsUpdated? {
      var k := UserById(s.users, userId).value;
      var users := r.store.users;
      forall i, j | 0 <= i < j < |users|
        ensures users[i].id != users[j].id && users[i].username != users[j].username && users[i].email != users[j].email
      {
        if i == k {
          assert users[j] == s.users[j];
        } else if j == k {
          assert users[i] == s.users[i];
        } else {
          assert users[i] == s.users[i] && users[j] == s.users[j];
        }
      }
      SameIdsKeepTeachers(s, users);
    }
  }

  /** The library checks the handlers depend on. */
  datatype Checks = Checks(isEmail: string -> bool, fileAllowed: string -> bool)

  /** One request to one of the application's handlers. */
  datatype Call =
    | IndexCall(session: Option<int>)
    | RegisterCall(session: Option<int>, registration: Request<RegistrationForm>)
    | AccountCall(session: Option<int>, account: Request<AccountForm>, pictureName: string)
    | CourseOverviewCall(session: Option<int>)
    | NewCourseCall(session: Option<int>, course: Request<CourseForm>)
    | UpdateCourseCall(session: Option<int>, courseId: int, course: Request<CourseForm>)
    | CoursePageCall(session: Option<int>, courseId: int, button: Request<()>)
    | DeleteCourseCall(session: Option<int>, courseId: int)
    | AdminCall(session: Option<int>)
    | PermissionsCall(session: Option<int>, search: Request<string>)
    | UpdatePermissionsCall(session: Option<int>, userId: int, permission: Request<string>)

  function Step(s: Store, c: Call, checks: Checks): Response {
    match c
    case IndexCall(session) => Index(s, session)
    case RegisterCall(session, req) => Register(s, session, req, checks.isEmail)
    case AccountCall(session, req, name) => Account(s, session, req, checks.isEmail, checks.fileAllowed, name)
    case CourseOverviewCall(session) => CourseOverview(s, session)
    case NewCourseCall(session, req) => NewCourse(s, session, req)
    case UpdateCourseCall(session, id, req) => UpdateCourse(s, session, id, req)
    case CoursePageCall(session, id, req) => CoursePage(s, session, id, req)
    case DeleteCourseCall(session, id) => DeleteCourse(s, session, id)
    case AdminCall(session) => AdminPage(s, session)
    case PermissionsCall(session, req) => Permissions(s, session, req)
    case UpdatePermissionsCall(session, id, req) => UpdatePermissions(s, session, id, req)
  }

  /** The store after applying `step` to each call in turn. */
  function Fold<C>(s: Store, calls: seq<C>, step: (Store, C) -> Store): Store
    decreases |calls|
  {
    if |calls| == 0 then s else Fold(step(s, calls[0]), calls[1..], step)
  }

  /** The store after handling `calls` one after the other. */
  function Run(s: Store, calls: seq<Call>, checks: Checks): Store {
    Fold(s, calls, (t: Store, c: Call) => Step(t, c, checks).store)
  }

  lemma StepKeepsWellFormed(s: Store, c: Call, checks: Checks)
    requires WellFormed(s)
    ensures WellFormed(Step(s, c, checks).store)
  {
    match c
    case IndexCall(session) =>
    case RegisterCall(session, req) => RegisterKeepsWellFormed(s, session, req, checks.isEmail);
    case AccountCall(session, req, name) => AccountKeepsWellFormed(s, session, req, checks.isEmail, checks.fileAllowed, name);
    case CourseOverviewCall(session) =>
    case NewCourseCall(session, req) => NewCourseKeepsWellFormed(s, session, req);
    case UpdateCourseCall(session, id, req) => UpdateCourseKeepsWellFormed(s, session, id, req);
    case CoursePageCall(session, id, req) => CoursePageKeepsWellFormed(s, session, id, req);
    case DeleteCourseCall(session, id) => DeleteCourseKeepsWellFormed(s, session, id);
    case AdminCall(session) =>
    case PermissionsCall(session, req) =>
    case UpdatePermissionsCall(session, id, req) => UpdatePermissionsKeepsWellFormed(s, session, id, req);
  }

  /** Applying, call after call, a step that keeps the store well-formed keeps it well-formed. */
  lemma {:induction false} FoldKeepsWellFormed<C>(s: Store, calls: seq<C>, step: (Store, C) -> Store)
    requires WellFormed(s)
    requires forall t: Store, c: C :: WellFormed(t) ==> WellFormed(step(t, c))
    ensures WellFormed(Fold(s, calls, step))
    decreases |calls|
  {
    if |calls| > 0 {
      FoldKeepsWellFormed(step(s, calls[0]), calls[1..], step);
    }
  }

  /** Any run of requests keeps a well-formed store well-formed. */
  lemma RunKeepsWellFormed(s: Store, calls: seq<Call>, checks: Checks)
    requires WellFormed(s)
    ensures WellFormed(Run(s, calls, checks))
  {
    var step := (t: Store, c: Call) => Step(t, c, checks).store;
    forall t: Store, c: Call | WellFormed(t)
      ensures WellFormed(step(t, c))
    {
      StepKeepsWellFormed(t, c, checks);
    }
    FoldKeepsWellFormed(s, calls, step);
  }

  /** From the seeded store, every run keeps usernames and addresses unique and memberships at most one per pair. */
  lemma SeededRunsStayUnique(calls: seq<Call>, checks: Checks)
    ensures var s := Run(SeededStore(), calls, checks);
      && UniqueUsernames(s.users) && UniqueEmails(s.users)
      && AtMostOncePerPair(s.members, MemberKey)
  {
    RunKeepsWellFormed(SeededStore(), calls, checks);
  }
}
