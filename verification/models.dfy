/**
 The pgmles store: the user, course and course-member tables, the column
 defaults of a new user, the session's current user, and the integrity
 properties a well-formed store keeps.
 */
module Models {
  import opened Orm
  import opened Enrollment

  /** The values of the `type` column the handlers test or write. */
  const ClientRole := "client"
  const TeacherRole := "teacher"
  const AdminRole := "admin"

  /** Picture a user has until they upload one. */
  const DefaultImage := "default.jpg"

  /** A row of `user`; `role` is the `type` column. */
  datatype User = User(id: int, role: string, username: string, email: string, imageFile: string)

  /** A row of `course`. The handlers write the weekday as the submitted text. */
  datatype Course = Course(
    id: int, name: string, description: string, teacherId: int,
    weekday: string, start: string, end: string, location: string)

  /** A row of `course_member`: user `userId` is subscribed to course `courseId`. */
  datatype CourseMember = CourseMember(courseId: int, userId: int)

  function MemberKey(m: CourseMember): Pair {
    Pair(m.userId, m.courseId)
  }

  datatype Store = Store(users: seq<User>, courses: seq<Course>, members: seq<CourseMember>)

  /** A user inserted with the given fields; an absent type takes the column default. */
  function NewUser(id: int, role: Option<string>, username: string, email: string): (u: User)
    ensures u.id == id && u.username == username && u.email == email
    ensures role.None? ==> u.role == ClientRole
    ensures role.Some? ==> u.role == role.value
    ensures u.imageFile == DefaultImage
  {
    User(id, if role.Some? then role.value else ClientRole, username, email, DefaultImage)
  }

  /** `User.query.get(id)`. */
  function UserById(users: seq<User>, id: int): (r: Option<nat>)
    ensures r.Some? ==> r.value < |users| && users[r.value].id == id
    ensures r.None? <==> forall i :: 0 <= i < |users| ==> users[i].id != id
  {
    First(users, (u: User) => u.id == id)
  }

  /** `Course.query.get(id)`; `get_or_404` answers 404 on None. */
  function CourseById(courses: seq<Course>, id: int): (r: Option<nat>)
    ensures r.Some? ==> r.value < |courses| && courses[r.value].id == id
    ensures r.None? <==> forall i :: 0 <= i < |courses| ==> courses[i].id != id
  {
    First(courses, (c: Course) => c.id == id)
  }

  /**
   The logged-in user: the session holds a user id, which the login manager's
   loader turns back into a row; a missing row makes the visitor anonymous.
   */
  function CurrentUser(s: Store, session: Option<int>): (r: Option<nat>)
    ensures r.Some? ==> session.Some? && r.value < |s.users| && s.users[r.value].id == session.value
    ensures r.None? <==> session.None? || forall i :: 0 <= i < |s.users| ==> s.users[i].id != session.value
  {
    match session
    case None => None
    case Some(id) => UserById(s.users, id)
  }

  /** The id the next registered user receives. */
  function NextUserId(users: seq<User>): int {
    NextKey(users, (u: User) => u.id)
  }

  /** The id the next created course receives. */
  function NextCourseId(courses: seq<Course>): int {
    NextKey(courses, (c: Course) => c.id)
  }

  /** May see, create and edit courses. */
  predicate IsStaff(role: string) {
    role == AdminRole || role == TeacherRole
  }

  /** May delete courses and change permissions. */
  predicate IsAdmin(role: string) {
    role == AdminRole
  }

  /** One entry of the teacher list the pages and the course form offer. */
  datatype TeacherChoice = TeacherChoice(id: int, username: string)

  /** Some user with this id has the teacher type. */
  predicate IsTeacher(users: seq<User>, id: int) {
    exists i :: 0 <= i < |users| && users[i].id == id && users[i].role == TeacherRole
  }

  /** The list offers this id. */
  predicate Offers(choices: seq<TeacherChoice>, id: int) {
    exists k :: 0 <= k < |choices| && choices[k].id == id
  }

  /** `[(t.id, t.username) for t in User.query.filter_by(type='teacher')]`. */
  function TeacherChoices(users: seq<User>): (r: seq<TeacherChoice>)
    ensures |r| <= |users|
    ensures forall id :: Offers(r, id) <==> IsTeacher(users, id)
  {
    if |users| == 0 then []
    else
      var rest := TeacherChoices(users[1..]);
      var head := if users[0].role == TeacherRole then [TeacherChoice(users[0].id, users[0].username)] else [];
      assert forall id :: IsTeacher(users, id) <==> IsTeacher(users[1..], id) || (users[0].id == id && users[0].role == TeacherRole) by {
        forall id | IsTeacher(users, id) && !(users[0].id == id && users[0].role == TeacherRole)
          ensures IsTeacher(users[1..], id)
        {
          var i :| 0 <= i < |users| && users[i].id == id && users[i].role == TeacherRole;
          assert users[1..][i - 1] == users[i];
        }
        forall id | IsTeacher(users[1..], id)
          ensures IsTeacher(users, id)
        {
          var i :| 0 <= i < |users[1..]| && users[1..][i].id == id && users[1..][i].role == TeacherRole;
          assert users[i + 1] == users[1..][i];
        }
      }
      assert forall id :: Offers(head + rest, id) <==> Offers(head, id) || Offers(rest, id) by {
        forall id | Offers(head + rest, id)
          ensures Offers(head, id) || Offers(rest, id)
        {
          var k :| 0 <= k < |head + rest| && (head + rest)[k].id == id;
          if k >= |head| {
            assert rest[k - |head|] == (head + rest)[k];
          }
        }
        forall id | Offers(rest, id)
          ensures Offers(head + rest, id)
        {
          var k :| 0 <= k < |rest| && rest[k].id == id;
          assert (head + rest)[k + |head|] == rest[k];
        }
        forall id | Offers(head, id)
          ensures Offers(head + rest, id)
        {
          assert (head + rest)[0] == head[0];
        }
      }
      assert forall id :: Offers(head, id) <==> users[0].id == id && users[0].role == TeacherRole by {
        if users[0].role == TeacherRole {
          assert head[0].id == users[0].id;
        }
      }
      head + rest
  }

  /** Some user has this id. */
  predicate HasUser(users: seq<User>, id: int) {
    exists i :: 0 <= i < |users| && users[i].id == id
  }

  /** Primary keys are unique. */
  predicate UniqueUserIds(users: seq<User>) {
    forall i, j :: 0 <= i < j < |users| ==> users[i].id != users[j].id
  }

  predicate UniqueCourseIds(courses: seq<Course>) {
    forall i, j :: 0 <= i < j < |courses| ==> courses[i].id != courses[j].id
  }

  /** The `unique=True` columns of `user`. */
  predicate UniqueUsernames(users: seq<User>) {
    forall i, j :: 0 <= i < j < |users| ==> users[i].username != users[j].username
  }

  predicate UniqueEmails(users: seq<User>) {
    forall i, j :: 0 <= i < j < |users| ==> users[i].email != users[j].email
  }

  /** Every course's `teacher_id` names an existing user. */
  predicate TeachersExist(s: Store) {
    forall k :: 0 <= k < |s.courses| ==> HasUser(s.users, s.courses[k].teacherId)
  }

  /**
   The integrity a store keeps under every handler: unique keys, unique
   usernames and emails, course teachers that exist, and at most one
   membership per (user, course).
   */
  predicate WellFormed(s: Store) {
    && UniqueUserIds(s.users)
    && UniqueCourseIds(s.courses)
    && UniqueUsernames(s.users)
    && UniqueEmails(s.users)
    && TeachersExist(s)
    && AtMostOncePerPair(s.members, MemberKey)
  }

  /**
   The store the seeding script's one insert would give once committed: one
   administrator and nothing else.
   */
  function SeededStore(): (s: Store)
    ensures WellFormed(s)
    ensures |s.users| == 1 && IsAdmin(s.users[0].role)
  {
    Store([NewUser(1, Some(AdminRole), "admin", "admin@email.com")], [], [])
  }
}
