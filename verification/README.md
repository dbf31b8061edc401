# Course enrollment and permissions, modelled in Dafny

This project models the request handlers of a small course-enrollment web
application, the `pgmles` package. Users register and edit their accounts.
Staff (users whose type is `admin` or `teacher`) create and edit courses.
Administrators delete courses and change other users' types. Any logged-in
user can subscribe to and unsubscribe from a course. The project also models
the older `flaskblog` variant of the same subscription page.

Without HTTP, sessions and templates, each handler is a pure function. It
takes the store, the session's user id and the request, and returns the new
store and the outcome the visitor sees:

- `orm.dfy` (`Orm`): the mapper's query primitives. Tables are sequences in
  primary-key order. `.first()` returns the first matching row. Deleting a
  row keeps the others in order. A new integer key is one more than the
  table's largest key, or 1 when the table is empty.
- `enrollment.dfy` (`Enrollment`): an enrollment table over any row type.
  It covers the pair lookup, the subscribe/unsubscribe toggle, the "at most
  one row per (user, course)" invariant and the per-user projection. The
  store does not enforce that invariant. Only the course handler maintains
  it.
- `models.dfy` (`Models`): `User`, `Course`, `CourseMember`, the column
  defaults, the session's current user, the teacher list, and `WellFormed`.
- `forms.dfy` (`Forms`): the validation of `pgmles/forms.py`, written as
  predicates over the submitted text and the store.
- `routes.dfy` (`Routes`): every `pgmles` handler, with its role gate.
- `invariants.dfy` (`Invariants`): each handler keeps `WellFormed`, so any
  run of requests does too.
- `blog.dfy` (`Blog`): the `flaskblog` variant, and a proof that both
  variants' course pages are the same toggle.

The code is modelled as written, including where it departs from the
obvious design:

- The subscribe and unsubscribe forms carry the same fields and no
  validators. Any POST therefore validates both, and the course page is a
  toggle. A second "subscribe" POST unsubscribes; it is not refused as
  "already enrolled" (`Routes.SecondPostUnsubscribes`).
- Subscribing does not check that the course exists. The membership is
  inserted before the course lookup runs.
- Deleting a course does not delete the course's memberships.
- The existence check and the insert or delete run in one sequential step.
  There is no transaction or concurrency in the model.
- A POST to the pgmles course page by an anonymous visitor, and any request
  to the flaskblog home or course pages by one, reads `current_user.id`.
  The anonymous user has no `id`, so the model answers `ServerError` and
  changes nothing.
- `updatePermissions` for an unknown user id reads `user.image_file` on
  `None`. The model answers `ServerError`, on GET as well as on POST.

Roles are kept as the strings of the `type` column. The handlers compare
them with `"admin"` and `"teacher"`, and new users default to `"client"`.
The permission form may write any string, so roles are not a closed set.

## Model

| member | source | states |
|---|---|---|
| `Orm.First` | pgmles/routes.py:171-172 | `.first()` returns the first row in table order that matches; it returns None exactly when no row matches |
| `Orm.Delete` | pgmles/routes.py:182 | `db.session.delete` removes exactly the given row: the rows before it keep their places, the rows after it move up by one, and the table loses that one row and nothing else (as a multiset) |
| `Orm.NextKey` | pgmles/models.py:14 | the key a row inserted without one receives (users and courses alike) is larger than every existing row's key and one more than some row's key; it is 1 for an empty table |
| `Orm.NextKeyIs` | pgmles/models.py:26 | when every key is below k and k - 1 is a key (or the table is empty and k is 1), the next key handed out is k |
| `Enrollment.Lookup` | pgmles/routes.py:171-172 | the subscription lookup finds a row exactly when the (user, course) pair is enrolled, and it finds the first such row |
| `Enrollment.Toggle` | pgmles/routes.py:174-185 | the page's two forms act as one command: it appends the row when the pair has none; otherwise it removes the first row for the pair and keeps every other row in order |
| `Enrollment.InsertKeepsAtMostOnce` | pgmles/routes.py:174-179 | inserting a row for a pair that has none keeps at most one row per pair and enrolls the pair |
| `Enrollment.DeleteKeepsAtMostOnce` | pgmles/routes.py:181-185 | deleting the found row keeps the invariant and un-enrolls that pair; every other pair's enrollment is unchanged |
| `Enrollment.ToggleKeepsAtMostOnce` | pgmles/routes.py:170-185 | the toggle preserves at most one row per (user, course) and flips that pair's enrollment |
| `Enrollment.ToggleTwiceRestores` | pgmles/routes.py:174-185 | subscribe followed by unsubscribe gives back the identical table |
| `Enrollment.ToggleTwiceSameRows` | pgmles/routes.py:174-185 | unsubscribe followed by subscribe gives back the same rows (as a multiset) |
| `Enrollment.CoursesOf` | pgmles/routes.py:19-20 | a course id is listed exactly when the user has a membership for it, and the list is no longer than the table |
| `Enrollment.CoursesOfDistinct` | pgmles/routes.py:19-20 | while memberships are at most one per pair, the subscription list never repeats a course |
| `Models.UserById` | pgmles/models.py:8-10 | the primary-key lookup finds a user with that id, or reports that no user has it |
| `Models.CourseById` | pgmles/routes.py:141 | `get_or_404` finds a course with that id, or reports that none exists (which becomes 404) |
| `Models.NewUser` | pgmles/models.py:13-18 | a user inserted without a type gets type "client", and every new user gets picture "default.jpg"; the given id, username and address are kept |
| `Models.CurrentUser` | pgmles/models.py:8-10 | the visitor is logged in exactly when the session holds an id that some user row has |
| `Models.TeacherChoices` | pgmles/routes.py:122 | the offered teacher list contains an id exactly when some user with that id has type "teacher" |
| `Models.SeededStore` | insert.py:3-4 | the store that the insert of the seeding script would give once committed is well-formed, and its one user is an administrator |
| `Forms.DataRequiredMeansStripped` | pgmles/forms.py:17 | `DataRequired()` accepts a text exactly when it is non-empty and still non-empty after `str.strip()`; this is the same as holding some character outside Python's white-space set |
| `Forms.LanguageFormNeedsText` | pgmles/forms.py:66-69 | the language form is accepted exactly when its name and its info are each non-empty and still non-empty after `str.strip()` |
| `Forms.ValidateRegistration` | pgmles/forms.py:12-32 | the form is accepted exactly when every field is filled in, the username has 2..20 characters, the address passes the email check, the confirmation equals the password, and no user already has the username or the address |
| `Forms.ValidateAccount` | pgmles/forms.py:43-63 | the form is accepted exactly when fields are filled in and in range, any picture has an allowed type, and each changed username or address is held by no user |
| `Forms.ValidateCourse` | pgmles/forms.py:71-81 | the form is accepted exactly when all fields are filled in, name and location have at most 100 characters, and the chosen id is a nonzero id of a teacher-type user |
| `Forms.RegistrationRejectsUsernameLength` | pgmles/forms.py:13-14 | a username shorter than 2 or longer than 20 characters is rejected |
| `Forms.RegistrationRejectsMismatch` | pgmles/forms.py:18-19 | a confirmation different from the password is rejected |
| `Forms.RegistrationRejectsTaken` | pgmles/forms.py:22-32 | a username or address that any user already has is rejected |
| `Forms.AccountOwnValuesSkipLookup` | pgmles/forms.py:51-63 | keeping one's own username and address passes even though one holds them; a changed value held by another user is rejected |
| `Forms.CourseFormBounds` | pgmles/forms.py:72-80 | an accepted course form has name and location of 1..100 characters and a teacher-type user as teacher |
| `Routes.Index` | pgmles/routes.py:13-23 | the index lists every course; its subscriptions are exactly the current user's membership course ids, or empty for an anonymous visitor; they are distinct in a well-formed store |
| `Routes.Register` | pgmles/routes.py:31-45 | a logged-in visitor is turned away; a user is created exactly on a valid POST; the new user is appended with a fresh id, type "client" and picture "default.jpg"; no existing user has its username or address; otherwise nothing changes |
| `Routes.Account` | pgmles/routes.py:85-103 | an anonymous visitor must log in; a valid POST rewrites only the current user's username, address and (when uploaded) picture, keeping id and type; otherwise nothing changes |
| `Routes.CourseOverview` | pgmles/routes.py:106-113 | an anonymous visitor must log in; 403 exactly for a logged-in user who is neither admin nor teacher; an admin or teacher gets the list of every course; the store is never changed |
| `Routes.NewCourse` | pgmles/routes.py:116-131 | 403 for non-staff; a course is created exactly for staff with a valid form; it is appended with a fresh id and a teacher-type user as teacher; otherwise nothing changes |
| `Routes.UpdateCourse` | pgmles/routes.py:134-161 | 403 for non-staff before the course lookup, then 404 for a missing course; a valid POST rewrites that one course's fields and keeps its id; otherwise nothing changes |
| `Routes.CoursePage` | pgmles/routes.py:164-188 | a POST adds the membership (current user, course) exactly when none exists; otherwise it deletes the first one found and leaves every other row in order; an anonymous POST fails and changes nothing; a GET for an existing course renders it with `show` true exactly when the visitor is anonymous or has no membership for it, plus the teacher list; users and courses never change |
| `Routes.DeleteCourse` | pgmles/routes.py:190-198 | 403 exactly for a logged-in non-admin; an admin deletes exactly the course row with that id; every membership stays, as do all users |
| `Routes.AdminPage` | pgmles/routes.py:200-206 | an anonymous visitor must log in; 403 exactly for a logged-in non-admin; an admin gets the list of every course; the store is never changed |
| `Routes.Permissions` | pgmles/routes.py:208-221 | admin only; an admin's search finds a user exactly when some user has the searched username, and then names the first such user; "unknown" is reported exactly when no user has it; the store is never changed |
| `Routes.UpdatePermissions` | pgmles/routes.py:223-239 | admin only; an unknown user id fails; a POST changes only that user's type; every other user, course and membership is unchanged |
| `Routes.CoursePageIsToggle` | pgmles/routes.py:174-185 | on a logged-in POST, the course page's effect on memberships is exactly the toggle of (current user, course) |
| `Routes.SubscribeIgnoresMissingCourse` | pgmles/routes.py:174-187 | a POST for a course id that no course has still inserts a membership naming it |
| `Routes.SecondPostUnsubscribes` | pgmles/routes.py:166-185 | after subscribing, a second POST unsubscribes and restores the original store exactly |
| `Routes.UnsubscribeThenSubscribe` | pgmles/routes.py:174-185 | unsubscribing and then subscribing again restores the same memberships |
| `Routes.DeleteCourseLeavesOrphans` | pgmles/routes.py:195-197 | after deleting a course, its memberships remain and name a course the store no longer has, until a new course takes the id again (`Routes.DeletedIdIsReused`) |
| `Routes.RemovingLargestIdFreesIt` | pgmles/models.py:26 | removing the course with the largest id, when the id below it is taken (or it was the only course, with id 1), makes its id the next one handed out |
| `Routes.NewCourseTakesNextId` | pgmles/routes.py:123-128 | a staff member's valid submission creates the course under the next free id, after every existing course, and leaves memberships unchanged |
| `Routes.DeletedIdIsReused` | pgmles/routes.py:195-197 | after the course with the largest id is deleted, the next course created gets the same id, so the memberships the deleted course left behind name the new course |
| `Invariants.RegisterKeepsWellFormed` | pgmles/routes.py:36-42 | registration keeps ids, usernames and addresses unique and every other invariant |
| `Invariants.AccountKeepsWellFormed` | pgmles/routes.py:89-95 | an account update keeps usernames and addresses unique, including when a user keeps their own |
| `Invariants.NewCourseKeepsWellFormed` | pgmles/routes.py:121-128 | a created course has a unique id and a teacher that exists |
| `Invariants.UpdateCourseKeepsWellFormed` | pgmles/routes.py:139-150 | an updated course keeps its id and has a teacher that exists |
| `Invariants.CoursePageKeepsWellFormed` | pgmles/routes.py:170-185 | from a well-formed store, the course page keeps every invariant, at most one membership per (user, course) included |
| `Invariants.DeleteCourseKeepsWellFormed` | pgmles/routes.py:195-197 | deleting a course keeps course ids unique and the remaining courses' teachers existing |
| `Invariants.UpdatePermissionsKeepsWellFormed` | pgmles/routes.py:232-234 | changing a user's type keeps every invariant |
| `Invariants.StepKeepsWellFormed` | pgmles/routes.py:13-239 | every handler keeps a well-formed store well-formed |
| `Invariants.FoldKeepsWellFormed` | pgmles/routes.py:13-239 | handling requests one after another, with a handler step that keeps the store well-formed, keeps it well-formed after any number of requests |
| `Invariants.RunKeepsWellFormed` | pgmles/models.py:13-42 | any sequence of requests keeps ids, usernames and addresses unique, keeps every course's teacher_id naming a user, and keeps memberships at most one per pair |
| `Invariants.SeededRunsStayUnique` | insert.py:3-4 | from the store the committed seed insert would give, every run keeps usernames, addresses and (user, course) memberships unique |
| `Blog.LanguageById` | flaskblog/routes.py:117 | `get_or_404` finds a language with that id, or reports that none exists (which becomes 404) |
| `Blog.Home` | flaskblog/routes.py:11-20 | the home page's subscriptions are exactly the language ids of the current user's rows; an anonymous visitor fails; nothing changes |
| `Blog.CoursePage` | flaskblog/routes.py:129-149 | a POST inserts (user, language, teacher 1, "hier") exactly when the user has no row for the language; otherwise it deletes the first row found; a GET for an existing language renders it with `show` true exactly when the user has no row for it; an anonymous visitor fails on every request |
| `Blog.AdminPage` | flaskblog/routes.py:109-112 | every visitor gets the language list; the store is unchanged |
| `Blog.UpdateLanguage` | flaskblog/routes.py:114-127 | 404 exactly for a missing language; a valid POST changes only that language's name and info; subscriptions never change |
| `Blog.AdminPagesUnguarded` | flaskblog/routes.py:109-127 | an anonymous visitor gets the same admin page and the same language update as anyone else |
| `Blog.CoursePageIsToggle` | flaskblog/routes.py:133-147 | on a POST, the flaskblog course page's effect on `Classes` is the same toggle as in pgmles |
| `Blog.BothTogglesKeepAtMostOnce` | flaskblog/routes.py:133-147 | both variants' course pages keep at most one enrollment row per (user, course) |

## Left out

- Routing, redirect targets, `flash` messages, templates, and `request.args`/`next`: I/O adapters. Each redirect becomes an outcome named after what was written.
- Prefilling forms on GET in `account` and `update_course`: it changes nothing and is shown only as `FormView`.
- `login`/`logout` and password hashing: library calls. `register` stores a password hash, but `User` has no password field because nothing in the model reads it.
- `save_picture`: it uses random names, the filesystem and image resizing. The name it returns is the `pictureName` parameter of `Routes.Account`.
- `Routes.Account`: `save_picture` is taken to succeed. A file with an allowed extension that the image library cannot open raises an error, and the request ends with nothing changed; the model answers `AccountUpdated` there.
- The `Email()` and `FileAllowed(['jpg', 'png'])` validators: library predicates, passed in as the functions `isEmail` and `fileAllowed`.
- CSRF tokens: a POST is taken to carry a valid token, so `validate_on_submit` means "the request is a POST and the fields validate".
- `PermissionForm` and `SearchForm` are imported but not defined in pgmles/forms.py. A POST to `permissions` carries a username. A POST to `updatePermissions` carries any type string. Both are taken as valid.
- `coerce=int` on the teacher choice: Python's `int()` parsing is not modelled. The submitted choice arrives as `Option<int>`, with None when parsing failed.
- `DataRequired` uses the white-space set of Python's `str.strip()` by code point, and `Length` counts code points. Unicode normalisation does not arise.
- The `id` column of `CourseMember`: no handler reads it. The rows are modelled as (course, user) pairs in table order.
- Key allocation: new ids follow SQLite's rule for an integer primary key without AUTOINCREMENT (one more than the largest key). The database configuration is not part of this model. A consequence is that a deleted course's id can be handed out again (`Routes.DeletedIdIsReused`).
- `Routes.CoursePage`: the course id from the URL (pgmles/routes.py:164) is taken to fit SQLite's 64-bit signed INTEGER. The URL converter sets no upper bound, and a larger id makes the database query raise, so the request ends as a server error with nothing changed. The model has unbounded ids and answers as for any other id.
- `Routes.UpdateCourse`: the course id from the URL (pgmles/routes.py:134) is taken to fit SQLite's 64-bit signed INTEGER. The URL converter sets no upper bound, and a larger id makes the database query raise, so the request ends as a server error with nothing changed. The model has unbounded ids and answers as for any other id.
- `Routes.DeleteCourse`: the course id from the URL (pgmles/routes.py:190) is taken to fit SQLite's 64-bit signed INTEGER. The URL converter sets no upper bound, and a larger id makes the database query raise, so the request ends as a server error with nothing changed. The model has unbounded ids and answers as for any other id.
- `Routes.UpdatePermissions`: the user id from the URL (pgmles/routes.py:223) is taken to fit SQLite's 64-bit signed INTEGER. The URL converter sets no upper bound, and a larger id makes the database query raise, so the request ends as a server error with nothing changed. The model has unbounded ids and answers as for any other id.
- `Blog.CoursePage`: the language id from the URL (flaskblog/routes.py:129) is taken to fit SQLite's 64-bit signed INTEGER. The URL converter sets no upper bound, and a larger id makes the database query raise, so the request ends as a server error with nothing changed. The model has unbounded ids and answers as for any other id.
- `Blog.UpdateLanguage`: the language id from the URL (flaskblog/routes.py:114) is taken to fit SQLite's 64-bit signed INTEGER. The URL converter sets no upper bound, and a larger id makes the database query raise, so the request ends as a server error with nothing changed. The model has unbounded ids and answers as for any other id.
- Foreign keys: the `ForeignKey` columns at pgmles/models.py:29 and pgmles/models.py:41-42 are taken as not enforced, which is SQLite's default. `Routes.SubscribeIgnoresMissingCourse`, `Routes.DeleteCourseLeavesOrphans` and the "every membership stays" clause of `Routes.DeleteCourse` hold only under that assumption. With enforcement, those commits would raise an error instead.
- `Models.SeededStore`: the seeding script insert.py adds the administrator but never calls `db.session.commit()`, so as written it stores nothing. The model treats the insert as committed.
- `Course.weekday` is an Integer column, but the handlers write the submitted text. The model keeps the text.
- Column width limits, such as `String(6)` for a type that can be "teacher": the code does not keep them, so they are not invariants.
- pgmles/coursecalendar.py and pgmles/flaskcalendar.py: random demo data built from the current date.
- `about`, and the flaskblog routes `register`, `login`, `logout`, `account`: the same as their pgmles counterparts or pure rendering. The flaskblog `new_post`, `update_post`, `delete_post` and `user_posts` are left out too, because they use an undefined `post`.
- flaskblog/models.py and flaskblog/forms.py are not part of this model. Its `LanguageForm` is taken to be the one in pgmles/forms.py:66-69, and its `SubscribeForm` and `UnsubscribeForm` the ones in pgmles/forms.py:84-91: a hidden field and a submit button, with no validators, so any POST validates both and `Blog.CoursePage` is a toggle. Its user table is reduced to the session's user id.
- Transactions and concurrent requests: the model is sequential.
