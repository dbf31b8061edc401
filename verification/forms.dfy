/**
 The validation the form classes perform, as predicates over the submitted
 text and the store. A form validates exactly when every field validator and
 every `validate_<field>` method accepts; which message is shown first does
 not matter to the handlers, so only acceptance is modelled.
 The library's `Email()` and `FileAllowed(...)` checks are passed in as
 functions, since their definitions are not part of this model.
 */
module Forms {
  import opened Orm
  import opened Models

  /** The characters Python's `str.strip()` removes, by code point. */
  predicate IsSpace(c: char) {
    var n := c as int;
    || 9 <= n <= 13 || 28 <= n <= 32 || n == 0x85 || n == 0xA0 || n == 0x1680
    || 0x2000 <= n <= 0x200A || n == 0x2028 || n == 0x2029 || n == 0x202F
    || n == 0x205F || n == 0x3000
  }

  /** `str.lstrip()`: the text without its leading white space. */
  function StripLeft(text: string): (r: string)
    ensures |r| <= |text| && r == text[|text| - |r|..]
    ensures forall i :: 0 <= i < |text| - |r| ==> IsSpace(text[i])
    ensures |r| > 0 ==> !IsSpace(r[0])
  {
    if |text| > 0 && IsSpace(text[0]) then StripLeft(text[1..]) else text
  }

  /** `str.rstrip()`: the text without its trailing white space. */
  function StripRight(text: string): (r: string)
    ensures |r| <= |text| && r == text[..|r|]
    ensures forall i :: |r| <= i < |text| ==> IsSpace(text[i])
    ensures |r| > 0 ==> !IsSpace(r[|r| - 1])
  {
    if |text| > 0 && IsSpace(text[|text| - 1]) then StripRight(text[..|text| - 1]) else text
  }

  /** `str.strip()`. */
  function Strip(text: string): string {
    StripRight(StripLeft(text))
  }

  /** `DataRequired()` on a text field: something other than white space was entered. */
  predicate DataRequired(text: string) {
    exists i :: 0 <= i < |text| && !IsSpace(text[i])
  }

  /**
   The library's own test: the submitted data is non-empty and still
   non-empty once stripped. It accepts exactly what `DataRequired` accepts.
   */
  lemma DataRequiredMeansStripped(text: string)
    ensures DataRequired(text) <==> |text| > 0 && |Strip(text)| > 0
  {
    if DataRequired(text) {
      var i :| 0 <= i < |text| && !IsSpace(text[i]);
      StripKeepsNonSpace(text, i);
    } else {
      StripOfSpaceIsEmpty(text);
    }
  }

  lemma StripKeepsNonSpace(text: string, i: nat)
    requires i < |text| && !IsSpace(text[i])
    ensures |Strip(text)| > 0
  {
    var l := StripLeft(text);
    assert |text| - |l| <= i;
    assert |l| > 0;
    assert !IsSpace(l[0]);
  }

  lemma StripOfSpaceIsEmpty(text: string)
    requires forall i :: 0 <= i < |text| ==> IsSpace(text[i])
    ensures |Strip(text)| == 0
  {
    assert StripLeft(text) == [];
  }

  /** `Length(min, max)` on the raw text. */
  predicate Length(text: string, min: nat, max: nat) {
    min <= |text| <= max
  }

  datatype RegistrationForm = RegistrationForm(
    username: string, email: string, password: string, confirmPassword: string)

  /** The lookup of `validate_username`: some user already has the name. */
  predicate UsernameTaken(users: seq<User>, name: string) {
    First(users, (u: User) => u.username == name).Some?
  }

  /** The lookup of `validate_email`: some user already has the address. */
  predicate EmailTaken(users: seq<User>, email: string) {
    First(users, (u: User) => u.email == email).Some?
  }

  /** `RegistrationForm.validate()`. */
  function ValidateRegistration(users: seq<User>, f: RegistrationForm, isEmail: string -> bool): (ok: bool)
    ensures ok <==>
      && DataRequired(f.username) && 2 <= |f.username| <= 20
      && DataRequired(f.email) && isEmail(f.email)
      && DataRequired(f.password)
      && DataRequired(f.confirmPassword) && f.confirmPassword == f.password
      && (forall i :: 0 <= i < |users| ==> users[i].username != f.username)
      && (forall i :: 0 <= i < |users| ==> users[i].email != f.email)
  {
    && DataRequired(f.username) && Length(f.username, 2, 20)
    && DataRequired(f.email) && isEmail(f.email)
    && DataRequired(f.password)
    && DataRequired(f.confirmPassword) && f.confirmPassword == f.password
    && !UsernameTaken(users, f.username)
    && !EmailTaken(users, f.email)
  }

  /** The account form; `picture` is the uploaded file's name, if one was chosen. */
  datatype AccountForm = AccountForm(username: string, email: string, picture: Option<string>)

  /**
   `UpdateAccountForm.validate()` for the logged-in user `users[me]`: a name or
   address equal to the user's own is not looked up at all.
   */
  function ValidateAccount(
    users: seq<User>, me: nat, f: AccountForm, isEmail: string -> bool, fileAllowed: string -> bool): (ok: bool)
    requires me < |users|
    ensures ok <==>
      && DataRequired(f.username) && 2 <= |f.username| <= 20
      && DataRequired(f.email) && isEmail(f.email)
      && (f.picture.None? || fileAllowed(f.picture.value))
      && (f.username == users[me].username || forall i :: 0 <= i < |users| ==> users[i].username != f.username)
      && (f.email == users[me].email || forall i :: 0 <= i < |users| ==> users[i].email != f.email)
  {
    && DataRequired(f.username) && Length(f.username, 2, 20)
    && DataRequired(f.email) && isEmail(f.email)
    && (f.picture.None? || fileAllowed(f.picture.value))
    && (f.username != users[me].username ==> !UsernameTaken(users, f.username))
    && (f.email != users[me].email ==> !EmailTaken(users, f.email))
  }

  /**
   The course form. `teacherId` is the submitted choice after `coerce=int`:
   None when the text is not an integer.
   */
  datatype CourseForm = CourseForm(
    name: string, description: string, teacherId: Option<int>,
    weekday: string, start: string, end: string, location: string)

  /**
   `NewCourseForm.validate()` with the choices the handlers install: the
   users whose type is teacher. `DataRequired()` on the coerced choice
   rejects 0, which Python treats as false.
   */
  function ValidateCourse(users: seq<User>, f: CourseForm): (ok: bool)
    ensures ok <==>
      && DataRequired(f.name) && |f.name| <= 100
      && DataRequired(f.description)
      && f.teacherId.Some? && f.teacherId.value != 0 && IsTeacher(users, f.teacherId.value)
      && DataRequired(f.weekday) && DataRequired(f.start) && DataRequired(f.end)
      && DataRequired(f.location) && |f.location| <= 100
  {
    && DataRequired(f.name) && Length(f.name, 1, 100)
    && DataRequired(f.description)
    && f.teacherId.Some? && f.teacherId.value != 0
    && Offers(TeacherChoices(users), f.teacherId.value)
    && DataRequired(f.weekday) && DataRequired(f.start) && DataRequired(f.end)
    && DataRequired(f.location) && Length(f.location, 1, 100)
  }

  /** `LanguageForm`: both fields required. */
  datatype LanguageForm = LanguageForm(name: string, info: string)

  predicate ValidLanguage(f: LanguageForm) {
    DataRequired(f.name) && DataRequired(f.info)
  }

  /** The language form is accepted exactly when name and info each pass the library's `data and data.strip()` test. */
  lemma LanguageFormNeedsText(f: LanguageForm)
    ensures ValidLanguage(f) <==>
      |f.name| > 0 && |Strip(f.name)| > 0 && |f.info| > 0 && |Strip(f.info)| > 0
  {
    DataRequiredMeansStripped(f.name);
    DataRequiredMeansStripped(f.info);
  }

  /** Registration rejects a username of fewer than 2 or more than 20 characters. */
  lemma RegistrationRejectsUsernameLength(users: seq<User>, f: RegistrationForm, isEmail: string -> bool)
    requires |f.username| < 2 || |f.username| > 20
    ensures !ValidateRegistration(users, f, isEmail)
  {
  }

  /** Registration rejects a confirmation that differs from the password. */
  lemma RegistrationRejectsMismatch(users: seq<User>, f: RegistrationForm, isEmail: string -> bool)
    requires f.confirmPassword != f.password
    ensures !ValidateRegistration(users, f, isEmail)
  {
  }

  /** Registration rejects a username or an address some user already has. */
  lemma RegistrationRejectsTaken(users: seq<User>, f: RegistrationForm, isEmail: string -> bool, i: nat)
    requires i < |users|
    requires users[i].username == f.username || users[i].email == f.email
    ensures !ValidateRegistration(users, f, isEmail)
  {
  }

  /**
   Keeping one's own username and address passes the uniqueness checks even
   though the user holds them; a changed value held by another user fails.
   */
  lemma AccountOwnValuesSkipLookup(
    users: seq<User>, me: nat, f: AccountForm, isEmail: string -> bool, fileAllowed: string -> bool)
    requires me < |users|
    requires DataRequired(f.username) && 2 <= |f.username| <= 20
    requires DataRequired(f.email) && isEmail(f.email)
    requires f.picture.None? || fileAllowed(f.picture.value)
    ensures f.username == users[me].username && f.email == users[me].email ==>
      ValidateAccount(users, me, f, isEmail, fileAllowed)
    ensures (exists j :: 0 <= j < |users| && j != me && users[j].username == f.username && f.username != users[me].username) ==>
      !ValidateAccount(users, me, f, isEmail, fileAllowed)
    ensures (exists j :: 0 <= j < |users| && j != me && users[j].email == f.email && f.email != users[me].email) ==>
      !ValidateAccount(users, me, f, isEmail, fileAllowed)
  {
  }

  /** An accepted course form names a teacher and keeps name and location within 1..100 characters. */
  lemma CourseFormBounds(users: seq<User>, f: CourseForm)
    requires ValidateCourse(users, f)
    ensures 1 <= |f.name| <= 100 && 1 <= |f.location| <= 100
    ensures exists i :: 0 <= i < |users| && users[i].id == f.teacherId.value && users[i].role == TeacherRole
  {
  }
}
