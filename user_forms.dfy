/**
 * The user forms (users/forms.py): which fields each form requires, what
 * UserRegistrationForm.save stores, and UserUpdateForm's field list.
 * Placeholders and help texts are presentation only and are not modelled.
 */
module UserForms {
  import opened Wrappers
  import opened UserModels
  import opened CourseModels
  import opened CharFields

  /** The User columns declared blank=True, by this model or by Django's AbstractUser. */
  const BLANK_COLUMNS: set<string> :=
    {"email", "first_name", "last_name", "student_id", "program_of_study", "year_of_study", "phone_number"}

  /** A ModelForm field starts out required exactly when its column may not be blank. */
  function DefaultRequired(fields: seq<string>): (req: set<string>)
    ensures forall f :: f in req <==> f in fields && f !in BLANK_COLUMNS
  {
    set f | f in fields && f !in BLANK_COLUMNS
  }

  // ---------------------------------------------------------------------
  // UserRegistrationForm
  // ---------------------------------------------------------------------

  const REGISTRATION_FIELDS: seq<string> := [
    "username", "email", "first_name", "last_name",
    "student_id", "program_of_study", "year_of_study",
    "phone_number", "password1", "password2"]

  /**
   * The fields UserRegistrationForm requires: every field it declares except
   * phone_number.
   */
  function RegistrationRequired(): (req: set<string>)
    ensures forall f :: f in req <==> f in REGISTRATION_FIELDS && f != "phone_number"
  {
    set f | f in REGISTRATION_FIELDS && f != "phone_number"
  }

  /**
   * UserRegistrationForm.__init__: the parent form requires username (a
   * non-blank column) and the two password fields, then six more fields are
   * marked required one at a time.
   */
  method RegistrationFormRequired() returns (required: set<string>)
    ensures required == RegistrationRequired()
  {
    required := DefaultRequired(REGISTRATION_FIELDS) + {"password1", "password2"};
    required := required + {"email"};
    required := required + {"first_name"};
    required := required + {"last_name"};
    required := required + {"student_id"};
    required := required + {"program_of_study"};
    required := required + {"year_of_study"};
  }

  /** A submitted registration. Keys the form does not declare, such as a role, are dropped. */
  datatype RegistrationData = RegistrationData(
    username: Option<string>,
    email: Option<string>,
    firstName: Option<string>,
    lastName: Option<string>,
    studentId: Option<string>,
    programOfStudy: Option<string>,
    yearOfStudy: Option<int>,
    phoneNumber: Option<string>,
    password1: Option<string>,
    password2: Option<string>,
    postedRole: Option<string>)

  /** Django's notion of an empty text value: absent or the empty string. */
  predicate Empty(v: Option<string>) {
    v.None? || v.value == ""
  }

  /** The value submitted for a field of the registration form. */
  function Submitted(data: RegistrationData, field: string): (present: bool) {
    match field
    case "username" => !Empty(data.username)
    case "email" => !Empty(data.email)
    case "first_name" => !Empty(data.firstName)
    case "last_name" => !Empty(data.lastName)
    case "student_id" => !Empty(data.studentId)
    case "program_of_study" => !Empty(data.programOfStudy)
    case "year_of_study" => data.yearOfStudy.Some?
    case "phone_number" => !Empty(data.phoneNumber)
    case "password1" => !Empty(data.password1)
    case "password2" => !Empty(data.password2)
    case _ => false
  }

  /**
   * The registration's cleaned data: every text field but the two
   * passwords (strip=False) is stripped, and a field left blank has no
   * value. For the nullable columns that is NULL; the other blank fields are
   * required, so their empty value is never stored.
   */
  function CleanRegistration(data: RegistrationData): (c: RegistrationData)
    ensures c.password1 == data.password1 && c.password2 == data.password2
    ensures c.yearOfStudy == data.yearOfStudy && c.postedRole == data.postedRole
  {
    data.(username := CleanText(data.username), email := CleanText(data.email),
          firstName := CleanText(data.firstName), lastName := CleanText(data.lastName),
          studentId := CleanText(data.studentId), programOfStudy := CleanText(data.programOfStudy),
          phoneNumber := CleanText(data.phoneNumber))
  }

  /** The lower-case form of an ASCII capital; every other character is its own. */
  function LowerAscii(c: char): (r: char)
    ensures 'A' <= c <= 'Z' ==> 'a' <= r <= 'z' && r as int - c as int == 32
    ensures !('A' <= c <= 'Z') ==> r == c
  {
    if 'A' <= c <= 'Z' then (c as int + 32) as char else c
  }

  /** A username with its ASCII capitals lowered, the key `username__iexact` compares. */
  function FoldCase(s: string): (r: string)
    ensures |r| == |s|
    ensures forall i :: 0 <= i < |s| ==> r[i] == LowerAscii(s[i])
  {
    if s == [] then [] else [LowerAscii(s[0])] + FoldCase(s[1..])
  }

  /**
   * UserCreationForm.clean_username: the username is taken when an existing
   * user's name equals it up to case (`username__iexact`); the model's
   * exact uniqueness check is then implied.
   */
  predicate UsernameInUse(db: Db, username: Option<string>) {
    username.Some? && exists k :: k in db.users && FoldCase(db.users[k].username) == FoldCase(username.value)
  }

  /** Names that differ only in the case of ASCII letters fold alike. */
  lemma FoldCaseAlike(a: string, b: string)
    requires |a| == |b|
    requires forall i :: 0 <= i < |a| ==> a[i] == b[i] || LowerAscii(a[i]) == LowerAscii(b[i])
    ensures FoldCase(a) == FoldCase(b)
  {
    assert forall i :: 0 <= i < |a| ==> FoldCase(a)[i] == FoldCase(b)[i];
  }

  /** An ASCII letter and a non-letter never fold alike, so case is the only thing folding forgives. */
  lemma FoldCaseKeepsNonLetters(a: string, b: string, i: nat)
    requires FoldCase(a) == FoldCase(b) && i < |a|
    requires !('A' <= a[i] <= 'Z') && !('a' <= a[i] <= 'z')
    ensures b[i] == a[i]
  {
    assert FoldCase(a)[i] == FoldCase(b)[i];
  }

  datatype RegistrationError =
    | MissingFields(fields: set<string>)
    | PasswordMismatch
    | UsernameTaken

  /**
   * is_valid() of the registration form: once cleaned, every required field
   * is filled in, the two passwords agree, and no user already has the
   * username. UserRegistrationForm.clean adds nothing: it returns the
   * parent's result.
   */
  function ValidateRegistration(db: Db, data: RegistrationData): (r: Result<RegistrationData, RegistrationError>)
    ensures r.Ok? <==>
      && (forall f :: f in RegistrationRequired() ==> Submitted(CleanRegistration(data), f))
      && data.password1 == data.password2
      && !UsernameInUse(db, CleanText(data.username))
    ensures (exists f :: f in RegistrationRequired() && !Submitted(CleanRegistration(data), f)) ==>
      r.Err? && r.error.MissingFields?
    ensures r.Err? && r.error.MissingFields? ==>
      r.error.fields != {} &&
      forall f :: f in r.error.fields <==> f in RegistrationRequired() && !Submitted(CleanRegistration(data), f)
    ensures r.Ok? ==> r.value == CleanRegistration(data)
  {
    var clean := CleanRegistration(data);
    var missing := set f | f in RegistrationRequired() && !Submitted(clean, f);
    assert forall f :: f in RegistrationRequired() && !Submitted(clean, f) ==> f in missing;
    if missing != {} then Err(MissingFields(missing))
    else if clean.password1 != clean.password2 then Err(PasswordMismatch)
    else if UsernameInUse(db, clean.username) then Err(UsernameTaken)
    else Ok(clean)
  }

  /** With every field in order, a username that differs from a stored one only in case is refused. */
  lemma CaseVariantRefused(db: Db, data: RegistrationData, k: nat)
    requires forall f :: f in RegistrationRequired() ==> Submitted(CleanRegistration(data), f)
    requires data.password1 == data.password2
    requires k in db.users && CleanText(data.username).Some?
    requires FoldCase(db.users[k].username) == FoldCase(CleanText(data.username).value)
    ensures ValidateRegistration(db, data) == Err(UsernameTaken)
  {
  }

  /** "Alice" folds to "alice", so a stored "alice" refuses it. */
  lemma AliceIsAlice()
    ensures FoldCase("Alice") == FoldCase("alice") == "alice"
  {
    FoldCaseAlike("Alice", "alice");
    assert FoldCase("alice") == "alice";
  }

  /** A name of only whitespace is reported missing, as a blank one is. */
  lemma BlankNameMissing(db: Db, data: RegistrationData)
    requires data.firstName.Some? && AllSpace(data.firstName.value)
    ensures var r := ValidateRegistration(db, data);
      r.Err? && r.error.MissingFields? && "first_name" in r.error.fields
  {
    var c := CleanRegistration(data);
    assert c.firstName == None;
    RequiredNames();
    assert !Submitted(c, "first_name");
  }

  /** The database after save() and the user it returned (with its key once stored). */
  datatype Saved = Saved(db: Db, user: User, key: Option<nat>)

  /** The four columns save() reads are among the required fields. */
  lemma RequiredNames()
    ensures "username" in RegistrationRequired() && "email" in RegistrationRequired()
    ensures "first_name" in RegistrationRequired() && "last_name" in RegistrationRequired()
  {
  }

  /** A registration that validates has the four columns save() reads filled in once cleaned. */
  lemma ValidRegistrationFilled(db: Db, data: RegistrationData)
    requires ValidateRegistration(db, data).Ok?
    ensures var c := CleanRegistration(data);
      c.username.Some? && c.email.Some? && c.firstName.Some? && c.lastName.Some?
  {
    var c := CleanRegistration(data);
    RequiredNames();
    assert Submitted(c, "username") && Submitted(c, "email");
    assert Submitted(c, "first_name") && Submitted(c, "last_name");
  }

  /**
   * UserRegistrationForm.save on validated data: the user takes the cleaned
   * columns (each submitted value stripped of surrounding whitespace, a
   * blank phone number stored as NULL) and the student role whatever was
   * posted, and is stored only when `commit` is true.
   */
  function RegistrationSave(db: Db, data: RegistrationData, commit: bool): (r: Saved)
    requires KeysIssued(db) && ValidateRegistration(db, data).Ok?
    ensures IsStudent(r.user)
    ensures Some(r.user.username) == CleanText(data.username) && r.user.profilePicture == None
    ensures Some(r.user.email) == CleanText(data.email)
    ensures Some(r.user.firstName) == CleanText(data.firstName) && Some(r.user.lastName) == CleanText(data.lastName)
    ensures r.user.studentId == CleanText(data.studentId) && r.user.programOfStudy == CleanText(data.programOfStudy)
    ensures r.user.yearOfStudy == data.yearOfStudy && r.user.phoneNumber == CleanText(data.phoneNumber)
    ensures !commit ==> r.db == db && r.key == None
    ensures commit ==>
      && r.key == Some(db.nextId) && db.nextId !in db.users
      && r.db == db.(users := db.users[db.nextId := r.user], nextId := db.nextId + 1)
  {
    ValidRegistrationFilled(db, data);
    var c := CleanRegistration(data);
    var user := User(c.username.value, STUDENT,
                     c.email.value, c.firstName.value, c.lastName.value,
                     c.studentId, c.programOfStudy, c.yearOfStudy, c.phoneNumber, None);
    if commit then Saved(db.(users := db.users[db.nextId := user], nextId := db.nextId + 1), user, Some(db.nextId))
    else Saved(db, user, None)
  }

  lemma RegistrationSaveKeepsValid(db: Db, data: RegistrationData, commit: bool)
    requires Valid(db) && ValidateRegistration(db, data).Ok?
    ensures Valid(RegistrationSave(db, data, commit).db)
  {
  }

  // ---------------------------------------------------------------------
  // UserProfileForm
  // ---------------------------------------------------------------------

  const PROFILE_FIELDS: seq<string> := [
    "first_name", "last_name", "email", "phone_number", "program_of_study", "year_of_study"]

  /**
   * UserProfileForm.__init__ for the user it edits: email and the two names
   * are marked required and, for a non-student, program_of_study and
   * year_of_study are marked optional, which they already are, so the role
   * makes no difference to the outcome.
   */
  method ProfileFormRequired(instance: User) returns (required: set<string>)
    ensures required == {"email", "first_name", "last_name"}
  {
    required := DefaultRequired(PROFILE_FIELDS);
    required := required + {"email"};
    required := required + {"first_name"};
    required := required + {"last_name"};
    if instance.role != STUDENT {
      required := required - {"program_of_study"};
      required := required - {"year_of_study"};
    }
  }

  // ---------------------------------------------------------------------
  // UserUpdateForm
  // ---------------------------------------------------------------------

  /** What an attribute of the User class evaluates to in the class body. */
  datatype ClassAttribute = FieldDescriptor(column: string) | Str(s: string)

  /** `User.role` read on the class: Django's descriptor for the column, not a string. */
  const USER_ROLE_ON_CLASS: ClassAttribute := FieldDescriptor("role")

  const UPDATE_FIELDS: seq<string> := ["email", "first_name", "last_name", "phone_number"]
  const STUDENT_FIELDS: seq<string> := ["program_of_study", "year_of_study"]

  /**
   * UserUpdateForm.Meta.fields as written: the comparison runs once, on the
   * class attribute, and never holds, so the student fields are never added.
   */
  function UpdateFieldsAsWritten(): (fields: seq<string>)
    ensures fields == UPDATE_FIELDS
    ensures forall f :: f in STUDENT_FIELDS ==> f !in fields
  {
    if USER_ROLE_ON_CLASS == Str(STUDENT) then UPDATE_FIELDS + STUDENT_FIELDS else UPDATE_FIELDS
  }

  /** The evident intent: the student fields appear exactly when the edited user is a student. */
  function UpdateFields(instance: User): (fields: seq<string>)
    ensures UPDATE_FIELDS <= fields
    ensures forall f :: f in STUDENT_FIELDS ==> (f in fields <==> IsStudent(instance))
  {
    if instance.role == STUDENT then UPDATE_FIELDS + STUDENT_FIELDS else UPDATE_FIELDS
  }

  /** For a student the form as written omits the fields it evidently meant to offer. */
  lemma UpdateFormOmitsStudentFields(u: User)
    requires IsStudent(u)
    ensures "program_of_study" in UpdateFields(u) && "program_of_study" !in UpdateFieldsAsWritten()
  {
  }
}
