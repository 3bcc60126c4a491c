/**
 * The course forms (courses/forms.py): CourseForm's field set and its
 * ModelForm validation, and GradeForm's assignment choices and clean().
 * Widget attributes are presentation only and are not modelled.
 */
module CourseForms {
  import opened Wrappers
  import opened Decimals
  import opened UserModels
  import opened CourseModels
  import opened CharFields

  /** A submitted CourseForm; `instructor` is the chosen user's key, if any. */
  datatype CourseFormData = CourseFormData(
    code: string,
    name: string,
    description: Option<string>,
    instructor: Option<nat>)

  datatype FormError =
    | FieldRequired(field: string)
    | TooLong(field: string)
    | AlreadyTaken(field: string)
    | InvalidChoice(field: string)
    | TooManyDigits(field: string)
    | ScoreAboveMax(maxScore: int)

  /** Another course than `instance` already uses this code (Course.code is unique). */
  predicate CodeTaken(db: Db, code: string, instance: Option<nat>) {
    exists k :: k in db.courses && db.courses[k].code == code && instance != Some(k)
  }

  /**
   * CourseForm's cleaned data: code and name stripped of surrounding
   * whitespace; the description stripped too, with '' as its empty value
   * (a TextField's form field keeps '' rather than NULL).
   */
  function CleanCourseForm(data: CourseFormData): (c: CourseFormData)
    ensures Trimmed(c.code) && Trimmed(c.name) && c.instructor == data.instructor
    ensures c.description.Some? && Trimmed(c.description.value)
  {
    CourseFormData(Strip(data.code), Strip(data.name),
                   Some(if data.description.None? then "" else Strip(data.description.value)),
                   data.instructor)
  }

  /**
   * CourseForm.is_valid() for a new course (instance None) or for an edit:
   * code and name are required CharFields of at most 20 and 200 characters
   * once stripped, the stripped code must be unique, description is
   * optional, and the instructor is a required choice among all users (the
   * foreign key is nullable but not blank).
   */
  function ValidateCourseForm(db: Db, data: CourseFormData, instance: Option<nat>): (r: Result<CourseFormData, FormError>)
    ensures r.Ok? <==>
      && Strip(data.code) != "" && |Strip(data.code)| <= 20
      && Strip(data.name) != "" && |Strip(data.name)| <= 200
      && data.instructor.Some? && data.instructor.value in db.users
      && !CodeTaken(db, Strip(data.code), instance)
    ensures Strip(data.code) == "" ==> r == Err(FieldRequired("code"))
    ensures r.Ok? ==> r.value == CleanCourseForm(data)
  {
    var clean := CleanCourseForm(data);
    if clean.code == "" then Err(FieldRequired("code"))
    else if |clean.code| > 20 then Err(TooLong("code"))
    else if clean.name == "" then Err(FieldRequired("name"))
    else if |clean.name| > 200 then Err(TooLong("name"))
    else if clean.instructor.None? then Err(FieldRequired("instructor"))
    else if clean.instructor.value !in db.users then Err(InvalidChoice("instructor"))
    else if CodeTaken(db, clean.code, instance) then Err(AlreadyTaken("code"))
    else Ok(clean)
  }

  /** A code of nothing but whitespace is reported missing, as an empty one is. */
  lemma BlankCodeRequired(db: Db, data: CourseFormData, instance: Option<nat>)
    requires AllSpace(data.code)
    ensures ValidateCourseForm(db, data, instance) == Err(FieldRequired("code"))
  {
    StripBlank(data.code);
  }

  /** The form reads the submission only through its cleaned data. */
  lemma ValidateReadsCleaned(db: Db, d1: CourseFormData, d2: CourseFormData, instance: Option<nat>)
    requires CleanCourseForm(d1) == CleanCourseForm(d2)
    ensures ValidateCourseForm(db, d1, instance) == ValidateCourseForm(db, d2, instance)
  {
  }

  /** A trimmed string strips to itself. */
  lemma TrimmedStripsToItself(t: string)
    requires Trimmed(t)
    ensures Strip(t) == t
  {
    StripPadded([], t, []);
    assert [] + t + [] == t;
  }

  /**
   * Whitespace around the code changes nothing: the form answers as it does
   * for the trimmed code, and stores the trimmed one.
   */
  lemma CodePaddingIgnored(db: Db, data: CourseFormData, instance: Option<nat>, lead: string, trail: string)
    requires Trimmed(data.code) && AllSpace(lead) && AllSpace(trail)
    ensures ValidateCourseForm(db, data.(code := lead + data.code + trail), instance) ==
            ValidateCourseForm(db, data, instance)
  {
    StripPadded(lead, data.code, trail);
    TrimmedStripsToItself(data.code);
    ValidateReadsCleaned(db, data.(code := lead + data.code + trail), data, instance);
  }

  /** Whitespace around the name changes nothing either. */
  lemma NamePaddingIgnored(db: Db, data: CourseFormData, instance: Option<nat>, lead: string, trail: string)
    requires Trimmed(data.name) && AllSpace(lead) && AllSpace(trail)
    ensures ValidateCourseForm(db, data.(name := lead + data.name + trail), instance) ==
            ValidateCourseForm(db, data, instance)
  {
    StripPadded(lead, data.name, trail);
    TrimmedStripsToItself(data.name);
    ValidateReadsCleaned(db, data.(name := lead + data.name + trail), data, instance);
  }

  /** Writes CourseForm's four fields into a course row; every other column is kept. */
  function ApplyCourseForm(c: Course, data: CourseFormData): (r: Course)
    ensures r.isActive == c.isActive
  {
    c.(code := data.code, name := data.name, description := data.description, instructor := data.instructor)
  }

  /** The assignment choices of a GradeForm (see ChoiceSet), in due-date order. */
  function AssignmentChoices(db: Db, enrollment: Option<nat>): (ids: seq<nat>)
    requires KeysIssued(db)
    requires enrollment.Some? ==> enrollment.value in db.enrollments
    ensures forall k :: k in ids <==> k in ChoiceSet(db, enrollment)
    ensures AllAssignments(db.assignments, ids) && ByDueDate(db.assignments, ids)
    ensures forall i, j :: 0 <= i < j < |ids| ==> ids[i] != ids[j]
  {
    var keep := ChoiceSet(db, enrollment);
    var scan := AscendingKeys(keep, db.nextId);
    AscendingKeysComplete(keep, db.nextId);
    var ids := SortByDueDate(db.assignments, scan);
    assert forall k :: k in ids <==> k in multiset(scan);
    PermutationKeepsDistinct(scan, ids);
    ids
  }

  /**
   * The queryset behind the assignment choices: with an enrollment, the
   * active assignments of its course; without one, every assignment.
   */
  function ChoiceSet(db: Db, enrollment: Option<nat>): (keep: set<nat>)
    requires enrollment.Some? ==> enrollment.value in db.enrollments
    ensures forall k :: k in keep <==>
      k in db.assignments &&
      (enrollment.Some? ==>
         db.assignments[k].course == db.enrollments[enrollment.value].course && db.assignments[k].isActive)
  {
    if enrollment.None? then db.assignments.Keys
    else set k | k in db.assignments &&
                 db.assignments[k].course == db.enrollments[enrollment.value].course &&
                 db.assignments[k].isActive
  }

  /**
   * GradeForm.clean on the cleaned assignment and score (None when a field
   * failed its own validation): the score is refused only when both are
   * present, the score is non-zero (Decimal 0 is falsy) and it is strictly
   * greater than the assignment's max_score. The cleaned data comes back
   * unchanged.
   */
  function CleanGrade(assignment: Option<Assignment>, score: Option<int>): (r: Result<(Option<Assignment>, Option<int>), FormError>)
    ensures r.Err? <==>
      assignment.Some? && score.Some? && score.value != 0 && score.value > assignment.value.maxScore
    ensures r.Err? ==> r.error == ScoreAboveMax(assignment.value.maxScore)
    ensures r.Ok? ==> r.value == (assignment, score)
  {
    if assignment.Some? && score.Some? && score.value != 0 then
      if score.value > assignment.value.maxScore then Err(ScoreAboveMax(assignment.value.maxScore))
      else Ok((assignment, score))
    else Ok((assignment, score))
  }

  /**
   * A score equal to the maximum passes (the comparison is strict), and so
   * does any negative score against a non-negative maximum: 'min' is only a
   * widget attribute.
   */
  lemma CleanGradeAdmits(a: Assignment, score: int)
    requires score == a.maxScore || (score < 0 && a.maxScore >= 0)
    ensures CleanGrade(Some(a), Some(score)).Ok?
  {
  }

  /**
   * GradeForm.is_valid(): the assignment is a required choice among
   * AssignmentChoices, the score a required decimal of at most five digits,
   * and then clean() must accept the pair. Yields the assignment's key and the
   * score.
   */
  function ValidateGradeForm(db: Db, enrollment: Option<nat>, assignment: Option<nat>, score: Option<int>): (r: Result<(nat, int), FormError>)
    requires KeysIssued(db)
    requires enrollment.Some? ==> enrollment.value in db.enrollments
    ensures r.Ok? <==>
      && assignment.Some? && assignment.value in AssignmentChoices(db, enrollment)
      && score.Some? && FitsDecimal(score.value)
      && !(score.value != 0 && score.value > db.assignments[assignment.value].maxScore)
    ensures r.Ok? ==> r.value == (assignment.value, score.value)
  {
    if assignment.None? then Err(FieldRequired("assignment"))
    else if assignment.value !in AssignmentChoices(db, enrollment) then Err(InvalidChoice("assignment"))
    else if score.None? then Err(FieldRequired("score"))
    else if !FitsDecimal(score.value) then Err(TooManyDigits("score"))
    else
      match CleanGrade(Some(db.assignments[assignment.value]), score)
      case Err(e) => Err(e)
      case Ok(_) => Ok((assignment.value, score.value))
  }
}
