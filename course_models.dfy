/**
 * The course tables (courses/models.py): Course, Assignment, Enrollment,
 * Grade and Announcement rows held in one in-memory database value, the
 * uniqueness and foreign-key invariants the relational store enforces, the
 * on_delete behaviour of every foreign key, the Meta orderings, and
 * Enrollment.get_current_grade.
 *
 * Every table maps a primary key to its row. One counter hands out primary
 * keys for all tables, and a second one, `clock`, stands for the auto_now_add
 * timestamps: it only ever grows, and it is used only for ordering.
 * Decimal columns hold whole hundredths (see the Decimals module).
 */
module CourseModels {
  import opened Wrappers
  import opened Decimals
  import opened UserModels

  datatype Course = Course(
    code: string,
    name: string,
    description: Option<string>,
    instructor: Option<nat>,   // SET_NULL when the instructor is deleted
    isActive: bool)

  datatype Assignment = Assignment(
    course: nat,
    title: string,
    description: Option<string>,
    dueDate: int,
    maxScore: int,             // hundredths
    weight: int,               // hundredths; stored but never used in a grade
    isActive: bool)

  /** Assignment.weight's default of 1.00. */
  const DEFAULT_WEIGHT: int := 100

  datatype Enrollment = Enrollment(
    student: nat,
    course: nat,
    enrollmentDate: nat,
    isActive: bool)

  datatype Grade = Grade(
    enrollment: nat,
    assignment: Option<nat>,   // nullable foreign key
    score: int,                // hundredths
    submittedAt: nat)

  datatype Announcement = Announcement(
    course: nat,
    title: string,
    content: string,
    instructor: nat,
    createdAt: nat,
    expiresAt: Option<int>,
    isActive: bool,
    readBy: set<nat>)          // the read_by many-to-many relation

  datatype Db = Db(
    users: map<nat, User>,
    courses: map<nat, Course>,
    assignments: map<nat, Assignment>,
    enrollments: map<nat, Enrollment>,
    grades: map<nat, Grade>,
    announcements: map<nat, Announcement>,
    nextId: nat,
    clock: nat)

  const EMPTY: Db := Db(map[], map[], map[], map[], map[], map[], 0, 0)

  // ---------------------------------------------------------------------
  // Invariants
  // ---------------------------------------------------------------------

  /** Every primary key in use was handed out by the counter. */
  predicate KeysIssued(db: Db) {
    && (forall k :: k in db.users ==> k < db.nextId)
    && (forall k :: k in db.courses ==> k < db.nextId)
    && (forall k :: k in db.assignments ==> k < db.nextId)
    && (forall k :: k in db.enrollments ==> k < db.nextId)
    && (forall k :: k in db.grades ==> k < db.nextId)
    && (forall k :: k in db.announcements ==> k < db.nextId)
  }

  /** Every foreign key names an existing row (nullable ones when set). */
  predicate ForeignKeysResolve(db: Db) {
    && (forall k :: k in db.courses && db.courses[k].instructor.Some? ==> db.courses[k].instructor.value in db.users)
    && (forall k :: k in db.assignments ==> db.assignments[k].course in db.courses)
    && (forall k :: k in db.enrollments ==> db.enrollments[k].student in db.users)
    && (forall k :: k in db.enrollments ==> db.enrollments[k].course in db.courses)
    && (forall k :: k in db.grades ==> db.grades[k].enrollment in db.enrollments)
    && (forall k :: k in db.grades && db.grades[k].assignment.Some? ==> db.grades[k].assignment.value in db.assignments)
    && (forall k :: k in db.announcements ==> db.announcements[k].course in db.courses)
    && (forall k :: k in db.announcements ==> db.announcements[k].instructor in db.users)
    && (forall k :: k in db.announcements ==> db.announcements[k].readBy <= db.users.Keys)
  }

  /** unique_together = ['student', 'course'] on Enrollment, whatever is_active says. */
  predicate UniqueEnrollments(db: Db) {
    forall i, j ::
      i in db.enrollments && j in db.enrollments &&
      db.enrollments[i].student == db.enrollments[j].student &&
      db.enrollments[i].course == db.enrollments[j].course
      ==> i == j
  }

  /**
   * unique_together = ['enrollment', 'assignment'] on Grade. As in SQL, two
   * NULL assignments never collide, so only grades with an assignment count.
   */
  predicate UniqueGrades(db: Db) {
    forall i, j ::
      i in db.grades && j in db.grades &&
      db.grades[i].enrollment == db.grades[j].enrollment &&
      db.grades[i].assignment.Some? &&
      db.grades[i].assignment == db.grades[j].assignment
      ==> i == j
  }

  /** Announcements were stamped by the clock in insertion (primary key) order. */
  predicate Chronological(db: Db) {
    && (forall k :: k in db.announcements ==> db.announcements[k].createdAt < db.clock)
    && (forall i, j :: i in db.announcements && j in db.announcements && i < j ==>
          db.announcements[i].createdAt < db.announcements[j].createdAt)
  }

  /** The grades' own foreign keys resolve: the part of ForeignKeysResolve a cascade reads. */
  predicate GradeKeysResolve(db: Db) {
    && (forall k :: k in db.grades ==> db.grades[k].enrollment in db.enrollments)
    && (forall k :: k in db.grades && db.grades[k].assignment.Some? ==> db.grades[k].assignment.value in db.assignments)
  }

  predicate Valid(db: Db) {
    KeysIssued(db) && ForeignKeysResolve(db) && UniqueEnrollments(db) && UniqueGrades(db) && Chronological(db)
  }

  /** The conjuncts of Valid that read the announcements table. */
  predicate AnnouncementRowsValid(db: Db) {
    && (forall k :: k in db.announcements ==> k < db.nextId)
    && (forall k :: k in db.announcements ==> db.announcements[k].course in db.courses)
    && (forall k :: k in db.announcements ==> db.announcements[k].instructor in db.users)
    && (forall k :: k in db.announcements ==> db.announcements[k].readBy <= db.users.Keys)
    && Chronological(db)
  }

  /** Adding a reader to an existing announcement keeps its rows valid. */
  lemma MarkReadKeepsRows(db: Db, a: nat, v: nat)
    requires AnnouncementRowsValid(db) && a in db.announcements && v in db.users
    ensures var ann := db.announcements[a];
      AnnouncementRowsValid(db.(announcements := db.announcements[a := ann.(readBy := ann.readBy + {v})]))
  {
  }

  /** Appending an announcement stamped with the clock under the next key keeps the rows valid. */
  lemma AppendAnnouncementKeepsRows(db: Db, ann: Announcement)
    requires AnnouncementRowsValid(db)
    requires ann.course in db.courses && ann.instructor in db.users && ann.readBy <= db.users.Keys
    requires ann.createdAt == db.clock
    ensures AnnouncementRowsValid(db.(announcements := db.announcements[db.nextId := ann],
                                      nextId := db.nextId + 1, clock := db.clock + 1))
  {
  }

  /**
   * A write that touches only the announcements, the key counter (upwards)
   * and the clock keeps the database valid when the new announcement rows are.
   */
  lemma AnnouncementWriteKeepsValid(db: Db, anns: map<nat, Announcement>, n: nat, clock: nat)
    requires Valid(db) && db.nextId <= n
    requires AnnouncementRowsValid(db.(announcements := anns, nextId := n, clock := clock))
    ensures Valid(db.(announcements := anns, nextId := n, clock := clock))
  {
    var r := db.(announcements := anns, nextId := n, clock := clock);
    assert KeysIssued(r);
    assert ForeignKeysResolve(r);
  }

  /** Appending an announcement stamped with the clock under the next key keeps the database valid. */
  lemma AppendAnnouncementKeepsValid(db: Db, ann: Announcement)
    requires Valid(db)
    requires ann.course in db.courses && ann.instructor in db.users && ann.readBy <= db.users.Keys
    requires ann.createdAt == db.clock
    ensures Valid(db.(announcements := db.announcements[db.nextId := ann],
                      nextId := db.nextId + 1, clock := db.clock + 1))
  {
    var r := db.(announcements := db.announcements[db.nextId := ann], nextId := db.nextId + 1, clock := db.clock + 1);
    AppendAnnouncementKeepsRows(db, ann);
    assert KeysIssued(r);
    assert ForeignKeysResolve(r);
  }

  lemma EmptyIsValid()
    ensures Valid(EMPTY)
  {
  }

  // ---------------------------------------------------------------------
  // on_delete behaviour of the foreign keys
  // ---------------------------------------------------------------------

  /** Deleting an assignment cascades to the grades that reference it. */
  function DeleteAssignment(db: Db, a: nat): (r: Db)
    ensures r.assignments == db.assignments - {a}
    ensures forall k :: k in r.grades <==> k in db.grades && db.grades[k].assignment != Some(a)
    ensures forall k :: k in r.grades ==> r.grades[k] == db.grades[k]
    ensures r.users == db.users && r.courses == db.courses && r.enrollments == db.enrollments
    ensures r.announcements == db.announcements && r.nextId == db.nextId && r.clock == db.clock
  {
    db.(assignments := db.assignments - {a},
        grades := map k | k in db.grades && db.grades[k].assignment != Some(a) :: db.grades[k])
  }

  lemma DeleteAssignmentKeepsValid(db: Db, a: nat)
    requires Valid(db)
    ensures Valid(DeleteAssignment(db, a))
  {
    DeleteAssignmentKeepsGradeKeys(db, a);
  }

  lemma DeleteAssignmentKeepsGradeKeys(db: Db, a: nat)
    requires GradeKeysResolve(db)
    ensures GradeKeysResolve(DeleteAssignment(db, a))
  {
  }

  /**
   * Deleting a course cascades to its assignments, its enrollments and its
   * announcements, and through the first two to every grade that references
   * a removed enrollment or a removed assignment.
   */
  function DeleteCourse(db: Db, c: nat): (r: Db)
    requires GradeKeysResolve(db)
    ensures r.courses == db.courses - {c}
    ensures forall k :: k in r.assignments <==> k in db.assignments && db.assignments[k].course != c
    ensures forall k :: k in r.enrollments <==> k in db.enrollments && db.enrollments[k].course != c
    ensures forall k :: k in r.announcements <==> k in db.announcements && db.announcements[k].course != c
    ensures forall k :: k in r.grades <==>
      k in db.grades && db.enrollments[db.grades[k].enrollment].course != c &&
      (db.grades[k].assignment.None? || db.assignments[db.grades[k].assignment.value].course != c)
    ensures forall k :: k in r.assignments ==> r.assignments[k] == db.assignments[k]
    ensures forall k :: k in r.enrollments ==> r.enrollments[k] == db.enrollments[k]
    ensures forall k :: k in r.announcements ==> r.announcements[k] == db.announcements[k]
    ensures forall k :: k in r.grades ==> r.grades[k] == db.grades[k]
    ensures r.users == db.users && r.nextId == db.nextId && r.clock == db.clock
  {
    var doomedAssignments := set k | k in db.assignments && db.assignments[k].course == c;
    var doomedEnrollments := set k | k in db.enrollments && db.enrollments[k].course == c;
    assert forall k :: k in db.grades ==>
      (db.grades[k].enrollment in doomedEnrollments <==> db.enrollments[db.grades[k].enrollment].course == c);
    assert forall k :: k in db.grades && db.grades[k].assignment.Some? ==>
      (db.grades[k].assignment.value in doomedAssignments <==> db.assignments[db.grades[k].assignment.value].course == c);
    db.(courses := db.courses - {c},
        assignments := db.assignments - doomedAssignments,
        enrollments := db.enrollments - doomedEnrollments,
        grades := map k | k in db.grades && db.grades[k].enrollment !in doomedEnrollments &&
                          (db.grades[k].assignment.None? || db.grades[k].assignment.value !in doomedAssignments)
                        :: db.grades[k],
        announcements := map k | k in db.announcements && db.announcements[k].course != c :: db.announcements[k])
  }

  /**
   * Deleting a user: courses they teach survive with no instructor
   * (SET_NULL); their enrollments and, through them, their grades go
   * (CASCADE); announcements they wrote go (CASCADE); and they leave every
   * read_by set.
   */
  function DeleteUser(db: Db, u: nat): (r: Db)
    requires GradeKeysResolve(db)
    ensures r.users == db.users - {u}
    ensures r.courses.Keys == db.courses.Keys
    ensures forall k :: k in r.courses ==>
      r.courses[k] == if db.courses[k].instructor == Some(u) then db.courses[k].(instructor := None) else db.courses[k]
    ensures r.assignments == db.assignments
    ensures forall k :: k in r.enrollments <==> k in db.enrollments && db.enrollments[k].student != u
    ensures forall k :: k in r.grades <==> k in db.grades && db.enrollments[db.grades[k].enrollment].student != u
    ensures forall k :: k in r.announcements <==> k in db.announcements && db.announcements[k].instructor != u
    ensures forall k :: k in r.announcements ==> r.announcements[k] == db.announcements[k].(readBy := db.announcements[k].readBy - {u})
    ensures r.nextId == db.nextId && r.clock == db.clock
  {
    var doomedEnrollments := set k | k in db.enrollments && db.enrollments[k].student == u;
    db.(users := db.users - {u},
        courses := map k | k in db.courses ::
          if db.courses[k].instructor == Some(u) then db.courses[k].(instructor := None) else db.courses[k],
        enrollments := db.enrollments - doomedEnrollments,
        grades := map k | k in db.grades && db.grades[k].enrollment !in doomedEnrollments :: db.grades[k],
        announcements := map k | k in db.announcements && db.announcements[k].instructor != u ::
          db.announcements[k].(readBy := db.announcements[k].readBy - {u}))
  }

  /** Cascading a course deletion leaves no dangling foreign key and no duplicate. */
  lemma DeleteCourseKeepsValid(db: Db, c: nat)
    requires Valid(db)
    ensures Valid(DeleteCourse(db, c))
  {
    DeleteCourseKeepsTableKeys(db, c);
    DeleteCourseKeepsGradeKeys(db, c);
    DeleteCourseKeepsRest(db, c);
  }

  lemma DeleteCourseKeepsTableKeys(db: Db, c: nat)
    requires ForeignKeysResolve(db)
    ensures var r := DeleteCourse(db, c);
      && (forall k :: k in r.courses && r.courses[k].instructor.Some? ==> r.courses[k].instructor.value in r.users)
      && (forall k :: k in r.assignments ==> r.assignments[k].course in r.courses)
      && (forall k :: k in r.enrollments ==> r.enrollments[k].student in r.users && r.enrollments[k].course in r.courses)
      && (forall k :: k in r.announcements ==> r.announcements[k].course in r.courses)
      && (forall k :: k in r.announcements ==> r.announcements[k].instructor in r.users)
      && (forall k :: k in r.announcements ==> r.announcements[k].readBy <= r.users.Keys)
  {
  }

  lemma DeleteCourseKeepsGradeKeys(db: Db, c: nat)
    requires GradeKeysResolve(db)
    ensures GradeKeysResolve(DeleteCourse(db, c))
  {
  }

  lemma DeleteCourseKeepsRest(db: Db, c: nat)
    requires KeysIssued(db) && GradeKeysResolve(db) && UniqueEnrollments(db) && UniqueGrades(db) && Chronological(db)
    ensures var r := DeleteCourse(db, c);
      KeysIssued(r) && UniqueEnrollments(r) && UniqueGrades(r) && Chronological(r)
  {
  }

  /** Cascading a user deletion leaves no dangling foreign key and no duplicate. */
  lemma DeleteUserKeepsValid(db: Db, u: nat)
    requires Valid(db)
    ensures Valid(DeleteUser(db, u))
  {
    DeleteUserKeepsForeignKeys(db, u);
    DeleteUserKeepsRest(db, u);
  }

  lemma DeleteUserKeepsForeignKeys(db: Db, u: nat)
    requires Valid(db)
    ensures ForeignKeysResolve(DeleteUser(db, u))
  {
    DeleteUserKeepsCourseKeys(db, u);
    DeleteUserKeepsGradeKeys(db, u);
    DeleteUserKeepsAnnouncementKeys(db, u);
  }

  lemma DeleteUserKeepsCourseKeys(db: Db, u: nat)
    requires ForeignKeysResolve(db)
    ensures var r := DeleteUser(db, u);
      && (forall k :: k in r.courses && r.courses[k].instructor.Some? ==> r.courses[k].instructor.value in r.users)
      && (forall k :: k in r.assignments ==> r.assignments[k].course in r.courses)
      && (forall k :: k in r.enrollments ==> r.enrollments[k].student in r.users && r.enrollments[k].course in r.courses)
  {
  }

  lemma DeleteUserKeepsGradeKeys(db: Db, u: nat)
    requires ForeignKeysResolve(db)
    ensures GradeKeysResolve(DeleteUser(db, u))
  {
  }

  lemma DeleteUserKeepsAnnouncementKeys(db: Db, u: nat)
    requires ForeignKeysResolve(db)
    ensures var r := DeleteUser(db, u);
      && (forall k :: k in r.announcements ==> r.announcements[k].course in r.courses)
      && (forall k :: k in r.announcements ==> r.announcements[k].instructor in r.users)
      && (forall k :: k in r.announcements ==> r.announcements[k].readBy <= r.users.Keys)
  {
  }

  lemma DeleteUserKeepsRest(db: Db, u: nat)
    requires Valid(db)
    ensures var r := DeleteUser(db, u);
      KeysIssued(r) && UniqueEnrollments(r) && UniqueGrades(r) && Chronological(r)
  {
  }

  // ---------------------------------------------------------------------
  // Enrollment.get_current_grade
  // ---------------------------------------------------------------------

  /** Why get_current_grade can fail: Python raises AttributeError. */
  datatype GradeError = AttributeError

  /** Primary keys of the grades in an enrollment's grade_set. */
  function GradesOf(db: Db, e: nat): set<nat> {
    set k | k in db.grades && db.grades[k].enrollment == e
  }

  /** Sum of the scores of enrollment e's grades whose keys lie below n. */
  function ScoreTotal(db: Db, e: nat, n: nat): int {
    if n == 0 then 0
    else ScoreTotal(db, e, n - 1) +
         (if n - 1 in db.grades && db.grades[n - 1].enrollment == e then db.grades[n - 1].score else 0)
  }

  /** grade.assignment.max_score, or None when the assignment is missing (NULL). */
  function MaxOf(db: Db, g: Grade): Option<int> {
    if g.assignment.Some? && g.assignment.value in db.assignments then
      Some(db.assignments[g.assignment.value].maxScore)
    else None
  }

  /**
   * Sum of the assignments' maximum scores over enrollment e's grades whose
   * keys lie below n; None once one of them has no assignment to read from.
   */
  function MaxTotal(db: Db, e: nat, n: nat): Option<int> {
    if n == 0 then Some(0)
    else
      match MaxTotal(db, e, n - 1)
      case None => None
      case Some(m) =>
        if n - 1 in db.grades && db.grades[n - 1].enrollment == e then
          match MaxOf(db, db.grades[n - 1])
          case None => None
          case Some(x) => Some(m + x)
        else Some(m)
  }

  /**
   * get_current_grade as written: the sum on line 57 reads grade.max_score,
   * an attribute Grade does not have, so any enrollment with a grade raises.
   */
  function CurrentGradeAsWritten(db: Db, e: nat): (r: Result<int, GradeError>)
    ensures r.Err? <==> GradesOf(db, e) != {}
    ensures r.Ok? ==> r.value == 0
  {
    if GradesOf(db, e) == {} then Ok(0) else Err(AttributeError)
  }

  /**
   * get_current_grade with the maximum read from each grade's assignment, in
   * tenths of a percent: 0 without grades, 0 when the maxima sum to 0,
   * otherwise 100 * (sum of scores) / (sum of maxima) rounded half-to-even to
   * one decimal place. A grade without an assignment still raises.
   */
  function CurrentGrade(db: Db, e: nat): (r: Result<int, GradeError>)
    requires KeysIssued(db)
    ensures GradesOf(db, e) == {} ==> r == Ok(0)
    ensures MaxTotal(db, e, db.nextId) == Some(0) ==> r == Ok(0)
    ensures r.Err? <==> GradesOf(db, e) != {} && MaxTotal(db, e, db.nextId).None?
    ensures r.Ok? && GradesOf(db, e) != {} && MaxTotal(db, e, db.nextId) != Some(0) ==>
      var m := MaxTotal(db, e, db.nextId).value;
      && 2 * Abs(1000 * ScoreTotal(db, e, db.nextId) - r.value * m) <= Abs(m)
      && (2 * Abs(1000 * ScoreTotal(db, e, db.nextId) - r.value * m) == Abs(m) ==> r.value % 2 == 0)
  {
    if GradesOf(db, e) == {} then Ok(0)
    else
      match MaxTotal(db, e, db.nextId)
      case None => Err(AttributeError)
      case Some(m) =>
        if m == 0 then Ok(0) else Ok(RoundHalfEven(1000 * ScoreTotal(db, e, db.nextId), m))
  }

  /** Every grade of enrollment e has an assignment and a score in [0, max_score]. */
  predicate ScoresWithinMax(db: Db, e: nat) {
    forall k :: k in db.grades && db.grades[k].enrollment == e ==>
      MaxOf(db, db.grades[k]).Some? && 0 <= db.grades[k].score <= MaxOf(db, db.grades[k]).value
  }

  lemma {:induction false} TotalsWithinMax(db: Db, e: nat, n: nat)
    requires ScoresWithinMax(db, e)
    ensures MaxTotal(db, e, n).Some?
    ensures 0 <= ScoreTotal(db, e, n) <= MaxTotal(db, e, n).value
  {
    if n > 0 {
      TotalsWithinMax(db, e, n - 1);
    }
  }

  /**
   * When every score lies between 0 and its assignment's maximum, the
   * current grade is a percentage between 0.0 and 100.0.
   */
  lemma CurrentGradeIsPercentage(db: Db, e: nat)
    requires KeysIssued(db) && ScoresWithinMax(db, e)
    ensures CurrentGrade(db, e).Ok?
    ensures 0 <= CurrentGrade(db, e).value <= 1000
  {
    TotalsWithinMax(db, e, db.nextId);
    var m := MaxTotal(db, e, db.nextId).value;
    if GradesOf(db, e) != {} && m != 0 {
      RoundHalfEvenWithin(1000 * ScoreTotal(db, e, db.nextId), m, 1000);
    }
  }

  lemma {:induction false} MaxTotalReadsOnlyMaxScores(db: Db, db': Db, e: nat, n: nat)
    requires db'.grades == db.grades && db'.assignments.Keys == db.assignments.Keys
    requires forall k :: k in db.assignments ==> db'.assignments[k].maxScore == db.assignments[k].maxScore
    ensures MaxTotal(db', e, n) == MaxTotal(db, e, n)
    ensures ScoreTotal(db', e, n) == ScoreTotal(db, e, n)
  {
    if n > 0 {
      MaxTotalReadsOnlyMaxScores(db, db', e, n - 1);
    }
  }

  /**
   * The current grade depends on the grades and the assignments' maximum
   * scores alone: changing any other assignment column, weight included,
   * leaves it as it was.
   */
  lemma CurrentGradeIgnoresWeight(db: Db, db': Db, e: nat)
    requires KeysIssued(db) && KeysIssued(db')
    requires db'.grades == db.grades && db'.nextId == db.nextId
    requires db'.assignments.Keys == db.assignments.Keys
    requires forall k :: k in db.assignments ==> db'.assignments[k].maxScore == db.assignments[k].maxScore
    ensures CurrentGrade(db', e) == CurrentGrade(db, e)
  {
    MaxTotalReadsOnlyMaxScores(db, db', e, db.nextId);
  }

  /**
   * Two assignments out of 100.00 graded 80.00 and 90.00: the current grade
   * is 85.0 percent. The code as written raises on the same data.
   */
  lemma EightyAndNinetyGiveEightyFive()
    ensures CurrentGrade(TwoGradeDb(), 4) == Ok(850)
    ensures CurrentGradeAsWritten(TwoGradeDb(), 4) == Err(AttributeError)
  {
    var db := TwoGradeDb();
    assert 5 in GradesOf(db, 4);
    assert MaxTotal(db, 4, 5) == Some(0);
    assert MaxTotal(db, 4, 6) == Some(10000);
    assert MaxTotal(db, 4, 7) == Some(20000);
    assert ScoreTotal(db, 4, 5) == 0;
    assert ScoreTotal(db, 4, 7) == 17000;
  }

  /** One student, one course, two assignments out of 100.00, grades 80.00 and 90.00. */
  function TwoGradeDb(): Db {
    Db(
      map[0 := NewUser("s")],
      map[1 := Course("C1", "Course", None, None, true)],
      map[2 := Assignment(1, "A", None, 0, 10000, DEFAULT_WEIGHT, true),
          3 := Assignment(1, "B", None, 1, 10000, DEFAULT_WEIGHT, true)],
      map[4 := Enrollment(0, 1, 0, true)],
      map[5 := Grade(4, Some(2), 8000, 1), 6 := Grade(4, Some(3), 9000, 2)],
      map[], 7, 3)
  }

  // ---------------------------------------------------------------------
  // Meta orderings
  // ---------------------------------------------------------------------

  /**
   * The announcements among `keep`, as ordering = ['-created_at'] lists
   * them: a scan of the primary keys below n from the highest down.
   */
  function NewestFirst(db: Db, keep: set<nat>, n: nat): (ids: seq<nat>)
    ensures forall i :: 0 <= i < |ids| ==> ids[i] in keep && ids[i] in db.announcements && ids[i] < n
    ensures forall i, j :: 0 <= i < j < |ids| ==> ids[i] > ids[j]
  {
    if n == 0 then []
    else if n - 1 in keep && n - 1 in db.announcements then [n - 1] + NewestFirst(db, keep, n - 1)
    else NewestFirst(db, keep, n - 1)
  }

  /** The scan misses none of the announcements it is asked for. */
  lemma {:induction false} NewestFirstComplete(db: Db, keep: set<nat>, n: nat)
    ensures forall k :: k in keep && k in db.announcements && k < n ==> k in NewestFirst(db, keep, n)
  {
    if n > 0 {
      NewestFirstComplete(db, keep, n - 1);
    }
  }

  /**
   * In a valid database the listing holds exactly the requested
   * announcements, each once, newest created_at first.
   */
  lemma NewestFirstIsByCreation(db: Db, keep: set<nat>)
    requires Valid(db)
    ensures var ids := NewestFirst(db, keep, db.nextId);
      && (forall k :: k in ids <==> k in keep && k in db.announcements)
      && (forall i, j :: 0 <= i < j < |ids| ==> ids[i] != ids[j])
      && (forall i, j :: 0 <= i < j < |ids| ==>
            db.announcements[ids[i]].createdAt > db.announcements[ids[j]].createdAt)
  {
    NewestFirstComplete(db, keep, db.nextId);
  }

  /** The scan below n lists as many keys as there are requested announcements below n. */
  lemma {:induction false} NewestFirstCountBelow(db: Db, keep: set<nat>, n: nat)
    ensures |NewestFirst(db, keep, n)| == |set k | k in keep && k in db.announcements && k < n|
  {
    var below := set k | k in keep && k in db.announcements && k < n;
    if n == 0 {
      assert below == {};
    } else {
      NewestFirstCountBelow(db, keep, n - 1);
      var rest := set k | k in keep && k in db.announcements && k < n - 1;
      if n - 1 in keep && n - 1 in db.announcements {
        assert below == rest + {n - 1};
      } else {
        assert below == rest;
      }
    }
  }

  /** In a valid database the listing holds exactly as many keys as there are requested announcements. */
  lemma NewestFirstCount(db: Db, keep: set<nat>)
    requires Valid(db) && keep <= db.announcements.Keys
    ensures |NewestFirst(db, keep, db.nextId)| == |keep|
  {
    NewestFirstCountBelow(db, keep, db.nextId);
    assert (set k | k in keep && k in db.announcements && k < db.nextId) == keep;
  }

  /** The primary keys among `keep` below n, in ascending order. */
  function AscendingKeys(keep: set<nat>, n: nat): (ids: seq<nat>)
    ensures forall i :: 0 <= i < |ids| ==> ids[i] in keep && ids[i] < n
    ensures forall i, j :: 0 <= i < j < |ids| ==> ids[i] < ids[j]
  {
    if n == 0 then []
    else AscendingKeys(keep, n - 1) + (if n - 1 in keep then [n - 1] else [])
  }

  lemma {:induction false} AscendingKeysComplete(keep: set<nat>, n: nat)
    ensures forall k :: k in keep && k < n ==> k in AscendingKeys(keep, n)
  {
    if n > 0 {
      AscendingKeysComplete(keep, n - 1);
    }
  }

  /** Scanning past the last key issued lists nothing more. */
  lemma {:induction false} AscendingKeysPastLast(keep: set<nat>, n: nat, m: nat)
    requires n <= m && forall k :: k in keep ==> k < n
    ensures AscendingKeys(keep, m) == AscendingKeys(keep, n)
  {
    if m > n {
      AscendingKeysPastLast(keep, n, m - 1);
    }
  }

  predicate AllAssignments(m: map<nat, Assignment>, ids: seq<nat>) {
    forall i :: 0 <= i < |ids| ==> ids[i] in m
  }

  /** ordering = ['due_date']: the listed assignments' due dates never decrease. */
  predicate ByDueDate(m: map<nat, Assignment>, ids: seq<nat>)
    requires AllAssignments(m, ids)
  {
    forall i, j :: 0 <= i < j < |ids| ==> m[ids[i]].dueDate <= m[ids[j]].dueDate
  }

  /** Puts x into a due-date-ordered list, after every entry due no later than it. */
  function InsertByDueDate(m: map<nat, Assignment>, x: nat, ids: seq<nat>): (r: seq<nat>)
    requires x in m && AllAssignments(m, ids) && ByDueDate(m, ids)
    ensures multiset(r) == multiset(ids) + multiset{x}
    ensures AllAssignments(m, r) && ByDueDate(m, r)
  {
    if ids == [] then [x]
    else if m[x].dueDate < m[ids[0]].dueDate then [x] + ids
    else
      var rest := InsertByDueDate(m, x, ids[1..]);
      assert ids == [ids[0]] + ids[1..];
      InsertStepOrdered(m, x, ids, rest);
      [ids[0]] + rest
  }

  /** Putting the head back in front of the list x went into keeps it ordered. */
  lemma InsertStepOrdered(m: map<nat, Assignment>, x: nat, ids: seq<nat>, rest: seq<nat>)
    requires x in m && |ids| > 0 && AllAssignments(m, ids) && ByDueDate(m, ids)
    requires m[ids[0]].dueDate <= m[x].dueDate
    requires AllAssignments(m, rest) && ByDueDate(m, rest)
    requires multiset(rest) == multiset(ids[1..]) + multiset{x}
    ensures AllAssignments(m, [ids[0]] + rest) && ByDueDate(m, [ids[0]] + rest)
  {
    forall i | 0 <= i < |rest|
      ensures m[ids[0]].dueDate <= m[rest[i]].dueDate
    {
      assert rest[i] in multiset(rest);
      if rest[i] != x {
        assert rest[i] in multiset(ids[1..]);
        var j :| 0 <= j < |ids[1..]| && ids[1..][j] == rest[i];
        assert ids[j + 1] == rest[i];
      }
    }
    var r := [ids[0]] + rest;
    forall i, j | 0 <= i < j < |r|
      ensures m[r[i]].dueDate <= m[r[j]].dueDate
    {
      if i > 0 {
        assert r[i] == rest[i - 1] && r[j] == rest[j - 1];
      } else {
        assert r[j] == rest[j - 1];
      }
    }
  }

  /** A stable insertion sort of `ids` by due date. */
  function SortByDueDate(m: map<nat, Assignment>, ids: seq<nat>): (r: seq<nat>)
    requires AllAssignments(m, ids)
    ensures multiset(r) == multiset(ids)
    ensures AllAssignments(m, r) && ByDueDate(m, r)
  {
    if ids == [] then []
    else
      assert ids == ids[..|ids| - 1] + [ids[|ids| - 1]];
      InsertByDueDate(m, ids[|ids| - 1], SortByDueDate(m, ids[..|ids| - 1]))
  }

  /** Each key of a sequence without repeats occurs in it at most once. */
  lemma {:induction false} DistinctOccursOnce(ids: seq<nat>, x: nat)
    requires forall i, j :: 0 <= i < j < |ids| ==> ids[i] != ids[j]
    ensures multiset(ids)[x] <= 1
  {
    if ids != [] {
      DistinctOccursOnce(ids[1..], x);
      assert ids == [ids[0]] + ids[1..];
      if ids[0] == x {
        assert x !in ids[1..];
      }
    }
  }

  /** A permutation of a sequence without repeats has no repeats either. */
  lemma PermutationKeepsDistinct(ids: seq<nat>, r: seq<nat>)
    requires forall i, j :: 0 <= i < j < |ids| ==> ids[i] != ids[j]
    requires multiset(r) == multiset(ids)
    ensures forall i, j :: 0 <= i < j < |r| ==> r[i] != r[j]
  {
    forall i, j | 0 <= i < j < |r|
      ensures r[i] != r[j]
    {
      if r[i] == r[j] {
        assert r == r[..i] + [r[i]] + r[i + 1..j] + [r[j]] + r[j + 1..];
        assert multiset(r)[r[i]] >= 2;
        DistinctOccursOnce(ids, r[i]);
        assert false;
      }
    }
  }
}
