/**
 * User.get_completion_rate (users/models.py). It reads the course tables, so
 * it lives in a module of its own, as the source defers its import of them.
 */
module UserProgress {
  import opened Wrappers
  import opened UserModels
  import opened CourseModels
  import opened Decimals

  /** The keys of user u's active enrollments. */
  function ActiveEnrollmentsOf(db: Db, u: nat): set<nat> {
    set k | k in db.enrollments && db.enrollments[k].student == u && db.enrollments[k].isActive
  }

  /** The active assignments of the courses behind the given enrollments. */
  function ActiveAssignmentsOf(db: Db, enrollments: set<nat>): set<nat>
    requires enrollments <= db.enrollments.Keys
  {
    var courses := set k | k in enrollments :: db.enrollments[k].course;
    set k | k in db.assignments && db.assignments[k].course in courses && db.assignments[k].isActive
  }

  /** Every grade recorded against one of the given enrollments, whatever its assignment. */
  function GradesAgainst(db: Db, enrollments: set<nat>): set<nat> {
    set k | k in db.grades && db.grades[k].enrollment in enrollments
  }

  /**
   * The completion rate as a whole percentage: 0 for a non-student, for a
   * student without active enrollments, and when the enrolled courses have no
   * active assignment; otherwise the number of grades over the number of
   * active assignments, times 100, rounded down.
   */
  function CompletionRate(db: Db, u: nat): (r: nat)
    requires u in db.users
    ensures !IsStudent(db.users[u]) ==> r == 0
    ensures ActiveEnrollmentsOf(db, u) == {} ==> r == 0
    ensures IsStudent(db.users[u]) && ActiveEnrollmentsOf(db, u) != {} ==>
      var enrolled := ActiveEnrollmentsOf(db, u);
      var total := |ActiveAssignmentsOf(db, enrolled)|;
      var completed := |GradesAgainst(db, enrolled)|;
      (total == 0 ==> r == 0) &&
      (total != 0 ==> r * total <= 100 * completed < (r + 1) * total)
  {
    if !IsStudent(db.users[u]) then 0
    else
      var enrolled := ActiveEnrollmentsOf(db, u);
      if enrolled == {} then 0
      else
        var total := |ActiveAssignmentsOf(db, enrolled)|;
        var completed := |GradesAgainst(db, enrolled)|;
        if total == 0 then 0
        else
          Percent(completed, total)
  }

  /** int(completed / total * 100): the whole percentage, rounded down. */
  function Percent(completed: nat, total: nat): (r: nat)
    requires total > 0
    ensures r * total <= 100 * completed < (r + 1) * total
  {
    DivSplit(100 * completed, total);
    (100 * completed) / total
  }

  /**
   * The rate is not capped at 100: grades count whatever their assignment,
   * so a grade on an inactive assignment adds to the numerator only. Here one
   * active and one inactive assignment, both graded, give 200.
   */
  lemma CompletionRateCanExceedHundred()
    ensures CompletionRate(InactiveGradedDb(), 0) == 200
  {
    var db := InactiveGradedDb();
    assert ActiveEnrollmentsOf(db, 0) == {3};
    assert ActiveAssignmentsOf(db, {3}) == {2};
    assert GradesAgainst(db, {3}) == {5, 6};
  }

  /** A student graded on the active assignment 2 and on the inactive assignment 4. */
  function InactiveGradedDb(): Db {
    Db(
      map[0 := NewUser("s")],
      map[1 := Course("C1", "Course", None, None, true)],
      map[2 := Assignment(1, "A", None, 0, 10000, DEFAULT_WEIGHT, true),
          4 := Assignment(1, "Old", None, 0, 10000, DEFAULT_WEIGHT, false)],
      map[3 := Enrollment(0, 1, 0, true)],
      map[5 := Grade(3, Some(2), 5000, 1), 6 := Grade(3, Some(4), 5000, 2)],
      map[], 7, 3)
  }
}
