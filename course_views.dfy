/**
 * The request handlers of courses/views.py, stripped of rendering, messages
 * and redirects: each handler becomes a function from the database (and the
 * logged-in user's key) to the new database and an outcome. The role-scoped
 * listings are queries on the database.
 */
module CourseViews {
  import opened Wrappers
  import opened Decimals
  import opened UserModels
  import opened CourseModels
  import opened CourseForms
  import opened CharFields

  /** How a handler ends when it does not succeed. */
  datatype ViewError =
    | Forbidden                  // a user_passes_test gate refused the user
    | NotFound                   // get_object_or_404 found no row
    | AlreadyEnrolled            // enroll_course's warning
    | NotAStudent                // available_courses redirects non-students
    | Invalid(error: FormError)  // the form did not validate
    | IntegrityError             // the store refused a duplicate row

  /** The database after a handler and what the handler produced. */
  datatype Step<T> = Step(db: Db, out: Result<T, ViewError>)

  // ---------------------------------------------------------------------
  // Gates
  // ---------------------------------------------------------------------

  /** What a gate's lambda returns: a value, or a method object it forgot to call. */
  datatype GateResult = BoundMethod | Value(b: bool)

  /** Python truthiness as user_passes_test applies it: a bound method is always true. */
  predicate Truthy(v: GateResult) {
    v.BoundMethod? || v.b
  }

  /**
   * The gate of manage_courses, edit_course and delete_course as written,
   * `lambda u: u.is_admin`: it returns the bound method itself, so every
   * logged-in user passes.
   */
  function AdminGateAsWritten(u: User): (passes: bool)
    ensures passes
  {
    Truthy(BoundMethod)
  }

  /** `lambda u: u.is_admin()`, as create_course writes it: only administrators pass. */
  function AdminGate(u: User): (passes: bool)
    ensures passes <==> u.role == ADMIN
  {
    Truthy(Value(IsAdmin(u)))
  }

  /** A student gets through the course-management gate as written, but not the called one. */
  lemma StudentPassesAdminGateAsWritten(u: User)
    requires IsStudent(u)
    ensures AdminGateAsWritten(u) && !AdminGate(u)
  {
  }

  // ---------------------------------------------------------------------
  // Queries shared by the listings
  // ---------------------------------------------------------------------

  /** Student s holds some enrollment, active or not, in course c. */
  predicate HasEnrollment(db: Db, s: nat, c: nat) {
    exists k :: k in db.enrollments && db.enrollments[k].student == s && db.enrollments[k].course == c
  }

  /** Student s holds an active enrollment in course c. */
  predicate HasActiveEnrollment(db: Db, s: nat, c: nat) {
    exists k :: k in db.enrollments && db.enrollments[k].student == s && db.enrollments[k].course == c &&
                db.enrollments[k].isActive
  }

  function ActiveCourses(db: Db): set<nat> {
    set c | c in db.courses && db.courses[c].isActive
  }

  // ---------------------------------------------------------------------
  // course_list and available_courses
  // ---------------------------------------------------------------------

  /**
   * course_list: a student sees the active courses they are actively enrolled
   * in, an instructor the active courses they teach, anyone else every
   * active course.
   */
  function CourseList(db: Db, viewer: nat): (r: set<nat>)
    requires viewer in db.users
    ensures r <= ActiveCourses(db)
    ensures db.users[viewer].role == STUDENT ==>
      forall c :: c in r <==> c in ActiveCourses(db) && HasActiveEnrollment(db, viewer, c)
    ensures db.users[viewer].role == INSTRUCTOR ==>
      forall c :: c in r <==> c in ActiveCourses(db) && db.courses[c].instructor == Some(viewer)
    ensures db.users[viewer].role != STUDENT && db.users[viewer].role != INSTRUCTOR ==> r == ActiveCourses(db)
  {
    var role := db.users[viewer].role;
    if role == STUDENT then
      set c | c in db.courses && db.courses[c].isActive && HasActiveEnrollment(db, viewer, c)
    else if role == INSTRUCTOR then
      set c | c in db.courses && db.courses[c].isActive && db.courses[c].instructor == Some(viewer)
    else ActiveCourses(db)
  }

  /**
   * available_courses: non-students are turned away; a student sees the
   * active courses minus those they hold an active enrollment in.
   */
  function AvailableCourses(db: Db, viewer: nat): (r: Result<set<nat>, ViewError>)
    requires viewer in db.users
    ensures r.Err? <==> db.users[viewer].role != STUDENT
    ensures r.Err? ==> r.error == NotAStudent
    ensures r.Ok? ==> forall c :: c in r.value <==> c in ActiveCourses(db) && !HasActiveEnrollment(db, viewer, c)
  {
    if db.users[viewer].role != STUDENT then Err(NotAStudent)
    else
      var enrolled := set c | c in db.courses && HasActiveEnrollment(db, viewer, c);
      Ok(ActiveCourses(db) - enrolled)
  }

  /**
   * For a student, course_list and available_courses split the active
   * courses: each active course is in exactly one of the two.
   */
  lemma StudentListingsPartition(db: Db, viewer: nat)
    requires viewer in db.users && db.users[viewer].role == STUDENT
    ensures AvailableCourses(db, viewer).Ok?
    ensures CourseList(db, viewer) * AvailableCourses(db, viewer).value == {}
    ensures CourseList(db, viewer) + AvailableCourses(db, viewer).value == ActiveCourses(db)
  {
    var mine := CourseList(db, viewer);
    var free := AvailableCourses(db, viewer).value;
    assert forall c :: c in mine + free <==> c in ActiveCourses(db);
  }

  // ---------------------------------------------------------------------
  // enroll_course
  // ---------------------------------------------------------------------

  /**
   * enroll_course for the logged-in user `user`: students only; the course
   * must exist; any enrollment for the pair, active or inactive, is refused;
   * otherwise one new active enrollment is created and nothing else changes.
   */
  function EnrollCourse(db: Db, user: nat, course: nat): (r: Step<nat>)
    requires KeysIssued(db) && user in db.users
    ensures KeysIssued(r.db)
    ensures r.out == Err(Forbidden) <==> !IsStudent(db.users[user])
    ensures r.out == Err(NotFound) <==> IsStudent(db.users[user]) && course !in db.courses
    ensures r.out == Err(AlreadyEnrolled) <==>
      IsStudent(db.users[user]) && course in db.courses && HasEnrollment(db, user, course)
    ensures r.out.Err? ==> r.db == db
    ensures r.out.Ok? ==>
      && r.out.value !in db.enrollments
      && r.db.enrollments.Keys == db.enrollments.Keys + {r.out.value}
      && r.db.enrollments[r.out.value] == Enrollment(user, course, db.clock, true)
      && (forall k :: k in db.enrollments ==> r.db.enrollments[k] == db.enrollments[k])
      && r.db.users == db.users && r.db.courses == db.courses && r.db.assignments == db.assignments
      && r.db.grades == db.grades && r.db.announcements == db.announcements
  {
    if !IsStudent(db.users[user]) then Step(db, Err(Forbidden))
    else if course !in db.courses then Step(db, Err(NotFound))
    else if HasEnrollment(db, user, course) then Step(db, Err(AlreadyEnrolled))
    else
      var id := db.nextId;
      Step(db.(enrollments := db.enrollments[id := Enrollment(user, course, db.clock, true)],
               nextId := id + 1, clock := db.clock + 1),
           Ok(id))
  }

  lemma EnrollCourseKeepsValid(db: Db, user: nat, course: nat)
    requires Valid(db) && user in db.users
    ensures Valid(EnrollCourse(db, user, course).db)
  {
    if EnrollCourse(db, user, course).out.Ok? {
      InsertEnrollmentKeepsValid(db, user, course);
    }
  }

  /** Adding the first enrollment of an existing student in an existing course keeps every invariant. */
  lemma InsertEnrollmentKeepsValid(db: Db, s: nat, c: nat)
    requires Valid(db) && s in db.users && c in db.courses && !HasEnrollment(db, s, c)
    ensures Valid(db.(enrollments := db.enrollments[db.nextId := Enrollment(s, c, db.clock, true)],
                      nextId := db.nextId + 1, clock := db.clock + 1))
  {
    var r := db.(enrollments := db.enrollments[db.nextId := Enrollment(s, c, db.clock, true)],
                 nextId := db.nextId + 1, clock := db.clock + 1);
    AppendEnrollmentKeepsUnique(db, Enrollment(s, c, db.clock, true));
    assert KeysIssued(r);
    assert ForeignKeysResolve(r);
    assert UniqueGrades(r);
    assert Chronological(r);
  }

  /** An enrollment under the next key for a pair with none yet keeps the pairs unique. */
  lemma AppendEnrollmentKeepsUnique(db: Db, en: Enrollment)
    requires UniqueEnrollments(db) && !HasEnrollment(db, en.student, en.course)
    ensures UniqueEnrollments(db.(enrollments := db.enrollments[db.nextId := en], nextId := db.nextId + 1, clock := db.clock + 1))
  {
    assert forall j :: j in db.enrollments ==> !(db.enrollments[j].student == en.student && db.enrollments[j].course == en.course);
  }

  /**
   * Enrolling twice in the same course: the second attempt is refused and
   * exactly one enrollment row exists for the pair.
   */
  lemma EnrollTwiceKeepsOneRow(db: Db, user: nat, course: nat)
    requires Valid(db) && user in db.users && IsStudent(db.users[user]) && course in db.courses
    ensures var first := EnrollCourse(db, user, course);
      && EnrollCourse(first.db, user, course).out == Err(AlreadyEnrolled)
      && EnrollCourse(first.db, user, course).db == first.db
      && exists k :: k in first.db.enrollments &&
           forall j :: (j in first.db.enrollments && first.db.enrollments[j].student == user &&
                        first.db.enrollments[j].course == course) <==> j == k
  {
    var first := EnrollCourse(db, user, course);
    if HasEnrollment(db, user, course) {
      assert first.db == db;
    } else {
      assert first.db.enrollments == db.enrollments[db.nextId := Enrollment(user, course, db.clock, true)];
      AppendEnrollmentKeepsUnique(db, Enrollment(user, course, db.clock, true));
    }
    var k :| k in first.db.enrollments && first.db.enrollments[k].student == user &&
             first.db.enrollments[k].course == course;
    assert HasEnrollment(first.db, user, course);
  }

  /**
   * A course whose only enrollment for the student is inactive is listed as
   * available, yet enroll_course refuses it.
   */
  lemma DroppedCourseListedButRefused(db: Db, user: nat, course: nat, k: nat)
    requires Valid(db) && user in db.users && IsStudent(db.users[user])
    requires course in db.courses && db.courses[course].isActive
    requires k in db.enrollments && db.enrollments[k].student == user && db.enrollments[k].course == course
    requires !db.enrollments[k].isActive
    ensures course in AvailableCourses(db, user).value
    ensures EnrollCourse(db, user, course).out == Err(AlreadyEnrolled)
  {
    assert !HasActiveEnrollment(db, user, course);
  }

  // ---------------------------------------------------------------------
  // announcement_list and announcement_detail
  // ---------------------------------------------------------------------

  /**
   * The announcements a user may list: the active ones of the courses a
   * student is actively enrolled in, of the courses an instructor teaches, or
   * every active one for anyone else. expires_at is never consulted.
   */
  function VisibleAnnouncements(db: Db, viewer: nat): (r: set<nat>)
    requires viewer in db.users
    ensures forall a :: a in r <==>
      a in db.announcements && db.announcements[a].isActive &&
      (if db.users[viewer].role == STUDENT then HasActiveEnrollment(db, viewer, db.announcements[a].course)
       else if db.users[viewer].role == INSTRUCTOR then
         db.announcements[a].course in db.courses &&
         db.courses[db.announcements[a].course].instructor == Some(viewer)
       else true)
  {
    var role := db.users[viewer].role;
    set a | a in db.announcements && db.announcements[a].isActive &&
            (if role == STUDENT then HasActiveEnrollment(db, viewer, db.announcements[a].course)
             else if role == INSTRUCTOR then
               db.announcements[a].course in db.courses &&
               db.courses[db.announcements[a].course].instructor == Some(viewer)
             else true)
  }

  /** One line of the announcement list; only a student's lines carry an is_read flag. */
  datatype ListedAnnouncement = ListedAnnouncement(id: nat, isRead: Option<bool>)

  /**
   * announcement_list: the visible announcements newest first, each marked
   * read or unread when the viewer is a student.
   */
  function AnnouncementList(db: Db, viewer: nat): (r: seq<ListedAnnouncement>)
    requires viewer in db.users
    ensures var ids := NewestFirst(db, VisibleAnnouncements(db, viewer), db.nextId);
      && |r| == |ids|
      && forall i :: 0 <= i < |r| ==>
           && r[i].id == ids[i]
           && r[i].isRead == if db.users[viewer].role == STUDENT
                             then Some(viewer in db.announcements[ids[i]].readBy) else None
  {
    var ids := NewestFirst(db, VisibleAnnouncements(db, viewer), db.nextId);
    seq(|ids|, i requires 0 <= i < |ids| =>
      ListedAnnouncement(ids[i],
        if db.users[viewer].role == STUDENT then Some(viewer in db.announcements[ids[i]].readBy) else None))
  }

  /**
   * In a valid database the list holds every visible announcement once,
   * newest created_at first.
   */
  lemma AnnouncementListNewestFirst(db: Db, viewer: nat)
    requires Valid(db) && viewer in db.users
    ensures var r := AnnouncementList(db, viewer);
      && (forall a :: (exists i :: 0 <= i < |r| && r[i].id == a) <==> a in VisibleAnnouncements(db, viewer))
      && (forall i, j :: 0 <= i < j < |r| ==>
            db.announcements[r[i].id].createdAt > db.announcements[r[j].id].createdAt)
  {
    var keep := VisibleAnnouncements(db, viewer);
    NewestFirstIsByCreation(db, keep);
    var ids := NewestFirst(db, keep, db.nextId);
    var r := AnnouncementList(db, viewer);
    forall a | a in keep
      ensures exists i :: 0 <= i < |r| && r[i].id == a
    {
      var i :| 0 <= i < |ids| && ids[i] == a;
      assert r[i].id == a;
    }
  }

  /** Two databases that differ only in their announcements' expires_at. */
  predicate SameButExpiry(db: Db, db': Db) {
    && db'.users == db.users && db'.courses == db.courses && db'.enrollments == db.enrollments
    && db'.nextId == db.nextId
    && db'.announcements.Keys == db.announcements.Keys
    && forall a :: a in db.announcements ==>
         db'.announcements[a] == db.announcements[a].(expiresAt := db'.announcements[a].expiresAt)
  }

  lemma {:induction false} NewestFirstIgnoresExpiry(db: Db, db': Db, keep: set<nat>, n: nat)
    requires SameButExpiry(db, db')
    ensures NewestFirst(db', keep, n) == NewestFirst(db, keep, n)
  {
    if n > 0 {
      NewestFirstIgnoresExpiry(db, db', keep, n - 1);
    }
  }

  /** Changing when announcements expire changes nothing in anyone's list. */
  lemma AnnouncementListIgnoresExpiry(db: Db, db': Db, viewer: nat)
    requires SameButExpiry(db, db') && viewer in db.users
    ensures AnnouncementList(db', viewer) == AnnouncementList(db, viewer)
  {
    var keep := VisibleAnnouncements(db, viewer);
    assert VisibleAnnouncements(db', viewer) == keep;
    NewestFirstIgnoresExpiry(db, db', keep, db.nextId);
  }

  /**
   * announcement_detail: a missing announcement is NotFound; a student who
   * opens one joins its read_by set; nobody else changes anything.
   */
  function AnnouncementDetail(db: Db, viewer: nat, a: nat): (r: Step<nat>)
    requires viewer in db.users
    ensures r.out.Err? <==> a !in db.announcements
    ensures r.out.Err? ==> r.out.error == NotFound && r.db == db
    ensures r.out.Ok? ==> r.out.value == a
    ensures r.out.Ok? ==>
      && r.db.announcements.Keys == db.announcements.Keys
      && r.db.announcements[a].readBy ==
           db.announcements[a].readBy + (if db.users[viewer].role == STUDENT then {viewer} else {})
      && r.db.announcements[a] == db.announcements[a].(readBy := r.db.announcements[a].readBy)
      && (forall k :: k in db.announcements && k != a ==> r.db.announcements[k] == db.announcements[k])
      && r.db == db.(announcements := r.db.announcements)
  {
    if a !in db.announcements then Step(db, Err(NotFound))
    else if db.users[viewer].role == STUDENT then
      var ann := db.announcements[a];
      Step(db.(announcements := db.announcements[a := ann.(readBy := ann.readBy + {viewer})]), Ok(a))
    else Step(db, Ok(a))
  }

  /** Opening an announcement a second time changes nothing. */
  lemma AnnouncementDetailIdempotent(db: Db, viewer: nat, a: nat)
    requires viewer in db.users
    ensures var once := AnnouncementDetail(db, viewer, a).db;
      AnnouncementDetail(once, viewer, a).db == once
  {
    var once := AnnouncementDetail(db, viewer, a).db;
    if a in db.announcements && db.users[viewer].role == STUDENT {
      assert once.announcements[a].readBy + {viewer} == once.announcements[a].readBy;
      assert once.announcements[a := once.announcements[a]] == once.announcements;
    }
  }

  lemma AnnouncementDetailKeepsValid(db: Db, viewer: nat, a: nat)
    requires Valid(db) && viewer in db.users
    ensures Valid(AnnouncementDetail(db, viewer, a).db)
  {
    if a in db.announcements && db.users[viewer].role == STUDENT {
      var ann := db.announcements[a];
      var anns := db.announcements[a := ann.(readBy := ann.readBy + {viewer})];
      assert AnnouncementDetail(db, viewer, a).db == db.(announcements := anns, nextId := db.nextId, clock := db.clock);
      MarkReadKeepsRows(db, a, viewer);
      AnnouncementWriteKeepsValid(db, anns, db.nextId, db.clock);
    }
  }

  // ---------------------------------------------------------------------
  // add_grade
  // ---------------------------------------------------------------------

  /** The first enrollment of student s in course c among the keys below n. */
  function FindEnrollment(db: Db, s: nat, c: nat, n: nat): (r: Option<nat>)
    ensures r.Some? ==>
      r.value in db.enrollments && db.enrollments[r.value].student == s && db.enrollments[r.value].course == c
    ensures r.None? ==>
      forall k :: k in db.enrollments && k < n ==> !(db.enrollments[k].student == s && db.enrollments[k].course == c)
  {
    if n == 0 then None
    else match FindEnrollment(db, s, c, n - 1)
      case Some(k) => Some(k)
      case None =>
        if n - 1 in db.enrollments && db.enrollments[n - 1].student == s && db.enrollments[n - 1].course == c
        then Some(n - 1) else None
  }

  /** A grade already exists for enrollment e and assignment a. */
  predicate GradeExists(db: Db, e: nat, a: nat) {
    exists k :: k in db.grades && db.grades[k].enrollment == e && db.grades[k].assignment == Some(a)
  }

  /**
   * add_grade (POST) by the logged-in user `user` for `student` in `course`:
   * instructors only (any instructor, not just the course's); course, student
   * and their enrollment must exist; the GradeForm is built without an
   * enrollment, so any assignment may be chosen. The form does not check the
   * (enrollment, assignment) pair, so a duplicate reaches the store and fails
   * there. Otherwise exactly one grade is added.
   */
  function AddGrade(db: Db, user: nat, course: nat, student: nat, assignment: Option<nat>, score: Option<int>): (r: Step<nat>)
    requires Valid(db) && user in db.users
    ensures r.out.Err? ==> r.db == db
    ensures r.out == Err(Forbidden) <==> !IsInstructor(db.users[user])
    ensures r.out.Ok? ==>
      && assignment.Some? && score.Some? && assignment.value in db.assignments
      && r.out.value !in db.grades
      && r.db.grades.Keys == db.grades.Keys + {r.out.value}
      && (forall k :: k in db.grades ==> r.db.grades[k] == db.grades[k])
      && (var g := r.db.grades[r.out.value];
          && g.enrollment in db.enrollments
          && db.enrollments[g.enrollment].student == student && db.enrollments[g.enrollment].course == course
          && g.assignment == assignment && g.score == score.value
          && (g.score == 0 || g.score <= db.assignments[assignment.value].maxScore))
      && r.db.users == db.users && r.db.courses == db.courses && r.db.assignments == db.assignments
      && r.db.enrollments == db.enrollments && r.db.announcements == db.announcements
  {
    if !IsInstructor(db.users[user]) then Step(db, Err(Forbidden))
    else if course !in db.courses || student !in db.users then Step(db, Err(NotFound))
    else
      match FindEnrollment(db, student, course, db.nextId)
      case None => Step(db, Err(NotFound))
      case Some(e) => GradeEnrollment(db, e, ValidateGradeForm(db, None, assignment, score))
  }

  /**
   * The part of add_grade once the enrollment e is found and the GradeForm
   * has been validated: an invalid form changes nothing; a valid one is saved
   * unless the (enrollment, assignment) pair already has a grade, which the
   * store refuses.
   */
  function GradeEnrollment(db: Db, e: nat, form: Result<(nat, int), FormError>): (r: Step<nat>)
    requires KeysIssued(db)
    ensures r.out.Err? ==> r.db == db
    ensures form.Err? ==> r.out == Err(Invalid(form.error))
    ensures r.out == Err(IntegrityError) <==> form.Ok? && GradeExists(db, e, form.value.0)
    ensures r.out.Ok? <==> form.Ok? && !GradeExists(db, e, form.value.0)
    ensures r.out.Ok? ==>
      && r.out.value == db.nextId
      && r.db.grades.Keys == db.grades.Keys + {db.nextId}
      && r.db.grades[db.nextId] == Grade(e, Some(form.value.0), form.value.1, db.clock)
      && db.nextId !in db.grades
      && (forall k :: k in db.grades ==> r.db.grades[k] == db.grades[k])
      && r.db == db.(grades := r.db.grades, nextId := db.nextId + 1, clock := db.clock + 1)
  {
    match form
    case Err(fe) => Step(db, Err(Invalid(fe)))
    case Ok((a, sc)) =>
      if GradeExists(db, e, a) then Step(db, Err(IntegrityError))
      else
        var id := db.nextId;
        Step(db.(grades := db.grades[id := Grade(e, Some(a), sc, db.clock)],
                 nextId := id + 1, clock := db.clock + 1),
             Ok(id))
  }

  /** With a valid form and no grade for the pair yet, the step inserts the grade under the next key. */
  lemma GradeEnrollmentInserts(db: Db, e: nat, a: nat, sc: int)
    requires KeysIssued(db) && !GradeExists(db, e, a)
    ensures GradeEnrollment(db, e, Ok((a, sc))) ==
      Step(db.(grades := db.grades[db.nextId := Grade(e, Some(a), sc, db.clock)],
               nextId := db.nextId + 1, clock := db.clock + 1), Ok(db.nextId))
  {
  }

  /**
   * add_grade succeeds exactly when an instructor grades an existing student
   * of an existing course through a valid form, and that student's
   * enrollment has no grade yet for the chosen assignment.
   */
  lemma AddGradeSucceedsIff(db: Db, user: nat, course: nat, student: nat, assignment: Option<nat>, score: Option<int>)
    requires Valid(db) && user in db.users
    ensures AddGrade(db, user, course, student, assignment, score).out.Ok? <==>
      && IsInstructor(db.users[user])
      && course in db.courses && student in db.users
      && ValidateGradeForm(db, None, assignment, score).Ok?
      && exists e :: e in db.enrollments && db.enrollments[e].student == student &&
                     db.enrollments[e].course == course && !GradeExists(db, e, assignment.value)
  {
    if IsInstructor(db.users[user]) && course in db.courses && student in db.users {
      var found := FindEnrollment(db, student, course, db.nextId);
      if found.Some? {
        assert ValidateGradeForm(db, None, assignment, score).Ok? ==>
          ValidateGradeForm(db, None, assignment, score) == Ok((assignment.value, score.value));
        forall e | e in db.enrollments && db.enrollments[e].student == student && db.enrollments[e].course == course
          ensures e == found.value
        {
        }
      }
    }
  }

  /** The row add_grade inserts when it succeeds, and the database it leaves. */
  lemma AddGradeInserts(db: Db, user: nat, course: nat, student: nat, assignment: Option<nat>, score: Option<int>)
    returns (e: nat)
    requires Valid(db) && user in db.users
    requires AddGrade(db, user, course, student, assignment, score).out.Ok?
    ensures FindEnrollment(db, student, course, db.nextId) == Some(e)
    ensures assignment.Some? && score.Some? && !GradeExists(db, e, assignment.value)
    ensures assignment.value in db.assignments
    ensures AddGrade(db, user, course, student, assignment, score).db ==
      db.(grades := db.grades[db.nextId := Grade(e, assignment, score.value, db.clock)],
          nextId := db.nextId + 1, clock := db.clock + 1)
  {
    var found := FindEnrollment(db, student, course, db.nextId);
    assert IsInstructor(db.users[user]) && course in db.courses && student in db.users;
    assert found.Some?;
    e := found.value;
    assert AddGrade(db, user, course, student, assignment, score) ==
      GradeEnrollment(db, e, ValidateGradeForm(db, None, assignment, score));
    assert ValidateGradeForm(db, None, assignment, score) == Ok((assignment.value, score.value));
  }

  /** Inserting a grade for a pair that has none keeps every invariant. */
  lemma InsertGradeKeepsValid(db: Db, e: nat, a: nat, score: int)
    requires Valid(db) && e in db.enrollments && a in db.assignments && !GradeExists(db, e, a)
    ensures Valid(db.(grades := db.grades[db.nextId := Grade(e, Some(a), score, db.clock)],
                      nextId := db.nextId + 1, clock := db.clock + 1))
  {
    var r := db.(grades := db.grades[db.nextId := Grade(e, Some(a), score, db.clock)],
                 nextId := db.nextId + 1, clock := db.clock + 1);
    AppendGradeKeepsRows(db, Grade(e, Some(a), score, db.clock));
    assert KeysIssued(r);
    assert ForeignKeysResolve(r);
    assert Chronological(r);
  }

  /**
   * A grade under the next key whose keys resolve, for a pair with no grade
   * yet, keeps the grades' keys resolving and the pairs unique.
   */
  lemma AppendGradeKeepsRows(db: Db, g: Grade)
    requires UniqueGrades(db) && GradeKeysResolve(db)
    requires g.enrollment in db.enrollments && (g.assignment.Some? ==> g.assignment.value in db.assignments)
    requires g.assignment.Some? ==> !GradeExists(db, g.enrollment, g.assignment.value)
    ensures var r := db.(grades := db.grades[db.nextId := g], nextId := db.nextId + 1, clock := db.clock + 1);
      UniqueGrades(r) && GradeKeysResolve(r)
  {
    assert g.assignment.Some? ==> forall k :: k in db.grades ==>
      !(db.grades[k].enrollment == g.enrollment && db.grades[k].assignment == g.assignment);
  }

  lemma AddGradeKeepsValid(db: Db, user: nat, course: nat, student: nat, assignment: Option<nat>, score: Option<int>)
    requires Valid(db) && user in db.users
    ensures Valid(AddGrade(db, user, course, student, assignment, score).db)
  {
    if AddGrade(db, user, course, student, assignment, score).out.Ok? {
      var e := AddGradeInserts(db, user, course, student, assignment, score);
      InsertGradeKeepsValid(db, e, assignment.value, score.value);
    }
  }

  lemma {:induction false} FindEnrollmentReadsEnrollments(db: Db, db': Db, s: nat, c: nat, n: nat)
    requires db'.enrollments == db.enrollments
    ensures FindEnrollment(db', s, c, n) == FindEnrollment(db, s, c, n)
  {
    if n > 0 {
      FindEnrollmentReadsEnrollments(db, db', s, c, n - 1);
    }
  }

  /** add_grade for a pair that already has a grade fails at the store and changes nothing. */
  lemma AddGradeRefusesExisting(db: Db, user: nat, course: nat, student: nat, assignment: Option<nat>, score: Option<int>, e: nat)
    requires Valid(db) && user in db.users && IsInstructor(db.users[user])
    requires course in db.courses && student in db.users
    requires FindEnrollment(db, student, course, db.nextId) == Some(e)
    requires ValidateGradeForm(db, None, assignment, score).Ok?
    requires GradeExists(db, e, assignment.value)
    ensures AddGrade(db, user, course, student, assignment, score) == Step(db, Err(IntegrityError))
  {
    assert ValidateGradeForm(db, None, assignment, score) == Ok((assignment.value, score.value));
  }

  /** The grade form offers the same choices whatever grades exist. */
  lemma GradeFormIgnoresGrades(db: Db, db': Db, assignment: Option<nat>, score: Option<int>)
    requires KeysIssued(db) && KeysIssued(db')
    requires db'.assignments == db.assignments && db.nextId <= db'.nextId
    ensures ValidateGradeForm(db', None, assignment, score) == ValidateGradeForm(db, None, assignment, score)
  {
    var keep := db.assignments.Keys;
    assert ChoiceSet(db', None) == keep && ChoiceSet(db, None) == keep;
    AscendingKeysPastLast(keep, db.nextId, db'.nextId);
  }

  /** After a grade for the pair is inserted, the same request finds e and a grade for the pair. */
  lemma InsertedGradeIsFound(db: Db, s: nat, c: nat, e: nat, assignment: Option<nat>, score: Option<int>)
    requires KeysIssued(db) && e in db.enrollments && score.Some?
    requires assignment.Some? && assignment.value in db.assignments && !GradeExists(db, e, assignment.value)
    requires FindEnrollment(db, s, c, db.nextId) == Some(e)
    ensures var first := db.(grades := db.grades[db.nextId := Grade(e, assignment, score.value, db.clock)],
                             nextId := db.nextId + 1, clock := db.clock + 1);
      && KeysIssued(first)
      && GradeExists(first, e, assignment.value)
      && FindEnrollment(first, s, c, first.nextId) == Some(e)
      && ValidateGradeForm(first, None, assignment, score) == ValidateGradeForm(db, None, assignment, score)
  {
    var first := db.(grades := db.grades[db.nextId := Grade(e, assignment, score.value, db.clock)],
                     nextId := db.nextId + 1, clock := db.clock + 1);
    assert KeysIssued(first);
    assert first.grades[db.nextId].enrollment == e;
    assert FindEnrollment(db, s, c, first.nextId) == Some(e);
    FindEnrollmentReadsEnrollments(db, first, s, c, first.nextId);
    GradeFormIgnoresGrades(db, first, assignment, score);
  }

  /** Entering the same grade twice: the store refuses the second one and keeps the first. */
  lemma AddGradeTwiceRefused(db: Db, user: nat, course: nat, student: nat, assignment: Option<nat>, score: Option<int>)
    requires Valid(db) && user in db.users
    requires AddGrade(db, user, course, student, assignment, score).out.Ok?
    ensures var first := AddGrade(db, user, course, student, assignment, score).db;
      Valid(first) && AddGrade(first, user, course, student, assignment, score) == Step(first, Err(IntegrityError))
  {
    var e := AddGradeInserts(db, user, course, student, assignment, score);
    var first := db.(grades := db.grades[db.nextId := Grade(e, assignment, score.value, db.clock)],
                     nextId := db.nextId + 1, clock := db.clock + 1);
    InsertGradeKeepsValid(db, e, assignment.value, score.value);
    InsertedGradeIsFound(db, student, course, e, assignment, score);
    AddGradeRefusesExisting(first, user, course, student, assignment, score, e);
  }

  // ---------------------------------------------------------------------
  // create_course, edit_course, delete_course
  // ---------------------------------------------------------------------

  /**
   * create_course: administrators only (this gate calls is_admin()); a valid
   * CourseForm adds one active course.
   */
  function CreateCourse(db: Db, user: nat, data: CourseFormData): (r: Step<nat>)
    requires KeysIssued(db) && user in db.users
    ensures r.out == Err(Forbidden) <==> !AdminGate(db.users[user])
    ensures r.out.Ok? <==> AdminGate(db.users[user]) && ValidateCourseForm(db, data, None).Ok?
    ensures r.out.Err? ==> r.db == db
    ensures r.out.Ok? ==>
      && r.out.value !in db.courses
      && (var c := CleanCourseForm(data);
          r.db.courses == db.courses[r.out.value := Course(c.code, c.name, c.description, c.instructor, true)])
      && r.db.users == db.users && r.db.assignments == db.assignments && r.db.enrollments == db.enrollments
      && r.db.grades == db.grades && r.db.announcements == db.announcements
  {
    if !AdminGate(db.users[user]) then Step(db, Err(Forbidden))
    else
      match ValidateCourseForm(db, data, None)
      case Err(fe) => Step(db, Err(Invalid(fe)))
      case Ok(d) =>
        var id := db.nextId;
        Step(db.(courses := db.courses[id := Course(d.code, d.name, d.description, d.instructor, true)],
                 nextId := id + 1),
             Ok(id))
  }

  lemma CreateCourseKeepsValid(db: Db, user: nat, data: CourseFormData)
    requires Valid(db) && user in db.users
    ensures Valid(CreateCourse(db, user, data).db)
  {
    if AdminGate(db.users[user]) && ValidateCourseForm(db, data, None).Ok? {
      var d := CleanCourseForm(data);
      var c := Course(d.code, d.name, d.description, d.instructor, true);
      assert CreateCourse(db, user, data).db == db.(courses := db.courses[db.nextId := c], nextId := db.nextId + 1);
      AppendCourseKeepsValid(db, c);
    }
  }

  /** A new course under the next key whose instructor, if any, exists keeps every invariant. */
  lemma AppendCourseKeepsValid(db: Db, c: Course)
    requires Valid(db) && (c.instructor.Some? ==> c.instructor.value in db.users)
    ensures Valid(db.(courses := db.courses[db.nextId := c], nextId := db.nextId + 1))
  {
    var r := db.(courses := db.courses[db.nextId := c], nextId := db.nextId + 1);
    assert KeysIssued(r);
    assert ForeignKeysResolve(r);
  }

  /**
   * edit_course (POST): behind the administrator gate; the course must exist;
   * a valid CourseForm overwrites code, name, description and instructor, and
   * nothing else: is_active in particular is never changed.
   */
  function EditCourse(db: Db, user: nat, course: nat, data: CourseFormData): (r: Step<nat>)
    requires Valid(db) && user in db.users
    ensures r.out == Err(Forbidden) <==> !AdminGate(db.users[user])
    ensures r.out.Ok? <==>
      AdminGate(db.users[user]) && course in db.courses && ValidateCourseForm(db, data, Some(course)).Ok?
    ensures r.out.Err? ==> r.db == db
    ensures r.out.Ok? ==>
      && r.db.courses.Keys == db.courses.Keys
      && (var c := CleanCourseForm(data);
          r.db.courses[course] == db.courses[course].(code := c.code, name := c.name,
                                                      description := c.description, instructor := c.instructor))
      && r.db.courses[course].isActive == db.courses[course].isActive
      && (forall k :: k in db.courses && k != course ==> r.db.courses[k] == db.courses[k])
      && r.db == db.(courses := r.db.courses)
  {
    if !AdminGate(db.users[user]) then Step(db, Err(Forbidden))
    else if course !in db.courses then Step(db, Err(NotFound))
    else
      match ValidateCourseForm(db, data, Some(course))
      case Err(fe) => Step(db, Err(Invalid(fe)))
      case Ok(d) => Step(db.(courses := db.courses[course := ApplyCourseForm(db.courses[course], d)]), Ok(course))
  }

  lemma EditCourseKeepsValid(db: Db, user: nat, course: nat, data: CourseFormData)
    requires Valid(db) && user in db.users
    ensures Valid(EditCourse(db, user, course, data).db)
  {
    var r := EditCourse(db, user, course, data);
    if r.out.Ok? {
      assert ForeignKeysResolve(r.db);
    }
  }

  /**
   * delete_course (POST): behind the administrator gate; the course must
   * exist; it is deleted with everything that cascades from it.
   */
  function DeleteCourseView(db: Db, user: nat, course: nat): (r: Step<nat>)
    requires Valid(db) && user in db.users
    ensures r.out == Err(Forbidden) <==> !AdminGate(db.users[user])
    ensures r.out == Err(NotFound) <==> AdminGate(db.users[user]) && course !in db.courses
    ensures r.out.Err? ==> r.db == db
    ensures r.out.Ok? ==> r.db == DeleteCourse(db, course) && course !in r.db.courses
    ensures Valid(r.db)
  {
    if !AdminGate(db.users[user]) then Step(db, Err(Forbidden))
    else if course !in db.courses then Step(db, Err(NotFound))
    else
      DeleteCourseKeepsValid(db, course);
      Step(DeleteCourse(db, course), Ok(course))
  }

  // ---------------------------------------------------------------------
  // create_announcement
  // ---------------------------------------------------------------------

  /**
   * Announcement creation as a plain insert: instructors only; the course
   * must exist; title (at most 200 characters) and content are required
   * CharFields, so both are stripped before they are checked and stored. The
   * new announcement is active, unread, authored by the user and stamped
   * with the current clock.
   */
  function CreateAnnouncement(db: Db, user: nat, course: nat, title: string, content: string, expiresAt: Option<int>): (r: Step<nat>)
    requires Valid(db) && user in db.users
    ensures r.out == Err(Forbidden) <==> !IsInstructor(db.users[user])
    ensures r.out.Ok? <==>
      && IsInstructor(db.users[user]) && course in db.courses
      && Strip(title) != "" && |Strip(title)| <= 200 && Strip(content) != ""
    ensures r.out.Err? ==> r.db == db
    ensures r.out.Ok? ==>
      && r.out.value !in db.announcements
      && r.db.announcements ==
         db.announcements[r.out.value := Announcement(course, Strip(title), Strip(content), user, db.clock, expiresAt, true, {})]
      && (forall k :: k in db.announcements ==> db.announcements[k].createdAt < r.db.announcements[r.out.value].createdAt)
      && r.db.users == db.users && r.db.courses == db.courses && r.db.assignments == db.assignments
      && r.db.enrollments == db.enrollments && r.db.grades == db.grades
  {
    if !IsInstructor(db.users[user]) then Step(db, Err(Forbidden))
    else if course !in db.courses then Step(db, Err(NotFound))
    else if Strip(title) == "" then Step(db, Err(Invalid(FieldRequired("title"))))
    else if |Strip(title)| > 200 then Step(db, Err(Invalid(TooLong("title"))))
    else if Strip(content) == "" then Step(db, Err(Invalid(FieldRequired("content"))))
    else
      var id := db.nextId;
      var ann := Announcement(course, Strip(title), Strip(content), user, db.clock, expiresAt, true, {});
      Step(db.(announcements := db.announcements[id := ann],
               nextId := id + 1, clock := db.clock + 1),
           Ok(id))
  }

  lemma CreateAnnouncementKeepsValid(db: Db, user: nat, course: nat, title: string, content: string, expiresAt: Option<int>)
    requires Valid(db) && user in db.users
    ensures Valid(CreateAnnouncement(db, user, course, title, content, expiresAt).db)
  {
    var r := CreateAnnouncement(db, user, course, title, content, expiresAt);
    if r.out.Ok? {
      var ann := Announcement(course, Strip(title), Strip(content), user, db.clock, expiresAt, true, {});
      var anns := db.announcements[db.nextId := ann];
      assert r.db == db.(announcements := anns, nextId := db.nextId + 1, clock := db.clock + 1);
      AppendAnnouncementKeepsValid(db, ann);
    }
  }

  /** A title or content of nothing but whitespace is reported missing, as an empty one is. */
  lemma BlankAnnouncementRefused(db: Db, user: nat, course: nat, title: string, content: string, expiresAt: Option<int>)
    requires Valid(db) && user in db.users && IsInstructor(db.users[user]) && course in db.courses
    requires AllSpace(title) || AllSpace(content)
    ensures CreateAnnouncement(db, user, course, title, content, expiresAt).out.Err?
  {
    StripBlank(title);
    StripBlank(content);
  }

  /** The view reads the title and the content only through their stripped values. */
  lemma AnnouncementReadsStripped(db: Db, user: nat, course: nat, t1: string, c1: string, t2: string, c2: string,
                                  expiresAt: Option<int>)
    requires Valid(db) && user in db.users
    requires Strip(t1) == Strip(t2) && Strip(c1) == Strip(c2)
    ensures CreateAnnouncement(db, user, course, t1, c1, expiresAt) == CreateAnnouncement(db, user, course, t2, c2, expiresAt)
  {
  }

  /**
   * Whitespace around the title changes nothing: the view answers and
   * stores as it does for the trimmed title.
   */
  lemma TitlePaddingIgnored(db: Db, user: nat, course: nat, title: string, content: string,
                            expiresAt: Option<int>, lead: string, trail: string)
    requires Valid(db) && user in db.users
    requires Trimmed(title) && AllSpace(lead) && AllSpace(trail)
    ensures CreateAnnouncement(db, user, course, lead + title + trail, content, expiresAt) ==
            CreateAnnouncement(db, user, course, title, content, expiresAt)
  {
    StripPadded(lead, title, trail);
    TrimmedStripsToItself(title);
    AnnouncementReadsStripped(db, user, course, lead + title + trail, content, title, content, expiresAt);
  }

  /** Whitespace around the content changes nothing either. */
  lemma ContentPaddingIgnored(db: Db, user: nat, course: nat, title: string, content: string,
                              expiresAt: Option<int>, lead: string, trail: string)
    requires Valid(db) && user in db.users
    requires Trimmed(content) && AllSpace(lead) && AllSpace(trail)
    ensures CreateAnnouncement(db, user, course, title, lead + content + trail, expiresAt) ==
            CreateAnnouncement(db, user, course, title, content, expiresAt)
  {
    StripPadded(lead, content, trail);
    TrimmedStripsToItself(content);
    AnnouncementReadsStripped(db, user, course, title, lead + content + trail, title, content, expiresAt);
  }
}
