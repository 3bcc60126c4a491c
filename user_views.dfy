/**
 * The user views (users/views.py): the empty-credential check of login_view,
 * the profile-picture upload and removal, and the context the dashboard
 * builds for students and instructors.
 */
module UserViews {
  import opened Wrappers
  import opened UserModels
  import opened CourseModels
  import opened UserForms
  import opened UserProgress

  // ---------------------------------------------------------------------
  // login_view
  // ---------------------------------------------------------------------

  datatype LoginError = MissingCredentials

  /**
   * The check login_view makes before it calls authenticate: both the
   * username and the password must be present and non-empty.
   */
  function LoginPrecheck(username: Option<string>, password: Option<string>): (r: Result<(string, string), LoginError>)
    ensures r.Ok? <==> username.Some? && username.value != "" && password.Some? && password.value != ""
    ensures r.Ok? ==> r.value == (username.value, password.value)
  {
    if Empty(username) || Empty(password) then Err(MissingCredentials)
    else Ok((username.value, password.value))
  }

  // ---------------------------------------------------------------------
  // update_profile_picture, delete_profile_picture
  // ---------------------------------------------------------------------

  const ALLOWED_TYPES: seq<string> := ["image/jpeg", "image/png", "image/gif"]

  /** 5 MiB, the largest picture accepted. */
  const MAX_PICTURE_BYTES: nat := 5 * 1024 * 1024

  datatype PictureError = NoFileUploaded | InvalidFileType | FileTooLarge | NoPictureToDelete

  /** The JSON reply of a picture view and the database it leaves. */
  datatype PictureReply = PictureReply(db: Db, out: Result<Option<Upload>, PictureError>)

  /**
   * The checks on an uploaded picture, in order; the first that fails
   * decides the error.
   */
  function ValidateUpload(file: Option<Upload>): (r: Result<Upload, PictureError>)
    ensures r == Err(NoFileUploaded) <==> file.None?
    ensures r == Err(InvalidFileType) <==> file.Some? && file.value.contentType !in ALLOWED_TYPES
    ensures r == Err(FileTooLarge) <==>
      file.Some? && file.value.contentType in ALLOWED_TYPES && file.value.size > MAX_PICTURE_BYTES
    ensures r.Ok? <==> file.Some? && file.value.contentType in ALLOWED_TYPES && file.value.size <= MAX_PICTURE_BYTES
    ensures r.Ok? ==> r.value == file.value
  {
    if file.None? then Err(NoFileUploaded)
    else if file.value.contentType !in ALLOWED_TYPES then Err(InvalidFileType)
    else if file.value.size > MAX_PICTURE_BYTES then Err(FileTooLarge)
    else Ok(file.value)
  }

  /**
   * update_profile_picture for the logged-in `user`: a file that passes the
   * checks replaces the picture and is returned; on any error nothing changes.
   */
  function UpdateProfilePicture(db: Db, user: nat, file: Option<Upload>): (r: PictureReply)
    requires user in db.users
    ensures r.out.Err? <==> ValidateUpload(file).Err?
    ensures r.out.Err? ==> r.out.error == ValidateUpload(file).error && r.db == db
    ensures r.out.Ok? ==>
      && r.out.value == file
      && r.db == db.(users := db.users[user := db.users[user].(profilePicture := file)])
  {
    match ValidateUpload(file)
    case Err(e) => PictureReply(db, Err(e))
    case Ok(f) =>
      PictureReply(db.(users := db.users[user := db.users[user].(profilePicture := Some(f))]), Ok(Some(f)))
  }

  /** delete_profile_picture: fails without a picture, otherwise clears the field. */
  function DeleteProfilePicture(db: Db, user: nat): (r: PictureReply)
    requires user in db.users
    ensures r.out == Err(NoPictureToDelete) <==> db.users[user].profilePicture.None?
    ensures r.out.Err? ==> r.db == db
    ensures r.out.Ok? ==>
      && r.db.users.Keys == db.users.Keys
      && r.db.users[user].profilePicture.None?
      && r.db == db.(users := db.users[user := db.users[user].(profilePicture := None)])
  {
    if db.users[user].profilePicture.None? then PictureReply(db, Err(NoPictureToDelete))
    else PictureReply(db.(users := db.users[user := db.users[user].(profilePicture := None)]), Ok(None))
  }

  /** Changing the columns of an existing user touches nothing the invariants speak about. */
  lemma EditUserKeepsValid(db: Db, user: nat, u: User)
    requires Valid(db) && user in db.users
    ensures Valid(db.(users := db.users[user := u]))
  {
    var r := db.(users := db.users[user := u]);
    assert r.users.Keys == db.users.Keys;
    assert KeysIssued(r);
    assert ForeignKeysResolve(r);
  }

  /** Neither picture view breaks an invariant. */
  lemma PictureViewsKeepValid(db: Db, user: nat, file: Option<Upload>)
    requires Valid(db) && user in db.users
    ensures Valid(UpdateProfilePicture(db, user, file).db)
    ensures Valid(DeleteProfilePicture(db, user).db)
  {
    var up := UpdateProfilePicture(db, user, file);
    if up.out.Ok? {
      EditUserKeepsValid(db, user, db.users[user].(profilePicture := file));
    } else {
      assert up.db == db;
    }
    var del := DeleteProfilePicture(db, user);
    if del.out.Ok? {
      EditUserKeepsValid(db, user, db.users[user].(profilePicture := None));
    } else {
      assert del.db == db;
    }
  }

  /** Uploading a first picture and deleting it leaves the database as it was. */
  lemma UploadThenDeleteRestores(db: Db, user: nat, file: Option<Upload>)
    requires user in db.users && db.users[user].profilePicture.None?
    requires UpdateProfilePicture(db, user, file).out.Ok?
    ensures DeleteProfilePicture(UpdateProfilePicture(db, user, file).db, user) == PictureReply(db, Ok(None))
  {
    var after := UpdateProfilePicture(db, user, file).db;
    assert after.users[user].profilePicture.Some?;
    assert after.users[user := after.users[user].(profilePicture := None)] == db.users;
  }

  // ---------------------------------------------------------------------
  // dashboard
  // ---------------------------------------------------------------------

  /** The first five entries of a listing, as a [:5] slice takes them. */
  function FirstFive(ids: seq<nat>): (top: seq<nat>)
    ensures |top| == if |ids| < 5 then |ids| else 5
    ensures top == ids[..|top|]
  {
    if |ids| <= 5 then ids else ids[..5]
  }

  /** The courses of a student's active enrollments. */
  function EnrolledCourses(db: Db, s: nat): set<nat> {
    set e | e in ActiveEnrollmentsOf(db, s) :: db.enrollments[e].course
  }

  /** The active announcements of the given courses. */
  function ActiveAnnouncementsIn(db: Db, courses: set<nat>): set<nat> {
    set k | k in db.announcements && db.announcements[k].isActive && db.announcements[k].course in courses
  }

  /** The courses an instructor teaches that are active. */
  function TeachingCourses(db: Db, i: nat): set<nat> {
    set c | c in db.courses && db.courses[c].instructor == Some(i) && db.courses[c].isActive
  }

  /** The active enrollments in the given courses, one per enrollment row. */
  function ActiveEnrollmentsIn(db: Db, courses: set<nat>): set<nat> {
    set e | e in db.enrollments && db.enrollments[e].course in courses && db.enrollments[e].isActive
  }

  datatype Dashboard =
    | StudentDashboard(enrolled: set<nat>, unread: seq<nat>, recent: seq<nat>)
    | InstructorDashboard(teaching: set<nat>, totalStudents: nat, recent: seq<nat>)
    | PlainDashboard

  /**
   * The dashboard context (apart from the average grade). A student sees the
   * active enrollments, the unread announcements of those courses and the
   * five newest of them; an instructor sees the active courses taught, the
   * number of active enrollments in them and their five newest
   * announcements; anyone else sees only the title.
   */
  function DashboardContext(db: Db, viewer: nat): (d: Dashboard)
    requires viewer in db.users
    ensures d.StudentDashboard? <==> IsStudent(db.users[viewer])
    ensures d.InstructorDashboard? <==> IsInstructor(db.users[viewer])
    ensures d.StudentDashboard? ==>
      && d.enrolled == ActiveEnrollmentsOf(db, viewer)
      && |d.recent| <= 5
      && (forall i :: 0 <= i < |d.unread| ==>
            d.unread[i] in ActiveAnnouncementsIn(db, EnrolledCourses(db, viewer)) &&
            viewer !in db.announcements[d.unread[i]].readBy)
    ensures d.InstructorDashboard? ==>
      && d.teaching == TeachingCourses(db, viewer)
      && d.totalStudents == |ActiveEnrollmentsIn(db, d.teaching)|
      && |d.recent| <= 5
  {
    var u := db.users[viewer];
    if IsStudent(u) then
      var visible := ActiveAnnouncementsIn(db, EnrolledCourses(db, viewer));
      var unread := set k | k in visible && viewer !in db.announcements[k].readBy;
      StudentDashboard(ActiveEnrollmentsOf(db, viewer),
                       NewestFirst(db, unread, db.nextId),
                       FirstFive(NewestFirst(db, visible, db.nextId)))
    else if IsInstructor(u) then
      var teaching := TeachingCourses(db, viewer);
      InstructorDashboard(teaching, |ActiveEnrollmentsIn(db, teaching)|,
                          FirstFive(NewestFirst(db, ActiveAnnouncementsIn(db, teaching), db.nextId)))
    else PlainDashboard
  }

  /**
   * The student's unread list is exactly the visible announcements the
   * student has not read, newest first.
   */
  lemma StudentUnreadIsDifference(db: Db, s: nat)
    requires Valid(db) && s in db.users && IsStudent(db.users[s])
    ensures var d := DashboardContext(db, s);
      && (forall k :: k in d.unread <==>
            k in ActiveAnnouncementsIn(db, EnrolledCourses(db, s)) && s !in db.announcements[k].readBy)
      && (forall i, j :: 0 <= i < j < |d.unread| ==>
            db.announcements[d.unread[i]].createdAt > db.announcements[d.unread[j]].createdAt)
  {
    var visible := ActiveAnnouncementsIn(db, EnrolledCourses(db, s));
    var unread := set k | k in visible && s !in db.announcements[k].readBy;
    NewestFirstIsByCreation(db, unread);
  }

  /**
   * The first five of a newest-first listing are its newest, newest first:
   * there are min(5, |keep|) of them, in strictly decreasing created_at, and
   * anything the listing holds beyond them was created before every one of them.
   */
  lemma FirstFiveAreNewest(db: Db, keep: set<nat>)
    requires Valid(db) && keep <= db.announcements.Keys
    ensures var top := FirstFive(NewestFirst(db, keep, db.nextId));
      && |top| == (if |keep| < 5 then |keep| else 5)
      && (forall i :: 0 <= i < |top| ==> top[i] in keep)
      && (forall i, j :: 0 <= i < j < |top| ==>
            db.announcements[top[i]].createdAt > db.announcements[top[j]].createdAt)
      && forall k, i :: k in keep && k !in top && 0 <= i < |top| ==>
           db.announcements[top[i]].createdAt > db.announcements[k].createdAt
  {
    var ids := NewestFirst(db, keep, db.nextId);
    var top := FirstFive(ids);
    NewestFirstIsByCreation(db, keep);
    NewestFirstCount(db, keep);
    forall i, j | 0 <= i < j < |top|
      ensures db.announcements[top[i]].createdAt > db.announcements[top[j]].createdAt
    {
      assert top[i] == ids[i] && top[j] == ids[j];
    }
    forall k, i | k in keep && k !in top && 0 <= i < |top|
      ensures db.announcements[top[i]].createdAt > db.announcements[k].createdAt
    {
      var j :| 0 <= j < |ids| && ids[j] == k;
      assert j >= |top|;
      assert top[i] == ids[i];
    }
  }

  /**
   * Both dashboards' recent lists are the five newest announcements in
   * scope (all of them when there are fewer), newest first.
   */
  lemma RecentAreNewest(db: Db, viewer: nat)
    requires Valid(db) && viewer in db.users
    ensures IsStudent(db.users[viewer]) ==>
      var recent := DashboardContext(db, viewer).recent;
      var scope := ActiveAnnouncementsIn(db, EnrolledCourses(db, viewer));
      && |recent| == (if |scope| < 5 then |scope| else 5)
      && (forall i :: 0 <= i < |recent| ==> recent[i] in scope)
      && (forall i, j :: 0 <= i < j < |recent| ==>
            db.announcements[recent[i]].createdAt > db.announcements[recent[j]].createdAt)
      && forall k, i :: k in scope && k !in recent && 0 <= i < |recent| ==>
           db.announcements[recent[i]].createdAt > db.announcements[k].createdAt
    ensures IsInstructor(db.users[viewer]) ==>
      var recent := DashboardContext(db, viewer).recent;
      var scope := ActiveAnnouncementsIn(db, TeachingCourses(db, viewer));
      && |recent| == (if |scope| < 5 then |scope| else 5)
      && (forall i :: 0 <= i < |recent| ==> recent[i] in scope)
      && (forall i, j :: 0 <= i < j < |recent| ==>
            db.announcements[recent[i]].createdAt > db.announcements[recent[j]].createdAt)
      && forall k, i :: k in scope && k !in recent && 0 <= i < |recent| ==>
           db.announcements[recent[i]].createdAt > db.announcements[k].createdAt
  {
    if IsStudent(db.users[viewer]) {
      var recent := DashboardContext(db, viewer).recent;
      var scope := ActiveAnnouncementsIn(db, EnrolledCourses(db, viewer));
      assert recent == FirstFive(NewestFirst(db, scope, db.nextId));
      FirstFiveAreNewest(db, scope);
    } else if IsInstructor(db.users[viewer]) {
      var recent := DashboardContext(db, viewer).recent;
      var scope := ActiveAnnouncementsIn(db, TeachingCourses(db, viewer));
      assert recent == FirstFive(NewestFirst(db, scope, db.nextId));
      FirstFiveAreNewest(db, scope);
    }
  }

  /** An instructor (id 0) teaching two active courses that one student (id 1) takes. */
  function OneStudentTwoCoursesDb(): Db {
    Db(
      map[0 := User("t", INSTRUCTOR, "", "", "", None, None, None, None, None), 1 := NewUser("s")],
      map[2 := Course("C2", "Two", None, Some(0), true), 3 := Course("C3", "Three", None, Some(0), true)],
      map[],
      map[4 := Enrollment(1, 2, 0, true), 5 := Enrollment(1, 3, 1, true)],
      map[], map[], 6, 2)
  }

  /** total_students counts enrollments, so one student taking two courses counts twice. */
  lemma OneStudentCountedTwice()
    ensures var db := OneStudentTwoCoursesDb();
      && DashboardContext(db, 0).InstructorDashboard?
      && DashboardContext(db, 0).totalStudents == 2
      && (set e | e in ActiveEnrollmentsIn(db, TeachingCourses(db, 0)) :: db.enrollments[e].student) == {1}
  {
    var db := OneStudentTwoCoursesDb();
    assert TeachingCourses(db, 0) == {2, 3};
    assert ActiveEnrollmentsIn(db, {2, 3}) == {4, 5};
  }

  // ---------------------------------------------------------------------
  // The dashboard as written
  // ---------------------------------------------------------------------

  datatype DashboardError = UndefinedName(name: string)

  /** Whether any grade belongs to one of the student's active enrollments. */
  predicate HasGrades(db: Db, s: nat) {
    exists g :: g in db.grades && db.grades[g].enrollment in ActiveEnrollmentsOf(db, s)
  }

  /**
   * The dashboard as written: for a student with grades, computing the
   * average refers to the module name `models`, which users/views.py never
   * imports, so the request fails before any context is rendered.
   */
  function DashboardAsWritten(db: Db, viewer: nat): (r: Result<Dashboard, DashboardError>)
    requires viewer in db.users
    ensures r.Err? <==> IsStudent(db.users[viewer]) && HasGrades(db, viewer)
    ensures r.Ok? ==> r.value == DashboardContext(db, viewer)
  {
    if IsStudent(db.users[viewer]) && HasGrades(db, viewer) then Err(UndefinedName("models"))
    else Ok(DashboardContext(db, viewer))
  }

  /** The student of TwoGradeDb cannot open the dashboard, though the context exists. */
  lemma GradedStudentDashboardFails()
    ensures DashboardAsWritten(TwoGradeDb(), 0).Err?
    ensures DashboardContext(TwoGradeDb(), 0).StudentDashboard?
  {
    var db := TwoGradeDb();
    assert 4 in ActiveEnrollmentsOf(db, 0);
    assert db.grades[5].enrollment == 4;
  }
}
