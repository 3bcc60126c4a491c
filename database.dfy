/**
 * The portal's tables as the views change them in place: one object whose
 * fields are the six tables, the next primary key and the auto_now_add
 * clock. Each method performs one POST view and is proved to leave exactly
 * the state (and give exactly the answer) of the view's definition on the
 * database value, whose properties are proved in the other modules; each
 * also keeps the table invariants.
 */
module Database {
  import opened Wrappers
  import opened UserModels
  import opened CourseModels
  import opened CourseForms
  import opened CourseViews
  import opened UserForms
  import opened UserViews
  import opened CharFields

  class Portal {
    var users: map<nat, User>
    var courses: map<nat, Course>
    var assignments: map<nat, Assignment>
    var enrollments: map<nat, Enrollment>
    var grades: map<nat, Grade>
    var announcements: map<nat, Announcement>
    var nextId: nat
    var clock: nat

    /** The tables as a database value. */
    function Snapshot(): Db
      reads this
    {
      Db(users, courses, assignments, enrollments, grades, announcements, nextId, clock)
    }

    ghost predicate Valid()
      reads this
    {
      CourseModels.Valid(Snapshot())
    }

    /** A fresh installation: every table empty. */
    constructor()
      ensures Snapshot() == EMPTY && Valid()
    {
      users, courses, assignments, enrollments, grades, announcements := map[], map[], map[], map[], map[], map[];
      nextId, clock := 0, 0;
      EmptyIsValid();
    }

    /** enroll_course (courses/views.py). */
    method EnrollCourse(user: nat, course: nat) returns (out: Result<nat, ViewError>)
      requires Valid() && user in users
      modifies this
      ensures Snapshot() == CourseViews.EnrollCourse(old(Snapshot()), user, course).db
      ensures out == CourseViews.EnrollCourse(old(Snapshot()), user, course).out
      ensures Valid()
    {
      if !IsStudent(users[user]) {
        return Err(Forbidden);
      }
      if course !in courses {
        return Err(NotFound);
      }
      if HasEnrollment(Snapshot(), user, course) {
        return Err(AlreadyEnrolled);
      }
      enrollments := enrollments[nextId := Enrollment(user, course, clock, true)];
      out := Ok(nextId);
      nextId := nextId + 1;
      clock := clock + 1;
      assert Snapshot() == CourseViews.EnrollCourse(old(Snapshot()), user, course).db;
      EnrollCourseKeepsValid(old(Snapshot()), user, course);
    }

    /**
     * announcement_list: the visible announcements newest first; for a
     * student the loop marks each one read or unread.
     */
    method ListAnnouncements(viewer: nat) returns (list: seq<ListedAnnouncement>)
      requires viewer in users
      ensures list == AnnouncementList(Snapshot(), viewer)
    {
      var ids := NewestFirst(Snapshot(), VisibleAnnouncements(Snapshot(), viewer), nextId);
      var student := users[viewer].role == STUDENT;
      list := [];
      var i := 0;
      while i < |ids|
        invariant 0 <= i <= |ids| && |list| == i
        invariant forall j :: 0 <= j < i ==>
          list[j] == ListedAnnouncement(ids[j], if student then Some(viewer in announcements[ids[j]].readBy) else None)
      {
        var isRead := if student then Some(viewer in announcements[ids[i]].readBy) else None;
        list := list + [ListedAnnouncement(ids[i], isRead)];
        i := i + 1;
      }
    }

    /** announcement_detail: a student who opens an announcement joins its readers. */
    method AnnouncementDetail(viewer: nat, a: nat) returns (out: Result<nat, ViewError>)
      requires Valid() && viewer in users
      modifies this
      ensures Snapshot() == CourseViews.AnnouncementDetail(old(Snapshot()), viewer, a).db
      ensures out == CourseViews.AnnouncementDetail(old(Snapshot()), viewer, a).out
      ensures Valid()
    {
      if a !in announcements {
        return Err(NotFound);
      }
      if users[viewer].role == STUDENT {
        var ann := announcements[a];
        announcements := announcements[a := ann.(readBy := ann.readBy + {viewer})];
      }
      out := Ok(a);
      assert Snapshot() == CourseViews.AnnouncementDetail(old(Snapshot()), viewer, a).db;
      AnnouncementDetailKeepsValid(old(Snapshot()), viewer, a);
    }

    /** add_grade (courses/views.py). */
    method AddGrade(user: nat, course: nat, student: nat, assignment: Option<nat>, score: Option<int>)
      returns (out: Result<nat, ViewError>)
      requires Valid() && user in users
      modifies this
      ensures Snapshot() == CourseViews.AddGrade(old(Snapshot()), user, course, student, assignment, score).db
      ensures out == CourseViews.AddGrade(old(Snapshot()), user, course, student, assignment, score).out
      ensures Valid()
    {
      if !IsInstructor(users[user]) {
        return Err(Forbidden);
      }
      if course !in courses || student !in users {
        return Err(NotFound);
      }
      var e := FindEnrollment(Snapshot(), student, course, nextId);
      if e.None? {
        return Err(NotFound);
      }
      var form := ValidateGradeForm(Snapshot(), None, assignment, score);
      assert form.Ok? ==> form.value.0 in AssignmentChoices(Snapshot(), None);
      out := GradeEnrollment(e.value, form);
      assert Snapshot() == CourseViews.AddGrade(old(Snapshot()), user, course, student, assignment, score).db;
      AddGradeKeepsValid(old(Snapshot()), user, course, student, assignment, score);
    }

    /** Saves a validated GradeForm for enrollment e, as add_grade's form.save and grade.save do. */
    method GradeEnrollment(e: nat, form: Result<(nat, int), FormError>) returns (out: Result<nat, ViewError>)
      requires Valid() && e in enrollments && (form.Ok? ==> form.value.0 in assignments)
      modifies this
      ensures Snapshot() == CourseViews.GradeEnrollment(old(Snapshot()), e, form).db
      ensures out == CourseViews.GradeEnrollment(old(Snapshot()), e, form).out
      ensures Valid()
    {
      var before := Snapshot();
      if form.Err? {
        return Err(Invalid(form.error));
      }
      var (a, sc) := form.value;
      if GradeExists(before, e, a) {
        return Err(IntegrityError);
      }
      GradeEnrollmentInserts(before, e, a, sc);
      out := InsertGrade(e, a, sc);
    }

    /** grade.save() for a pair with no grade yet: one row under the next key, stamped with the clock. */
    method InsertGrade(e: nat, a: nat, sc: int) returns (out: Result<nat, ViewError>)
      requires Valid() && e in enrollments && a in assignments && !GradeExists(Snapshot(), e, a)
      modifies this
      ensures Snapshot() == old(Snapshot()).(grades := old(grades)[old(nextId) := Grade(e, Some(a), sc, old(clock))],
                                             nextId := old(nextId) + 1, clock := old(clock) + 1)
      ensures out == Ok(old(nextId))
      ensures Valid()
    {
      var before := Snapshot();
      var after := before.(grades := before.grades[before.nextId := Grade(e, Some(a), sc, before.clock)],
                           nextId := before.nextId + 1, clock := before.clock + 1);
      grades, nextId, clock := after.grades, after.nextId, after.clock;
      out := Ok(before.nextId);
      assert Snapshot() == after;
      InsertGradeKeepsValid(before, e, a, sc);
    }

    /** create_course (courses/views.py). */
    method CreateCourse(user: nat, data: CourseFormData) returns (out: Result<nat, ViewError>)
      requires Valid() && user in users
      modifies this
      ensures Snapshot() == CourseViews.CreateCourse(old(Snapshot()), user, data).db
      ensures out == CourseViews.CreateCourse(old(Snapshot()), user, data).out
      ensures Valid()
    {
      if !AdminGate(users[user]) {
        return Err(Forbidden);
      }
      var form := ValidateCourseForm(Snapshot(), data, None);
      if form.Err? {
        return Err(Invalid(form.error));
      }
      var d := form.value;
      courses := courses[nextId := Course(d.code, d.name, d.description, d.instructor, true)];
      out := Ok(nextId);
      nextId := nextId + 1;
      assert Snapshot() == CourseViews.CreateCourse(old(Snapshot()), user, data).db;
      CreateCourseKeepsValid(old(Snapshot()), user, data);
    }

    /** edit_course (courses/views.py). */
    method EditCourse(user: nat, course: nat, data: CourseFormData) returns (out: Result<nat, ViewError>)
      requires Valid() && user in users
      modifies this
      ensures Snapshot() == CourseViews.EditCourse(old(Snapshot()), user, course, data).db
      ensures out == CourseViews.EditCourse(old(Snapshot()), user, course, data).out
      ensures Valid()
    {
      if !AdminGate(users[user]) {
        return Err(Forbidden);
      }
      if course !in courses {
        return Err(NotFound);
      }
      var form := ValidateCourseForm(Snapshot(), data, Some(course));
      if form.Err? {
        return Err(Invalid(form.error));
      }
      courses := courses[course := ApplyCourseForm(courses[course], form.value)];
      out := Ok(course);
      assert Snapshot() == CourseViews.EditCourse(old(Snapshot()), user, course, data).db;
      EditCourseKeepsValid(old(Snapshot()), user, course, data);
    }

    /** delete_course (courses/views.py): the cascade replaces the dependent tables. */
    method DeleteCourse(user: nat, course: nat) returns (out: Result<nat, ViewError>)
      requires Valid() && user in users
      modifies this
      ensures Snapshot() == DeleteCourseView(old(Snapshot()), user, course).db
      ensures out == DeleteCourseView(old(Snapshot()), user, course).out
      ensures Valid()
    {
      if !AdminGate(users[user]) {
        return Err(Forbidden);
      }
      if course !in courses {
        return Err(NotFound);
      }
      var after := CourseModels.DeleteCourse(Snapshot(), course);
      courses, assignments, enrollments := after.courses, after.assignments, after.enrollments;
      grades, announcements := after.grades, after.announcements;
      out := Ok(course);
      assert Snapshot() == after;
      DeleteCourseKeepsValid(old(Snapshot()), course);
    }

    /** Deleting an assignment: its grades go with it. */
    method DeleteAssignment(a: nat)
      requires Valid()
      modifies this
      ensures Snapshot() == CourseModels.DeleteAssignment(old(Snapshot()), a)
      ensures Valid()
    {
      var after := CourseModels.DeleteAssignment(Snapshot(), a);
      assignments, grades := after.assignments, after.grades;
      assert Snapshot() == after;
      DeleteAssignmentKeepsValid(old(Snapshot()), a);
    }

    /** Deleting a user, with the on_delete behaviour of every key that names users. */
    method DeleteUser(u: nat)
      requires Valid()
      modifies this
      ensures Snapshot() == CourseModels.DeleteUser(old(Snapshot()), u)
      ensures Valid()
    {
      var after := CourseModels.DeleteUser(Snapshot(), u);
      users, courses, enrollments, grades, announcements :=
        after.users, after.courses, after.enrollments, after.grades, after.announcements;
      assert Snapshot() == after;
      DeleteUserKeepsValid(old(Snapshot()), u);
    }

    /** Creating an announcement (courses/views.py). */
    method CreateAnnouncement(user: nat, course: nat, title: string, content: string, expiresAt: Option<int>)
      returns (out: Result<nat, ViewError>)
      requires Valid() && user in users
      modifies this
      ensures Snapshot() == CourseViews.CreateAnnouncement(old(Snapshot()), user, course, title, content, expiresAt).db
      ensures out == CourseViews.CreateAnnouncement(old(Snapshot()), user, course, title, content, expiresAt).out
      ensures Valid()
    {
      if !IsInstructor(users[user]) {
        return Err(Forbidden);
      }
      if course !in courses {
        return Err(NotFound);
      }
      var t, c := Strip(title), Strip(content);
      if t == "" {
        return Err(Invalid(FieldRequired("title")));
      }
      if |t| > 200 {
        return Err(Invalid(TooLong("title")));
      }
      if c == "" {
        return Err(Invalid(FieldRequired("content")));
      }
      var before := Snapshot();
      announcements := announcements[nextId := Announcement(course, t, c, user, clock, expiresAt, true, {})];
      out := Ok(nextId);
      nextId, clock := nextId + 1, clock + 1;
      assert Snapshot() == CourseViews.CreateAnnouncement(before, user, course, title, content, expiresAt).db;
      CreateAnnouncementKeepsValid(before, user, course, title, content, expiresAt);
    }

    /** register and create_user (users/views.py): a valid form stores a new student. */
    method Register(data: RegistrationData) returns (out: Result<nat, RegistrationError>)
      requires Valid()
      modifies this
      ensures out.Err? <==> ValidateRegistration(old(Snapshot()), data).Err?
      ensures out.Err? ==> out.error == ValidateRegistration(old(Snapshot()), data).error && Snapshot() == old(Snapshot())
      ensures out.Ok? ==>
        && out.value == old(nextId)
        && Snapshot() == RegistrationSave(old(Snapshot()), data, true).db
      ensures Valid()
    {
      var before := Snapshot();
      var form := ValidateRegistration(before, data);
      if form.Err? {
        return Err(form.error);
      }
      var after := RegistrationSave(before, data, true).db;
      users, nextId := after.users, after.nextId;
      out := Ok(before.nextId);
      assert Snapshot() == after;
      RegistrationSaveKeepsValid(before, data, true);
    }

    /** update_profile_picture (users/views.py). */
    method UpdateProfilePicture(user: nat, file: Option<Upload>) returns (out: Result<Option<Upload>, PictureError>)
      requires Valid() && user in users
      modifies this
      ensures Snapshot() == UserViews.UpdateProfilePicture(old(Snapshot()), user, file).db
      ensures out == UserViews.UpdateProfilePicture(old(Snapshot()), user, file).out
      ensures Valid()
    {
      var checked := ValidateUpload(file);
      if checked.Err? {
        return Err(checked.error);
      }
      users := users[user := users[user].(profilePicture := file)];
      out := Ok(file);
      assert Snapshot() == UserViews.UpdateProfilePicture(old(Snapshot()), user, file).db;
      PictureViewsKeepValid(old(Snapshot()), user, file);
    }

    /** delete_profile_picture (users/views.py). */
    method DeleteProfilePicture(user: nat) returns (out: Result<Option<Upload>, PictureError>)
      requires Valid() && user in users
      modifies this
      ensures Snapshot() == UserViews.DeleteProfilePicture(old(Snapshot()), user).db
      ensures out == UserViews.DeleteProfilePicture(old(Snapshot()), user).out
      ensures Valid()
    {
      if users[user].profilePicture.None? {
        return Err(NoPictureToDelete);
      }
      users := users[user := users[user].(profilePicture := None)];
      out := Ok(None);
      assert Snapshot() == UserViews.DeleteProfilePicture(old(Snapshot()), user).db;
      PictureViewsKeepValid(old(Snapshot()), user, None);
    }
  }
}
