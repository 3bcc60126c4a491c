# Student portal: enrollment, grading and announcements in Dafny

This project models the core of a Django student portal. It covers users and
their three roles, courses, assignments, enrollments, grades and
announcements with their read tracking, and the views and forms that change
or list them. The relational store becomes one database value `Db` of six
tables. Each table is a map from primary key to row. One counter issues every
primary key, and a second counter, `clock`, stands for the `auto_now_add`
timestamps. `Valid(db)` gathers the store guarantees that the model keeps
(the uniqueness of `Course.code` is not among them; see Left out):

- keys below the counter;
- every foreign key resolves;
- `unique_together` on (student, course) and on (enrollment, assignment);
- announcements created in key order.

Decimal columns (`max_digits=5, decimal_places=2`) hold whole hundredths.

Modules follow the source files:

| module | file |
|---|---|
| `UserModels`, `UserProgress` | users/models.py |
| `CourseModels` (with `Decimals`) | courses/models.py |
| `CourseForms` (with `CharFields`) | courses/forms.py |
| `CourseViews` | courses/views.py |
| `UserForms` | users/forms.py |
| `UserViews` | users/views.py |
| `Database` | all POST views that change the tables |

Each handler is a function from the database, and the logged-in user's key,
to the new database and an outcome. `Database.Portal` is the same store as an
object whose fields the views update in place. Each of its methods is proved
to leave exactly the state, and give exactly the answer, of the handler's
function. Each method that changes the tables also keeps `Valid`. The `announcement_list` loop that
marks each announcement read or unread is a `while` loop proved equal to the
listing function.

Where the code and the portal's documented intent differ, the model follows
the code, with two exceptions. The edit and delete course views use the
corrected administrator gate, while the gate as written lets any logged-in
user through (see Findings and Left out). Creating an announcement is a
plain insert for a given course, while the view as written cannot name a
course, so its save fails (see Left out). Otherwise:

- Negative scores pass the grade form.
- A score of 0 skips the maximum check.
- Announcements ignore `expires_at`.
- `UserProfileForm` never makes `program_of_study` or `year_of_study`
  required, whatever the role, because both columns are `blank=True`.

## Model

| member | source | states |
|---|---|---|
| UserModels.IsStudent | users/models.py:29-30 | the student test is the role being 'student' |
| UserModels.IsInstructor | users/models.py:32-33 | the instructor test is the role being 'instructor' |
| UserModels.IsAdmin | users/models.py:35-36 | the administrator test is the role being 'admin' |
| UserModels.NewUser | users/models.py:15 | a new user's role defaults to student; no other role test holds and no picture is set |
| UserModels.ExactlyOneRole | users/models.py:29-36 | for a role among the choices, exactly one of is_student, is_instructor, is_admin holds |
| UserModels.InvalidRoleHasNoCapability | users/models.py:5-15 | a role outside ROLE_CHOICES passes none of the three role tests |
| Decimals.RoundHalfEven | courses/models.py:62 | the result is the integer nearest n/d, with ties going to the even neighbour, as Decimal rounding does |
| Decimals.RoundHalfEvenWithin | courses/models.py:62 | rounding a quotient that lies in [0, k] stays in [0, k] |
| CourseModels.UniqueEnrollments | courses/models.py:48-49 | unique_together on (student, course): two enrollments with the same pair are the same row, whatever is_active says |
| CourseModels.UniqueGrades | courses/models.py:71-72 | unique_together on (enrollment, assignment): two grades with the same enrollment and the same non-null assignment are the same row |
| CourseModels.Valid | courses/models.py:8-89 | every key below the counter, every foreign key resolving, both unique_together constraints, and announcements created in key order |
| CourseModels.EmptyIsValid | courses/models.py:41-72 | the empty store satisfies the key, foreign-key, uniqueness and ordering invariants |
| CourseModels.DeleteAssignment | courses/models.py:64-66 | deleting an assignment removes exactly the grades that reference it; the other tables are untouched |
| CourseModels.DeleteAssignmentKeepsValid | courses/models.py:64-66 | the assignment cascade keeps every invariant |
| CourseModels.DeleteCourse | courses/models.py:24-78 | deleting a course removes its assignments, enrollments and announcements, plus every grade on a removed enrollment or assignment; users stay |
| CourseModels.DeleteCourseKeepsValid | courses/models.py:24-78 | the course cascade leaves no dangling foreign key and no duplicate pair |
| CourseModels.DeleteUser | courses/models.py:8-85 | deleting a user nulls the instructor of the courses they teach and removes their enrollments with those enrollments' grades; it removes the announcements they wrote and drops them from every read_by set |
| CourseModels.DeleteUserKeepsValid | courses/models.py:8-85 | the user cascade keeps every invariant |
| CourseModels.CurrentGradeAsWritten | courses/models.py:51-62 | as written, get_current_grade raises exactly when the enrollment has a grade, and returns 0 otherwise |
| CourseModels.CurrentGrade | courses/models.py:51-62 | 0 without grades; an error exactly when some grade has no assignment to read max_score from; 0 when the maxima sum to 0; otherwise, in tenths of a percent, within half a tenth of the exact 100·Σscore/Σmax, and even when the exact value lies halfway between two tenths (round half to even) |
| CourseModels.TotalsWithinMax | courses/models.py:56-57 | when every score lies in [0, max], the score total lies in [0, max total] |
| CourseModels.CurrentGradeIsPercentage | courses/models.py:56-62 | with every score in [0, max], the current grade is defined and lies in [0.0, 100.0] |
| CourseModels.MaxTotalReadsOnlyMaxScores | courses/models.py:56-57 | the sums read only the grades and the assignments' max_score |
| CourseModels.CurrentGradeIgnoresWeight | courses/models.py:29 | changing an assignment's weight, or any column other than max_score, leaves the current grade unchanged |
| CourseModels.EightyAndNinetyGiveEightyFive | courses/models.py:51-62 | grades 80.00 and 90.00 out of 100.00 give 85.0; the code as written raises on the same data |
| CourseModels.NewestFirst | courses/models.py:89 | lists only announcements of the requested set, with keys strictly decreasing |
| CourseModels.NewestFirstComplete | courses/models.py:89 | the newest-first scan misses no requested announcement |
| CourseModels.NewestFirstIsByCreation | courses/models.py:82-89 | in a valid store the scan lists each requested announcement once, with created_at strictly decreasing |
| CourseModels.NewestFirstCount | courses/models.py:89 | in a valid store the listing has exactly as many entries as there are requested announcements |
| CourseModels.SortByDueDate | courses/models.py:36 | the result is a permutation of its input ordered by ascending due_date |
| CourseModels.InsertByDueDate | courses/models.py:36 | inserting into a due-date-ordered list keeps it ordered and adds exactly that element |
| UserProgress.CompletionRate | users/models.py:38-54 | 0 for a non-student, for a student without active enrollments, and when there are no active assignments; otherwise ⌊100·grades/active assignments⌋ |
| UserProgress.Percent | users/models.py:54 | the result r is the whole percentage: r·total ≤ 100·completed < (r+1)·total |
| UserProgress.CompletionRateCanExceedHundred | users/models.py:48-54 | a grade on an inactive assignment counts in the numerator only, so the rate can reach 200 |
| CharFields.Strip | courses/forms.py:7 | the CharField strip leaves no whitespace at either end and never lengthens the value |
| CharFields.StripIsInfix | courses/forms.py:7 | the submitted value is its stripped form with whitespace on either side |
| CharFields.StripPadded | courses/forms.py:7 | stripping any whitespace-padded trimmed value gives back exactly that value, so Strip is the unique such infix |
| CharFields.StripIdempotent | courses/forms.py:7 | stripping twice is stripping once |
| CharFields.StripBlank | courses/forms.py:7 | a value strips to nothing exactly when it is all whitespace |
| CharFields.CleanText | users/forms.py:8-12 | a text field's cleaned value is absent exactly when nothing or only whitespace was submitted, and is otherwise the stripped, non-empty value |
| CourseForms.CleanCourseForm | courses/forms.py:4-7 | the cleaned code, name and description carry no surrounding whitespace, the description is always a string, and the instructor is the one chosen |
| CourseForms.ValidateCourseForm | courses/forms.py:4-7 | the form is valid exactly when the stripped code (at most 20 characters, unique) and the stripped name (at most 200) are non-empty and the instructor is an existing user; a blank code is reported as required; valid data comes back as the cleaned data |
| CourseForms.BlankCodeRequired | courses/forms.py:7 | a code of only whitespace gets "This field is required", as an empty one does |
| CourseForms.ValidateReadsCleaned | courses/forms.py:4-7 | two submissions with the same cleaned data get the same answer |
| CourseForms.CodePaddingIgnored | courses/forms.py:7 | whitespace around the code changes neither the verdict nor what is stored, so a 20-character code with a space at each end passes |
| CourseForms.NamePaddingIgnored | courses/forms.py:7 | whitespace around the name changes neither the verdict nor what is stored |
| CourseForms.ApplyCourseForm | courses/forms.py:7 | saving a CourseForm never changes is_active |
| CourseForms.ChoiceSet | courses/forms.py:29-33 | with an enrollment, the choices are the active assignments of its course; without one, every assignment |
| CourseForms.AssignmentChoices | courses/forms.py:25-33 | the choices hold exactly ChoiceSet's members, each once, in due-date order |
| CourseForms.CleanGrade | courses/forms.py:38-47 | refuses exactly when both the assignment and the score are present, the score is non-zero and it exceeds max_score; otherwise the cleaned data comes back unchanged |
| CourseForms.CleanGradeAdmits | courses/forms.py:38-47 | a score equal to the maximum passes, and so does a negative score |
| CourseForms.ValidateGradeForm | courses/forms.py:17-47 | valid exactly when the assignment is a listed choice and the score fits five digits and passes clean(); yields the pair |
| CourseViews.AdminGateAsWritten | courses/views.py:222 | the uncalled `u.is_admin` gate lets every user through |
| CourseViews.AdminGate | courses/views.py:55 | the called gate passes exactly the administrators |
| CourseViews.StudentPassesAdminGateAsWritten | courses/views.py:221-223 | a student passes the gate as written but not the called one |
| CourseViews.CourseList | courses/views.py:10-20 | students see active courses with an active enrollment; instructors see the active courses they teach; others see every active course |
| CourseViews.AvailableCourses | courses/views.py:199-213 | non-students are refused; a student gets the active courses minus those with an active enrollment |
| CourseViews.StudentListingsPartition | courses/views.py:199-213 | for a student, course_list and available_courses are disjoint and together give every active course |
| CourseViews.EnrollCourse | courses/views.py:178-196 | students only; the course must exist; any existing enrollment for the pair, even an inactive one, is refused with nothing changed; otherwise exactly one new active enrollment is added |
| CourseViews.EnrollCourseKeepsValid | courses/models.py:41-49 | enrolling keeps at most one enrollment per (student, course) and every other invariant |
| CourseViews.InsertEnrollmentKeepsValid | courses/models.py:41-49 | adding the first enrollment of an existing student in an existing course keeps every invariant |
| CourseViews.EnrollTwiceKeepsOneRow | courses/views.py:184-186 | a second enrollment attempt is refused, and exactly one row exists for the pair |
| CourseViews.DroppedCourseListedButRefused | courses/views.py:180-213 | a course with only an inactive enrollment is listed as available, yet enroll_course refuses it |
| CourseViews.VisibleAnnouncements | courses/views.py:113-129 | active announcements, scoped by role: actively enrolled courses, taught courses, or all; expiry is not consulted |
| CourseViews.AnnouncementList | courses/views.py:113-135 | the visible announcements newest first; each carries an is_read flag exactly when the viewer is a student |
| CourseViews.AnnouncementListNewestFirst | courses/views.py:113-129 | in a valid store the list holds each visible announcement once, with created_at strictly decreasing |
| CourseViews.NewestFirstIgnoresExpiry | courses/models.py:83 | the newest-first scan does not depend on expires_at |
| CourseViews.AnnouncementListIgnoresExpiry | courses/views.py:114-129 | two stores that differ only in expiry dates give the same list |
| CourseViews.AnnouncementDetail | courses/views.py:138-149 | an unknown id gives NotFound; a student joins read_by; nothing else changes |
| CourseViews.AnnouncementDetailIdempotent | courses/views.py:142-143 | opening an announcement twice leaves the store as opening it once |
| CourseViews.AnnouncementDetailKeepsValid | courses/views.py:142-143 | marking an announcement read keeps every invariant |
| CourseViews.FindEnrollment | courses/views.py:72 | finds an enrollment of the student in the course, or proves there is none |
| CourseViews.AddGrade | courses/views.py:67-81 | instructors only; on success exactly one grade is added, for the student's enrollment, with the chosen assignment and a score within its maximum (or 0); errors change nothing |
| CourseViews.GradeEnrollment | courses/views.py:74-79 | an invalid form is reported with nothing changed; the insert fails with an integrity error exactly when the enrollment already has a grade for the assignment; otherwise exactly one grade with the form's assignment and score is added under the next, unused key; the old grades and every other table are unchanged |
| CourseViews.GradeEnrollmentInserts | courses/views.py:76-79 | with a valid form and no grade for the pair, the step's new store is the old one plus that grade, with both counters advanced |
| CourseViews.InsertedGradeIsFound | courses/views.py:72-79 | after a grade is inserted, the same request finds the same enrollment, the same form result and an existing grade for the pair |
| CourseViews.AddGradeSucceedsIff | courses/views.py:67-79 | add_grade succeeds exactly for an instructor, an existing course and student, a valid form, and an enrollment with no grade yet for that assignment |
| CourseViews.AddGradeInserts | courses/views.py:76-79 | the added grade is the form's assignment and score on the found enrollment |
| CourseViews.InsertGradeKeepsValid | courses/models.py:64-72 | inserting a grade for a pair with none keeps at most one grade per (enrollment, assignment) |
| CourseViews.AddGradeKeepsValid | courses/views.py:67-79 | add_grade keeps every invariant |
| CourseViews.AddGradeRefusesExisting | courses/models.py:70-72 | a grade for a pair that already has one is refused by the store with nothing changed |
| CourseViews.GradeFormIgnoresGrades | courses/forms.py:25-33 | the grade form's choices do not depend on the grades table |
| CourseViews.AddGradeTwiceRefused | courses/models.py:70-72 | entering the same grade twice: the second attempt fails with an integrity error and the first grade stays |
| CourseViews.CreateCourse | courses/views.py:55-65 | administrators only; a valid form adds one active course with the cleaned fields |
| CourseViews.CreateCourseKeepsValid | courses/views.py:55-65 | course creation keeps every invariant |
| CourseViews.EditCourse | courses/views.py:231-250 | a valid form rewrites code, name, description and instructor of an existing course only, with the cleaned values, keeping is_active |
| CourseViews.EditCourseKeepsValid | courses/views.py:231-250 | editing keeps every invariant |
| CourseViews.DeleteCourseView | courses/views.py:252-259 | a missing course gives NotFound; otherwise the store is the course cascade's result, and it stays valid |
| CourseViews.CreateAnnouncement | courses/views.py:91-101 | instructors only; a title that is non-empty and at most 200 characters once stripped, and content that is non-empty once stripped, add one active, unread announcement holding the stripped title and content, newer than every other |
| CourseViews.BlankAnnouncementRefused | courses/forms.py:65-68 | an all-whitespace title or content is refused, whatever else was submitted |
| CourseViews.AnnouncementReadsStripped | courses/models.py:79-80 | two submissions whose title and content strip alike have the same outcome and store the same announcement |
| CourseViews.TitlePaddingIgnored | courses/models.py:79 | whitespace around the title changes neither the outcome nor what is stored |
| CourseViews.ContentPaddingIgnored | courses/models.py:80 | whitespace around the content changes neither the outcome nor what is stored |
| CourseViews.CreateAnnouncementKeepsValid | courses/views.py:91-101 | creating an announcement keeps every invariant |
| UserForms.DefaultRequired | users/models.py:16-19 | a model form field starts required exactly when its column is not blank=True |
| UserForms.RegistrationRequired | users/forms.py:8-22 | registration requires every declared field except phone_number |
| UserForms.RegistrationFormRequired | users/forms.py:14-22 | the step-by-step required flags of __init__ produce exactly RegistrationRequired |
| UserForms.ValidateRegistration | users/forms.py:5-41 | valid exactly when every required field is filled once stripped, the passwords match and no existing username equals the stripped username up to ASCII letter case; missing fields are reported first, and all of them; clean() passes the cleaned data on unchanged |
| UserForms.BlankNameMissing | users/forms.py:18 | a first name of only whitespace is reported as a missing field |
| UserForms.ValidRegistrationFilled | users/forms.py:8-19 | a valid registration has username, email and both names present once cleaned |
| UserForms.LowerAscii | users/forms.py:5 | an ASCII capital becomes the small letter 32 code points below it; every other character is left alone |
| UserForms.FoldCase | users/forms.py:5 | the case-folded username has the same length, with each ASCII capital replaced by its small letter and every other character kept |
| UserForms.FoldCaseAlike | users/forms.py:5 | names that differ only in the case of ASCII letters fold alike |
| UserForms.FoldCaseKeepsNonLetters | users/forms.py:5 | names that fold alike agree on every character that is not an ASCII letter |
| UserForms.CaseVariantRefused | users/forms.py:5 | an otherwise valid registration whose username differs from an existing one only in case is refused as taken |
| UserForms.AliceIsAlice | users/forms.py:5 | "Alice" and "alice" fold to the same name |
| UserForms.RegistrationSave | users/forms.py:43-48 | the saved user is a student whatever was posted, with the stripped username, email, names, student_id and program, the submitted year, the stripped phone (NULL when blank) and no picture; it is stored under a fresh key only when commit is true |
| UserForms.RegistrationSaveKeepsValid | users/forms.py:43-48 | saving a registration keeps every invariant |
| UserForms.ProfileFormRequired | users/forms.py:58-73 | the profile form requires exactly email, first_name and last_name, whatever the role |
| UserForms.UpdateFieldsAsWritten | users/forms.py:78-80 | as written, the update form never includes program_of_study or year_of_study |
| UserForms.UpdateFields | users/forms.py:78-80 | corrected, the student fields appear exactly when the edited user is a student |
| UserForms.UpdateFormOmitsStudentFields | users/forms.py:78-80 | for a student the form as written lacks a field the corrected one offers |
| UserViews.LoginPrecheck | users/views.py:55-62 | accepted exactly when the username and the password are both present and non-empty |
| UserViews.ValidateUpload | users/views.py:174-186 | checked in order (missing file, type outside jpeg/png/gif, size over 5 MiB); the first failure decides; exactly 5 MiB passes |
| UserViews.UpdateProfilePicture | users/views.py:171-201 | on any error the store is unchanged; otherwise only the user's picture is replaced |
| UserViews.DeleteProfilePicture | users/views.py:203-218 | fails exactly when there is no picture; otherwise only the picture field is cleared |
| UserViews.EditUserKeepsValid | users/views.py:195-196 | changing an existing user's columns keeps every invariant |
| UserViews.PictureViewsKeepValid | users/views.py:171-218 | both picture views keep every invariant |
| UserViews.UploadThenDeleteRestores | users/views.py:171-218 | uploading a first picture and then deleting it restores the store |
| UserViews.FirstFive | users/views.py:117 | the [:5] slice is the listing's prefix of length min(5, n) |
| UserViews.DashboardContext | users/views.py:87-131 | students get their active enrollments, unread list and recent list; instructors get their active courses, the active-enrollment count and the recent list; others get neither (the recent list's count and order are stated by RecentAreNewest) |
| UserViews.StudentUnreadIsDifference | users/views.py:112-116 | the unread list is exactly the visible announcements the student has not read, newest first |
| UserViews.FirstFiveAreNewest | users/views.py:117 | the first five are min(5, n) of the requested announcements, in strictly decreasing created_at, and every one beyond them is older than each of them |
| UserViews.RecentAreNewest | users/views.py:117-129 | for both roles the recent list holds min(5, in scope) in-scope announcements, newest first, each newer than any in-scope one left out |
| UserViews.OneStudentCountedTwice | users/views.py:120-125 | one student in two of an instructor's courses makes total_students 2 |
| UserViews.DashboardAsWritten | users/views.py:94-109 | as written, a student with any graded active enrollment gets an error instead of the dashboard |
| UserViews.GradedStudentDashboardFails | users/views.py:99-107 | a student with grades 80.00 and 90.00 cannot open the dashboard, though the context exists |
| Database.Portal.EnrollCourse | courses/views.py:180-196 | updates the tables in place exactly as CourseViews.EnrollCourse does, keeping the invariants |
| Database.Portal.ListAnnouncements | courses/views.py:113-135 | the loop that sets is_read yields exactly CourseViews.AnnouncementList |
| Database.Portal.AnnouncementDetail | courses/views.py:138-149 | adds the student to read_by in place, as CourseViews.AnnouncementDetail |
| Database.Portal.AddGrade | courses/views.py:69-81 | inserts the grade in place, as CourseViews.AddGrade, keeping the invariants |
| Database.Portal.GradeEnrollment | courses/views.py:74-79 | given the form's result, reports it or inserts the grade in place, exactly as CourseViews.GradeEnrollment, keeping the invariants |
| Database.Portal.InsertGrade | courses/views.py:76-78 | stores one grade under the next key, stamped with the clock, advancing both counters and keeping the invariants |
| Database.Portal.CreateCourse | courses/views.py:56-62 | inserts the course in place, as CourseViews.CreateCourse |
| Database.Portal.EditCourse | courses/views.py:233-250 | rewrites the course in place, as CourseViews.EditCourse |
| Database.Portal.DeleteCourse | courses/views.py:254-259 | replaces the dependent tables with the cascade's result, as CourseViews.DeleteCourseView |
| Database.Portal.DeleteAssignment | courses/models.py:64-66 | removes the assignment and its grades in place |
| Database.Portal.DeleteUser | courses/models.py:8-85 | applies the user cascade in place, keeping the invariants |
| Database.Portal.CreateAnnouncement | courses/views.py:93-101 | strips the title and content, refuses them as CourseViews.CreateAnnouncement does, and otherwise inserts the announcement in place, as that function does |
| Database.Portal.Register | users/views.py:28-35 | refuses invalid forms, a username taken up to case included, with nothing changed; otherwise stores the new student under the next key, as UserForms.RegistrationSave |
| Database.Portal.UpdateProfilePicture | users/views.py:171-201 | replaces the picture in place, as UserViews.UpdateProfilePicture |
| Database.Portal.DeleteProfilePicture | users/views.py:203-218 | clears the picture in place, as UserViews.DeleteProfilePicture |

## Left out

- Floating-point averages are not modelled, because they are float arithmetic. This covers the averages in `grade_list` and the dashboard's `average_grade` (courses/views.py:160-168, users/views.py:99-109). The dashboard's failure on the undefined name `models` is modelled (see Findings).
- UserProgress.CompletionRate: returns the exact floor of 100·completed/total. The source computes `int(c / t * 100)` in floating point, which can come out one lower. For example, 29/50 gives 57.
- UserProgress.Percent: the same exact floor, for the same reason.
- CourseModels.CurrentGrade: rounds the exact rational quotient. Python's Decimal divides at 28 significant digits before rounding; the model does not reproduce that intermediate rounding.
- Rendering, messages, redirects, sessions (`set_expiry`), `JsonResponse`, the picture URL and the removal of old picture files are I/O and are not modelled.
- `authenticate`, `login` and `logout` are not modelled. `LoginPrecheck` stops at the check made before `authenticate`.
- Password hashing and Django's password validators are not modelled. `User` carries no password column; registration checks only that both passwords are present and equal.
- Email format, username character rules and Django's 150-character username limit are not modelled.
- UserForms.ValidateRegistration: does not check the max_length of the registration's text fields (first and last name, email, student_id, program_of_study, phone_number), and does not apply the Unicode NFKC normalisation Django's username field performs.
- Widget attributes, placeholders and help texts in the forms are presentation only.
- UserForms.ValidateRegistration: username uniqueness is compared case-insensitively as UserCreationForm does from Django 4.2 on (`username__iexact`), folding ASCII letters only; the other Unicode case mappings depend on the database's `iexact` and are not modelled. Django before 4.2 compared usernames exactly.
- CourseViews.CreateAnnouncement: modelled as a plain insert for a given course. As written, `AnnouncementForm` has no course field (courses/forms.py:68), so the view cannot actually name one (courses/views.py:103-104). The GET branch's queryset assignment is left out for the same reason.
- Database.Portal.CreateAnnouncement: the same plain insert for a given course, since it follows CourseViews.CreateAnnouncement.
- GET branches that only build an empty form are not modelled. Neither are the views outside the enrollment, grading and announcement core: `course_detail`, `grade_list`, the `manage_courses` listing (only its gate is modelled), `home`, `profile`, `password_reset`, `user_management` and `create_user`'s page.
- `AssignmentForm` is not modelled, and `Assignment.max_score` is not bounded when assignments are created.
- Settings, URL configuration, the admin site, template filters and the management command are not part of this model.
- `created_at` and `updated_at` are not modelled for courses and assignments, because nothing in the core reads them. Timestamps are an abstract counter, used only for ordering.
- The User columns `bio`, `language`, `timezone` and `email_notifications`, and AbstractUser's other columns, are not modelled. Nothing in the core reads them.
- CourseViews.EditCourse: uses the corrected administrator gate. The gate as written lets every user through (see Findings).
- CourseViews.DeleteCourseView: uses the corrected administrator gate, for the same reason.
- Database.Portal.EditCourse: inherits the corrected gate from CourseViews.EditCourse.
- Database.Portal.DeleteCourse: inherits the corrected gate from CourseViews.DeleteCourseView.
- `Course.code unique=True` (courses/models.py:5) is not a conjunct of `Valid`. The course form refuses a code that another course uses (`ValidateCourseForm`), which is the only path the views take, but the model does not prove that the store never holds two courses with one code.
- UserViews.DashboardContext: omits the average grade (floating point).
- Form-level messages list only the first failing check of a form, not every error Django would collect.

## Findings

| source | as written | input that shows it | evidently intended | confidence | as-written member | corrected member |
|---|---|---|---|---|---|---|
| courses/models.py:57 | sums `grade.max_score`, an attribute Grade does not have | any enrollment with a grade, e.g. grades 80.00 and 90.00 out of 100.00 (`EightyAndNinetyGiveEightyFive`) | sum the graded assignments' `max_score`, giving 85.0 | not executed | CourseModels.CurrentGradeAsWritten | CourseModels.CurrentGrade |
| courses/views.py:222 | `user_passes_test(lambda u: u.is_admin)` returns the bound method, which is always truthy; the same holds at lines 232 and 253 | any student (`StudentPassesAdminGateAsWritten`) | call `u.is_admin()`, as create_course does at line 55 | not executed | CourseViews.AdminGateAsWritten | CourseViews.AdminGate |
| users/forms.py:79 | compares the class attribute `User.role` (a field descriptor) with `'student'`, which is never equal, so the student fields are never added | any student being edited (`UpdateFormOmitsStudentFields`) | add program_of_study and year_of_study when the edited user is a student | not executed | UserForms.UpdateFieldsAsWritten | UserForms.UpdateFields |
| users/views.py:102 | uses `models.ExpressionWrapper`, but the file imports only `Avg` and `Q` from django.db.models | a student with a grade on an active enrollment (`GradedStudentDashboardFails`) | render the dashboard context for every student | not executed | UserViews.DashboardAsWritten | UserViews.DashboardContext |
