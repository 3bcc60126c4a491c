/**
 * The portal's custom user: a role drawn from three fixed strings plus the
 * student-specific and contact columns (users/models.py).
 */
module UserModels {
  import opened Wrappers

  const STUDENT: string := "student"
  const INSTRUCTOR: string := "instructor"
  const ADMIN: string := "admin"

  /** The role column's choices, in declaration order. */
  const ROLE_CHOICES: seq<string> := [STUDENT, INSTRUCTOR, ADMIN]

  /** A stored image: its file name, its MIME content type and its size in bytes. */
  datatype Upload = Upload(name: string, contentType: string, size: nat)

  datatype User = User(
    username: string,
    role: string,
    email: string,
    firstName: string,
    lastName: string,
    studentId: Option<string>,
    programOfStudy: Option<string>,
    yearOfStudy: Option<int>,
    phoneNumber: Option<string>,
    profilePicture: Option<Upload>)

  predicate ValidRole(role: string) {
    role in ROLE_CHOICES
  }

  /** A user row as the model's defaults create it: every optional column empty. */
  function NewUser(username: string): (u: User)
    ensures IsStudent(u) && !IsInstructor(u) && !IsAdmin(u)
    ensures u.profilePicture == None
  {
    User(username, STUDENT, "", "", "", None, None, None, None, None)
  }

  predicate IsStudent(u: User) {
    u.role == STUDENT
  }

  predicate IsInstructor(u: User) {
    u.role == INSTRUCTOR
  }

  predicate IsAdmin(u: User) {
    u.role == ADMIN
  }

  /** The three role tests partition the valid roles: exactly one of them holds. */
  lemma ExactlyOneRole(u: User)
    requires ValidRole(u.role)
    ensures IsStudent(u) || IsInstructor(u) || IsAdmin(u)
    ensures !(IsStudent(u) && IsInstructor(u))
    ensures !(IsStudent(u) && IsAdmin(u))
    ensures !(IsInstructor(u) && IsAdmin(u))
  {
    assert STUDENT != INSTRUCTOR && STUDENT != ADMIN && INSTRUCTOR != ADMIN;
  }

  /** A role outside the choices passes none of the three tests. */
  lemma InvalidRoleHasNoCapability(u: User)
    requires !ValidRole(u.role)
    ensures !IsStudent(u) && !IsInstructor(u) && !IsAdmin(u)
  {
  }
}
