/** The records of the attendance tracker (a Student row, an Attendance row),
    the two tables they live in, the errors a handler can raise, and the
    lookups the handlers make ("first row whose column equals ..."). */
module Models {

  datatype Option<+T> = None | Some(value: T)

  /** The HTTP exceptions the handlers raise, by status: 401, 403, 400, 404. */
  datatype Error =
    | Unauthorized(detail: string)
    | Forbidden(detail: string)
    | BadRequest(detail: string)
    | NotFound(detail: string)

  datatype Result<+T> = Ok(value: T) | Err(error: Error)

  // The detail messages the handlers attach to their exceptions.
  const EmailAlreadyRegistered := "Email already registered"
  const IncorrectCredentials := "Incorrect email or password"
  const AlreadyLoggedInToday := "Student has already logged in today. Only one login per day is allowed."
  const CouldNotValidate := "Could not validate credentials"
  const UserNotFound := "User not found"
  const NotEnoughPermissions := "Not enough permissions"
  const StudentNotFound := "Student not found"

  /** A calendar day (the value of date.today()), as a day number. */
  type Date = int
  /** A point in time (the database's now() at insertion). */
  type Timestamp = int

  /** A row of the students table. The password is kept only as its salted hash. */
  datatype Student = Student(id: int, name: string, email: string, hashedPassword: string, isAdmin: bool)

  /** A row of the attendance table. login_time is set once, when the row is
      inserted; login_count and last_login_date are updated in place. */
  datatype Attendance = Attendance(
    id: int,
    studentId: int,
    loginTime: Timestamp,
    loginCount: int,
    lastLoginDate: Option<Date>)

  /** The whole database: both tables, each in insertion order. */
  datatype Tables = Tables(students: seq<Student>, attendance: seq<Attendance>)

  /** The index of the first element of s that satisfies p (a query's .first()). */
  function FirstMatch<T>(s: seq<T>, p: T -> bool): (r: Option<nat>)
    ensures r.Some? ==> r.value < |s| && p(s[r.value])
    ensures r.Some? ==> forall j :: 0 <= j < r.value ==> !p(s[j])
    ensures r.None? ==> forall j :: 0 <= j < |s| ==> !p(s[j])
    decreases |s|
  {
    if |s| == 0 then None
    else if p(s[0]) then Some(0)
    else match FirstMatch(s[1..], p)
      case None => None
      case Some(i) => Some(i + 1)
  }

  function FindByEmail(students: seq<Student>, email: string): Option<nat>
  {
    FirstMatch(students, (s: Student) => s.email == email)
  }

  function FindById(students: seq<Student>, id: int): Option<nat>
  {
    FirstMatch(students, (s: Student) => s.id == id)
  }

  function FindRecord(attendance: seq<Attendance>, studentId: int): Option<nat>
  {
    FirstMatch(attendance, (a: Attendance) => a.studentId == studentId)
  }

  predicate EmailRegistered(students: seq<Student>, email: string)
  {
    exists i :: 0 <= i < |students| && students[i].email == email
  }

  /** No two students share an email. */
  predicate EmailsUnique(students: seq<Student>)
  {
    forall i, j :: 0 <= i < j < |students| ==> students[i].email != students[j].email
  }

  /** Generated ids: rows are never deleted, so the n-th row has id n. */
  predicate StudentIdsArePositions(students: seq<Student>)
  {
    forall i :: 0 <= i < |students| ==> students[i].id == i + 1
  }

  /** The first student is the administrator and no other student is. */
  predicate SoleAdminIsFirst(students: seq<Student>)
  {
    forall i :: 0 <= i < |students| ==> students[i].isAdmin == (i == 0)
  }

  /** The unique constraint on attendance.student_id. */
  predicate OneRecordPerStudent(attendance: seq<Attendance>)
  {
    forall i, j :: 0 <= i < j < |attendance| ==> attendance[i].studentId != attendance[j].studentId
  }

  /** Every record belongs to an existing student, has been counted at least
      once and carries the date of its latest login. */
  predicate RecordsWellFormed(attendance: seq<Attendance>, studentCount: nat)
  {
    forall i :: 0 <= i < |attendance| ==>
      && attendance[i].id == i + 1
      && 1 <= attendance[i].studentId <= studentCount
      && attendance[i].loginCount >= 1
      && attendance[i].lastLoginDate.Some?
  }

  /** The invariant every handler keeps. */
  predicate Valid(t: Tables)
  {
    && EmailsUnique(t.students)
    && StudentIdsArePositions(t.students)
    && SoleAdminIsFirst(t.students)
    && OneRecordPerStudent(t.attendance)
    && RecordsWellFormed(t.attendance, |t.students|)
  }

  /** The login count recorded for a student, 0 while the student has no record. */
  function CountOf(attendance: seq<Attendance>, studentId: int): int
  {
    match FindRecord(attendance, studentId)
    case None => 0
    case Some(k) => attendance[k].loginCount
  }

  /** Under the uniqueness invariant the lookup by email finds the one
      student with that email. */
  lemma FindByEmailIsUnique(students: seq<Student>, email: string, i: nat)
    requires EmailsUnique(students)
    requires i < |students| && students[i].email == email
    ensures FindByEmail(students, email) == Some(i)
  {
  }

  /** Under the uniqueness constraint the lookup by student id finds the one
      record with that student id. */
  lemma FindRecordIsUnique(attendance: seq<Attendance>, studentId: int, k: nat)
    requires OneRecordPerStudent(attendance)
    requires k < |attendance| && attendance[k].studentId == studentId
    ensures FindRecord(attendance, studentId) == Some(k)
  {
  }

  /** Changing or adding rows of other students does not move the lookup of
      a student's record. */
  lemma FindRecordUnaffected(before: seq<Attendance>, after: seq<Attendance>, studentId: int)
    requires forall j :: 0 <= j < |after| && after[j].studentId == studentId ==>
      j < |before| && after[j] == before[j]
    requires forall j :: 0 <= j < |before| && before[j].studentId == studentId ==>
      j < |after| && after[j] == before[j]
    ensures FindRecord(after, studentId) == FindRecord(before, studentId)
  {
  }
}
