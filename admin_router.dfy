/** The admin read endpoints: GET /admin/students, GET /admin/attendance and
    GET /admin/attendance/{student_id}. Each first resolves the admin guard
    and then reads the tables; none of them writes. The database's
    ORDER BY login_time DESC is given by what it guarantees: the rows come
    out as a permutation of the selected rows, latest login_time first
    (the order of rows with equal login_time is left open). */
module AdminRouter {
  import opened Models
  import opened Dependencies

  predicate LatestFirst(rows: seq<Attendance>)
  {
    forall i, j :: 0 <= i < j < |rows| ==> rows[i].loginTime >= rows[j].loginTime
  }

  /** Insert one row into a latest-first list, keeping it latest-first. */
  function InsertLatestFirst(x: Attendance, rows: seq<Attendance>): (r: seq<Attendance>)
    requires LatestFirst(rows)
    ensures LatestFirst(r)
    ensures |r| == |rows| + 1
    ensures r[0] == x || (rows != [] && r[0] == rows[0])
    ensures multiset(r) == multiset(rows) + multiset{x}
    decreases |rows|
  {
    if rows == [] || x.loginTime >= rows[0].loginTime then [x] + rows
    else
      assert rows == [rows[0]] + rows[1..];
      [rows[0]] + InsertLatestFirst(x, rows[1..])
  }

  /** ORDER BY login_time DESC. */
  function OrderByLoginTimeDesc(rows: seq<Attendance>): (r: seq<Attendance>)
    ensures LatestFirst(r)
    ensures multiset(r) == multiset(rows)
    decreases |rows|
  {
    if rows == [] then []
    else
      assert rows == [rows[0]] + rows[1..];
      InsertLatestFirst(rows[0], OrderByLoginTimeDesc(rows[1..]))
  }

  /** WHERE attendance.student_id == studentId: every matching row, as often
      as it occurs, and no other. */
  function RecordsOf(rows: seq<Attendance>, studentId: int): (r: seq<Attendance>)
    ensures forall x :: multiset(r)[x] == if x.studentId == studentId then multiset(rows)[x] else 0
    decreases |rows|
  {
    if rows == [] then []
    else
      assert rows == [rows[0]] + rows[1..];
      if rows[0].studentId == studentId then [rows[0]] + RecordsOf(rows[1..], studentId)
      else RecordsOf(rows[1..], studentId)
  }

  predicate StudentExists(students: seq<Student>, id: int)
  {
    exists i :: 0 <= i < |students| && students[i].id == id
  }

  /** get_all_students. */
  function GetAllStudents(t: Tables, verifyToken: string -> Option<string>, token: string)
    : (r: Result<seq<Student>>)
    ensures r.Ok? <==> AuthenticateAdmin(t, verifyToken, token).Ok?
    ensures r.Ok? ==> r.value == t.students
    ensures r.Err? ==> r.error == AuthenticateAdmin(t, verifyToken, token).error
  {
    match AuthenticateAdmin(t, verifyToken, token)
    case Err(e) => Err(e)
    case Ok(_) => Ok(t.students)
  }

  /** get_attendance. */
  function GetAttendance(t: Tables, verifyToken: string -> Option<string>, token: string)
    : (r: Result<seq<Attendance>>)
    ensures r.Ok? <==> AuthenticateAdmin(t, verifyToken, token).Ok?
    ensures r.Ok? ==> multiset(r.value) == multiset(t.attendance) && LatestFirst(r.value)
    ensures r.Err? ==> r.error == AuthenticateAdmin(t, verifyToken, token).error
  {
    match AuthenticateAdmin(t, verifyToken, token)
    case Err(e) => Err(e)
    case Ok(_) => Ok(OrderByLoginTimeDesc(t.attendance))
  }

  /** get_student_attendance. The guard runs before the existence check, so
      a bad token or a non-admin is refused even for an unknown id. */
  function GetStudentAttendance(t: Tables, verifyToken: string -> Option<string>, token: string, studentId: int)
    : (r: Result<seq<Attendance>>)
    ensures AuthenticateAdmin(t, verifyToken, token).Err? ==>
      r == Err(AuthenticateAdmin(t, verifyToken, token).error)
    ensures AuthenticateAdmin(t, verifyToken, token).Ok? ==>
      (r == Err(NotFound(StudentNotFound)) <==> !StudentExists(t.students, studentId))
    ensures r.Ok? <==> AuthenticateAdmin(t, verifyToken, token).Ok? && StudentExists(t.students, studentId)
    ensures r.Ok? ==> LatestFirst(r.value)
    ensures r.Ok? ==> forall x :: multiset(r.value)[x] == (if x.studentId == studentId then multiset(t.attendance)[x] else 0)
  {
    match AuthenticateAdmin(t, verifyToken, token)
    case Err(e) => Err(e)
    case Ok(_) =>
      match FindById(t.students, studentId)
      case None => Err(NotFound(StudentNotFound))
      case Some(_) => Ok(OrderByLoginTimeDesc(RecordsOf(t.attendance, studentId)))
  }

  lemma {:induction false} RecordsOfAbsent(rows: seq<Attendance>, studentId: int)
    requires forall i :: 0 <= i < |rows| ==> rows[i].studentId != studentId
    ensures RecordsOf(rows, studentId) == []
    decreases |rows|
  {
    if rows != [] {
      RecordsOfAbsent(rows[1..], studentId);
    }
  }

  /** Under the unique constraint on student_id a student has at most one row. */
  lemma {:induction false} RecordsOfAtMostOne(rows: seq<Attendance>, studentId: int)
    requires OneRecordPerStudent(rows)
    ensures |RecordsOf(rows, studentId)| <= 1
    decreases |rows|
  {
    if rows != [] {
      if rows[0].studentId == studentId {
        RecordsOfAbsent(rows[1..], studentId);
      } else {
        RecordsOfAtMostOne(rows[1..], studentId);
      }
    }
  }

  /** GET /admin/attendance/{student_id} answers with at most one record. */
  lemma StudentAttendanceAtMostOne(
    t: Tables, verifyToken: string -> Option<string>, token: string, studentId: int)
    requires Valid(t)
    ensures var r := GetStudentAttendance(t, verifyToken, token, studentId);
      r.Ok? ==> |r.value| <= 1
  {
    RecordsOfAtMostOne(t.attendance, studentId);
    var rows := RecordsOf(t.attendance, studentId);
    assert |multiset(OrderByLoginTimeDesc(rows))| == |multiset(rows)|;
  }

  /** The three outcomes an admin endpoint can have: no valid token gives a
      401, a valid token of a non-admin a 403, and an admin's token is
      served (by the per-student endpoint too, unless the id is unknown). */
  lemma AdminEndpointsGuarded(
    t: Tables, verifyToken: string -> Option<string>, token: string, studentId: int, i: nat)
    requires Valid(t)
    requires i < |t.students|
    ensures verifyToken(token).None? ==>
      && GetAllStudents(t, verifyToken, token) == Err(Unauthorized(CouldNotValidate))
      && GetAttendance(t, verifyToken, token) == Err(Unauthorized(CouldNotValidate))
      && GetStudentAttendance(t, verifyToken, token, studentId) == Err(Unauthorized(CouldNotValidate))
    ensures verifyToken(token) == Some(t.students[i].email) && !t.students[i].isAdmin ==>
      && GetAllStudents(t, verifyToken, token) == Err(Forbidden(NotEnoughPermissions))
      && GetAttendance(t, verifyToken, token) == Err(Forbidden(NotEnoughPermissions))
      && GetStudentAttendance(t, verifyToken, token, studentId) == Err(Forbidden(NotEnoughPermissions))
    ensures verifyToken(token) == Some(t.students[i].email) && t.students[i].isAdmin ==>
      && GetAllStudents(t, verifyToken, token) == Ok(t.students)
      && GetAttendance(t, verifyToken, token).Ok?
      && (GetStudentAttendance(t, verifyToken, token, studentId).Ok? <==> 1 <= studentId <= |t.students|)
  {
    if verifyToken(token) == Some(t.students[i].email) {
      CurrentUserIsTheOwner(t, verifyToken, token, i);
      if 1 <= studentId <= |t.students| {
        assert t.students[studentId - 1].id == studentId;
      }
    }
  }
}
