/** POST /auth/register and POST /auth/login. Each handler is given as a
    specification function from the tables before the request to the tables
    after it and the response, and as a method that changes a database
    session in place and is proved to follow that function.

    Outside inputs are parameters: the salted hash computed at registration
    (hashedPassword), the password check at login (verify: whether the
    submitted password matches a stored hash), date.today() (today) and the
    database's now() for a new row's login_time (now). The access token is
    represented by the claims it is issued for. */
module AuthRouter {
  import opened Models
  import opened StudentSchema
  import opened Database

  /** The claims create_access_token signs: the subject is the student's email. */
  datatype TokenClaims = TokenClaims(sub: string)

  /** The body of a successful login. */
  datatype TokenResponse = TokenResponse(accessToken: TokenClaims, tokenType: string)

  const Bearer := "bearer"

  /** What a request leaves behind: the tables after it and its response. */
  datatype Outcome<+T> = Outcome(tables: Tables, response: Result<T>)

  /** register_student. */
  function Register(t: Tables, request: StudentCreate, hashedPassword: string): (r: Outcome<Student>)
    ensures r.response.Err? <==> EmailRegistered(t.students, request.email)
    ensures r.response.Err? ==> r == Outcome(t, Err(BadRequest(EmailAlreadyRegistered)))
    ensures r.response.Ok? ==>
      var s := r.response.value;
      && r.tables == Tables(t.students + [s], t.attendance)
      && s.name == request.name && s.email == request.email && s.hashedPassword == hashedPassword
      && s.isAdmin == (|t.students| == 0)
  {
    if FindByEmail(t.students, request.email).Some? then
      Outcome(t, Err(BadRequest(EmailAlreadyRegistered)))
    else
      var userCount := |t.students|;
      var student := Student(userCount + 1, request.name, request.email, hashedPassword, userCount == 0);
      Outcome(Tables(t.students + [student], t.attendance), Ok(student))
  }

  /** login_student. */
  function Login(t: Tables, request: StudentLogin, verify: string -> bool, today: Date, now: Timestamp)
    : (r: Outcome<TokenResponse>)
    ensures r.tables.students == t.students
    ensures r.response.Err? ==> r.tables == t
    ensures !EmailRegistered(t.students, request.email) ==> r.response == Err(Unauthorized(IncorrectCredentials))
    ensures r.response.Ok? ==> r.response.value == TokenResponse(TokenClaims(request.email), Bearer)
    ensures r.response.Ok? ==> |r.tables.attendance| - |t.attendance| in {0, 1}
  {
    match FindByEmail(t.students, request.email)
    case None => Outcome(t, Err(Unauthorized(IncorrectCredentials)))
    case Some(i) =>
      var user := t.students[i];
      if !verify(user.hashedPassword) then Outcome(t, Err(Unauthorized(IncorrectCredentials)))
      else
        var token := Ok(TokenResponse(TokenClaims(user.email), Bearer));
        match FindRecord(t.attendance, user.id)
        case Some(k) =>
          var record := t.attendance[k];
          if !user.isAdmin && record.lastLoginDate == Some(today) then
            Outcome(t, Err(BadRequest(AlreadyLoggedInToday)))
          else
            var updated := record.(loginCount := record.loginCount + 1, lastLoginDate := Some(today));
            Outcome(t.(attendance := t.attendance[k := updated]), token)
        case None =>
          var created := Attendance(|t.attendance| + 1, user.id, now, 1, Some(today));
          Outcome(t.(attendance := t.attendance + [created]), token)
  }

  /** The handler of POST /auth/register on a database session. */
  method RegisterStudent(db: Session, student: StudentCreate, hashedPassword: string)
    returns (r: Result<Student>)
    requires db.Valid()
    modifies db
    ensures db.Valid()
    ensures Outcome(db.Contents(), r) == Register(old(db.Contents()), student, hashedPassword)
    ensures r.Err? ==> db.students == old(db.students) && db.attendance == old(db.attendance)
    ensures r.Ok? ==> db.students == old(db.students) + [r.value] && db.attendance == old(db.attendance)
    ensures r.Ok? ==> r.value.isAdmin == (old(db.students) == [])
  {
    ghost var before := db.Contents();
    var dbUser := FindByEmail(db.students, student.email);
    if dbUser.Some? {
      return Err(BadRequest(EmailAlreadyRegistered));
    }
    var userCount := |db.students|;
    var isAdmin := userCount == 0;
    var dbStudent := Student(userCount + 1, student.name, student.email, hashedPassword, isAdmin);
    db.students := db.students + [dbStudent];
    r := Ok(dbStudent);
    RegisterPreservesValid(before, student, hashedPassword);
  }

  /** The handler of POST /auth/login on a database session. */
  method LoginStudent(db: Session, student: StudentLogin, verify: string -> bool, today: Date, now: Timestamp)
    returns (r: Result<TokenResponse>)
    requires db.Valid()
    modifies db
    ensures db.Valid()
    ensures Outcome(db.Contents(), r) == Login(old(db.Contents()), student, verify, today, now)
    ensures db.students == old(db.students)
    ensures r.Err? ==> db.attendance == old(db.attendance)
    ensures r.Ok? ==> r.value == TokenResponse(TokenClaims(student.email), Bearer)
  {
    ghost var before := db.Contents();
    LoginPreservesValid(before, student, verify, today, now);
    var found := FindByEmail(db.students, student.email);
    if found.None? || !verify(db.students[found.value].hashedPassword) {
      return Err(Unauthorized(IncorrectCredentials));
    }
    var dbUser := db.students[found.value];
    var existing := FindRecord(db.attendance, dbUser.id);
    if existing.Some? {
      var attendance := db.attendance[existing.value];
      if !dbUser.isAdmin && attendance.lastLoginDate == Some(today) {
        return Err(BadRequest(AlreadyLoggedInToday));
      }
      attendance := attendance.(loginCount := attendance.loginCount + 1, lastLoginDate := Some(today));
      db.attendance := db.attendance[existing.value := attendance];
    } else {
      var attendance := Attendance(|db.attendance| + 1, dbUser.id, now, 1, Some(today));
      db.attendance := db.attendance + [attendance];
    }
    r := Ok(TokenResponse(TokenClaims(dbUser.email), Bearer));
  }

  // ---------------------------------------------------------------------
  // Registration

  /** A registration keeps every invariant of the tables, in particular
      email uniqueness and "the first student is the only admin". */
  lemma RegisterPreservesValid(t: Tables, request: StudentCreate, hashedPassword: string)
    requires Valid(t)
    ensures Valid(Register(t, request, hashedPassword).tables)
  {
  }

  /** A request to register, as it reaches the handler. */
  datatype Registration = Registration(request: StudentCreate, hashedPassword: string)

  /** The tables after a series of registrations, rejected ones included. */
  function RegisterAll(t: Tables, registrations: seq<Registration>): Tables
    decreases |registrations|
  {
    if registrations == [] then t
    else
      var head := registrations[0];
      RegisterAll(Register(t, head.request, head.hashedPassword).tables, registrations[1..])
  }

  function AdminCount(students: seq<Student>): nat
  {
    if students == [] then 0
    else (if students[0].isAdmin then 1 else 0) + AdminCount(students[1..])
  }

  lemma {:induction false} RegisterAllPreservesValid(t: Tables, registrations: seq<Registration>)
    requires Valid(t)
    ensures Valid(RegisterAll(t, registrations))
    decreases |registrations|
  {
    if registrations != [] {
      var head := registrations[0];
      RegisterPreservesValid(t, head.request, head.hashedPassword);
      RegisterAllPreservesValid(Register(t, head.request, head.hashedPassword).tables, registrations[1..]);
    }
  }

  lemma {:induction false} NoAdminsAfterFirst(students: seq<Student>)
    requires forall i :: 0 <= i < |students| ==> !students[i].isAdmin
    ensures AdminCount(students) == 0
  {
    if students != [] {
      NoAdminsAfterFirst(students[1..]);
    }
  }

  /** After any series of registrations starting from an empty database, a
      non-empty students table holds exactly one admin: the first registrant. */
  lemma ExactlyOneAdmin(registrations: seq<Registration>)
    ensures var s := RegisterAll(Tables([], []), registrations).students;
      && (s != [] ==> s[0].isAdmin && AdminCount(s) == 1)
      && (s == [] ==> AdminCount(s) == 0)
  {
    var s := RegisterAll(Tables([], []), registrations).students;
    RegisterAllPreservesValid(Tables([], []), registrations);
    if s != [] {
      NoAdminsAfterFirst(s[1..]);
    }
  }

  // ---------------------------------------------------------------------
  // Login

  /** A login keeps every invariant of the tables, in particular at most
      one attendance record per student. */
  lemma LoginPreservesValid(t: Tables, request: StudentLogin, verify: string -> bool, today: Date, now: Timestamp)
    requires Valid(t)
    ensures Valid(Login(t, request, verify, today, now).tables)
  {
  }

  /** An unknown email and a wrong password are answered alike, with a 401,
      and neither touches the tables; no other outcome is a 401. */
  lemma LoginUnauthorizedIff(t: Tables, request: StudentLogin, verify: string -> bool, today: Date, now: Timestamp)
    requires Valid(t)
    ensures var r := Login(t, request, verify, today, now);
      (r.response.Err? && r.response.error.Unauthorized?)
      <==>
      (!EmailRegistered(t.students, request.email)
       || exists i :: 0 <= i < |t.students| && t.students[i].email == request.email
                      && !verify(t.students[i].hashedPassword))
    ensures var r := Login(t, request, verify, today, now);
      r.response.Err? && r.response.error.Unauthorized? ==>
      r == Outcome(t, Err(Unauthorized(IncorrectCredentials)))
  {
  }

  /** A non-admin whose record already carries today's date is refused with
      a 400, and the tables stay as they were. */
  lemma SecondLoginSameDayRejected(
    t: Tables, request: StudentLogin, verify: string -> bool, today: Date, now: Timestamp, i: nat, k: nat)
    requires Valid(t)
    requires i < |t.students| && t.students[i].email == request.email && verify(t.students[i].hashedPassword)
    requires !t.students[i].isAdmin
    requires k < |t.attendance| && t.attendance[k].studentId == t.students[i].id
    requires t.attendance[k].lastLoginDate == Some(today)
    ensures Login(t, request, verify, today, now) == Outcome(t, Err(BadRequest(AlreadyLoggedInToday)))
  {
  }

  /** A login that finds a record and is let through (an admin, or a day other
      than the recorded one) adds exactly one to login_count and sets
      last_login_date to today; nothing else in the record or the tables changes. */
  lemma AcceptedLoginIncrements(
    t: Tables, request: StudentLogin, verify: string -> bool, today: Date, now: Timestamp, i: nat, k: nat)
    requires Valid(t)
    requires i < |t.students| && t.students[i].email == request.email && verify(t.students[i].hashedPassword)
    requires k < |t.attendance| && t.attendance[k].studentId == t.students[i].id
    requires t.students[i].isAdmin || t.attendance[k].lastLoginDate != Some(today)
    ensures var r := Login(t, request, verify, today, now);
      var old_ := t.attendance[k];
      && r.response == Ok(TokenResponse(TokenClaims(request.email), Bearer))
      && |r.tables.attendance| == |t.attendance|
      && r.tables.attendance[k] == old_.(loginCount := old_.loginCount + 1, lastLoginDate := Some(today))
      && (forall j :: 0 <= j < |t.attendance| && j != k ==> r.tables.attendance[j] == t.attendance[j])
  {
  }

  /** A first login creates the student's record with login_count 1 and
      last_login_date today, at the end of the table. */
  lemma FirstLoginCreatesRecord(
    t: Tables, request: StudentLogin, verify: string -> bool, today: Date, now: Timestamp, i: nat)
    requires Valid(t)
    requires i < |t.students| && t.students[i].email == request.email && verify(t.students[i].hashedPassword)
    requires forall k :: 0 <= k < |t.attendance| ==> t.attendance[k].studentId != t.students[i].id
    ensures var r := Login(t, request, verify, today, now);
      && r.response == Ok(TokenResponse(TokenClaims(request.email), Bearer))
      && r.tables.attendance == t.attendance + [Attendance(|t.attendance| + 1, t.students[i].id, now, 1, Some(today))]
  {
  }

  /** The student a login request is for, when it is accepted. */
  predicate AcceptedFor(t: Tables, request: StudentLogin, response: Result<TokenResponse>, studentId: int)
  {
    response.Ok? && exists i :: 0 <= i < |t.students| && t.students[i].email == request.email && t.students[i].id == studentId
  }

  /** One login changes the recorded count of the student it accepts by
      exactly one and leaves every other student's count as it was. */
  lemma LoginCountStep(t: Tables, request: StudentLogin, verify: string -> bool, today: Date, now: Timestamp, studentId: int)
    requires Valid(t)
    ensures var r := Login(t, request, verify, today, now);
      CountOf(r.tables.attendance, studentId)
      == CountOf(t.attendance, studentId) + (if AcceptedFor(t, request, r.response, studentId) then 1 else 0)
  {
    var r := Login(t, request, verify, today, now);
    LoginPreservesValid(t, request, verify, today, now);
    if r.response.Ok? {
      var i := FindByEmail(t.students, request.email).value;
      var user := t.students[i];
      var a := r.tables.attendance;
      if studentId == user.id {
        match FindRecord(t.attendance, user.id)
        case Some(k) =>
          FindRecordIsUnique(a, studentId, k);
        case None =>
          FindRecordIsUnique(a, studentId, |t.attendance|);
      } else {
        FindRecordUnaffected(t.attendance, a, studentId);
      }
    }
  }

  /** A login request, as it reaches the handler, with the outside inputs. */
  datatype LoginAttempt = LoginAttempt(request: StudentLogin, verify: string -> bool, today: Date, now: Timestamp)

  /** The tables after a series of login attempts, rejected ones included. */
  function LoginAll(t: Tables, attempts: seq<LoginAttempt>): Tables
    decreases |attempts|
  {
    if attempts == [] then t
    else
      var a := attempts[0];
      LoginAll(Login(t, a.request, a.verify, a.today, a.now).tables, attempts[1..])
  }

  /** The number of attempts in a series that are accepted for a student. */
  function AcceptedCount(t: Tables, attempts: seq<LoginAttempt>, studentId: int): nat
    decreases |attempts|
  {
    if attempts == [] then 0
    else
      var a := attempts[0];
      var r := Login(t, a.request, a.verify, a.today, a.now);
      (if AcceptedFor(t, a.request, r.response, studentId) then 1 else 0)
        + AcceptedCount(r.tables, attempts[1..], studentId)
  }

  /** login_count counts successful logins: over any series of attempts a
      student's recorded count grows by exactly the number of attempts
      accepted for that student, so it never decreases. */
  lemma {:induction false} LoginCountCountsAcceptedLogins(t: Tables, attempts: seq<LoginAttempt>, studentId: int)
    requires Valid(t)
    ensures Valid(LoginAll(t, attempts))
    ensures CountOf(LoginAll(t, attempts).attendance, studentId)
            == CountOf(t.attendance, studentId) + AcceptedCount(t, attempts, studentId)
    decreases |attempts|
  {
    if attempts != [] {
      var a := attempts[0];
      LoginPreservesValid(t, a.request, a.verify, a.today, a.now);
      LoginCountStep(t, a.request, a.verify, a.today, a.now, studentId);
      LoginCountCountsAcceptedLogins(Login(t, a.request, a.verify, a.today, a.now).tables, attempts[1..], studentId);
    }
  }

  /** Once a non-admin has been let in, every further attempt on the same day
      is refused with a 400 and changes nothing, however often it is repeated. */
  lemma SameDayRetryIsIdempotent(
    t: Tables, request: StudentLogin, verify: string -> bool, today: Date, now: Timestamp, later: Timestamp)
    requires Valid(t)
    requires var r := Login(t, request, verify, today, now);
      r.response.Ok? && !t.students[FindByEmail(t.students, request.email).value].isAdmin
    ensures var t1 := Login(t, request, verify, today, now).tables;
      Login(t1, request, verify, today, later) == Outcome(t1, Err(BadRequest(AlreadyLoggedInToday)))
  {
    var r := Login(t, request, verify, today, now);
    var i := FindByEmail(t.students, request.email).value;
    var user := t.students[i];
    LoginPreservesValid(t, request, verify, today, now);
    var k := match FindRecord(t.attendance, user.id) case Some(k) => k case None => |t.attendance|;
    assert r.tables.attendance[k].studentId == user.id;
    SecondLoginSameDayRejected(r.tables, request, verify, today, later, i, k);
  }

  /** An admin is exempt from the once-per-day rule: a second login on the
      same day is accepted and counted again. */
  lemma AdminRetrySameDayAccepted(
    t: Tables, request: StudentLogin, verify: string -> bool, today: Date, now: Timestamp, later: Timestamp)
    requires Valid(t)
    requires var r := Login(t, request, verify, today, now);
      r.response.Ok? && t.students[FindByEmail(t.students, request.email).value].isAdmin
    ensures var t1 := Login(t, request, verify, today, now).tables;
      var r2 := Login(t1, request, verify, today, later);
      var sid := t.students[FindByEmail(t.students, request.email).value].id;
      r2.response.Ok? && CountOf(r2.tables.attendance, sid) == CountOf(t1.attendance, sid) + 1
  {
    var r := Login(t, request, verify, today, now);
    var i := FindByEmail(t.students, request.email).value;
    var user := t.students[i];
    LoginPreservesValid(t, request, verify, today, now);
    var k := match FindRecord(t.attendance, user.id) case Some(k) => k case None => |t.attendance|;
    assert r.tables.attendance[k].studentId == user.id;
    AcceptedLoginIncrements(r.tables, request, verify, today, later, i, k);
    LoginCountStep(r.tables, request, verify, today, later, user.id);
    assert AcceptedFor(r.tables, request, Login(r.tables, request, verify, today, later).response, user.id);
  }

  // ---------------------------------------------------------------------
  // A session from an empty database

  /** The tables once Ann has registered and logged in three times today. */
  function AfterAnn(today: Date, now: Timestamp): Tables
  {
    Tables([Student(1, "Ann", "ann@x.com", "ann-hash", true)], [Attendance(1, 1, now, 3, Some(today))])
  }

  /** Ann registers first and becomes the admin; she logs in three times on
      one day and is let in and counted each time. */
  lemma AdminScenario(verify: string -> bool, today: Date, now: Timestamp)
    requires verify("ann-hash")
    ensures
      var ann := StudentLogin("ann@x.com", "pw");
      var r1 := Register(Tables([], []), StudentCreate("Ann", "ann@x.com", "pw"), "ann-hash");
      var a1 := Login(r1.tables, ann, verify, today, now);
      var a2 := Login(a1.tables, ann, verify, today, now);
      var a3 := Login(a2.tables, ann, verify, today, now);
      && r1.response.Ok? && r1.response.value.isAdmin
      && a1.response.Ok? && CountOf(a1.tables.attendance, 1) == 1
      && a2.response.Ok? && CountOf(a2.tables.attendance, 1) == 2
      && a3.response.Ok? && CountOf(a3.tables.attendance, 1) == 3
      && a3.tables == AfterAnn(today, now)
  {
    var ann := StudentLogin("ann@x.com", "pw");
    var annRow := Student(1, "Ann", "ann@x.com", "ann-hash", true);
    var r1 := Register(Tables([], []), StudentCreate("Ann", "ann@x.com", "pw"), "ann-hash");
    assert r1.tables == Tables([annRow], []);
    FindByEmailIsUnique([annRow], "ann@x.com", 0);
    var a1 := Login(r1.tables, ann, verify, today, now);
    assert a1.tables == Tables([annRow], [Attendance(1, 1, now, 1, Some(today))]);
    FindRecordIsUnique(a1.tables.attendance, 1, 0);
    var a2 := Login(a1.tables, ann, verify, today, now);
    assert a2.tables == Tables([annRow], [Attendance(1, 1, now, 2, Some(today))]);
    FindRecordIsUnique(a2.tables.attendance, 1, 0);
    var a3 := Login(a2.tables, ann, verify, today, now);
    assert a3.tables == Tables([annRow], [Attendance(1, 1, now, 3, Some(today))]);
    FindRecordIsUnique(a3.tables.attendance, 1, 0);
  }

  /** Bob registers after Ann and is not an admin; he is let in once, refused
      a second time that day, and let in again the next day. */
  lemma StudentScenario(verify: string -> bool, today: Date, now: Timestamp)
    requires verify("bob-hash")
    ensures
      var bob := StudentLogin("bob@x.com", "pw2");
      var r2 := Register(AfterAnn(today, now), StudentCreate("Bob", "bob@x.com", "pw2"), "bob-hash");
      var b1 := Login(r2.tables, bob, verify, today, now);
      var b2 := Login(b1.tables, bob, verify, today, now);
      var b3 := Login(b2.tables, bob, verify, today + 1, now);
      && r2.response.Ok? && !r2.response.value.isAdmin
      && b1.response.Ok? && CountOf(b1.tables.attendance, 2) == 1
      && b2 == Outcome(b1.tables, Err(BadRequest(AlreadyLoggedInToday)))
      && b3.response.Ok? && CountOf(b3.tables.attendance, 2) == 2
  {
    var bob := StudentLogin("bob@x.com", "pw2");
    var t := AfterAnn(today, now);
    var bobRow := Student(2, "Bob", "bob@x.com", "bob-hash", false);
    var annRecord := Attendance(1, 1, now, 3, Some(today));
    assert !EmailRegistered(t.students, "bob@x.com");
    var r2 := Register(t, StudentCreate("Bob", "bob@x.com", "pw2"), "bob-hash");
    var students := t.students + [bobRow];
    assert r2.tables == Tables(students, [annRecord]);
    FindByEmailIsUnique(students, "bob@x.com", 1);
    assert FindRecord([annRecord], 2) == None;
    var b1 := Login(r2.tables, bob, verify, today, now);
    var bobRecord := Attendance(2, 2, now, 1, Some(today));
    assert b1.tables == Tables(students, [annRecord, bobRecord]);
    FindRecordIsUnique(b1.tables.attendance, 2, 1);
    var b3 := Login(b1.tables, bob, verify, today + 1, now);
    assert b3.tables == Tables(students, [annRecord, bobRecord.(loginCount := 2, lastLoginDate := Some(today + 1))]);
    FindRecordIsUnique(b3.tables.attendance, 2, 1);
  }
}
