# Attendance tracker: a verified model of its bookkeeping

The attendance tracker is a small web backend. Students register and log
in, and each accepted login is recorded as attendance. The first student
to register becomes the administrator. Administrators read the student and
attendance tables through guarded endpoints.

This project models that bookkeeping in Dafny:

- `models.dfy` (module `Models`): the `Student` and `Attendance` rows, the two
  tables as one `Tables` value, the errors the handlers raise (401, 403, 400,
  404 as `Unauthorized`, `Forbidden`, `BadRequest`, `NotFound`, with the
  source's detail messages), the "first row where column == value" lookup, and
  the invariant `Valid` every handler keeps: unique emails, generated ids, the
  first student as the only admin, one attendance record per student, and
  well-formed records.
- `database.dfy` (module `Database`): the database session as a class whose
  two fields are the tables.
- `auth_router.dfy` (module `AuthRouter`): `register_student` and
  `login_student`. Each is a specification function from the tables before a
  request to the tables after it plus the response (`Register`, `Login`). Each
  is also a method on a session that changes the tables in place
  (`RegisterStudent`, `LoginStudent`) and is proved to follow its function.
  Lemmas cover the admin rule, the once-per-day rule, its admin exemption, and
  the login counter.
- `dependencies.dfy` (module `Dependencies`): the guards `get_current_user`
  and `get_current_admin` and the chain an admin endpoint resolves.
- `admin_router.dfy` (module `AdminRouter`): the three admin read endpoints.
  `ORDER BY login_time DESC` is given by what it guarantees: a permutation
  of the selected rows, latest first.
- `student_schema.dfy` (module `StudentSchema`): the request bodies and the
  password validator shared by `StudentCreate` and `StudentLogin`, over
  UTF-8 byte lengths.

Inputs from outside the core are parameters:

- `hashedPassword` is the salted hash computed at registration.
- `verify` tells whether the submitted password matches a stored hash.
- `verifyToken` maps a bearer token to its subject email, or to `None`.
- `today` is `date.today()`.
- `now` is the database's `now()` for a new row's `login_time`.

An access token is represented by the claims it is issued for
(`TokenClaims(sub)`).

The guards and the admin endpoints are functions of the tables, so they
cannot change them. The two handlers that do change the tables say in their
postconditions what the new tables are.

Three facts about the code that the model keeps:

- A duplicate email at registration is answered with 400 "Email already
  registered".
- Passwords are cut to 72 characters, not 72 bytes. See Findings.
- `login_time` is set once, when the record is inserted (a server default),
  and later logins do not change it. So "latest first" orders records by
  each student's first login.

## Model

| member | source | states |
|---|---|---|
| `Models.FirstMatch` | Week05/windsurf_AI/attendance_tracker/app/routers/auth.py:19 | a query's `.first()`: the index found holds a matching row and no earlier row matches; `None` exactly when no row matches |
| `Models.FindRecordIsUnique` | Week05/windsurf_AI/attendance_tracker/app/models/attendance.py:11 | under the unique constraint on `student_id`, the lookup by student id finds the one record that has it |
| `Models.FindByEmailIsUnique` | Week05/windsurf_AI/attendance_tracker/app/routers/auth.py:49 | with unique emails, the lookup by email finds the one student that has it |
| `Database.Session.constructor` | Week05/windsurf_AI/attendance_tracker/main.py:7 | the tables start empty, which satisfies every invariant |
| `AuthRouter.Register` | Week05/windsurf_AI/attendance_tracker/app/routers/auth.py:16-43 | fails with 400 "Email already registered" exactly when the email is taken, and then the tables are unchanged; otherwise it appends one student with the given name, email and hash, who is admin iff the table was empty, and the attendance table is unchanged |
| `AuthRouter.RegisterStudent` | Week05/windsurf_AI/attendance_tracker/app/routers/auth.py:17-43 | the handler on a session follows `Register`: on rejection both tables are unchanged; on success exactly the new student is appended, admin iff the table was empty; the invariant is kept |
| `AuthRouter.RegisterPreservesValid` | Week05/windsurf_AI/attendance_tracker/app/routers/auth.py:19-41 | a registration keeps email uniqueness, generated ids, the sole-admin rule and the attendance invariants |
| `AuthRouter.RegisterAllPreservesValid` | Week05/windsurf_AI/attendance_tracker/app/routers/auth.py:19-41 | any series of registrations, rejected ones included, keeps the invariant |
| `AuthRouter.ExactlyOneAdmin` | Week05/windsurf_AI/attendance_tracker/app/routers/auth.py:27-28 | after any series of registrations from an empty database, a non-empty students table has exactly one admin, the first registrant |
| `AuthRouter.Login` | Week05/windsurf_AI/attendance_tracker/app/routers/auth.py:46-89 | never changes the students table; every rejection leaves both tables as they were; an unknown email gives 401 "Incorrect email or password"; an accepted login returns a bearer token whose subject is the email, and adds at most one row |
| `AuthRouter.LoginStudent` | Week05/windsurf_AI/attendance_tracker/app/routers/auth.py:47-89 | the handler on a session follows `Login`: the students table is unchanged, a rejection leaves attendance unchanged, an accepted login returns a bearer token for the email, and the invariant is kept |
| `AuthRouter.LoginPreservesValid` | Week05/windsurf_AI/attendance_tracker/app/routers/auth.py:58-81 | a login keeps at most one record per student and keeps every record well formed, with login_count at least 1 |
| `AuthRouter.LoginUnauthorizedIff` | Week05/windsurf_AI/attendance_tracker/app/routers/auth.py:49-55 | a login fails with 401 iff the email is unknown or the password check fails; both cases give the same error and leave the tables unchanged |
| `AuthRouter.SecondLoginSameDayRejected` | Week05/windsurf_AI/attendance_tracker/app/routers/auth.py:61-67 | a non-admin whose record has `last_login_date == today` gets 400 and the tables are unchanged, so no token is issued |
| `AuthRouter.AcceptedLoginIncrements` | Week05/windsurf_AI/attendance_tracker/app/routers/auth.py:63-72 | an admin, or a non-admin on another day, with a record gets a token; login_count goes up by exactly 1 and last_login_date becomes today; no other row changes |
| `AuthRouter.FirstLoginCreatesRecord` | Week05/windsurf_AI/attendance_tracker/app/routers/auth.py:73-81 | a student without a record gets a token and one new record: login_count 1, last_login_date today, login_time now |
| `AuthRouter.LoginCountStep` | Week05/windsurf_AI/attendance_tracker/app/routers/auth.py:58-81 | one login raises the recorded count of the student it accepts by exactly 1 and leaves every other student's count unchanged |
| `AuthRouter.LoginCountCountsAcceptedLogins` | Week05/windsurf_AI/attendance_tracker/app/routers/auth.py:58-81 | over any series of login attempts, a student's login_count grows by exactly the number of attempts accepted for that student, so it never decreases |
| `AuthRouter.SameDayRetryIsIdempotent` | Week05/windsurf_AI/attendance_tracker/app/routers/auth.py:61-67 | once a non-admin has been let in, a further attempt the same day is refused with 400 and leaves the tables as they were |
| `AuthRouter.AdminRetrySameDayAccepted` | Week05/windsurf_AI/attendance_tracker/app/routers/auth.py:63 | an admin's second login on the same day is accepted and counted again, because the once-per-day check applies only to non-admins |
| `AuthRouter.AdminScenario` | Week05/windsurf_AI/attendance_tracker/app/routers/auth.py:16-89 | from an empty database, Ann registers and is admin, and her three logins on one day are all accepted, with counts 1, 2 and 3 |
| `AuthRouter.StudentScenario` | Week05/windsurf_AI/attendance_tracker/app/routers/auth.py:16-89 | Bob registers after Ann and is not admin; his first login that day gives count 1, his second gets 400 and changes nothing, and his login the next day gives count 2 |
| `Dependencies.GetCurrentUser` | Week05/windsurf_AI/attendance_tracker/app/auth/dependencies.py:11-31 | 401 "Could not validate credentials" when the token yields no email, whatever the tables; 401 "User not found" when no student has that email; succeeds iff both hold, with a student of the table whose email is the token's subject |
| `Dependencies.CurrentUserIsTheOwner` | Week05/windsurf_AI/attendance_tracker/app/auth/dependencies.py:24-31 | with unique emails, the student returned is the one whose email is the token's subject |
| `Dependencies.GetCurrentAdmin` | Week05/windsurf_AI/attendance_tracker/app/auth/dependencies.py:34-40 | returns its input unchanged iff it is an admin, otherwise 403 "Not enough permissions" |
| `Dependencies.AuthenticateAdmin` | Week05/windsurf_AI/attendance_tracker/app/auth/dependencies.py:34 | an admin endpoint's guard is `get_current_admin` applied to `get_current_user`: the user guard's error passes through unchanged, and success yields an admin of the table |
| `Dependencies.AdminGuardCases` | Week05/windsurf_AI/attendance_tracker/app/auth/dependencies.py:11-40 | an invalid token gives 401, an unknown subject gives 401, a non-admin subject gives 403, and an admin subject is let through as that student |
| `AdminRouter.InsertLatestFirst` | Week05/windsurf_AI/attendance_tracker/app/routers/admin.py:28 | inserting a row into a latest-first list keeps it latest first and adds exactly that row |
| `AdminRouter.OrderByLoginTimeDesc` | Week05/windsurf_AI/attendance_tracker/app/routers/admin.py:28 | the result is a permutation of the rows, in non-increasing `login_time` |
| `AdminRouter.RecordsOf` | Week05/windsurf_AI/attendance_tracker/app/routers/admin.py:46-48 | the filter keeps every row with the given student id, as often as it occurs, and no other row |
| `AdminRouter.GetAllStudents` | Week05/windsurf_AI/attendance_tracker/app/routers/admin.py:14-20 | succeeds iff the admin guard does, and then returns the whole students table; otherwise returns the guard's error |
| `AdminRouter.GetAttendance` | Week05/windsurf_AI/attendance_tracker/app/routers/admin.py:23-29 | succeeds iff the admin guard does, and then returns all attendance records, latest `login_time` first; otherwise returns the guard's error |
| `AdminRouter.GetStudentAttendance` | Week05/windsurf_AI/attendance_tracker/app/routers/admin.py:32-50 | the guard's error comes first; for an admin, 404 "Student not found" iff no student has the id; it succeeds exactly when the guard passes and the student exists, and then returns exactly the records of that student id, latest first |
| `AdminRouter.RecordsOfAtMostOne` | Week05/windsurf_AI/attendance_tracker/app/models/attendance.py:11 | under the unique constraint on `student_id`, the filter yields at most one row |
| `AdminRouter.StudentAttendanceAtMostOne` | Week05/windsurf_AI/attendance_tracker/app/routers/admin.py:46-50 | the per-student endpoint returns at most one record |
| `AdminRouter.AdminEndpointsGuarded` | Week05/windsurf_AI/attendance_tracker/app/routers/admin.py:14-50 | all three endpoints give 401 for an invalid token and 403 for a non-admin's token; for an admin, the list endpoints succeed and the per-student one succeeds iff the id belongs to a student |
| `StudentSchema.Utf8Length` | Week05/windsurf_AI/attendance_tracker/app/schemas/student.py:14 | `len(v.encode('utf-8'))` is between 1 and 4 bytes per character |
| `StudentSchema.ValidatePassword` | Week05/windsurf_AI/attendance_tracker/app/schemas/student.py:11-17 | the same validator as lines 24-30: the result is a prefix of the input; an input of at most 72 bytes is returned unchanged; a longer one becomes its first 72 characters, so a truncated result has at most 72 characters |
| `StudentSchema.ValidatePasswordIdempotent` | Week05/windsurf_AI/attendance_tracker/app/schemas/student.py:13-17 | validating a validated password changes nothing |
| `StudentSchema.ValidatePasswordShrinks` | Week05/windsurf_AI/attendance_tracker/app/schemas/student.py:14-16 | the result never encodes to more bytes than the input; a truncated result encodes to at most 288 bytes |
| `StudentSchema.AsciiPasswordFitsByteLimit` | Week05/windsurf_AI/attendance_tracker/app/schemas/student.py:14-16 | an ASCII password does come out at 72 bytes or fewer |
| `StudentSchema.ValidatedPasswordCanExceedByteLimit` | Week05/windsurf_AI/attendance_tracker/app/schemas/student.py:14-16 | 73 copies of "é" (146 bytes) validate to 72 characters that still take 144 bytes |
| `StudentSchema.TruncateToByteLimit` | Week05/windsurf_AI/attendance_tracker/app/schemas/student.py:15 | the longest prefix whose encoding fits the byte limit: a prefix, within the limit, and one more character would not fit |
| `StudentSchema.ValidatePasswordToByteLimit` | Week05/windsurf_AI/attendance_tracker/app/schemas/student.py:14-16 | the corrected validator: a prefix of at most 72 bytes, unchanged when the input already fits |
| `StudentSchema.CorrectedAgreesOnAscii` | Week05/windsurf_AI/attendance_tracker/app/schemas/student.py:14-16 | on ASCII input the corrected validator and the validator as written agree |

## Left out

- Password hashing and checking (app/auth/password.py) wrap bcrypt with a random salt. The hash is the `hashedPassword` parameter of registration, and the check is the `verify` parameter of login. Like the validator, `password.py` cuts to 72 characters (`[:72]`), not 72 bytes.
- Token creation and verification (`app.auth.jwt_handler`) are not part of this model: signing, the secret key and expiry after `ACCESS_TOKEN_EXPIRE_MINUTES`. A token is represented by its `sub` claim, and `verify_token` is the `verifyToken` parameter.
- The clock: `date.today()` and the database's `now()` are the `today` and `now` parameters.
- Application wiring is not modelled: app construction, CORS, table creation and the `/` and `/health` endpoints in main.py, and the session acquire/release in app/database/connection.py.
- Persistence is not modelled: commit/refresh, transactions, and races between concurrent requests (two logins of one student at once). Each request is one atomic step.
- Generated ids: the model gives the n-th row id n. This is what an auto-increment key does when rows are never deleted.
- Student fields beyond id, name, email, hash and admin flag are left out. That includes `created_at` and `updated_at`. app/models/student.py is not part of this model, and the uniqueness of emails rests on the handler's check.
- Request and response shapes are left out: `EmailStr` validation, the response models and their `Config`.
- Bearer-header extraction is not modelled: `HTTPBearer` refuses a request without a bearer `Authorization` header with its own error before `get_current_user` runs. The guards here start from the token string, so such a request has no counterpart in the model.
- HTTP details are left out: status codes appear only as the four error kinds, and `WWW-Authenticate` headers are dropped.
- A Python string may hold a lone surrogate, which `encode('utf-8')` rejects. A Dafny `char` is a Unicode scalar value, so such input cannot be written.

## Findings

| source | as written | input that shows it | evidently intended | confidence | as-written member | corrected member |
|---|---|---|---|---|---|---|
| Week05/windsurf_AI/attendance_tracker/app/schemas/student.py:14-16 | a password whose UTF-8 encoding exceeds 72 bytes is cut to its first 72 characters (`v[:72]`) | 73 copies of "é" (146 bytes) become 72 copies, still 144 bytes, above bcrypt's 72-byte limit | cut to at most 72 bytes, as the comment on line 15 says, at a character boundary | medium; not executed | `StudentSchema.ValidatedPasswordCanExceedByteLimit` | `StudentSchema.ValidatePasswordToByteLimit` |

The handlers in this model see a password only through the `hashedPassword`
and `verify` parameters. So neither validator feeds the tables, and the
corrected one stands beside the validator as written.
