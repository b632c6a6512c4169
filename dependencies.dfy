/** The access guards the admin endpoints depend on: get_current_user turns
    a bearer token into a student, get_current_admin lets only an admin
    through. Both only read the tables.

    verify_token belongs to the token layer (signature and expiry checks)
    and is a parameter here: it maps a token to the email in its subject
    claim, or to None when the token is not valid. */
module Dependencies {
  import opened Models

  /** get_current_user. */
  function GetCurrentUser(t: Tables, verifyToken: string -> Option<string>, token: string): (r: Result<Student>)
    ensures verifyToken(token).None? ==> r == Err(Unauthorized(CouldNotValidate))
    ensures verifyToken(token).Some? && !EmailRegistered(t.students, verifyToken(token).value) ==>
      r == Err(Unauthorized(UserNotFound))
    ensures r.Ok? <==> verifyToken(token).Some? && EmailRegistered(t.students, verifyToken(token).value)
    ensures r.Ok? ==> r.value in t.students && r.value.email == verifyToken(token).value
  {
    match verifyToken(token)
    case None => Err(Unauthorized(CouldNotValidate))
    case Some(email) =>
      match FindByEmail(t.students, email)
      case None => Err(Unauthorized(UserNotFound))
      case Some(i) => Ok(t.students[i])
  }

  /** get_current_admin: the student is passed through unchanged exactly
      when it is an admin. */
  function GetCurrentAdmin(user: Student): (r: Result<Student>)
    ensures r == Ok(user) <==> user.isAdmin
    ensures !user.isAdmin ==> r == Err(Forbidden(NotEnoughPermissions))
  {
    if !user.isAdmin then Err(Forbidden(NotEnoughPermissions)) else Ok(user)
  }

  /** The dependency chain an admin endpoint resolves before it runs:
      get_current_user, then get_current_admin on its result. */
  function AuthenticateAdmin(t: Tables, verifyToken: string -> Option<string>, token: string): (r: Result<Student>)
    ensures GetCurrentUser(t, verifyToken, token).Err? ==> r == GetCurrentUser(t, verifyToken, token)
    ensures GetCurrentUser(t, verifyToken, token).Ok? ==> r == GetCurrentAdmin(GetCurrentUser(t, verifyToken, token).value)
    ensures r.Ok? ==> r.value.isAdmin && r.value in t.students
  {
    match GetCurrentUser(t, verifyToken, token)
    case Err(e) => Err(e)
    case Ok(user) => GetCurrentAdmin(user)
  }

  /** With unique emails the guard resolves a token to THE student whose
      email is the token's subject. */
  lemma CurrentUserIsTheOwner(t: Tables, verifyToken: string -> Option<string>, token: string, i: nat)
    requires EmailsUnique(t.students)
    requires verifyToken(token).Some?
    requires i < |t.students| && t.students[i].email == verifyToken(token).value
    ensures GetCurrentUser(t, verifyToken, token) == Ok(t.students[i])
  {
  }

  /** A token is let through to an admin endpoint exactly when it is valid
      and its subject is the email of an admin; an invalid token or an
      unknown subject gives a 401, a non-admin subject a 403. */
  lemma AdminGuardCases(t: Tables, verifyToken: string -> Option<string>, token: string)
    requires EmailsUnique(t.students)
    ensures var r := AuthenticateAdmin(t, verifyToken, token);
      && (verifyToken(token).None? ==> r == Err(Unauthorized(CouldNotValidate)))
      && (verifyToken(token).Some? && !EmailRegistered(t.students, verifyToken(token).value) ==>
            r == Err(Unauthorized(UserNotFound)))
      && (forall i :: 0 <= i < |t.students| && verifyToken(token) == Some(t.students[i].email) ==>
            r == (if t.students[i].isAdmin then Ok(t.students[i]) else Err(Forbidden(NotEnoughPermissions))))
  {
  }
}
