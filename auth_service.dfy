/**
 * `AuthService`: credential login that issues a signed access token and records
 * it as a 30-day session, and logout that deletes that session.
 */
module Auth {
  import opened Wrappers
  import opened Entities
  import opened Exceptions
  import opened SessionStore
  import opened UserStore
  import opened Users

  /** `30 * 24 * 60 * 60 * 1000`: how long a login session lasts, in milliseconds. */
  const SessionLifetime: int := 30 * 24 * 60 * 60 * 1000

  const InvalidCredentials := "INVALID_USERNAME_OR_PASSWORD"
  const UserNotActive := "USER_IS_NOT_ACTIVE"

  datatype LoginDto = LoginDto(username: string, password: string)

  /** `LoginResponseDto`: the user as `UserResponseDto` shows it, and the access token. */
  datatype LoginResponse = LoginResponse(user: UserEntity, accessToken: string)

  /** `new UserResponseDto(user)`: the password is excluded from what is sent back. */
  function PublicUser(u: UserEntity): (r: UserEntity)
    ensures r.password.None? && r.(password := u.password) == u
  {
    u.(password := None)
  }

  /**
   * `validateUser(model)` given what the username-or-email lookup returned: an
   * unknown user and a wrong password are the same error; only a user whose
   * password matches can learn that the account is inactive.
   */
  function ValidateUser(found: Option<UserEntity>, password: string, matches: (string, string) -> bool): (r: Outcome<UserEntity>)
    ensures found.None? ==> Raises(r, InvalidCredentials)
    ensures found.Some? && !matches(password, found.value.password.GetOr("")) ==> Raises(r, InvalidCredentials)
    ensures Raises(r, UserNotActive) <==> found.Some? && matches(password, found.value.password.GetOr("")) && !found.value.isActive
    ensures r.Ok? <==> found.Some? && matches(password, found.value.password.GetOr("")) && found.value.isActive
    ensures r.Ok? ==> r.value == found.value
    ensures r.Err? ==> r.error.HttpException? && r.error.status == 401
  {
    match found
    case None => Err(Unauthorized("Invalid username or password", InvalidCredentials))
    case Some(user) =>
      if !matches(password, user.password.GetOr("")) then Err(Unauthorized("Invalid username or password", InvalidCredentials))
      else if !user.isActive then Err(Unauthorized("Your account is not active", UserNotActive))
      else Ok(user)
  }

  /** A wrong password gets exactly the answer an unknown user gets. */
  lemma WrongPasswordLooksLikeUnknownUser(user: UserEntity, password: string, matches: (string, string) -> bool)
    requires !matches(password, user.password.GetOr(""))
    ensures ValidateUser(Some(user), password, matches) == ValidateUser(None, password, matches)
  {
  }

  /** The claims of `generateToken(user)`: `id` and `sub` are the user's id, the roles are copied. */
  function TokenPayload(user: UserEntity): (p: Payload)
    ensures p.id == user.id && p.sub == user.id && p.roles == user.roles
    ensures p.email == user.email && p.username == user.username
  {
    Payload(user.id, user.id, user.email, user.username, user.firstName, user.lastName,
            user.displayName, user.profileImageUrl, user.phoneNumber, user.roles)
  }

  class AuthService {
    const userService: UserService

    ghost predicate Valid()
      reads this, userService, userService.users, userService.sessions, userService.tokens
    {
      userService.Valid()
    }

    constructor (userService: UserService)
      ensures this.userService == userService
    {
      this.userService := userService;
    }

    /**
     * `authenticate(model, ip, userAgent)` at time `now`; `sign` is the token
     * signer and `sessionId` the new session's id. A failed check issues no token
     * and saves no session; otherwise the token handed back is the one the new,
     * 30-day session is stored under.
     */
    method Authenticate(model: LoginDto, ip: string, userAgent: string, sessionId: Id, now: Timestamp,
                        matches: (string, string) -> bool, sign: Payload -> string) returns (r: Outcome<LoginResponse>)
      requires Valid()
      modifies userService.sessions
      ensures Valid()
      ensures var v := ValidateUser(old(userService.users.FindByEmailOrUsername(model.username, true)), model.password, matches);
              if v.Err? then
                r == Err(v.error) && userService.sessions.sessions == old(userService.sessions.sessions)
              else
                var token := sign(TokenPayload(v.value));
                var key := SessionKey(v.value.id, token);
                if key in old(userService.sessions.sessions) then
                  r == Err(DatabaseError) && userService.sessions.sessions == old(userService.sessions.sessions)
                else
                  && r == Ok(LoginResponse(PublicUser(v.value), token))
                  && userService.sessions.sessions == old(userService.sessions.sessions)[key :=
                       SessionRow(sessionId, v.value.id, token, Some(ip), Some(userAgent), now + SessionLifetime,
                                  true, now, Some(now))]
                  && userService.GetUserSessionByToken(v.value.id, token, now).Some?
    {
      var found := userService.users.FindByEmailOrUsername(model.username, true);
      var user := ValidateUser(found, model.password, matches);
      if user.Err? {
        return Err(user.error);
      }
      var token := sign(TokenPayload(user.value));
      var saved := userService.SaveUserSession(sessionId, user.value.id, token, ip, userAgent, now + SessionLifetime, now);
      if saved.Err? {
        return Err(saved.error);
      }
      r := Ok(LoginResponse(PublicUser(user.value), token));
    }

    /**
     * `logout(userId, token)`: deletes that session without looking first, so a
     * session that is not there makes the delete's error the logout's.
     */
    method Logout(userId: Id, token: string) returns (r: Outcome<()>)
      requires Valid()
      modifies userService.sessions
      ensures Valid()
      ensures userService.sessions.sessions == old(userService.sessions.sessions) - {SessionKey(userId, token)}
      ensures r.Err? <==> SessionKey(userId, token) !in old(userService.sessions.sessions)
      ensures r.Err? ==> r.error == DatabaseError
    {
      var deleted := userService.DeleteUserSession(userId, token);
      r := if deleted.Err? then Err(deleted.error) else Ok(());
    }
  }
}
