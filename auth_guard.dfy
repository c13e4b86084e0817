/**
 * `AuthGuard`: a request gets through when its `authorization` header carries a
 * token that verifies, the token is a live session of the user it names, and that
 * user exists and is active.
 */
module AuthGuards {
  import opened Wrappers
  import opened Entities
  import opened Exceptions
  import opened Http
  import Text
  import opened Users
  import opened Auth

  const MissingToken := "MISSING_OR_INVALID_TOKEN"
  const InvalidToken := "INVALID_OR_EXPIRED_TOKEN"
  const InvalidUser := "INVALID_USER"

  /** The `authorization` header when it is present and not the empty string. */
  function AuthorizationHeader(headers: map<string, string>): (h: Option<string>)
    ensures h.Some? <==> "authorization" in headers && headers["authorization"] != ""
    ensures h.Some? ==> h.value == headers["authorization"]
  {
    if "authorization" in headers && headers["authorization"] != "" then Some(headers["authorization"]) else None
  }

  /** `authorizationToken.split(' ')[1]`; undefined, which no token verifies as, when there is no space. */
  function TokenOf(header: string): (t: Option<string>)
    ensures t.None? <==> ' ' !in header
  {
    Text.SecondField(header, ' ')
  }

  /** Whatever the scheme word before the space, the token is the word after it. */
  lemma SchemeIsIgnored(scheme: string, token: string)
    requires ' ' !in scheme && ' ' !in token
    ensures AuthorizationHeader(map["authorization" := scheme + " " + token]) == Some(scheme + " " + token)
    ensures TokenOf(scheme + " " + token) == Some(token)
  {
    Text.SecondFieldAfter(scheme, ' ', token);
  }

  /** The `request.user` the guard builds from a verified token's claims. */
  function RequestUserOf(token: string, p: Payload): (u: RequestUser)
    ensures u.jwtToken == token && u.currentUserId == p.id && u.currentUserRoles == p.roles
    ensures u.currentUserEmail == p.email && u.currentUserName == p.username
  {
    RequestUser(token, p.id, p.email, p.username, p.roles)
  }

  class AuthGuard {
    const userService: UserService

    ghost predicate Valid()
      reads this, userService, userService.users, userService.sessions, userService.tokens
    {
      userService.Valid()
    }

    constructor (userService: UserService)
      ensures this.userService == userService
    {
      this.userService := userService;
    }

    /**
     * The requests the guard lets through: a bearer token that verifies, a live
     * session under that token for the user it names, and that user active.
     */
    predicate Admits(headers: map<string, string>, now: Timestamp, verify: string -> Option<Payload>)
      reads this, userService, userService.users, userService.sessions
    {
      var h := AuthorizationHeader(headers);
      && h.Some? && TokenOf(h.value).Some?
      && var t := TokenOf(h.value).value;
      && verify(t).Some?
      && var p := verify(t).value;
      && userService.GetUserSessionByToken(p.id, t, now).Some?
      && userService.users.FindById(p.id).Some? && userService.users.FindById(p.id).value.isActive
    }

    /** A bearer of a verifying token with a live session, whose user is active, is let through. */
    lemma AdmitsLiveSession(scheme: string, token: string, now: Timestamp, verify: string -> Option<Payload>, p: Payload)
      requires ' ' !in scheme && ' ' !in token && verify(token) == Some(p)
      requires userService.GetUserSessionByToken(p.id, token, now).Some?
      requires userService.users.FindById(p.id).Some? && userService.users.FindById(p.id).value.isActive
      ensures Admits(map["authorization" := scheme + " " + token], now, verify)
    {
      SchemeIsIgnored(scheme, token);
    }

    /**
     * `canActivate(context)` for `request` at time `now`; `verify` is the JWT
     * check, giving the claims of a token whose signature is good and which has
     * not expired. `request.user` is set as soon as the token verifies, before the
     * session and the user are looked up.
     */
    method CanActivate(request: HttpRequest, now: Timestamp, verify: string -> Option<Payload>) returns (r: Outcome<bool>)
      modifies request
      ensures request.headers == old(request.headers) && request.ip == old(request.ip)
      ensures request.remoteAddress == old(request.remoteAddress) && request.clientId == old(request.clientId)
      ensures r.Err? ==> r.error.HttpException? && r.error.status == 401
      ensures r.Ok? ==> r.value
      ensures r.Ok? <==> Admits(old(request.headers), now, verify)
      ensures var h := AuthorizationHeader(old(request.headers));
              if h.None? then
                Raises(r, MissingToken) && request.user == old(request.user)
              else
                var t := TokenOf(h.value);
                if t.None? || verify(t.value).None? then
                  Raises(r, InvalidToken) && request.user == old(request.user)
                else
                  var p := verify(t.value).value;
                  && request.user == Some(RequestUserOf(t.value, p))
                  && if userService.GetUserSessionByToken(p.id, t.value, now).None? then Raises(r, InvalidToken)
                     else
                       var u := userService.users.FindById(p.id);
                       if u.None? || !u.value.isActive then Raises(r, InvalidUser)
                       else r == Ok(true)
    {
      var authorizationToken := AuthorizationHeader(request.headers);
      if authorizationToken.None? {
        return Err(Unauthorized("Missing or invalid token", MissingToken));
      }
      var token := TokenOf(authorizationToken.value);
      if token.None? {
        return Err(Unauthorized("Invalid or expired token", InvalidToken));
      }
      var tokenPayload := verify(token.value);
      if tokenPayload.None? {
        return Err(Unauthorized("Invalid or expired token", InvalidToken));
      }
      request.user := Some(RequestUserOf(token.value, tokenPayload.value));
      var userSession := userService.GetUserSessionByToken(request.user.value.currentUserId, request.user.value.jwtToken, now);
      if userSession.None? {
        return Err(Unauthorized("Invalid or expired token", InvalidToken));
      }
      var user := userService.users.FindById(request.user.value.currentUserId);
      if user.None? || !user.value.isActive {
        return Err(Unauthorized("Invalid user", InvalidUser));
      }
      r := Ok(true);
    }
  }

  /**
   * The access token a login hands out gets its bearer past the guard while the
   * session lasts, when the verifier accepts what the signer signs and tokens
   * contain no space (a JWT is three base64url words joined by dots).
   */
  method LoginThenAccess(auth: AuthService, guard: AuthGuard, model: LoginDto, ip: string, userAgent: string,
                         sessionId: Id, now: Timestamp, matches: (string, string) -> bool,
                         sign: Payload -> string, verify: string -> Option<Payload>, request: HttpRequest)
    returns (login: Outcome<LoginResponse>, access: Outcome<bool>)
    requires auth.Valid() && guard.userService == auth.userService
    requires forall p :: verify(sign(p)) == Some(p)
    requires forall p :: ' ' !in sign(p)
    modifies auth.userService.sessions, request
    ensures login.Ok? ==> access == Ok(true)
  {
    var found := auth.userService.users.FindByEmailOrUsername(model.username, true);
    login := auth.Authenticate(model, ip, userAgent, sessionId, now, matches, sign);
    if login.Err? {
      return login, Err(NonError);
    }
    auth.userService.users.FoundByLoginReadsBackById(model.username, true);
    access := BearerAccess(guard, request, login.value.accessToken, TokenPayload(found.value), now, verify);
  }

  /** A request bearing `token`, whose session is live and whose user is active, is let through. */
  method BearerAccess(guard: AuthGuard, request: HttpRequest, token: string, p: Payload, now: Timestamp,
                      verify: string -> Option<Payload>) returns (access: Outcome<bool>)
    requires ' ' !in token && verify(token) == Some(p)
    requires guard.userService.GetUserSessionByToken(p.id, token, now).Some?
    requires guard.userService.users.FindById(p.id).Some? && guard.userService.users.FindById(p.id).value.isActive
    modifies request
    ensures access == Ok(true)
  {
    guard.AdmitsLiveSession("Bearer", token, now, verify, p);
    request.headers := map["authorization" := "Bearer" + " " + token];
    access := guard.CanActivate(request, now, verify);
  }

  /** Once a session is logged out, its token no longer gets past the guard. */
  method LogoutThenAccess(auth: AuthService, guard: AuthGuard, userId: Id, token: string, now: Timestamp,
                          verify: string -> Option<Payload>, request: HttpRequest)
    returns (logout: Outcome<()>, access: Outcome<bool>)
    requires auth.Valid() && guard.userService == auth.userService
    requires "authorization" in request.headers && TokenOf(request.headers["authorization"]) == Some(token)
    requires verify(token).Some? && verify(token).value.id == userId
    modifies auth.userService.sessions, request
    ensures access.Err? && Reason(access.error) == Some(InvalidToken)
  {
    logout := auth.Logout(userId, token);
    access := guard.CanActivate(request, now, verify);
  }
}
