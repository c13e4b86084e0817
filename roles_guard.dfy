/**
 * `RolesGuard`: a route's allow-list of role names against the roles the store
 * links to the current user; the roles inside the access token play no part.
 */
module RoleGuards {
  import opened Wrappers
  import opened Entities
  import opened Exceptions
  import opened Http
  import opened Users

  const InvalidUser := "INVALID_USER"
  const NotAuthorized := "UNAUTHORIZED"

  /** `userRoles.some((role) => roles.includes(role.name))` */
  function HasMatchingRole(userRoles: seq<Role>, allowed: seq<string>): (b: bool)
    ensures b <==> exists k :: 0 <= k < |userRoles| && userRoles[k].name in allowed
  {
    if userRoles == [] then false
    else if userRoles[0].name in allowed then true
    else
      var b := HasMatchingRole(userRoles[1..], allowed);
      assert b ==> exists k :: 0 <= k < |userRoles| && userRoles[k].name in allowed by {
        if b {
          var k :| 0 <= k < |userRoles[1..]| && userRoles[1..][k].name in allowed;
          assert userRoles[k + 1].name in allowed;
        }
      }
      b
  }

  /**
   * The decision once the role lookup has answered: a missing answer is an
   * invalid user, before the route's metadata is looked at; a route without an
   * allow-list admits everyone; otherwise one of the user's role names must be on it.
   */
  function RolesDecision(userRoles: Option<seq<Role>>, allowed: Option<seq<string>>): (r: Outcome<bool>)
    ensures userRoles.None? ==> Raises(r, InvalidUser)
    ensures userRoles.Some? && allowed.None? ==> r == Ok(true)
    ensures userRoles.Some? && allowed.Some? ==>
              (r == Ok(true) <==> exists k :: 0 <= k < |userRoles.value| && userRoles.value[k].name in allowed.value)
    ensures userRoles.Some? && allowed.Some? && r.Err? ==> Raises(r, NotAuthorized)
    ensures userRoles.Some? && allowed == Some([]) ==> Raises(r, NotAuthorized)
    ensures r.Ok? ==> r.value
    ensures r.Err? ==> r.error.HttpException? && r.error.status == 401
  {
    if userRoles.None? then Err(Unauthorized("Invalid user", InvalidUser))
    else if allowed.None? then Ok(true)
    else if !HasMatchingRole(userRoles.value, allowed.value) then
      Err(Unauthorized("You are not authorized to access this resource", NotAuthorized))
    else Ok(true)
  }

  class RolesGuard {
    const userService: UserService

    constructor (userService: UserService)
      ensures this.userService == userService
    {
      this.userService := userService;
    }

    /**
     * `canActivate(context)` where `allowed` is the handler's `roles` metadata.
     * Reading `request.user.currentUserId` without an authenticated user throws a
     * `TypeError` before anything else happens.
     */
    function CanActivate(request: HttpRequest, allowed: Option<seq<string>>): (r: Outcome<bool>)
      reads request, userService, userService.users
      ensures request.user.None? ==> r.Err? && r.error.PlainError?
      ensures request.user.Some? && allowed.None? ==> r == Ok(true)
      ensures request.user.Some? && allowed.Some? ==>
                var stored := userService.users.RolesOf(request.user.value.currentUserId);
                (r == Ok(true) <==> exists k :: 0 <= k < |stored| && stored[k].name in allowed.value)
                && (r.Err? ==> Raises(r, NotAuthorized))
    {
      if request.user.None? then Err(PlainError("Cannot read properties of undefined (reading 'currentUserId')"))
      else
        var userRoles := userService.FindRolesByUserId(request.user.value.currentUserId);
        RolesDecision(userRoles, allowed)
    }
  }
}
