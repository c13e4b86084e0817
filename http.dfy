/** The parts of an Express request the guards and middleware read and write. */
module Http {
  import opened Wrappers
  import opened Entities

  /** What the auth guard stores as `request.user`. */
  datatype RequestUser = RequestUser(
    jwtToken: string,
    currentUserId: Id,
    currentUserEmail: Option<string>,
    currentUserName: Option<string>,
    currentUserRoles: seq<Role>)

  class HttpRequest {
    /** Header values by lower-case name, as Node delivers them. */
    var headers: map<string, string>
    var ip: Option<string>
    var remoteAddress: Option<string>
    var user: Option<RequestUser>
    var clientId: Option<string>

    constructor (headers: map<string, string>, ip: Option<string>, remoteAddress: Option<string>)
      ensures this.headers == headers && this.ip == ip && this.remoteAddress == remoteAddress
      ensures user.None? && clientId.None?
    {
      this.headers, this.ip, this.remoteAddress := headers, ip, remoteAddress;
      user, clientId := None, None;
    }
  }

  /** `req.headers[name]` */
  function Header(headers: map<string, string>, name: string): (r: Option<string>)
    ensures r.Some? <==> name in headers
    ensures r.Some? ==> r.value == headers[name]
  {
    if name in headers then Some(headers[name]) else None
  }
}
