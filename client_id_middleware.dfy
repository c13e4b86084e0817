/** `ClientIdMiddleware`: every request must name the configured API client. */
module ClientIdMiddlewares {
  import opened Wrappers
  import opened Exceptions
  import opened Http

  class ClientIdMiddleware {
    /** `appConfig.api.clientId`; undefined when the environment does not set it. */
    const configuredClientId: Option<string>

    constructor (configuredClientId: Option<string>)
      ensures this.configuredClientId == configuredClientId
    {
      this.configuredClientId := configuredClientId;
    }

    /**
     * `use(req, res, next)`: `nextCalls` counts the calls of `next`. A missing or
     * empty `x-client-id` and a different one are rejected, without calling
     * `next` or touching the request; the configured id is recorded on the request
     * and `next` is called once.
     */
    method Use(req: HttpRequest) returns (r: Outcome<()>, nextCalls: nat)
      modifies req
      ensures req.headers == old(req.headers) && req.user == old(req.user)
      ensures req.ip == old(req.ip) && req.remoteAddress == old(req.remoteAddress)
      ensures var h := Header(old(req.headers), "x-client-id");
              if h.None? || h.value == "" then
                r == Err(FrameworkUnauthorized("Client ID is required")) && nextCalls == 0 && req.clientId == old(req.clientId)
              else if h != configuredClientId then
                r == Err(FrameworkUnauthorized("Invalid Client ID")) && nextCalls == 0 && req.clientId == old(req.clientId)
              else
                r == Ok(()) && nextCalls == 1 && req.clientId == h
      ensures r.Ok? <==> configuredClientId.Some? && configuredClientId.value != ""
                         && Header(old(req.headers), "x-client-id") == configuredClientId
      ensures r.Ok? <==> nextCalls == 1
    {
      nextCalls := 0;
      var clientId := Header(req.headers, "x-client-id");
      if clientId.None? || clientId.value == "" {
        return Err(FrameworkUnauthorized("Client ID is required")), nextCalls;
      }
      if clientId != configuredClientId {
        return Err(FrameworkUnauthorized("Invalid Client ID")), nextCalls;
      }
      req.clientId := clientId;
      nextCalls := nextCalls + 1;
      r := Ok(());
    }
  }
}
