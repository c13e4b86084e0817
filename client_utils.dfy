/** `getClientIP`: which proxy header, or which socket field, names the client. */
module ClientUtils {
  import opened Wrappers
  import opened Entities
  import Text
  import Http

  /**
   * `getClientIP(req)`: the first field of a non-empty `x-forwarded-for`, trimmed;
   * else a non-empty `x-real-ip`; else a non-empty `cf-connecting-ip`; else
   * `req.ip || req.socket?.remoteAddress || null`. Empty values count as absent.
   */
  function GetClientIP(headers: map<string, string>, ip: Option<string>, remoteAddress: Option<string>): (r: Option<string>)
    ensures var forwarded := Http.Header(headers, "x-forwarded-for");
            Truthy(forwarded) ==> r == Some(Text.Trim(Text.UntilChar(forwarded.value, ',')))
    ensures var forwarded := Http.Header(headers, "x-forwarded-for");
            var realIp := Http.Header(headers, "x-real-ip");
            !Truthy(forwarded) && Truthy(realIp) ==> r == realIp
    ensures var forwarded := Http.Header(headers, "x-forwarded-for");
            var realIp := Http.Header(headers, "x-real-ip");
            var cf := Http.Header(headers, "cf-connecting-ip");
            !Truthy(forwarded) && !Truthy(realIp) && Truthy(cf) ==> r == cf
    ensures var forwarded := Http.Header(headers, "x-forwarded-for");
            var realIp := Http.Header(headers, "x-real-ip");
            var cf := Http.Header(headers, "cf-connecting-ip");
            !Truthy(forwarded) && !Truthy(realIp) && !Truthy(cf) ==>
              r == (if Truthy(ip) then ip else if Truthy(remoteAddress) then remoteAddress else None)
  {
    var forwarded := Http.Header(headers, "x-forwarded-for");
    var realIp := Http.Header(headers, "x-real-ip");
    var cfConnecting := Http.Header(headers, "cf-connecting-ip");
    if Truthy(forwarded) then Some(Text.Trim(Text.UntilChar(forwarded.value, ',')))
    else if Truthy(realIp) then realIp
    else if Truthy(cfConnecting) then cfConnecting
    else if Truthy(ip) then ip
    else if Truthy(remoteAddress) then remoteAddress
    else None
  }

  /**
   * Every answer is a non-empty value except the one a forwarded list whose first
   * field is blank gives: the empty string.
   */
  lemma OnlyForwardedCanBeBlank(headers: map<string, string>, ip: Option<string>, remoteAddress: Option<string>)
    ensures var r := GetClientIP(headers, ip, remoteAddress);
            r == Some("") ==> Truthy(Http.Header(headers, "x-forwarded-for"))
    ensures var r := GetClientIP(headers, ip, remoteAddress);
            r.Some? ==> r.value == "" || !Text.IsJsWhitespace(r.value[0]) || !Truthy(Http.Header(headers, "x-forwarded-for"))
  {
  }

  /** The address forwarded first wins over every other source, and its surrounding blanks go. */
  lemma ForwardedFirstFieldWins(client: string, rest: string, headers: map<string, string>,
                                ip: Option<string>, remoteAddress: Option<string>)
    requires ',' !in client && client != [] && !Text.IsJsWhitespace(client[0]) && !Text.IsJsWhitespace(client[|client| - 1])
    ensures GetClientIP(headers["x-forwarded-for" := " " + client + "," + rest], ip, remoteAddress) == Some(client)
  {
    var h := headers["x-forwarded-for" := " " + client + "," + rest];
    assert h["x-forwarded-for"] == (" " + client) + ([','] + rest);
    Text.UntilCharOfPrefix(" " + client, ',', [','] + rest);
    assert Text.UntilChar(h["x-forwarded-for"], ',') == " " + client;
    assert Text.TrimStart(" " + client) == client by {
      assert (" " + client)[1..] == client;
    }
  }
}
