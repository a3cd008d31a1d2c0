/**
 * The bearer-token gate in front of the deck routes. Token verification
 * (`jwt.verify` with the server's secret) is a partial function given as a
 * parameter: None stands for a token it rejects.
 */
module Middleware {
  import opened Wrappers
  import opened Http

  const BearerPrefix := "Bearer "

  /** `authHeader.startsWith("Bearer ")` followed by `authHeader.substring(7)`. */
  function BearerToken(header: Option<string>): (token: Option<string>)
    ensures token.Some? <==> header.Some? && |header.value| >= 7 && header.value[..7] == BearerPrefix
    ensures token.Some? ==> BearerPrefix + token.value == header.value
  {
    if header.Some? && |header.value| >= 7 && header.value[..7] == BearerPrefix then Some(header.value[7..])
    else None
  }

  /** Parsing gives back any token written behind the prefix. */
  lemma BearerTokenOfPrefixed(token: string)
    ensures BearerToken(Some(BearerPrefix + token)) == Some(token)
  {
    assert (BearerPrefix + token)[..7] == BearerPrefix;
    assert (BearerPrefix + token)[7..] == token;
  }

  /** The request as the gate sees it: its Authorization header, the identity it attaches, and calls to `next`. */
  class Request {
    const authorization: Option<string>
    var user: Option<Claims>
    var nextCalls: nat

    constructor (authorization: Option<string>)
      ensures this.authorization == authorization && user == None && nextCalls == 0
    {
      this.authorization := authorization;
      user := None;
      nextCalls := 0;
    }
  }

  /**
   * `authMiddleware`: either writes a 401 response, or attaches the decoded identity
   * and calls `next` once; never both. `sent` is the response written, if any.
   */
  method Authenticate(req: Request, verify: string -> Option<Claims>) returns (sent: Option<Response>)
    modifies req
    ensures BearerToken(req.authorization).None? ==>
              sent == Some(Response(401, Error(NoTokenProvided))) && unchanged(req)
    ensures BearerToken(req.authorization).Some? && verify(BearerToken(req.authorization).value).None? ==>
              sent == Some(Response(401, Error(InvalidToken))) && unchanged(req)
    ensures BearerToken(req.authorization).Some? && verify(BearerToken(req.authorization).value).Some? ==>
              && sent.None?
              && req.user == verify(BearerToken(req.authorization).value)
              && req.nextCalls == old(req.nextCalls) + 1
    ensures sent.Some? <==> req.nextCalls == old(req.nextCalls)
  {
    var token := BearerToken(req.authorization);
    if token.None? {
      return Some(Response(401, Error(NoTokenProvided)));
    }
    var decoded := verify(token.value);
    if decoded.None? {
      return Some(Response(401, Error(InvalidToken)));
    }
    req.user := Some(Claims(decoded.value.userId, decoded.value.email));
    req.nextCalls := req.nextCalls + 1;
    sent := None;
  }
}
