/**
  The authentication middleware: which token a request carries, whether it
  is accepted, and what `authMiddleware` and `optionalAuth` do to the
  request, the response and the `next` continuation. JWT verification is a
  parameter: a partial function from token text to the decoded payload
  (`None` where `jsonwebtoken` throws and `verifyToken` returns null).
 */
module Auth {
  import opened Wrappers
  import opened Text

  /** The decoded token payload; only its `userId` is read. */
  datatype Payload = Payload(userId: string)

  /** The two places a token can come from: the Authorization header and the `token` query parameter. */
  datatype Request = Request(authorization: Option<string>, queryToken: Option<string>)

  /** A response sent by the middleware itself: a status and a JSON `error` message. */
  datatype Reply = Reply(status: nat, error: string)

  /** What `authMiddleware` decides. */
  datatype Decision = Reject(reply: Reply) | Accept(userId: string)

  const BearerPrefix := "Bearer "
  const NoTokenProvided := "No token provided"
  const InvalidOrExpired := "Invalid or expired token"

  predicate IsBearer(authorization: Option<string>) {
    authorization.Some? && StartsWith(authorization.value, BearerPrefix)
  }

  /**
    The token `authMiddleware` picks: the header text after `Bearer `, or
    else a truthy (non-empty) query token. A `Bearer ` header with nothing
    after it picks the empty token.
   */
  function SelectToken(req: Request): (t: Option<string>)
    ensures t.Some? <==> IsBearer(req.authorization) || (req.queryToken.Some? && req.queryToken.value != "")
    ensures IsBearer(req.authorization) ==> req.authorization.value == BearerPrefix + t.value
  {
    if IsBearer(req.authorization) then
      var h := req.authorization.value;
      assert h == h[..|BearerPrefix|] + h[|BearerPrefix|..];
      Some(h[|BearerPrefix|..])
    else if req.queryToken.Some? && req.queryToken.value != "" then req.queryToken
    else None
  }

  /** What `authMiddleware` decides for a request. */
  function Gate(req: Request, verify: string -> Option<Payload>): (d: Decision)
    ensures d.Reject? ==> d.reply.status == 401 && (d.reply.error == NoTokenProvided || d.reply.error == InvalidOrExpired)
    ensures d.Accept? ==> SelectToken(req).Some? && verify(SelectToken(req).value) == Some(Payload(d.userId))
  {
    var token := SelectToken(req);
    if token.None? || token.value == "" then Reject(Reply(401, NoTokenProvided))
    else match verify(token.value)
      case None => Reject(Reply(401, InvalidOrExpired))
      case Some(decoded) => Accept(decoded.userId)
  }

  /** The user `optionalAuth` records, if any: only a `Bearer` header whose token verifies gives one. */
  function OptionalUser(req: Request, verify: string -> Option<Payload>): (u: Option<string>)
    ensures u.Some? <==> IsBearer(req.authorization) && verify(req.authorization.value[|BearerPrefix|..]).Some?
    ensures u.Some? ==> verify(req.authorization.value[|BearerPrefix|..]) == Some(Payload(u.value))
  {
    if IsBearer(req.authorization) then
      match verify(req.authorization.value[|BearerPrefix|..])
      case None => None
      case Some(decoded) => Some(decoded.userId)
    else None
  }

  /**
    Token selection: a `Bearer` header always wins and gives the text after
    its seven characters; only without one is the query token used, and
    then only if it is non-empty.
   */
  lemma SelectTokenMeaning(req: Request)
    ensures |BearerPrefix| == 7
    ensures IsBearer(req.authorization) ==>
              SelectToken(req).Some? && req.authorization.value == BearerPrefix + SelectToken(req).value
    ensures !IsBearer(req.authorization) ==>
              (SelectToken(req).Some? <==> req.queryToken.Some? && req.queryToken.value != "")
    ensures !IsBearer(req.authorization) && SelectToken(req).Some? ==> SelectToken(req) == req.queryToken
  {
    if IsBearer(req.authorization) {
      var h := req.authorization.value;
      assert h == h[..|BearerPrefix|] + h[|BearerPrefix|..];
    }
  }

  /**
    The three outcomes of `authMiddleware`: no (or an empty) token is
    rejected as missing, a token that does not verify as invalid, and
    otherwise the request is accepted for the payload's user.
   */
  lemma GateMeaning(req: Request, verify: string -> Option<Payload>)
    ensures Gate(req, verify).Reject? ==> Gate(req, verify).reply.status == 401
    ensures Gate(req, verify) == Reject(Reply(401, NoTokenProvided)) <==>
              SelectToken(req).None? || SelectToken(req).value == ""
    ensures Gate(req, verify) == Reject(Reply(401, InvalidOrExpired)) <==>
              SelectToken(req).Some? && SelectToken(req).value != "" && verify(SelectToken(req).value).None?
    ensures Gate(req, verify).Accept? <==>
              SelectToken(req).Some? && SelectToken(req).value != "" && verify(SelectToken(req).value).Some?
    ensures Gate(req, verify).Accept? ==> Gate(req, verify).userId == verify(SelectToken(req).value).value.userId
  {
  }

  /**
    A `Bearer ` header with nothing after it is rejected as a missing token,
    even when the query carries a valid one: the query is not consulted.
   */
  lemma EmptyBearerShadowsQuery(query: string, verify: string -> Option<Payload>)
    ensures Gate(Request(Some(BearerPrefix), Some(query)), verify) == Reject(Reply(401, NoTokenProvided))
  {
    assert StartsWith(BearerPrefix, BearerPrefix);
  }

  /**
    `optionalAuth` never reads the query token and records a user only for
    a `Bearer` header; with a non-empty token there it records one exactly
    where `authMiddleware` would accept the request, and the same user. (An
    empty `Bearer` token is still handed to verification here, where
    `authMiddleware` rejects it unverified.)
   */
  lemma OptionalAgreesWithGate(req: Request, query: Option<string>, verify: string -> Option<Payload>)
    ensures OptionalUser(req, verify) == OptionalUser(Request(req.authorization, query), verify)
    ensures OptionalUser(req, verify).Some? ==> IsBearer(req.authorization)
    ensures IsBearer(req.authorization) && SelectToken(req).value != "" ==>
              (OptionalUser(req, verify).Some? <==> Gate(req, verify).Accept?)
              && (OptionalUser(req, verify).Some? ==> OptionalUser(req, verify).value == Gate(req, verify).userId)
  {
  }

  /**
    One request in flight: what came in, the `userId` the middleware may
    set on it, the response the middleware may send, and how often `next`
    was called.
   */
  class Exchange {
    const request: Request
    var userId: Option<string>
    var sent: Option<Reply>
    var nextCalls: nat

    constructor(request: Request)
      ensures this.request == request && userId.None? && sent.None? && nextCalls == 0
    {
      this.request := request;
      userId := None;
      sent := None;
      nextCalls := 0;
    }

    /**
      `authMiddleware`: a rejected request gets its 401 reply and `next` is
      not called; an accepted one gets `userId` set and `next` called once.
     */
    method AuthMiddleware(verify: string -> Option<Payload>)
      modifies this
      ensures Gate(request, verify).Reject? ==>
                sent == Some(Gate(request, verify).reply) && userId == old(userId) && nextCalls == old(nextCalls)
      ensures Gate(request, verify).Accept? ==>
                userId == Some(Gate(request, verify).userId) && sent == old(sent) && nextCalls == old(nextCalls) + 1
    {
      var token: Option<string> := None;
      var authHeader := request.authorization;
      if authHeader.Some? && StartsWith(authHeader.value, BearerPrefix) {
        token := Some(authHeader.value[7..]);
      } else if request.queryToken.Some? && request.queryToken.value != "" {
        token := request.queryToken;
      }
      if token.None? || token.value == "" {
        sent := Some(Reply(401, NoTokenProvided));
        return;
      }
      var decoded := verify(token.value);
      if decoded.None? {
        sent := Some(Reply(401, InvalidOrExpired));
        return;
      }
      userId := Some(decoded.value.userId);
      nextCalls := nextCalls + 1;
    }

    /**
      `optionalAuth`: `next` is always called once and nothing is sent;
      `userId` is set only for a `Bearer` header whose token verifies.
     */
    method OptionalAuth(verify: string -> Option<Payload>)
      modifies this
      ensures userId == if OptionalUser(request, verify).Some? then OptionalUser(request, verify) else old(userId)
      ensures sent == old(sent) && nextCalls == old(nextCalls) + 1
    {
      var authHeader := request.authorization;
      if authHeader.Some? && StartsWith(authHeader.value, BearerPrefix) {
        var token := authHeader.value[7..];
        var decoded := verify(token);
        if decoded.Some? {
          userId := Some(decoded.value.userId);
        }
      }
      nextCalls := nextCalls + 1;
    }
  }
}
