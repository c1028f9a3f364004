/** The `authenticateToken(req, res, next)` middleware: take the token out
    of the `Authorization` header, then answer 401, answer 403, or record
    the decoded payload on the request and call `next`. */
module AuthenticateToken {
  import opened Wrappers
  import opened Js
  import opened Jwt
  import opened Http

  const NoTokenProvided := "Access denied. No token provided."
  const InvalidOrExpiredToken := "Invalid or expired token."

  /** `authHeader && authHeader.split(' ')[1]`, where `None` is `undefined`.
      An empty header short-circuits to itself (`""`); otherwise the result
      is the second space-separated piece, `undefined` when there is none. */
  function ExtractToken(authHeader: Option<string>): (token: Option<string>)
    ensures authHeader.None? ==> token.None?
    ensures authHeader == Some("") ==> token == Some("")
    ensures token.Some? <==> authHeader.Some? && (authHeader.value == "" || ' ' in authHeader.value)
    ensures token.Some? ==> ' ' !in token.value
  {
    match authHeader
    case None => None
    case Some(header) =>
      if header == "" then Some(header)
      else
        var parts := Split(header, ' ');
        if |parts| > 1 then Some(parts[1]) else None
  }

  /** The token is the word after the first space, up to the next space or
      the end, whatever the first word is. */
  lemma ExtractSecondWord(scheme: string, token: string, rest: string)
    requires ' ' !in scheme && ' ' !in token
    requires rest == "" || rest[0] == ' '
    ensures ExtractToken(Some(scheme + " " + token + rest)) == Some(token)
  {
    var header := scheme + " " + token + rest;
    assert header == scheme + [' '] + (token + rest);
    SplitAfterSeparator(scheme, token + rest, ' ');
    if rest == "" {
      assert token + rest == token;
      SplitJoin([token], ' ');
    } else {
      assert token + rest == token + [' '] + rest[1..];
      SplitAfterSeparator(token, rest[1..], ' ');
    }
  }

  /** The scheme word is never checked: any first word gives the same token. */
  lemma SchemeIgnored(scheme1: string, scheme2: string, rest: string)
    requires ' ' !in scheme1 && ' ' !in scheme2
    ensures ExtractToken(Some(scheme1 + " " + rest)) == ExtractToken(Some(scheme2 + " " + rest))
  {
    SplitAfterSeparator(scheme1, rest, ' ');
    SplitAfterSeparator(scheme2, rest, ' ');
    assert scheme1 + " " + rest == scheme1 + [' '] + rest;
    assert scheme2 + " " + rest == scheme2 + [' '] + rest;
  }

  /** "Bearer abc" gives "abc"; a third word is dropped. */
  lemma BearerExamples()
    ensures ExtractToken(Some("Bearer abc")) == Some("abc")
    ensures ExtractToken(Some("Bearer a b")) == Some("a")
  {
    assert "Bearer abc" == "Bearer" + " " + "abc" + "";
    ExtractSecondWord("Bearer", "abc", "");
    assert "Bearer a b" == "Bearer" + " " + "a" + " b";
    ExtractSecondWord("Bearer", "a", " b");
  }

  /** Any scheme word is accepted in place of "Bearer". */
  lemma OtherSchemeExamples()
    ensures ExtractToken(Some("Token abc")) == Some("abc")
    ensures ExtractToken(Some("xyz abc")) == Some("abc")
  {
    assert "Token abc" == "Token" + " " + "abc" + "";
    ExtractSecondWord("Token", "abc", "");
    assert "xyz abc" == "xyz" + " " + "abc" + "";
    ExtractSecondWord("xyz", "abc", "");
  }

  /** "Bearer" alone has no second piece; "Bearer " has an empty one. */
  lemma BareSchemeExamples()
    ensures ExtractToken(Some("Bearer")) == None
    ensures ExtractToken(Some("Bearer ")) == Some("")
  {
    assert "Bearer " == "Bearer" + " " + "" + "";
    ExtractSecondWord("Bearer", "", "");
  }

  /** How one call of the middleware ends. */
  datatype Verdict = Deny(response: Response) | Admit(user: Payload)

  /** The middleware's decision for a header, a verifier, its secret and the
      clock. */
  function TokenCheck(authHeader: Option<string>, codec: TokenCodec, secret: string, now: int): (v: Verdict)
    ensures v.Deny? ==> v.response in {Response(401, Message(NoTokenProvided)), Response(403, Message(InvalidOrExpiredToken))}
    ensures (v.Deny? && v.response.status == 401) <==> ExtractToken(authHeader).None?
    ensures (v.Deny? && v.response.status == 403) <==>
              ExtractToken(authHeader).Some? && codec.verify(ExtractToken(authHeader).value, secret, now).Err?
    ensures v.Admit? <==> ExtractToken(authHeader).Some? && codec.verify(ExtractToken(authHeader).value, secret, now).Ok?
    ensures v.Admit? ==> codec.verify(ExtractToken(authHeader).value, secret, now) == Ok(v.user)
  {
    var token := ExtractToken(authHeader);
    if token.None? then Deny(Response(401, Message(NoTokenProvided)))
    else
      match codec.verify(token.value, secret, now)
      case Err(_) => Deny(Response(403, Message(InvalidOrExpiredToken)))
      case Ok(userPayload) => Admit(userPayload)
  }

  /** A missing header is a 401 whatever the verifier does. */
  lemma MissingHeaderDenied(codec: TokenCodec, secret: string, now: int)
    ensures TokenCheck(None, codec, secret, now) == Deny(Response(401, Message(NoTokenProvided)))
  {
  }

  /** A header with no space (such as "Bearer") is a 401 as well. */
  lemma SingleWordHeaderDenied(header: string, codec: TokenCodec, secret: string, now: int)
    requires header != "" && ' ' !in header
    ensures TokenCheck(Some(header), codec, secret, now) == Deny(Response(401, Message(NoTokenProvided)))
  {
  }

  /** An empty header, or a scheme followed by one space and nothing, yields
      the empty token, which is not `== null`: it reaches the verifier and
      ends in 403, not 401. */
  lemma EmptyTokenForbidden(scheme: string, codec: TokenCodec, secret: string, now: int)
    requires ' ' !in scheme
    requires RejectsEmptyToken(codec)
    ensures TokenCheck(Some(""), codec, secret, now) == Deny(Response(403, Message(InvalidOrExpiredToken)))
    ensures TokenCheck(Some(scheme + " "), codec, secret, now) == Deny(Response(403, Message(InvalidOrExpiredToken)))
  {
    ExtractSecondWord(scheme, "", "");
    assert scheme + " " == scheme + " " + "" + "";
    assert codec.verify("", secret, now).Err?;
  }

  /** `req`: the request's `Authorization` header and the `user` property
      the middleware may set (`None` until set). */
  class Request {
    const authorization: Option<string>
    var user: Option<Payload>

    constructor (authorization: Option<string>)
      ensures this.authorization == authorization && user == None
    {
      this.authorization := authorization;
      user := None;
    }
  }

  /** `res`: the response written with `res.status(...).json(...)`, if any. */
  class ServerResponse {
    var sent: Option<Response>

    constructor ()
      ensures sent == None
    {
      sent := None;
    }
  }

  /** `next`: how many times the rest of the pipeline was entered. */
  class Next {
    var calls: nat

    constructor ()
      ensures calls == 0
    {
      calls := 0;
    }
  }

  /** `authenticateToken(req, res, next)`. Exactly one thing happens: a
      response is written and neither `req.user` nor `next` is touched, or
      `req.user` is set and `next` is called once with nothing written. */
  method Authenticate(req: Request, res: ServerResponse, next: Next, codec: TokenCodec, secret: string, now: int)
    modifies req, res, next
    ensures match TokenCheck(req.authorization, codec, secret, now)
            case Deny(response) =>
              res.sent == Some(response) && req.user == old(req.user) && next.calls == old(next.calls)
            case Admit(payload) =>
              req.user == Some(payload) && next.calls == old(next.calls) + 1 && res.sent == old(res.sent)
  {
    var authHeader := req.authorization;
    var token := ExtractToken(authHeader);

    if token.None? {
      res.sent := Some(Response(401, Message(NoTokenProvided)));
      return;
    }

    var verified := codec.verify(token.value, secret, now);
    if verified.Err? {
      res.sent := Some(Response(403, Message(InvalidOrExpiredToken)));
      return;
    }

    req.user := Some(verified.value);
    next.calls := next.calls + 1;
  }
}
