/** Properties of the two components together: a token issued by `/login`
    passes `authenticateToken` until it expires, and the register/login
    walk-through for one account. */
module AuthFlow {
  import opened Wrappers
  import opened Js
  import opened Bcrypt
  import opened Jwt
  import opened Http
  import opened Users
  import opened AuthRoutes
  import opened AuthenticateToken

  /** A login token sent back as "Bearer <token>" within the hour is
      admitted, and `req.user` then holds the account's id and email. */
  lemma LoginTokenAdmitted(rows: seq<UserRow>, body: LoginBody, bcrypt: PasswordHasher, codec: TokenCodec,
                           secret: string, issuedAt: int, fault: LoginFault, now: int)
    requires VerifiesOwnTokens(codec) && SignsCompactTokens(codec)
    requires Login(rows, body, bcrypt, codec, secret, issuedAt, fault).status == 200
    requires now < issuedAt + ExpiresIn
    ensures var r := Login(rows, body, bcrypt, codec, secret, issuedAt, fault);
            TokenCheck(Some("Bearer " + r.body.token), codec, secret, now)
            == Admit(Payload(Claims(r.body.user.id, r.body.user.email), issuedAt, issuedAt + ExpiresIn))
  {
    var r := Login(rows, body, bcrypt, codec, secret, issuedAt, fault);
    var row := SelectByEmail(rows, body.email.value)[0];
    var token := TokenFor(row, codec, secret, issuedAt);
    assert r.body.token == token;
    assert ' ' !in token;
    assert "Bearer " + token == "Bearer" + " " + token + "";
    ExtractSecondWord("Bearer", token, "");
  }

  /** The same token presented once the hour is over is refused with 403. */
  lemma ExpiredLoginTokenForbidden(rows: seq<UserRow>, body: LoginBody, bcrypt: PasswordHasher, codec: TokenCodec,
                                   secret: string, issuedAt: int, fault: LoginFault, now: int)
    requires RejectsExpiredTokens(codec) && SignsCompactTokens(codec)
    requires Login(rows, body, bcrypt, codec, secret, issuedAt, fault).status == 200
    requires issuedAt + ExpiresIn <= now
    ensures var r := Login(rows, body, bcrypt, codec, secret, issuedAt, fault);
            TokenCheck(Some("Bearer " + r.body.token), codec, secret, now)
            == Deny(Response(403, Message(InvalidOrExpiredToken)))
  {
    var r := Login(rows, body, bcrypt, codec, secret, issuedAt, fault);
    var row := SelectByEmail(rows, body.email.value)[0];
    var token := TokenFor(row, codec, secret, issuedAt);
    assert ' ' !in token;
    assert "Bearer " + token == "Bearer" + " " + token + "";
    ExtractSecondWord("Bearer", token, "");
    assert codec.verify(token, secret, now) == Err(Expired);
  }

  const Ana := RegisterBody(Some("Ana"), Some("ana@x.com"), Some("secret123"))

  /** Register Ana on an empty table (201), register her again (409), log
      in with a wrong password (401), log in with hers (200). */
  lemma AnaWalkthrough(bcrypt: PasswordHasher, codec: TokenCodec, secret: string, t0: int, t1: int, t2: int, t3: int)
    requires AcceptsOwnHash(bcrypt)
    requires !bcrypt.compare("wrong", bcrypt.hash("secret123", SaltRounds))
    ensures var first := RegisterEffect(Table([], 1), Ana, bcrypt, t0, RegisterRunsClean);
            && first.response.status == 201
            && first.response.body.newUser == NewUser(1, "Ana", "ana@x.com", t0)
            && RegisterEffect(first.table, Ana, bcrypt, t1, RegisterRunsClean).response.status == 409
            && Login(first.table.rows, LoginBody(Some("ana@x.com"), Some("wrong")), bcrypt, codec, secret, t2, LoginRunsClean)
               == Response(401, Message(InvalidCredentials))
            && var ok := Login(first.table.rows, LoginBody(Some("ana@x.com"), Some("secret123")), bcrypt, codec, secret, t3, LoginRunsClean);
               ok.status == 200 && ok.body.user.email == "ana@x.com"
  {
  }

}
