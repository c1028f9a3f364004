/** JSON Web Tokens (RFC 7519) as an abstract codec: `jwt.sign` and
    `jwt.verify` are parameters, and their cryptography is not modelled. */
module Jwt {
  import opened Wrappers

  /** `expiresIn: '1h'`, in seconds. */
  const ExpiresIn: nat := 3600

  /** The claims the login handler signs: `{ userId, email }`. */
  datatype Claims = Claims(userId: nat, email: string)

  /** What `jwt.verify` decodes: the signed claims plus `iat` and `exp`. */
  datatype Payload = Payload(claims: Claims, iat: int, exp: int)

  /** The failures `jwt.verify` reports; the middleware does not tell them apart. */
  datatype JwtError = Malformed | SignatureMismatch | Expired

  /** `sign(claims, secret, expiresIn, now)` and `verify(token, secret, now)`,
      with the clock (`now`, in seconds) made an explicit argument. */
  datatype TokenCodec = TokenCodec(
    sign: (Claims, string, nat, int) -> string,
    verify: (string, string, int) -> Result<Payload, JwtError>)

  /** A token verifies, with the same secret and before it expires, to the
      claims it was signed with. */
  ghost predicate VerifiesOwnTokens(codec: TokenCodec) {
    forall claims, secret, ttl: nat, iat, now | now < iat + ttl ::
      codec.verify(codec.sign(claims, secret, ttl, iat), secret, now) == Ok(Payload(claims, iat, iat + ttl))
  }

  /** Once `exp` is reached, verification fails as expired. */
  ghost predicate RejectsExpiredTokens(codec: TokenCodec) {
    forall claims, secret, ttl: nat, iat, now | iat + ttl <= now ::
      codec.verify(codec.sign(claims, secret, ttl, iat), secret, now) == Err(Expired)
  }

  /** Signed tokens are in compact serialisation: base64url segments and
      dots, never a space. */
  ghost predicate SignsCompactTokens(codec: TokenCodec) {
    forall claims, secret, ttl: nat, iat :: ' ' !in codec.sign(claims, secret, ttl, iat)
  }

  /** The empty string is never a valid token ("jwt must be provided"). */
  ghost predicate RejectsEmptyToken(codec: TokenCodec) {
    forall secret, now :: codec.verify("", secret, now).Err?
  }
}
