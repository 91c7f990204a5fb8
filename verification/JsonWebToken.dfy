/** The token issuer and verifier: `jwt.sign({userId, username}, secret,
    {expiresIn})` and `jwt.verify(token, secret)`. Signing, the secret and
    signature checking stay inside the library; the model keeps the results. */
module JsonWebToken {
  import opened AuthTypes

  /** The identity claims a token carries. */
  datatype Claims = Claims(userId: UserId, username: string)

  /** What `jwt.verify` does with a token at a given time: return the decoded
      claims, or throw an error named `TokenExpiredError`, `JsonWebTokenError`
      (bad signature, unparsable or empty token) or anything else. */
  datatype Verdict = Decoded(claims: Claims) | Expired | Malformed | OtherError

  /** Default token lifetime when JWT_EXPIRES_IN is unset: 24 hours, in seconds. */
  const DefaultTtl: nat := 24 * 60 * 60

  /** A configured signer: the secret is fixed inside `sign` and `verify`,
      `ttl` is the configured lifetime in seconds. */
  datatype Signer = Signer(sign: (Claims, Time) -> Token, verify: (Token, Time) -> Verdict, ttl: nat)

  /** The library's contract, assumed and never proved: a signed token is a
      non-empty string without spaces (three base64url segments joined by
      dots); it verifies to its own claims before it expires, and as expired
      from its expiry time on. */
  ghost predicate Sound(j: Signer) {
    && (forall c: Claims, t: Time :: j.sign(c, t) != "" && ' ' !in j.sign(c, t))
    && (forall c: Claims, t: Time, now: Time :: t <= now < t + j.ttl ==> j.verify(j.sign(c, t), now) == Decoded(c))
    && (forall c: Claims, t: Time, now: Time :: t + j.ttl <= now ==> j.verify(j.sign(c, t), now) == Expired)
  }
}
