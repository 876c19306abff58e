/** The signed access-token codec (JWT, HS256), modelled abstractly: a token
    is whatever string `sign` produces for a set of claims and a secret, and
    `parse` recovers the claims when the string was signed with that
    secret. HMAC and base64url are not modelled; `Sound` states what the
    rest of the model relies on. */
module Codec {
  import opened Common

  /** The claims every access token carries: `user_id`, `email`, `iat`, `exp` (Unix seconds). */
  datatype Claims = Claims(userId: string, email: string, iat: int, exp: int)

  /** The signer and the signature-checking parser, both keyed by the secret. */
  datatype Codec = Codec(sign: (Claims, string) -> string, parse: (string, string) -> Option<Claims>)

  /** Why verification failed: the signature did not check (or the string is
      not a token at all), or the `exp` claim is not in the future. */
  datatype VerifyError = InvalidSignature | Expired

  /** The outcome of verification: the token's claims, or why it was refused. */
  datatype Verdict = Valid(claims: Claims) | Invalid(reason: VerifyError)

  /** An ideal MAC: parsing under a secret inverts signing under that secret,
      only strings signed under that secret parse, and a token determines the
      secret it was signed with. */
  ghost predicate Sound(codec: Codec)
  {
    && (forall c, key :: codec.parse(codec.sign(c, key), key) == Some(c))
    && (forall s, key :: codec.parse(s, key).Some? ==> s == codec.sign(codec.parse(s, key).value, key))
    && (forall c1, k1, c2, k2 :: codec.sign(c1, k1) == codec.sign(c2, k2) ==> k1 == k2)
  }

  /** Signs the claims `user_id`, `email`, `iat` = now, `exp` = now + ttl;
      under a sound codec the token parses back to exactly those claims. */
  function Issue(codec: Codec, secret: string, userId: string, email: string, now: int, ttl: int): (token: string)
    ensures Sound(codec) ==> codec.parse(token, secret) == Some(Claims(userId, email, now, now + ttl))
  {
    codec.sign(Claims(userId, email, now, now + ttl), secret)
  }

  /** Parse-and-validate with the configured secret: the signature is checked
      first, then the expiry (a token is valid while now < exp). */
  function Verify(codec: Codec, token: string, secret: string, now: int): (r: Verdict)
    ensures r.Valid? ==> now < r.claims.exp && codec.parse(token, secret) == Some(r.claims)
    ensures codec.parse(token, secret).None? ==> r == Invalid(InvalidSignature)
  {
    match codec.parse(token, secret)
    case None => Invalid(InvalidSignature)
    case Some(c) => if now < c.exp then Valid(c) else Invalid(Expired)
  }

  /** A token issued with a positive ttl verifies, with exactly the claims it
      was issued with, from its issue time until just before its expiry, and
      reads as expired from then on. */
  lemma IssuedTokenLifetime(codec: Codec, secret: string, userId: string, email: string, now: int, ttl: int, at: int)
    requires Sound(codec)
    ensures at < now + ttl ==> Verify(codec, Issue(codec, secret, userId, email, now, ttl), secret, at)
                                == Valid(Claims(userId, email, now, now + ttl))
    ensures at >= now + ttl ==> Verify(codec, Issue(codec, secret, userId, email, now, ttl), secret, at)
                                 == Invalid(Expired)
  {
    var c := Claims(userId, email, now, now + ttl);
    assert codec.parse(codec.sign(c, secret), secret) == Some(c);
  }

  /** A token signed with any other secret fails on its signature, never as
      expired, whatever its `exp` claim says. */
  lemma OtherSecretRejected(codec: Codec, c: Claims, key: string, secret: string, now: int)
    requires Sound(codec) && key != secret
    ensures Verify(codec, codec.sign(c, key), secret, now) == Invalid(InvalidSignature)
  {
  }

  /** Whatever verifies under the secret was signed with it. */
  lemma VerifiedWasSigned(codec: Codec, token: string, secret: string, now: int)
    requires Sound(codec)
    requires Verify(codec, token, secret, now).Valid?
    ensures token == codec.sign(Verify(codec, token, secret, now).claims, secret)
  {
  }
}
