/** The bearer-token gate in front of every protected route: a chain of
    early-return checks on the Authorization header. It reads only the
    configured secret (and the clock, inside token validation); it has no
    access to the store, which is why it takes none. */
module Gate {
  import opened Codec

  const StatusUnauthorized: int := 401
  const BearerPrefix: string := "Bearer "

  const MissingHeaderMessage: string := "Authorization header required"
  const BadFormatMessage: string := "Invalid authorization header format"
  const BadTokenMessage: string := "Invalid or expired token"

  /** A refusal (status and message, nothing stored), or admission with the
      two request-scoped values `user_id` and `email`, after which the next
      handler runs. */
  datatype Outcome =
    | Rejected(status: int, message: string)
    | Admitted(userId: string, email: string)

  predicate HasPrefix(s: string, prefix: string)
  {
    |prefix| <= |s| && s[..|prefix|] == prefix
  }

  /** `strings.TrimPrefix`: s without one leading copy of prefix, if it has one. */
  function TrimPrefix(s: string, prefix: string): (r: string)
    ensures HasPrefix(s, prefix) ==> prefix + r == s
    ensures !HasPrefix(s, prefix) ==> r == s
  {
    if HasPrefix(s, prefix) then s[|prefix|..] else s
  }

  /** The gate's decision for one request. An absent header reads as "". */
  function Authenticate(header: string, codec: Codec, secret: string, now: int): (r: Outcome)
    ensures header == "" ==> r == Rejected(StatusUnauthorized, MissingHeaderMessage)
    ensures header != "" && !HasPrefix(header, BearerPrefix) ==> r == Rejected(StatusUnauthorized, BadFormatMessage)
    ensures r.Rejected? ==> r.status == StatusUnauthorized
  {
    if header == "" then
      Rejected(StatusUnauthorized, MissingHeaderMessage)
    else if !HasPrefix(header, BearerPrefix) then
      Rejected(StatusUnauthorized, BadFormatMessage)
    else
      var token := TrimPrefix(header, BearerPrefix);
      match Verify(codec, token, secret, now)
      case Invalid(_) => Rejected(StatusUnauthorized, BadTokenMessage)
      case Valid(claims) => Admitted(claims.userId, claims.email)
  }

  /** A header carrying a token signed with the secret and not yet expired is
      admitted, with `user_id` and `email` taken from the token's claims. */
  lemma AdmitsIssuedToken(codec: Codec, secret: string, c: Claims, now: int)
    requires Sound(codec) && now < c.exp
    ensures Authenticate(BearerPrefix + codec.sign(c, secret), codec, secret, now) == Admitted(c.userId, c.email)
  {
    var header := BearerPrefix + codec.sign(c, secret);
    assert header[..|BearerPrefix|] == BearerPrefix;
    assert TrimPrefix(header, BearerPrefix) == codec.sign(c, secret);
  }

  /** A token signed with the secret whose expiry has been reached is
      refused with the single invalid-token message. */
  lemma RejectsExpiredToken(codec: Codec, secret: string, c: Claims, now: int)
    requires Sound(codec) && c.exp <= now
    ensures Authenticate(BearerPrefix + codec.sign(c, secret), codec, secret, now)
            == Rejected(StatusUnauthorized, BadTokenMessage)
  {
    var header := BearerPrefix + codec.sign(c, secret);
    assert header[..|BearerPrefix|] == BearerPrefix;
    assert TrimPrefix(header, BearerPrefix) == codec.sign(c, secret);
  }

  /** Admission happens only for the exact prefix "Bearer " followed by a
      token signed with the secret whose expiry is still ahead, and the
      context values are that token's claims. */
  lemma AdmitsOnlyIssuedTokens(header: string, codec: Codec, secret: string, now: int)
    requires Sound(codec)
    requires Authenticate(header, codec, secret, now).Admitted?
    ensures exists c :: header == BearerPrefix + codec.sign(c, secret) && now < c.exp
                        && Authenticate(header, codec, secret, now) == Admitted(c.userId, c.email)
  {
    var token := TrimPrefix(header, BearerPrefix);
    var c := Verify(codec, token, secret, now).claims;
    VerifiedWasSigned(codec, token, secret, now);
    assert header == BearerPrefix + codec.sign(c, secret);
  }

  /** Every header with the right prefix whose token fails verification,
      for whatever reason (bad signature, not a token at all, expired), is
      refused with the single invalid-token message. */
  lemma RejectsUnverified(header: string, codec: Codec, secret: string, now: int)
    requires HasPrefix(header, BearerPrefix)
    requires Verify(codec, TrimPrefix(header, BearerPrefix), secret, now).Invalid?
    ensures Authenticate(header, codec, secret, now) == Rejected(StatusUnauthorized, BadTokenMessage)
  {
  }

  /** An expired token and a token signed with another secret get the same
      refusal: the gate gives the client no way to tell them apart. */
  lemma ExpiredAndForgedLookAlike(codec: Codec, secret: string, other: string, c: Claims, now: int)
    requires Sound(codec) && other != secret && c.exp <= now
    ensures Authenticate(BearerPrefix + codec.sign(c, secret), codec, secret, now)
         == Authenticate(BearerPrefix + codec.sign(c, other), codec, secret, now)
         == Rejected(StatusUnauthorized, BadTokenMessage)
  {
    var h1 := BearerPrefix + codec.sign(c, secret);
    var h2 := BearerPrefix + codec.sign(c, other);
    assert h1[..|BearerPrefix|] == BearerPrefix && h2[..|BearerPrefix|] == BearerPrefix;
    assert TrimPrefix(h1, BearerPrefix) == codec.sign(c, secret);
    assert TrimPrefix(h2, BearerPrefix) == codec.sign(c, other);
    OtherSecretRejected(codec, c, other, secret, now);
  }

  /** The prefix test is case-sensitive and needs the space: "bearer <t>"
      and "Bearer<t>" (t not starting with a space) are refused before any
      token is checked. */
  lemma PrefixIsExact(token: string, codec: Codec, secret: string, now: int)
    ensures Authenticate("bearer " + token, codec, secret, now) == Rejected(StatusUnauthorized, BadFormatMessage)
    ensures token == "" || token[0] != ' ' ==>
              Authenticate("Bearer" + token, codec, secret, now) == Rejected(StatusUnauthorized, BadFormatMessage)
  {
    var h := "Bearer" + token;
    if HasPrefix(h, BearerPrefix) && token != "" {
      assert h[6] == token[0];
      assert h[..7][6] == ' ';
    }
  }

  /** Only one "Bearer " is removed: the token checked for "Bearer Bearer t"
      is "Bearer t". */
  lemma OnePrefixRemoved(rest: string)
    ensures TrimPrefix(BearerPrefix + rest, BearerPrefix) == rest
  {
    assert (BearerPrefix + rest)[..|BearerPrefix|] == BearerPrefix;
  }
}
