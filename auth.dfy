/** The auth service: registration, login, refresh-token rotation, logout,
    the expiry sweep and access-token parsing. Each method takes the clock
    reading `now` as a parameter, and the values the uuid generator would
    produce (`fresh...`) as parameters too: the user id and refresh-row id
    that BeforeCreate assigns, and the random refresh-token string. */
module Auth {
  import opened Common
  import opened Models
  import opened Codec
  import opened Policy
  import opened Store
  import opened Uuid

  /** The `user` part of an auth response. */
  datatype Account = Account(id: string, email: string, name: string)

  /** An auth response: the two tokens and the account they were issued to. */
  datatype Session = Session(accessToken: string, refreshToken: string, user: Account)

  function AccountOf(u: User): Account
  {
    Account(u.id, u.email, u.name)
  }

  /** The row a refresh-token issuance hands to the store: id, creation time
      and (when empty) source are filled in on insert. */
  function PendingToken(token: string, userId: string, expiresAt: int, source: string, deviceInfo: string): RefreshToken
  {
    RefreshToken("", token, userId, expiresAt, 0, source, None, deviceInfo)
  }

  /** Neither the token string nor the row id is in use yet. */
  predicate TokenInsertable(tokens: map<string, RefreshToken>, token: string, id: string)
  {
    token !in tokens && !TokenIdTaken(tokens, id)
  }

  /** The refresh-token insert that ends an issuance, for a user known to
      exist: either the stored row is added under its token string and the
      response carries both tokens, or a unique index refuses it and the
      table is left as it was. */
  ghost predicate Issued(before: map<string, RefreshToken>, after: map<string, RefreshToken>,
                         r: Result<Session>, access: string, row: RefreshToken, user: User)
  {
    if TokenInsertable(before, row.token, row.id) then
      r == Ok(Session(access, row.token, AccountOf(user))) && after == before[row.token := row]
    else
      r == Err(DuplicateKey) && after == before
  }

  /** Which credentials a login accepts: a stored user with that email and
      exactly that (pre-hashed) password. */
  predicate CredentialsMatch(users: map<string, User>, email: string, password: string)
  {
    exists id :: id in users && users[id].email == email && users[id].password == password
  }

  class AuthService {
    const db: Db
    const codec: Codec
    const secret: string

    constructor (db: Db, codec: Codec, secret: string)
      ensures this.db == db && this.codec == codec && this.secret == secret
    {
      this.db := db;
      this.codec := codec;
      this.secret := secret;
    }

    /** The fixed-lifetime access token: `iat` = now, `exp` = now + 24 h. */
    method GenerateAccessToken(userId: string, email: string, now: int) returns (token: string)
      ensures token == Issue(codec, secret, userId, email, now, 86400)
    {
      token := Issue(codec, secret, userId, email, now, LegacyAccessTtl);
    }

    /** The access token of a session of the given source: an hour for the
        extension, fifteen minutes otherwise. */
    method GenerateAccessTokenWithSource(userId: string, email: string, source: string, now: int) returns (token: string)
      ensures source == ExtensionSource ==> token == Issue(codec, secret, userId, email, now, 3600)
      ensures source != ExtensionSource ==> token == Issue(codec, secret, userId, email, now, 900)
    {
      token := Issue(codec, secret, userId, email, now, AccessTtl(source));
    }

    /** The fixed-lifetime refresh token: a row expiring in 7 days with no
        source given (so the column default "web") and no device info. */
    method GenerateRefreshToken(userId: string, now: int, freshToken: string, freshTokenId: string)
      returns (r: Result<string>)
      requires db.Valid()
      modifies db
      ensures db.Valid() && db.users == old(db.users) && db.notes == old(db.notes)
      ensures old(db.OwnersExist()) ==> db.OwnersExist()
      ensures !TokenInsertable(old(db.refreshTokens), freshToken, freshTokenId) ==>
                r == Err(DuplicateKey) && db.refreshTokens == old(db.refreshTokens)
      ensures TokenInsertable(old(db.refreshTokens), freshToken, freshTokenId) && userId !in db.users ==>
                r == Err(MissingOwner) && db.refreshTokens == old(db.refreshTokens)
      ensures TokenInsertable(old(db.refreshTokens), freshToken, freshTokenId) && userId in db.users ==>
                r == Ok(freshToken) &&
                db.refreshTokens == old(db.refreshTokens)[freshToken :=
                  RefreshToken(freshTokenId, freshToken, userId, now + 604800, now, DefaultSource, None, "")]
    {
      var inserted := db.InsertRefreshToken(PendingToken(freshToken, userId, now + LegacyRefreshTtl, "", ""), freshTokenId, now);
      r := if inserted.Ok? then Ok(freshToken) else Err(inserted.error);
    }

    /** A refresh token for a session of the given source and device: a row
        expiring in 90 days for the extension, 30 days otherwise. The owner
        is the parsed user id (`uuid.MustParse`), so any accepted spelling
        is stored in canonical form and a string that is not a uuid panics. */
    method GenerateRefreshTokenWithSource(userId: string, source: string, deviceInfo: string, now: int,
                                          freshToken: string, freshTokenId: string)
      returns (r: Result<string>)
      requires db.Valid()
      modifies db
      ensures db.Valid() && db.users == old(db.users) && db.notes == old(db.notes)
      ensures old(db.OwnersExist()) ==> db.OwnersExist()
      ensures ParseUuid(userId).None? ==> r == Err(Aborted) && db.refreshTokens == old(db.refreshTokens)
      ensures ParseUuid(userId).Some? && !TokenInsertable(old(db.refreshTokens), freshToken, freshTokenId) ==>
                r == Err(DuplicateKey) && db.refreshTokens == old(db.refreshTokens)
      ensures ParseUuid(userId).Some? && TokenInsertable(old(db.refreshTokens), freshToken, freshTokenId)
              && ParseUuid(userId).value !in db.users ==>
                r == Err(MissingOwner) && db.refreshTokens == old(db.refreshTokens)
      ensures ParseUuid(userId).Some? && TokenInsertable(old(db.refreshTokens), freshToken, freshTokenId)
              && ParseUuid(userId).value in db.users ==>
                r == Ok(freshToken) &&
                db.refreshTokens == old(db.refreshTokens)[freshToken :=
                  RefreshToken(freshTokenId, freshToken, ParseUuid(userId).value, now + RefreshTtl(source), now,
                               if source == "" then DefaultSource else source, None, deviceInfo)]
    {
      var owner := ParseUuid(userId);
      if owner.None? {
        return Err(Aborted);
      }
      var pending := PendingToken(freshToken, owner.value, now + RefreshTtl(source), source, deviceInfo);
      var inserted := db.InsertRefreshToken(pending, freshTokenId, now);
      r := if inserted.Ok? then Ok(freshToken) else Err(inserted.error);
    }

    /** Registration: refused when the email is in use; otherwise the user
        row is created and fixed-lifetime tokens are issued. A failed token
        insert leaves the user created. */
    method Register(email: string, password: string, name: string, now: int,
                    freshUserId: string, freshToken: string, freshTokenId: string)
      returns (r: Result<Session>)
      requires db.Valid() && IsCanonical(freshUserId)
      modifies db
      ensures db.Valid() && db.notes == old(db.notes)
      ensures old(db.OwnersExist()) ==> db.OwnersExist()
      ensures EmailTaken(old(db.users), email) ==>
                r == Err(UserAlreadyExists) && db.users == old(db.users) && db.refreshTokens == old(db.refreshTokens)
      ensures !EmailTaken(old(db.users), email) && freshUserId in old(db.users) ==>
                r == Err(DuplicateKey) && db.users == old(db.users) && db.refreshTokens == old(db.refreshTokens)
      ensures !EmailTaken(old(db.users), email) && freshUserId !in old(db.users) ==>
                var user := User(freshUserId, email, password, name, now, now);
                && db.users == old(db.users)[freshUserId := user]
                && Issued(old(db.refreshTokens), db.refreshTokens, r,
                          codec.sign(Claims(freshUserId, email, now, now + 86400), secret),
                          RefreshToken(freshTokenId, freshToken, freshUserId, now + 604800, now, DefaultSource, None, ""),
                          user)
    {
      var existing := db.FindUserByEmail(email);
      if existing.Some? {
        return Err(UserAlreadyExists);
      }
      var created := db.InsertUser(User("", email, password, name, 0, 0), freshUserId, now);
      if created.Err? {
        return Err(created.error);
      }
      var user := created.value;
      var access := GenerateAccessToken(user.id, user.email, now);
      var refresh := GenerateRefreshToken(user.id, now, freshToken, freshTokenId);
      if refresh.Err? {
        return Err(refresh.error);
      }
      r := Ok(Session(access, refresh.value, AccountOf(user)));
    }

    /** Login: an unknown email and a wrong password fail alike, with no row
        created; otherwise tokens are issued for the requested source, an
        empty source counting as "web", with no device info. */
    method Login(email: string, password: string, source: string, now: int,
                 freshToken: string, freshTokenId: string)
      returns (r: Result<Session>)
      requires db.Valid()
      modifies db
      ensures db.Valid() && db.users == old(db.users) && db.notes == old(db.notes)
      ensures old(db.OwnersExist()) ==> db.OwnersExist()
      ensures !CredentialsMatch(db.users, email, password) ==>
                r == Err(InvalidCredentials) && db.refreshTokens == old(db.refreshTokens)
      ensures forall id :: id in db.users && db.users[id].email == email && db.users[id].password == password ==>
                var user, src := db.users[id], LoginSource(source);
                Issued(old(db.refreshTokens), db.refreshTokens, r,
                       codec.sign(Claims(id, email, now, now + AccessTtl(src)), secret),
                       RefreshToken(freshTokenId, freshToken, id, now + RefreshTtl(src), now, src, None, ""),
                       user)
    {
      var found := db.FindUserByEmail(email);
      if found.None? {
        return Err(InvalidCredentials);
      }
      var user := found.value;
      if user.password != password {
        return Err(InvalidCredentials);
      }
      var src := source;
      if src == "" {
        src := WebSource;
      }
      r := IssueSession(user, src, "", now, freshToken, freshTokenId);
    }

    /** The issuance that ends both a login and a rotation: an access token
        and a refresh row for the source, then the response. */
    method IssueSession(user: User, source: string, deviceInfo: string, now: int,
                        freshToken: string, freshTokenId: string)
      returns (r: Result<Session>)
      requires db.Valid() && user.id in db.users && source != ""
      modifies db
      ensures db.Valid() && db.users == old(db.users) && db.notes == old(db.notes)
      ensures old(db.OwnersExist()) ==> db.OwnersExist()
      ensures Issued(old(db.refreshTokens), db.refreshTokens, r,
                     codec.sign(Claims(user.id, user.email, now, now + AccessTtl(source)), secret),
                     RefreshToken(freshTokenId, freshToken, user.id, now + RefreshTtl(source), now, source, None, deviceInfo),
                     user)
    {
      var access := GenerateAccessTokenWithSource(user.id, user.email, source, now);
      CanonicalRoundTrip(user.id);
      var refresh := GenerateRefreshTokenWithSource(user.id, source, deviceInfo, now, freshToken, freshTokenId);
      if refresh.Err? {
        return Err(refresh.error);
      }
      r := Ok(Session(access, refresh.value, AccountOf(user)));
    }

    /** Rotation: an unknown token string and an expired row (expiry
        strictly before now) fail alike and change nothing. Otherwise the
        presented row is stamped as used and deleted, and a new row is
        issued for the same user, source and device, its lifetime taken
        from the source. */
    method Refresh(token: string, now: int, freshToken: string, freshTokenId: string)
      returns (r: Result<Session>)
      requires db.Valid()
      modifies db
      ensures db.Valid() && db.users == old(db.users) && db.notes == old(db.notes)
      ensures old(db.OwnersExist()) ==> db.OwnersExist()
      ensures token !in old(db.refreshTokens) || ExpiredRow(old(db.refreshTokens)[token], now) ==>
                r == Err(InvalidRefreshToken) && db.refreshTokens == old(db.refreshTokens)
      ensures token in old(db.refreshTokens) && !ExpiredRow(old(db.refreshTokens)[token], now)
              && old(db.refreshTokens)[token].userId !in db.users ==>
                r == Err(RecordNotFound) && db.refreshTokens == old(db.refreshTokens)
      ensures token in old(db.refreshTokens) && !ExpiredRow(old(db.refreshTokens)[token], now)
              && old(db.refreshTokens)[token].userId in db.users ==>
                var row := old(db.refreshTokens)[token];
                var user := db.users[row.userId];
                Issued(old(db.refreshTokens) - {token}, db.refreshTokens, r,
                       codec.sign(Claims(row.userId, user.email, now, now + AccessTtl(row.source)), secret),
                       RefreshToken(freshTokenId, freshToken, row.userId, now + RefreshTtl(row.source), now,
                                    row.source, None, row.deviceInfo),
                       user)
    {
      if token !in db.refreshTokens {
        return Err(InvalidRefreshToken);
      }
      var row := db.refreshTokens[token];
      if row.expiresAt < now {
        return Err(InvalidRefreshToken);
      }
      var found := db.FindUserById(row.userId);
      if found.None? {
        return Err(RecordNotFound);
      }
      r := Rotate(token, found.value, now, freshToken, freshTokenId);
    }

    /** The second half of a refresh, once the row is live and its user
        found: stamp the row as used, delete it, and issue the new pair for
        the same source and device. */
    method Rotate(token: string, user: User, now: int, freshToken: string, freshTokenId: string)
      returns (r: Result<Session>)
      requires db.Valid()
      requires token in db.refreshTokens && user.id == db.refreshTokens[token].userId
      requires user.id in db.users && db.users[user.id] == user
      modifies db
      ensures db.Valid() && db.users == old(db.users) && db.notes == old(db.notes)
      ensures old(db.OwnersExist()) ==> db.OwnersExist()
      ensures var row := old(db.refreshTokens)[token];
              Issued(old(db.refreshTokens) - {token}, db.refreshTokens, r,
                     codec.sign(Claims(user.id, user.email, now, now + AccessTtl(row.source)), secret),
                     RefreshToken(freshTokenId, freshToken, user.id, now + RefreshTtl(row.source), now,
                                  row.source, None, row.deviceInfo),
                     user)
    {
      var row := db.refreshTokens[token];
      db.TouchRefreshToken(token, now);
      db.DeleteRefreshTokenById(row.id);
      r := IssueSession(user, row.source, row.deviceInfo, now, freshToken, freshTokenId);
    }

    /** Logout always succeeds and removes the row with that token string, if any. */
    method Logout(token: string)
      requires db.Valid()
      modifies db
      ensures db.Valid() && db.users == old(db.users) && db.notes == old(db.notes)
      ensures old(db.OwnersExist()) ==> db.OwnersExist()
      ensures db.refreshTokens == old(db.refreshTokens) - {token}
    {
      db.DeleteRefreshToken(token);
    }

    /** The expiry sweep: removes exactly the rows a refresh would refuse as
        expired at `now`, and keeps every other row as it was. */
    method CleanupExpiredRefreshTokens(now: int)
      requires db.Valid()
      modifies db
      ensures db.Valid() && db.users == old(db.users) && db.notes == old(db.notes)
      ensures old(db.OwnersExist()) ==> db.OwnersExist()
      ensures forall t :: t in db.refreshTokens <==> t in old(db.refreshTokens) && !ExpiredRow(old(db.refreshTokens)[t], now)
      ensures forall t :: t in db.refreshTokens ==> db.refreshTokens[t] == old(db.refreshTokens)[t]
    {
      db.DeleteExpiredRefreshTokens(now);
    }

    /** Parsing an access token with the configured secret: its claims when
        the signature checks and it has not expired, nothing otherwise. */
    function ParseToken(token: string, now: int): (r: Option<Claims>)
      ensures r.Some? <==> Verify(codec, token, secret, now).Valid?
      ensures r.Some? ==> codec.parse(token, secret) == r && now < r.value.exp
    {
      match Verify(codec, token, secret, now)
      case Valid(c) => Some(c)
      case Invalid(_) => None
    }

    /** The user with that id, or "record not found". */
    method GetUserById(userId: string) returns (r: Result<User>)
      requires db.Valid()
      ensures r.Ok? <==> userId in db.users
      ensures r.Ok? ==> r.value == db.users[userId] && r.value.id == userId
      ensures r.Err? ==> r.error == RecordNotFound
    {
      var found := db.FindUserById(userId);
      r := if found.Some? then Ok(found.value) else Err(RecordNotFound);
    }
  }
}
