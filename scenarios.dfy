/** Client-side sequences of calls against one store, with what the
    services promise about them taken together: refresh tokens are single
    use, logout is idempotent, and a registration's tokens behave as their
    lifetimes say, at the gate and on rotation. */
module Scenarios {
  import opened Common
  import opened Models
  import opened Codec
  import opened Policy
  import opened Store
  import opened Auth
  import Gate
  import opened Notes
  import opened Uuid

  /** Presenting the same refresh token twice: once the first rotation has
      gone through, the old string is refused, whatever the clock says. */
  method RefreshTwice(auth: AuthService, token: string, now: int, fresh1: string, freshId1: string,
                      later: int, fresh2: string, freshId2: string)
    returns (first: Result<Session>, second: Result<Session>)
    requires auth.db.Valid() && Sound(auth.codec)
    requires fresh1 != token
    modifies auth.db
    ensures first.Ok? ==> second == Err(InvalidRefreshToken)
    ensures first.Ok? ==> token !in auth.db.refreshTokens
  {
    first := auth.Refresh(token, now, fresh1, freshId1);
    second := auth.Refresh(token, later, fresh2, freshId2);
  }

  /** Logging out twice leaves the same table as logging out once. */
  method LogoutTwice(auth: AuthService, token: string)
    requires auth.db.Valid()
    modifies auth.db
    ensures auth.db.refreshTokens == old(auth.db.refreshTokens) - {token}
    ensures auth.db.users == old(auth.db.users) && auth.db.notes == old(auth.db.notes)
  {
    auth.Logout(token);
    ghost var once := auth.db.refreshTokens;
    auth.Logout(token);
    assert auth.db.refreshTokens == once;
  }

  /** Register, then present the access token at any later instant `at`:
      it passes the gate for exactly 24 hours and is refused from then on. */
  method RegisterThenAuthenticate(auth: AuthService, email: string, password: string, name: string, now: int,
                                  userId: string, token: string, tokenId: string, at: int)
    returns (registered: Result<Session>)
    requires auth.db.Valid() && Sound(auth.codec)
    requires !EmailTaken(auth.db.users, email) && userId !in auth.db.users && IsCanonical(userId)
    requires TokenInsertable(auth.db.refreshTokens, token, tokenId)
    modifies auth.db
    ensures registered.Ok? && registered.value.user == Account(userId, email, name)
    ensures at < now + 86400 ==>
              Gate.Authenticate(Gate.BearerPrefix + registered.value.accessToken, auth.codec, auth.secret, at)
              == Gate.Admitted(userId, email)
    ensures at >= now + 86400 ==>
              Gate.Authenticate(Gate.BearerPrefix + registered.value.accessToken, auth.codec, auth.secret, at)
              == Gate.Rejected(Gate.StatusUnauthorized, Gate.BadTokenMessage)
  {
    registered := auth.Register(email, password, name, now, userId, token, tokenId);
    var claims := Claims(userId, email, now, now + 86400);
    if at < now + 86400 {
      Gate.AdmitsIssuedToken(auth.codec, auth.secret, claims, at);
    } else {
      Gate.RejectsExpiredToken(auth.codec, auth.secret, claims, at);
    }
  }

  /** Register, then refresh within the 7-day window: the refresh token is
      rotated into a "web" session of 30 days whose access token lasts 15
      minutes. */
  method RegisterThenRefresh(auth: AuthService, email: string, password: string, name: string, now: int,
                             userId: string, token: string, tokenId: string,
                             later: int, token2: string, tokenId2: string)
    returns (registered: Result<Session>, refreshed: Result<Session>)
    requires auth.db.Valid() && Sound(auth.codec)
    requires !EmailTaken(auth.db.users, email) && userId !in auth.db.users && IsCanonical(userId)
    requires TokenInsertable(auth.db.refreshTokens, token, tokenId)
    requires TokenInsertable(auth.db.refreshTokens, token2, tokenId2) && token2 != token && tokenId2 != tokenId
    requires now <= later <= now + LegacyRefreshTtl
    modifies auth.db
    ensures registered.Ok? && refreshed.Ok?
    ensures refreshed.value.user == registered.value.user == Account(userId, email, name)
    ensures token !in auth.db.refreshTokens && token2 in auth.db.refreshTokens
    ensures var row := auth.db.refreshTokens[token2];
            row.userId == userId && row.source == WebSource && row.expiresAt == later + 2592000
    ensures auth.codec.parse(refreshed.value.accessToken, auth.secret) == Some(Claims(userId, email, later, later + 900))
  {
    registered := auth.Register(email, password, name, now, userId, token, tokenId);
    assert auth.db.refreshTokens[token].source == WebSource;
    assert TokenInsertable(auth.db.refreshTokens - {token}, token2, tokenId2) by {
      assert forall t :: t in auth.db.refreshTokens - {token} ==> t in old(auth.db.refreshTokens);
    }
    refreshed := auth.Refresh(token, later, token2, tokenId2);
  }

  /** Deleting the same note twice: the second delete reports "note not found". */
  method DeleteTwice(notes: NotesService, noteId: string, userId: string)
    returns (first: Option<Error>, second: Option<Error>)
    requires notes.db.Valid()
    modifies notes.db
    ensures second == Some(NoteNotFound)
    ensures first.None? <==> exists i :: Owns(old(notes.db.notes), i, noteId, userId)
  {
    first := notes.DeleteNote(noteId, userId);
    DeleteIsFinal(old(notes.db.notes), noteId, userId);
    second := notes.DeleteNote(noteId, userId);
  }
}
