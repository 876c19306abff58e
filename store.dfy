/** The three tables the services share, as the database holds them after
    the schema migration: users keyed by id, refresh tokens keyed by their
    token string (unique index), notes in table order. The insert methods
    carry what the models' BeforeCreate hooks and the schema do on create:
    a fresh id from the uuid generator replaces any supplied one, the
    timestamps are set, an empty `source` takes its column default, and the
    primary keys, unique indexes and foreign keys are enforced. */
module Store {
  import opened Common
  import opened Models
  import opened Uuid

  predicate EmailTaken(users: map<string, User>, email: string)
  {
    exists id :: id in users && users[id].email == email
  }

  /** `email = ? AND id != ?` finds a row. */
  predicate EmailTakenByOther(users: map<string, User>, email: string, self: string)
  {
    exists id :: id in users && id != self && users[id].email == email
  }

  predicate TokenIdTaken(tokens: map<string, RefreshToken>, id: string)
  {
    exists t :: t in tokens && tokens[t].id == id
  }

  predicate NoteIdTaken(notes: seq<Note>, id: string)
  {
    exists i :: 0 <= i < |notes| && notes[i].id == id
  }

  /** The row an insert stores for a refresh token. */
  function StoredToken(row: RefreshToken, id: string, now: int): (stored: RefreshToken)
    ensures stored.id == id && stored.createdAt == now && stored.source != ""
    ensures row.source != "" ==> stored.source == row.source
    ensures row.source == "" ==> stored.source == DefaultSource
    ensures stored.(id := row.id, createdAt := row.createdAt, source := row.source) == row
  {
    row.(id := id, createdAt := now, source := if row.source == "" then DefaultSource else row.source)
  }

  /** Rows the expiry sweep removes: those whose expiry is strictly before now. */
  predicate ExpiredRow(row: RefreshToken, now: int)
  {
    row.expiresAt < now
  }

  /** Every row whose id and owner both match is deleted. */
  function WithoutNote(notes: seq<Note>, noteId: string, userId: string): (r: seq<Note>)
    ensures forall n :: n in r <==> n in notes && !(n.id == noteId && n.userId == userId)
    ensures |r| <= |notes|
    ensures |r| == |notes| <==> forall i :: 0 <= i < |notes| ==> !(notes[i].id == noteId && notes[i].userId == userId)
  {
    if notes == [] then []
    else
      var rest := WithoutNote(notes[1..], noteId, userId);
      assert notes == [notes[0]] + notes[1..];
      if notes[0].id == noteId && notes[0].userId == userId then rest
      else [notes[0]] + rest
  }

  /** Deleting rows keeps the ids of the remaining ones distinct. */
  lemma {:induction false} WithoutNoteKeepsIdsDistinct(notes: seq<Note>, noteId: string, userId: string)
    requires IdsDistinct(notes)
    ensures IdsDistinct(WithoutNote(notes, noteId, userId))
  {
    if notes != [] {
      var tail := notes[1..];
      assert IdsDistinct(tail) by {
        forall i, j | 0 <= i < j < |tail|
          ensures tail[i].id != tail[j].id
        {
          assert tail[i] == notes[i + 1] && tail[j] == notes[j + 1];
        }
      }
      WithoutNoteKeepsIdsDistinct(tail, noteId, userId);
      if !(notes[0].id == noteId && notes[0].userId == userId) {
        var rest := WithoutNote(tail, noteId, userId);
        forall n | n in tail
          ensures n.id != notes[0].id
        {
          var k :| 0 <= k < |tail| && tail[k] == n;
          assert notes[k + 1] == n;
        }
        PrependKeepsIdsDistinct(notes[0], rest, tail);
      }
    }
  }

  /** A row whose id no row of `pool` has can go in front of rows drawn from `pool`. */
  lemma PrependKeepsIdsDistinct(x: Note, rest: seq<Note>, pool: seq<Note>)
    requires IdsDistinct(rest)
    requires forall n :: n in rest ==> n in pool
    requires forall n :: n in pool ==> n.id != x.id
    ensures IdsDistinct([x] + rest)
  {
    var r := [x] + rest;
    forall i, j | 0 <= i < j < |r|
      ensures r[i].id != r[j].id
    {
      assert r[j] == rest[j - 1];
      if i > 0 {
        assert r[i] == rest[i - 1];
      } else {
        assert r[j] in rest;
      }
    }
  }

  class Db {
    var users: map<string, User>
    var refreshTokens: map<string, RefreshToken>
    var notes: seq<Note>

    /** Keys agree with the rows, user ids are canonical uuids (the only ids
        BeforeCreate produces), emails and token strings are unique, ids are
        unique in each table, and no stored source is empty. */
    ghost predicate Valid()
      reads this
    {
      && (forall id :: id in users ==> users[id].id == id && IsCanonical(id))
      && (forall a, b :: a in users && b in users && users[a].email == users[b].email ==> a == b)
      && (forall t :: t in refreshTokens ==> refreshTokens[t].token == t && refreshTokens[t].source != "")
      && (forall s, t :: s in refreshTokens && t in refreshTokens && refreshTokens[s].id == refreshTokens[t].id ==> s == t)
      && IdsDistinct(notes)
    }

    /** The foreign keys: every refresh token and every note belongs to a user. */
    ghost predicate OwnersExist()
      reads this
    {
      && (forall t :: t in refreshTokens ==> refreshTokens[t].userId in users)
      && (forall i :: 0 <= i < |notes| ==> notes[i].userId in users)
    }

    constructor ()
      ensures Valid() && OwnersExist()
      ensures users == map[] && refreshTokens == map[] && notes == []
    {
      users, refreshTokens, notes := map[], map[], [];
    }

    /** INSERT INTO users, after BeforeCreate assigned `id`. */
    method InsertUser(u: User, id: string, now: int) returns (r: Result<User>)
      requires Valid() && IsCanonical(id)
      modifies this
      ensures Valid() && refreshTokens == old(refreshTokens) && notes == old(notes)
      ensures old(OwnersExist()) ==> OwnersExist()
      ensures var row := u.(id := id, createdAt := now, updatedAt := now);
              if id in old(users) || EmailTaken(old(users), u.email) then r == Err(DuplicateKey) && users == old(users)
              else r == Ok(row) && users == old(users)[id := row]
    {
      if id in users || EmailTaken(users, u.email) {
        return Err(DuplicateKey);
      }
      var row := u.(id := id, createdAt := now, updatedAt := now);
      users := users[id := row];
      r := Ok(row);
    }

    /** INSERT INTO refresh_tokens, after BeforeCreate assigned `id`. */
    method InsertRefreshToken(row: RefreshToken, id: string, now: int) returns (r: Result<RefreshToken>)
      requires Valid()
      modifies this
      ensures Valid() && users == old(users) && notes == old(notes)
      ensures old(OwnersExist()) ==> OwnersExist()
      ensures if row.token in old(refreshTokens) || TokenIdTaken(old(refreshTokens), id) then
                r == Err(DuplicateKey) && refreshTokens == old(refreshTokens)
              else if row.userId !in users then
                r == Err(MissingOwner) && refreshTokens == old(refreshTokens)
              else
                r == Ok(StoredToken(row, id, now)) && refreshTokens == old(refreshTokens)[row.token := StoredToken(row, id, now)]
    {
      if row.token in refreshTokens || TokenIdTaken(refreshTokens, id) {
        return Err(DuplicateKey);
      }
      if row.userId !in users {
        return Err(MissingOwner);
      }
      var stored := StoredToken(row, id, now);
      refreshTokens := refreshTokens[row.token := stored];
      r := Ok(stored);
    }

    /** INSERT INTO notes, after BeforeCreate assigned `id`. */
    method InsertNote(n: Note, id: string, now: int) returns (r: Result<Note>)
      requires Valid()
      modifies this
      ensures Valid() && users == old(users) && refreshTokens == old(refreshTokens)
      ensures old(OwnersExist()) ==> OwnersExist()
      ensures var row := n.(id := id, createdAt := now, updatedAt := now);
              if NoteIdTaken(old(notes), id) then r == Err(DuplicateKey) && notes == old(notes)
              else if n.userId !in users then r == Err(MissingOwner) && notes == old(notes)
              else r == Ok(row) && notes == old(notes) + [row]
    {
      if NoteIdTaken(notes, id) {
        return Err(DuplicateKey);
      }
      if n.userId !in users {
        return Err(MissingOwner);
      }
      var row := n.(id := id, createdAt := now, updatedAt := now);
      notes := notes + [row];
      r := Ok(row);
    }

    /** `Where("email = ?").First`. */
    method FindUserByEmail(email: string) returns (r: Option<User>)
      requires Valid()
      ensures r.Some? <==> EmailTaken(users, email)
      ensures r.Some? ==> r.value.email == email && r.value.id in users && users[r.value.id] == r.value
    {
      if !EmailTaken(users, email) {
        return None;
      }
      var id :| id in users && users[id].email == email;
      r := Some(users[id]);
    }

    /** `Where("email = ? AND id != ?").First`. */
    method FindOtherUserByEmail(email: string, self: string) returns (r: Option<User>)
      requires Valid()
      ensures r.Some? <==> EmailTakenByOther(users, email, self)
      ensures r.Some? ==> r.value.email == email && r.value.id != self && r.value.id in users && users[r.value.id] == r.value
    {
      if !EmailTakenByOther(users, email, self) {
        return None;
      }
      var id :| id in users && id != self && users[id].email == email;
      r := Some(users[id]);
    }

    /** `Where("id = ?").First`. */
    method FindUserById(id: string) returns (r: Option<User>)
      requires Valid()
      ensures r.Some? <==> id in users
      ensures r.Some? ==> users[id] == r.value && r.value.id == id
    {
      r := if id in users then Some(users[id]) else None;
    }

    /** `Where("id = ? AND user_id = ?").First`: the position of the note with
        that id, provided it belongs to that user. */
    method FindNote(noteId: string, userId: string) returns (r: Option<nat>)
      ensures r.Some? ==> r.value < |notes| && notes[r.value].id == noteId && notes[r.value].userId == userId
      ensures r.None? <==> forall i :: 0 <= i < |notes| ==> !(notes[i].id == noteId && notes[i].userId == userId)
    {
      var i := 0;
      while i < |notes|
        invariant 0 <= i <= |notes|
        invariant forall k :: 0 <= k < i ==> !(notes[k].id == noteId && notes[k].userId == userId)
      {
        if notes[i].id == noteId && notes[i].userId == userId {
          return Some(i);
        }
        i := i + 1;
      }
      r := None;
    }

    /** `Save` of a loaded user: the row with that id is overwritten and its
        `updatedAt` set. The unique email index is the caller's check. */
    method SaveUser(u: User, now: int)
      requires Valid() && u.id in users && !EmailTakenByOther(users, u.email, u.id)
      modifies this
      ensures Valid() && refreshTokens == old(refreshTokens) && notes == old(notes)
      ensures users == old(users)[u.id := u.(updatedAt := now)]
      ensures old(OwnersExist()) ==> OwnersExist()
    {
      users := users[u.id := u.(updatedAt := now)];
    }

    /** `Save` of a loaded note, by primary key. */
    method SaveNote(i: nat, n: Note, now: int)
      requires Valid() && i < |notes| && n.id == notes[i].id && n.userId == notes[i].userId
      modifies this
      ensures Valid() && users == old(users) && refreshTokens == old(refreshTokens)
      ensures notes == old(notes)[i := n.(updatedAt := now)]
      ensures old(OwnersExist()) ==> OwnersExist()
    {
      notes := notes[i := n.(updatedAt := now)];
    }

    /** `Update("last_used_at", now)` on a loaded refresh token. */
    method TouchRefreshToken(t: string, now: int)
      requires Valid() && t in refreshTokens
      modifies this
      ensures Valid() && users == old(users) && notes == old(notes)
      ensures refreshTokens == old(refreshTokens)[t := old(refreshTokens)[t].(lastUsedAt := Some(now))]
      ensures refreshTokens - {t} == old(refreshTokens) - {t}
      ensures old(OwnersExist()) ==> OwnersExist()
    {
      refreshTokens := refreshTokens[t := refreshTokens[t].(lastUsedAt := Some(now))];
      assert refreshTokens - {t} == old(refreshTokens) - {t};
    }

    /** `Where("token = ?").Delete`: every row with that token string goes (there is at most one). */
    method DeleteRefreshToken(t: string)
      requires Valid()
      modifies this
      ensures Valid() && users == old(users) && notes == old(notes)
      ensures refreshTokens == old(refreshTokens) - {t}
      ensures old(OwnersExist()) ==> OwnersExist()
    {
      refreshTokens := refreshTokens - {t};
    }

    /** `Delete` of a loaded refresh token, by its primary key. */
    method DeleteRefreshTokenById(id: string)
      requires Valid()
      modifies this
      ensures Valid() && users == old(users) && notes == old(notes)
      ensures forall t :: t in refreshTokens <==> t in old(refreshTokens) && old(refreshTokens)[t].id != id
      ensures forall t :: t in refreshTokens ==> refreshTokens[t] == old(refreshTokens)[t]
      ensures forall t :: t in old(refreshTokens) && old(refreshTokens)[t].id == id ==> refreshTokens == old(refreshTokens) - {t}
      ensures old(OwnersExist()) ==> OwnersExist()
    {
      refreshTokens := map t | t in refreshTokens && refreshTokens[t].id != id :: refreshTokens[t];
      forall t | t in old(refreshTokens) && old(refreshTokens)[t].id == id
        ensures refreshTokens == old(refreshTokens) - {t}
      {
        assert refreshTokens.Keys == old(refreshTokens).Keys - {t};
      }
    }

    /** `Where("expires_at < ?", now).Delete`. */
    method DeleteExpiredRefreshTokens(now: int)
      requires Valid()
      modifies this
      ensures Valid() && users == old(users) && notes == old(notes)
      ensures forall t :: t in refreshTokens <==> t in old(refreshTokens) && !ExpiredRow(old(refreshTokens)[t], now)
      ensures forall t :: t in refreshTokens ==> refreshTokens[t] == old(refreshTokens)[t]
      ensures old(OwnersExist()) ==> OwnersExist()
    {
      refreshTokens := map t | t in refreshTokens && !ExpiredRow(refreshTokens[t], now) :: refreshTokens[t];
    }

    /** `Where("id = ? AND user_id = ?").Delete`, returning the number of rows affected. */
    method DeleteNote(noteId: string, userId: string) returns (affected: nat)
      requires Valid()
      modifies this
      ensures Valid() && users == old(users) && refreshTokens == old(refreshTokens)
      ensures notes == WithoutNote(old(notes), noteId, userId)
      ensures affected == |old(notes)| - |notes|
      ensures old(OwnersExist()) ==> OwnersExist()
    {
      var kept := WithoutNote(notes, noteId, userId);
      WithoutNoteKeepsIdsDistinct(notes, noteId, userId);
      affected := |notes| - |kept|;
      notes := kept;
    }
  }
}
