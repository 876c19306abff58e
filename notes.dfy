/** The notes service: the filtered, newest-first, paged listing, reading
    one note, creating a note (with its domain derived from the source
    URL), the partial update and the owner-scoped delete. Every query is
    scoped by the owner's id; a note belonging to someone else reads as
    "note not found". */
module Notes {
  import opened Common
  import opened Models
  import opened Store
  import opened Paging
  import opened NoteQuery
  import opened Domain
  import opened Uuid

  /** A note as the service returns it. `metadata` is present only when the
      stored document is non-empty; timestamps stay on the integer clock. */
  datatype NoteResponse = NoteResponse(
    id: string,
    content: string,
    sourceUrl: string,
    sourceTitle: string,
    domain: string,
    metadata: Option<Json>,
    createdAt: int,
    updatedAt: int)

  function ToResponse(n: Note): (r: NoteResponse)
    ensures r.metadata.Some? <==> n.metadata.Some? && n.metadata.value != ""
    ensures r.metadata.Some? ==> r.metadata == n.metadata
  {
    NoteResponse(n.id, n.content, n.sourceUrl, n.sourceTitle, n.domain,
                 if n.metadata.Some? && n.metadata.value != "" then n.metadata else None,
                 n.createdAt, n.updatedAt)
  }

  /** Row i is the note with that id, and it belongs to that user. */
  predicate Owns(notes: seq<Note>, i: int, noteId: string, userId: string)
  {
    0 <= i < |notes| && notes[i].id == noteId && notes[i].userId == userId
  }

  /** The rows one listing request returns: the user's notes that match the
      non-empty filters, newest first, cut to the requested page. */
  function NotesPage(notes: seq<Note>, userId: string, page: int, pageSize: int,
                     sourceUrl: string, domain: string): (w: seq<Note>)
    ensures |w| <= NormalizePageSize(pageSize)
    ensures forall n :: n in w ==> n in notes && Matches(n, userId, sourceUrl, domain)
    ensures NewestFirst(w)
  {
    var listing := Listing(notes, userId, sourceUrl, domain);
    var w := Page(listing, page, pageSize);
    var o := Offset(page, pageSize);
    assert forall j :: 0 <= j < |w| ==> w[j] == listing[o + j];
    assert forall n :: n in w ==> n in listing;
    w
  }

  /** `after` is `before` with the non-empty request fields and a given
      metadata document written over it; nothing else differs except the
      update time. */
  ghost predicate NotePatched(after: Note, before: Note, content: string, sourceUrl: string,
                              sourceTitle: string, domain: string, metadata: Option<Json>)
  {
    && after.id == before.id
    && after.userId == before.userId
    && after.createdAt == before.createdAt
    && after.content == (if content != "" then content else before.content)
    && after.sourceUrl == (if sourceUrl != "" then sourceUrl else before.sourceUrl)
    && after.sourceTitle == (if sourceTitle != "" then sourceTitle else before.sourceTitle)
    && after.domain == (if domain != "" then domain else before.domain)
    && after.metadata == (if metadata.Some? then metadata else before.metadata)
  }

  /** In a table with distinct ids, two different pages of one listing have
      no note in common. */
  lemma NotesPagesDisjoint(notes: seq<Note>, userId: string, page1: int, page2: int, pageSize: int,
                           sourceUrl: string, domain: string)
    requires IdsDistinct(notes)
    requires NormalizePage(page1) != NormalizePage(page2)
    ensures forall n :: n in NotesPage(notes, userId, page1, pageSize, sourceUrl, domain)
                        ==> n !in NotesPage(notes, userId, page2, pageSize, sourceUrl, domain)
  {
    ListingHasNoRepeats(notes, userId, sourceUrl, domain);
    PagesDisjoint(Listing(notes, userId, sourceUrl, domain), page1, page2, pageSize);
  }

  /** Every note of the user that matches the filters is on some page, for
      any requested page size. */
  lemma NotesPagesCover(notes: seq<Note>, userId: string, pageSize: int, sourceUrl: string, domain: string, n: Note)
    requires n in notes && Matches(n, userId, sourceUrl, domain)
    ensures exists page :: page >= 1 && n in NotesPage(notes, userId, page, pageSize, sourceUrl, domain)
  {
    var listing := Listing(notes, userId, sourceUrl, domain);
    PagesCoverElements(listing, pageSize, n);
    var page :| page >= 1 && n in Page(listing, page, pageSize);
    assert NotesPage(notes, userId, page, pageSize, sourceUrl, domain) == Page(listing, page, pageSize);
  }

  /** When no two matching notes share a creation time (in a table with
      distinct ids), every newest-first arrangement of the matching rows is
      the listing itself: whatever order the database picks for each page
      query, the pages are pages of this one sequence, so the two lemmas
      above hold of the pages actually returned. */
  lemma ListingOrderIsForced(notes: seq<Note>, userId: string, sourceUrl: string, domain: string, other: seq<Note>)
    requires IdsDistinct(notes)
    requires forall m, n :: m in notes && n in notes && m != n
                            && Matches(m, userId, sourceUrl, domain) && Matches(n, userId, sourceUrl, domain)
                            ==> m.createdAt != n.createdAt
    requires NewestFirst(other) && multiset(other) == multiset(Listing(notes, userId, sourceUrl, domain))
    ensures other == Listing(notes, userId, sourceUrl, domain)
  {
    var r := Listing(notes, userId, sourceUrl, domain);
    ListingHasNoRepeats(notes, userId, sourceUrl, domain);
    forall i, j | 0 <= i < j < |r|
      ensures r[i].createdAt != r[j].createdAt
    {
      assert r[i] in r && r[j] in r;
    }
    NewestFirstUnique(r, other);
  }

  /** After a delete no row with that id and owner is left, so deleting the
      same note again finds nothing. */
  lemma {:induction false} DeleteIsFinal(notes: seq<Note>, noteId: string, userId: string)
    ensures forall i :: !Owns(WithoutNote(notes, noteId, userId), i, noteId, userId)
  {
    var r := WithoutNote(notes, noteId, userId);
    forall i | 0 <= i < |r|
      ensures !Owns(r, i, noteId, userId)
    {
      assert r[i] in r;
    }
  }

  /** The partial update's field-by-field overwrite: each non-empty request
      field, and a metadata document when one is given, replaces the stored
      value. */
  method PatchNote(before: Note, content: string, sourceUrl: string, sourceTitle: string,
                   domain: string, metadata: Option<Json>)
    returns (note: Note)
    ensures NotePatched(note, before, content, sourceUrl, sourceTitle, domain, metadata)
    ensures note.updatedAt == before.updatedAt
  {
    note := before;
    if content != "" {
      note := note.(content := content);
    }
    if sourceUrl != "" {
      note := note.(sourceUrl := sourceUrl);
    }
    if sourceTitle != "" {
      note := note.(sourceTitle := sourceTitle);
    }
    if domain != "" {
      note := note.(domain := domain);
    }
    if metadata.Some? {
      note := note.(metadata := metadata);
    }
  }

  class NotesService {
    const db: Db

    constructor (db: Db)
      ensures this.db == db
    {
      this.db := db;
    }

    /** The listing: page < 1 reads as 1 and pageSize < 1 as 10, then the
        page's rows are converted one by one into responses. */
    method GetNotes(userId: string, page: int, pageSize: int, sourceUrl: string, domain: string)
      returns (r: seq<NoteResponse>)
      ensures var rows := NotesPage(db.notes, userId, page, pageSize, sourceUrl, domain);
              |r| == |rows| && forall i :: 0 <= i < |r| ==> r[i] == ToResponse(rows[i])
    {
      var p := page;
      if p < 1 {
        p := 1;
      }
      var n := pageSize;
      if n < 1 {
        n := DefaultPageSize;
      }
      assert p == NormalizePage(page) && n == NormalizePageSize(pageSize);
      assert (p - 1) * n == Offset(page, pageSize);
      var rows := Window(Listing(db.notes, userId, sourceUrl, domain), (p - 1) * n, n);
      assert rows == NotesPage(db.notes, userId, page, pageSize, sourceUrl, domain);
      var response := new NoteResponse[|rows|];
      for i := 0 to |rows|
        invariant forall k :: 0 <= k < i ==> response[k] == ToResponse(rows[k])
      {
        response[i] := ToResponse(rows[i]);
      }
      r := response[..];
    }

    /** The note with that id if it belongs to the user, else "note not found". */
    method GetNoteById(noteId: string, userId: string) returns (r: Result<NoteResponse>)
      ensures r.Ok? <==> exists i :: Owns(db.notes, i, noteId, userId)
      ensures r.Ok? ==> exists i :: Owns(db.notes, i, noteId, userId) && r.value == ToResponse(db.notes[i])
      ensures r.Err? ==> r.error == NoteNotFound
    {
      var found := db.FindNote(noteId, userId);
      if found.None? {
        return Err(NoteNotFound);
      }
      assert Owns(db.notes, found.value, noteId, userId);
      r := Ok(ToResponse(db.notes[found.value]));
    }

    /** Creation: the user id must parse as a uuid ("invalid user ID"
        otherwise) and the note is stored under its canonical form; an empty
        domain is derived from the source URL's host name (`host`, None when
        the URL does not parse). */
    method CreateNote(userId: string, content: string, sourceUrl: string, sourceTitle: string,
                      domain: string, metadata: Option<Json>, host: Option<string>, now: int,
                      freshNoteId: string)
      returns (r: Result<NoteResponse>)
      requires db.Valid()
      modifies db
      ensures db.Valid() && db.users == old(db.users) && db.refreshTokens == old(db.refreshTokens)
      ensures old(db.OwnersExist()) ==> db.OwnersExist()
      ensures ParseUuid(userId).None? ==> r == Err(InvalidUserId) && db.notes == old(db.notes)
      ensures ParseUuid(userId).Some? ==>
                var row := Note(freshNoteId, ParseUuid(userId).value, content, sourceUrl, sourceTitle,
                                DeriveDomain(domain, sourceUrl, host), metadata, now, now);
                if NoteIdTaken(old(db.notes), freshNoteId) then
                  r == Err(DuplicateKey) && db.notes == old(db.notes)
                else if row.userId !in db.users then
                  r == Err(MissingOwner) && db.notes == old(db.notes)
                else
                  r == Ok(ToResponse(row)) && db.notes == old(db.notes) + [row]
    {
      var owner := ParseUuid(userId);
      if owner.None? {
        return Err(InvalidUserId);
      }
      var d := domain;
      if d == "" && sourceUrl != "" {
        if host.Some? {
          d := DomainOf(host.value);
        }
      }
      var pending := Note("", owner.value, content, sourceUrl, sourceTitle, d, metadata, 0, 0);
      var created := db.InsertNote(pending, freshNoteId, now);
      if created.Err? {
        return Err(created.error);
      }
      r := Ok(ToResponse(created.value));
    }

    /** Partial update of the user's own note; "note not found" unless both
        the id and the owner match, with nothing saved. */
    method UpdateNote(noteId: string, userId: string, content: string, sourceUrl: string,
                      sourceTitle: string, domain: string, metadata: Option<Json>, now: int)
      returns (r: Result<NoteResponse>)
      requires db.Valid()
      modifies db
      ensures db.Valid() && db.users == old(db.users) && db.refreshTokens == old(db.refreshTokens)
      ensures old(db.OwnersExist()) ==> db.OwnersExist()
      ensures (forall i :: !Owns(old(db.notes), i, noteId, userId)) ==>
                r == Err(NoteNotFound) && db.notes == old(db.notes)
      ensures forall i :: Owns(old(db.notes), i, noteId, userId) ==>
                && |db.notes| == |old(db.notes)|
                && (forall k :: 0 <= k < |db.notes| && k != i ==> db.notes[k] == old(db.notes)[k])
                && NotePatched(db.notes[i], old(db.notes)[i], content, sourceUrl, sourceTitle, domain, metadata)
                && db.notes[i].updatedAt == now
                && r == Ok(ToResponse(db.notes[i]))
    {
      var found := db.FindNote(noteId, userId);
      if found.None? {
        return Err(NoteNotFound);
      }
      var i := found.value;
      assert Owns(db.notes, i, noteId, userId);
      var note := PatchNote(db.notes[i], content, sourceUrl, sourceTitle, domain, metadata);
      ghost var before := db.notes;
      db.SaveNote(i, note, now);
      assert db.notes == before[i := note.(updatedAt := now)];
      forall j | Owns(before, j, noteId, userId)
        ensures j == i
      {
        assert before[j].id == before[i].id;
      }
      r := Ok(ToResponse(db.notes[i]));
    }

    /** Owner-scoped delete: "note not found" when no row was removed. */
    method DeleteNote(noteId: string, userId: string) returns (r: Option<Error>)
      requires db.Valid()
      modifies db
      ensures db.Valid() && db.users == old(db.users) && db.refreshTokens == old(db.refreshTokens)
      ensures old(db.OwnersExist()) ==> db.OwnersExist()
      ensures db.notes == WithoutNote(old(db.notes), noteId, userId)
      ensures r.None? <==> exists i :: Owns(old(db.notes), i, noteId, userId)
      ensures r.Some? ==> r.value == NoteNotFound
    {
      ghost var before := db.notes;
      var affected := db.DeleteNote(noteId, userId);
      if affected == 0 {
        assert forall i :: !Owns(before, i, noteId, userId);
        return Some(NoteNotFound);
      }
      ghost var i :| 0 <= i < |before| && before[i].id == noteId && before[i].userId == userId;
      assert Owns(before, i, noteId, userId);
      r := None;
    }
  }
}
