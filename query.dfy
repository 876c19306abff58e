/** The query behind the notes listing: the owner filter, the optional
    source-URL and domain filters, and ORDER BY created_at DESC. Rows with
    equal creation times keep their table order. */
module NoteQuery {
  import opened Models

  /** The WHERE clause: the owner always; source URL and domain only when given. */
  predicate Matches(n: Note, userId: string, sourceUrl: string, domain: string)
  {
    && n.userId == userId
    && (sourceUrl == "" || n.sourceUrl == sourceUrl)
    && (domain == "" || n.domain == domain)
  }

  /** The matching rows, in table order. */
  function Filter(notes: seq<Note>, userId: string, sourceUrl: string, domain: string): (r: seq<Note>)
    ensures forall n :: n in r <==> n in notes && Matches(n, userId, sourceUrl, domain)
    ensures multiset(r) <= multiset(notes)
  {
    if notes == [] then []
    else
      var rest := Filter(notes[1..], userId, sourceUrl, domain);
      assert notes == [notes[0]] + notes[1..];
      if Matches(notes[0], userId, sourceUrl, domain) then [notes[0]] + rest else rest
  }

  /** Newest first: creation times never increase along the sequence. */
  ghost predicate NewestFirst(s: seq<Note>)
  {
    forall i, j :: 0 <= i < j < |s| ==> s[i].createdAt >= s[j].createdAt
  }

  /** No two rows share a creation time. */
  ghost predicate DistinctTimes(s: seq<Note>)
  {
    forall i, j :: 0 <= i < j < |s| ==> s[i].createdAt != s[j].createdAt
  }

  /** Without ties on `created_at` there is only one newest-first order of
      a set of rows: any two newest-first arrangements of the same rows are
      the same sequence. */
  lemma {:induction false} NewestFirstUnique(a: seq<Note>, b: seq<Note>)
    requires NewestFirst(a) && NewestFirst(b) && DistinctTimes(a)
    requires multiset(a) == multiset(b)
    ensures a == b
    decreases |a|
  {
    assert |a| == |multiset(a)| == |multiset(b)| == |b|;
    if a != [] {
      SameHead(a, b);
      DropHead(a, b);
      NewestFirstUnique(a[1..], b[1..]);
      assert a == [a[0]] + a[1..] && b == [b[0]] + b[1..];
    }
  }

  /** Two newest-first arrangements of the same rows without ties start
      with the same row, the newest. */
  lemma SameHead(a: seq<Note>, b: seq<Note>)
    requires NewestFirst(a) && NewestFirst(b) && DistinctTimes(a)
    requires multiset(a) == multiset(b) && a != [] && b != []
    ensures a[0] == b[0]
  {
    assert a[0] in multiset(b) && b[0] in multiset(a);
    var i :| 0 <= i < |b| && b[i] == a[0];
    var j :| 0 <= j < |a| && a[j] == b[0];
    assert b[0].createdAt >= b[i].createdAt;
    assert a[0].createdAt >= a[j].createdAt;
    assert a[j].createdAt == a[0].createdAt;
    assert j == 0;
  }

  /** Removing a common first row keeps both arrangements newest first,
      the first without ties, and over the same rows. */
  lemma DropHead(a: seq<Note>, b: seq<Note>)
    requires NewestFirst(a) && NewestFirst(b) && DistinctTimes(a)
    requires multiset(a) == multiset(b) && a != [] && b != [] && a[0] == b[0]
    ensures NewestFirst(a[1..]) && NewestFirst(b[1..]) && DistinctTimes(a[1..])
    ensures multiset(a[1..]) == multiset(b[1..])
  {
    TailMultiset(a);
    TailMultiset(b);
  }

  lemma TailMultiset(s: seq<Note>)
    requires s != []
    ensures multiset(s[1..]) == multiset(s) - multiset{s[0]}
  {
    assert s == [s[0]] + s[1..];
  }

  /** Places n before the first row that is not newer than it. */
  function InsertByAge(n: Note, s: seq<Note>): (r: seq<Note>)
    requires NewestFirst(s)
    ensures NewestFirst(r)
    ensures multiset(r) == multiset(s) + multiset{n}
    ensures |r| == |s| + 1
    ensures forall x :: x in r ==> x == n || x in s
    ensures s != [] ==> (r[0] == n || r[0] == s[0])
  {
    if s == [] || n.createdAt >= s[0].createdAt then [n] + s
    else
      var rest := InsertByAge(n, s[1..]);
      assert s == [s[0]] + s[1..];
      [s[0]] + rest
  }

  /** ORDER BY created_at DESC, stable. */
  function SortNewestFirst(s: seq<Note>): (r: seq<Note>)
    ensures NewestFirst(r)
    ensures multiset(r) == multiset(s)
  {
    if s == [] then []
    else
      assert s == [s[0]] + s[1..];
      InsertByAge(s[0], SortNewestFirst(s[1..]))
  }

  /** The ordered listing of every matching note, before paging. */
  function Listing(notes: seq<Note>, userId: string, sourceUrl: string, domain: string): (r: seq<Note>)
    ensures NewestFirst(r)
    ensures forall n :: n in r <==> n in notes && Matches(n, userId, sourceUrl, domain)
  {
    var matching := Filter(notes, userId, sourceUrl, domain);
    var r := SortNewestFirst(matching);
    SameElements(r, matching);
    r
  }

  /** A table whose rows have distinct ids lists no row twice. */
  lemma {:induction false} ListingHasNoRepeats(notes: seq<Note>, userId: string, sourceUrl: string, domain: string)
    requires IdsDistinct(notes)
    ensures var r := Listing(notes, userId, sourceUrl, domain);
            forall i, j :: 0 <= i < j < |r| ==> r[i] != r[j]
  {
    var matching := Filter(notes, userId, sourceUrl, domain);
    var r := Listing(notes, userId, sourceUrl, domain);
    forall n | n in multiset(notes)
      ensures multiset(notes)[n] == 1
    {
      SingleOccurrence(notes, n);
    }
    assert multiset(r) <= multiset(notes);
    forall i, j | 0 <= i < j < |r|
      ensures r[i] != r[j]
    {
      if r[i] == r[j] {
        TwoPositions(r, i, j);
        assert false;
      }
    }
  }

  lemma SameElements(a: seq<Note>, b: seq<Note>)
    requires multiset(a) == multiset(b)
    ensures forall n :: n in a <==> n in b
  {
    forall n
      ensures n in a <==> n in b
    {
      assert n in a <==> n in multiset(a);
      assert n in b <==> n in multiset(b);
    }
  }

  /** A row of a table with distinct ids occurs in it exactly once. */
  lemma {:induction false} SingleOccurrence(notes: seq<Note>, n: Note)
    requires IdsDistinct(notes)
    requires n in notes
    ensures multiset(notes)[n] == 1
  {
    assert notes == [notes[0]] + notes[1..];
    if notes[0] == n {
      assert n !in notes[1..];
    } else {
      SingleOccurrence(notes[1..], n);
    }
  }

  /** A value at two positions occurs at least twice. */
  lemma {:induction false} TwoPositions(s: seq<Note>, i: int, j: int)
    requires 0 <= i < j < |s| && s[i] == s[j]
    ensures multiset(s)[s[i]] >= 2
  {
    assert s == s[..j] + s[j..];
    assert s[i] in s[..j];
    assert s[j] in s[j..];
  }
}
