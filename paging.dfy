/** Page / page-size normalisation and the OFFSET ... LIMIT window of the
    notes listing. */
module Paging {
  import opened Common

  const DefaultPageSize: int := 10

  /** A page number below 1 is read as page 1. */
  function NormalizePage(page: int): (p: int)
    ensures p >= 1
    ensures page >= 1 ==> p == page
    ensures page < 1 ==> p == 1
  {
    if page < 1 then 1 else page
  }

  /** A page size below 1 is read as 10. */
  function NormalizePageSize(pageSize: int): (n: int)
    ensures n >= 1
    ensures pageSize >= 1 ==> n == pageSize
    ensures pageSize < 1 ==> n == DefaultPageSize
  {
    if pageSize < 1 then DefaultPageSize else pageSize
  }

  /** OFFSET offset LIMIT limit over an ordered result. */
  function Window<T>(s: seq<T>, offset: nat, limit: nat): (w: seq<T>)
    ensures |w| == Max(0, Min(limit, |s| - offset))
    ensures forall j :: 0 <= j < |w| ==> offset + j < |s| && w[j] == s[offset + j]
  {
    if offset >= |s| then [] else s[offset..Min(offset + limit, |s|)]
  }

  /** Where a page starts: (page - 1) * pageSize, after normalisation. The
      pages tile the result: each starts on a multiple of the page size, the
      first at row 0, and page p + 1 starts where page p ends. */
  function Offset(page: int, pageSize: int): (o: nat)
    ensures o % NormalizePageSize(pageSize) == 0
    ensures o / NormalizePageSize(pageSize) == NormalizePage(page) - 1
  {
    var p, n := NormalizePage(page), NormalizePageSize(pageSize);
    assert (p - 1) * n >= 0;
    MultipleOfSize(p - 1, n);
    (p - 1) * n
  }

  lemma MultipleOfSize(q: nat, n: int)
    requires n >= 1
    ensures (q * n) % n == 0 && (q * n) / n == q
  {
    var x := q * n;
    var d, m := x / n, x % n;
    assert (q - d) * n == m;
    OnlyZeroRemainder(q - d, n, m);
  }

  /** A multiple of n that lies in [0, n) is 0 * n. */
  lemma OnlyZeroRemainder(k: int, n: int, m: int)
    requires n >= 1 && 0 <= m < n && k * n == m
    ensures k == 0 && m == 0
  {
  }

  /** The rows of one page of an ordered result. */
  function Page<T>(s: seq<T>, page: int, pageSize: int): (w: seq<T>)
    ensures |w| <= NormalizePageSize(pageSize)
  {
    Window(s, Offset(page, pageSize), NormalizePageSize(pageSize))
  }

  /** Element k of the ordered result lies on page k / n + 1, at position
      k % n, where n is the normalised page size: every row is reachable by
      paging, whatever page size is asked for. */
  lemma {:induction false} PagesCoverResult<T>(s: seq<T>, pageSize: int, k: nat)
    requires k < |s|
    ensures var n := NormalizePageSize(pageSize);
            var w := Page(s, k / n + 1, pageSize);
            k / n + 1 >= 1 && k % n < |w| && w[k % n] == s[k] && s[k] in w
  {
    var n := NormalizePageSize(pageSize);
    var page := k / n + 1;
    assert NormalizePage(page) == page;
    var o := Offset(page, pageSize);
    assert o == (k / n) * n;
    assert o + k % n == k;
    assert o <= k;
  }

  /** Every element of the ordered result is on some page, for any page size. */
  lemma PagesCoverElements<T>(s: seq<T>, pageSize: int, x: T)
    requires x in s
    ensures exists page :: page >= 1 && x in Page(s, page, pageSize)
  {
    var k :| 0 <= k < |s| && s[k] == x;
    PagesCoverResult(s, pageSize, k);
    var page := k / NormalizePageSize(pageSize) + 1;
    assert page >= 1 && x in Page(s, page, pageSize);
  }

  /** Two different pages never share a position of the ordered result, so
      a result without repeated rows never shows the same row twice. */
  lemma {:induction false} PagesDisjoint<T>(s: seq<T>, page1: int, page2: int, pageSize: int)
    requires forall i, j :: 0 <= i < j < |s| ==> s[i] != s[j]
    requires NormalizePage(page1) != NormalizePage(page2)
    ensures forall x :: x in Page(s, page1, pageSize) ==> x !in Page(s, page2, pageSize)
  {
    var n := NormalizePageSize(pageSize);
    var o1, o2 := Offset(page1, pageSize), Offset(page2, pageSize);
    assert o1 == (NormalizePage(page1) - 1) * n && o2 == (NormalizePage(page2) - 1) * n;
    var w1, w2 := Page(s, page1, pageSize), Page(s, page2, pageSize);
    forall x | x in w1
      ensures x !in w2
    {
      var a :| 0 <= a < |w1| && w1[a] == x;
      if x in w2 {
        var b :| 0 <= b < |w2| && w2[b] == x;
        assert s[o1 + a] == s[o2 + b];
        assert o1 + a == o2 + b;
        SeparatedWindows(NormalizePage(page1), NormalizePage(page2), n, a, b);
      }
    }
  }

  /** Positions on two different pages of the same size are different. */
  lemma SeparatedWindows(p1: int, p2: int, n: int, a: int, b: int)
    requires p1 >= 1 && p2 >= 1 && p1 != p2 && n >= 1
    requires 0 <= a < n && 0 <= b < n
    ensures (p1 - 1) * n + a != (p2 - 1) * n + b
  {
    if p1 < p2 {
      FurtherPageStartsLater(p1 - 1, p2 - p1, n);
    } else {
      FurtherPageStartsLater(p2 - 1, p1 - p2, n);
    }
  }

  lemma FurtherPageStartsLater(q: int, d: int, n: int)
    requires q >= 0 && d >= 1 && n >= 1
    ensures (q + d) * n >= q * n + n
  {
    assert (q + d) * n == q * n + d * n;
    assert d * n >= n;
  }
}
