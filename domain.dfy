/** Deriving a note's domain from the host name of its source URL: split
    the host name on ".", keep the last two labels when there are more than
    two, otherwise keep the whole host name. */
module Domain {
  import opened Common

  /** Number of '.' characters in s. */
  function Dots(s: string): nat
  {
    if s == [] then 0 else (if s[0] == '.' then 1 else 0) + Dots(s[1..])
  }

  /** `strings.Split(s, ".")`: the dot-separated labels, at least one, the
      empty string included ("" splits into [""], "a." into ["a", ""]). */
  function Split(s: string): (parts: seq<string>)
    ensures |parts| >= 1
  {
    if s == [] then [""]
    else
      var rest := Split(s[1..]);
      if s[0] == '.' then [""] + rest else [[s[0]] + rest[0]] + rest[1..]
  }

  /** `strings.Join(parts, ".")` for a non-empty list of labels. */
  function Join(parts: seq<string>): string
    requires |parts| >= 1
  {
    if |parts| == 1 then parts[0] else parts[0] + "." + Join(parts[1..])
  }

  /** The domain kept for a host name: its last two labels when it has more than two. */
  function DomainOf(host: string): string
  {
    var parts := Split(host);
    if |parts| > 2 then Join(parts[|parts| - 2..]) else host
  }

  /** CreateNote's choice of domain: an explicit domain is kept; otherwise,
      when a source URL was given and parsed (`host` is its host name, None
      when the URL did not parse), the domain derived from the host name;
      otherwise none. */
  function DeriveDomain(requested: string, sourceUrl: string, host: Option<string>): (d: string)
    ensures requested != "" ==> d == requested
    ensures requested == "" && (sourceUrl == "" || host.None?) ==> d == ""
    ensures requested == "" && sourceUrl != "" && host.Some? ==> d == DomainOf(host.value)
  {
    if requested == "" && sourceUrl != "" then
      match host
      case Some(h) => DomainOf(h)
      case None => ""
    else
      requested
  }

  lemma {:induction false} DotsAppend(a: string, b: string)
    ensures Dots(a + b) == Dots(a) + Dots(b)
    decreases |a|
  {
    if a == [] {
      assert a + b == b;
    } else {
      assert (a + b)[0] == a[0];
      assert (a + b)[1..] == a[1..] + b;
      DotsAppend(a[1..], b);
    }
  }

  /** No label contains a dot. */
  lemma {:induction false} LabelsHaveNoDots(s: string)
    ensures forall i :: 0 <= i < |Split(s)| ==> Dots(Split(s)[i]) == 0
    decreases |s|
  {
    if s != [] {
      LabelsHaveNoDots(s[1..]);
      var rest := Split(s[1..]);
      if s[0] != '.' {
        assert Dots([s[0]] + rest[0]) == Dots(rest[0]) by {
          assert ([s[0]] + rest[0])[1..] == rest[0];
        }
      }
    }
  }

  /** There is one more label than there are dots. */
  lemma {:induction false} LabelCount(s: string)
    ensures |Split(s)| == Dots(s) + 1
    decreases |s|
  {
    if s != [] {
      LabelCount(s[1..]);
    }
  }

  /** Joining the labels gives back the host name. */
  lemma {:induction false} JoinSplit(s: string)
    ensures Join(Split(s)) == s
    decreases |s|
  {
    if s != [] {
      JoinSplit(s[1..]);
      var rest := Split(s[1..]);
      if s[0] == '.' {
        assert Split(s)[1..] == rest;
      } else {
        var parts := Split(s);
        if |rest| == 1 {
          assert parts == [[s[0]] + rest[0]];
        } else {
          assert parts[1..] == rest[1..];
          assert Join(rest) == rest[0] + "." + Join(rest[1..]);
        }
      }
    }
  }

  /** Splitting a dot-free label, a dot and more text gives that label first. */
  lemma {:induction false} SplitAfterLabel(p: string, rest: string)
    requires Dots(p) == 0
    ensures Split(p + "." + rest) == [p] + Split(rest)
    decreases |p|
  {
    if p == [] {
      assert (p + "." + rest)[1..] == rest;
    } else {
      SplitAfterLabel(p[1..], rest);
      assert (p + "." + rest)[1..] == p[1..] + "." + rest;
      assert [p[0]] + p[1..] == p;
    }
  }

  lemma {:induction false} NoDotsSplit(s: string)
    requires Dots(s) == 0
    ensures Split(s) == [s]
    decreases |s|
  {
    if s != [] {
      NoDotsSplit(s[1..]);
      assert [s[0]] + s[1..] == s;
    }
  }

  /** Splitting a join of dot-free labels gives back the labels. */
  lemma {:induction false} SplitJoin(parts: seq<string>)
    requires |parts| >= 1
    requires forall i :: 0 <= i < |parts| ==> Dots(parts[i]) == 0
    ensures Split(Join(parts)) == parts
    decreases |parts|
  {
    if |parts| == 1 {
      NoDotsSplit(parts[0]);
    } else {
      SplitJoin(parts[1..]);
      SplitAfterLabel(parts[0], Join(parts[1..]));
      assert [parts[0]] + parts[1..] == parts;
    }
  }

  /** Joining a list of labels is joining a prefix of it, a dot, and the rest. */
  lemma {:induction false} JoinSplitsAt(parts: seq<string>, k: nat)
    requires 0 < k < |parts|
    ensures Join(parts) == Join(parts[..k]) + "." + Join(parts[k..])
    decreases k
  {
    if k > 1 {
      JoinSplitsAt(parts[1..], k - 1);
      assert parts[1..][..k - 1] == parts[..k][1..];
      assert parts[1..][k - 1..] == parts[k..];
    } else {
      assert parts[..1] == [parts[0]];
      assert parts[1..] == parts[k..];
    }
  }

  /** The derived domain is a suffix of the host name with at most one dot.
      A host name with at most one dot is its own domain; one with two or
      more keeps exactly the text after its second-to-last dot. */
  lemma DomainIsLastTwoLabels(host: string)
    ensures var d := DomainOf(host);
      && |d| <= |host| && host[|host| - |d|..] == d
      && Dots(d) <= 1
      && (Dots(host) <= 1 ==> d == host)
      && (Dots(host) >= 2 ==> Dots(d) == 1 && host[|host| - |d| - 1] == '.')
  {
    var parts := Split(host);
    LabelCount(host);
    LabelsHaveNoDots(host);
    JoinSplit(host);
    var n := |parts|;
    if n > 2 {
      var d := DomainOf(host);
      var tail := parts[n - 2..];
      assert d == Join(tail);
      JoinSplitsAt(parts, n - 2);
      assert host == Join(parts[..n - 2]) + "." + d;
      assert Join(tail) == tail[0] + "." + tail[1];
      assert Dots(tail[0]) == 0 && Dots(tail[1]) == 0 by {
        assert tail[0] == parts[n - 2] && tail[1] == parts[n - 1];
      }
      DotsAppend(tail[0] + ".", tail[1]);
      DotsAppend(tail[0], ".");
      assert Dots(".") == 1 by {
        assert "."[1..] == [];
      }
      assert Dots(d) == 1;
      var pre := Join(parts[..n - 2]) + ".";
      assert host == pre + d;
      assert host[|host| - |d|..] == d;
      assert host[|host| - |d| - 1] == pre[|pre| - 1] == '.';
    }
  }
}
