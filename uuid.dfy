/** The textual forms of a uuid that the uuid library's `Parse` accepts, and
    the canonical lower-case form its `String` method prints. Only the
    parser's accept/reject decision and the identifier it denotes are
    modelled; the 16-byte value is represented by its canonical text. */
module Uuid {
  import opened Common

  predicate IsHex(c: char)
  {
    '0' <= c <= '9' || 'a' <= c <= 'f' || 'A' <= c <= 'F'
  }

  predicate IsLowerHex(c: char)
  {
    '0' <= c <= '9' || 'a' <= c <= 'f'
  }

  predicate IsAscii(c: char)
  {
    c as int < 128
  }

  /** ASCII case folding, as `strings.EqualFold` does for the letters of "urn:uuid:". */
  function FoldAscii(c: char): (f: char)
    ensures 'A' <= c <= 'Z' ==> f as int == c as int + 32
    ensures !('A' <= c <= 'Z') ==> f == c
  {
    if 'A' <= c <= 'Z' then (c as int + 32) as char else c
  }

  /** Positions of the four hyphens in the 36-character form. */
  predicate IsHyphenPos(i: int)
  {
    i == 8 || i == 13 || i == 18 || i == 23
  }

  /** The 36-character form, as `String` prints it: lower-case hex digits and four hyphens. */
  predicate IsCanonical(u: string)
  {
    |u| == 36 && forall i :: 0 <= i < 36 ==> if IsHyphenPos(i) then u[i] == '-' else IsLowerHex(u[i])
  }

  /** The 36-character form as `Parse` checks it: hyphens in place, hex digits of either case elsewhere. */
  predicate WellFormed36(s: string)
  {
    |s| == 36 && forall i :: 0 <= i < 36 ==> if IsHyphenPos(i) then s[i] == '-' else IsHex(s[i])
  }

  /** Index, among the 32 hex digits, of the digit at position i of the 36-character form. */
  function DigitIndex(i: int): (d: int)
    requires 0 <= i < 36 && !IsHyphenPos(i)
    ensures 0 <= d < 32
  {
    if i < 8 then i else if i < 13 then i - 1 else if i < 18 then i - 2 else if i < 23 then i - 3 else i - 4
  }

  /** Inverse of DigitIndex: where the d-th hex digit sits in the 36-character form. */
  function DigitPos(d: int): (i: int)
    requires 0 <= d < 32
    ensures 0 <= i < 36 && !IsHyphenPos(i) && DigitIndex(i) == d
  {
    if d < 8 then d else if d < 12 then d + 1 else if d < 16 then d + 2 else if d < 20 then d + 3 else d + 4
  }

  function Lower(c: char): (l: char)
    ensures IsHex(c) ==> IsLowerHex(l)
    ensures IsLowerHex(c) ==> l == c
  {
    if 'A' <= c <= 'F' then (c as int + 32) as char else c
  }

  /** The 32 hex digits laid out in the 36-character form. */
  function Hyphenate(digits: string): (s: string)
    requires |digits| == 32
    ensures |s| == 36
  {
    seq(36, i requires 0 <= i < 36 => if IsHyphenPos(i) then '-' else digits[DigitIndex(i)])
  }

  /** The 32 hex digits of a 36-character form, hyphens removed. */
  function Digits(u: string): (d: string)
    requires |u| == 36
    ensures |d| == 32
  {
    seq(32, k requires 0 <= k < 32 => u[DigitPos(k)])
  }

  function Canonicalize(s: string): (r: Option<string>)
    requires |s| == 36
    ensures r.Some? <==> WellFormed36(s)
    ensures r.Some? ==> IsCanonical(r.value)
  {
    if WellFormed36(s) then Some(seq(36, i requires 0 <= i < 36 => Lower(s[i]))) else None
  }

  /** `uuid.Parse`: the canonical text of the uuid that s denotes, or None
      where the library returns an error. Lengths are in characters; every
      character the library inspects must be ASCII for it to succeed, and
      the two characters the braced form skips are required to be ASCII
      so that the character count equals the library's byte count. */
  function ParseUuid(s: string): (r: Option<string>)
    ensures r.Some? ==> IsCanonical(r.value)
    ensures |s| !in {32, 36, 38, 45} ==> r == None
  {
    if |s| == 36 then
      Canonicalize(s)
    else if |s| == 45 then
      if forall i :: 0 <= i < 9 ==> FoldAscii(s[i]) == "urn:uuid:"[i] then Canonicalize(s[9..]) else None
    else if |s| == 38 then
      // the braced form: the first character is dropped and the last one never read
      if IsAscii(s[0]) && IsAscii(s[37]) then Canonicalize(s[1..37]) else None
    else if |s| == 32 then
      if forall i :: 0 <= i < 32 ==> IsHex(s[i]) then Canonicalize(Hyphenate(s)) else None
    else
      None
  }

  /** The canonical form parses to itself. */
  lemma CanonicalRoundTrip(u: string)
    requires IsCanonical(u)
    ensures ParseUuid(u) == Some(u)
  {
    assert WellFormed36(u);
    assert seq(36, i requires 0 <= i < 36 => Lower(u[i])) == u;
  }

  /** The braced, urn and bare-digit forms of a uuid denote the same uuid as its canonical form. */
  lemma {:induction false} AlternativeFormsAgree(u: string)
    requires IsCanonical(u)
    ensures ParseUuid("{" + u + "}") == Some(u)
    ensures ParseUuid("urn:uuid:" + u) == Some(u)
    ensures ParseUuid(Digits(u)) == Some(u)
  {
    CanonicalRoundTrip(u);
    var braced := "{" + u + "}";
    assert braced[1..37] == u;
    var urn := "urn:uuid:" + u;
    assert urn[9..] == u;
    assert forall i :: 0 <= i < 9 ==> urn[i] == "urn:uuid:"[i];
    var d := Digits(u);
    forall i | 0 <= i < 32
      ensures IsHex(d[i])
    {
      assert d[i] == u[DigitPos(i)];
    }
    var h := Hyphenate(d);
    forall i | 0 <= i < 36
      ensures h[i] == u[i]
    {
      if !IsHyphenPos(i) {
        assert DigitPos(DigitIndex(i)) == i;
      }
    }
    assert h == u;
  }

  /** Two spellings that differ only in the case of their hex digits denote the same uuid. */
  lemma CaseInsensitive(s: string, t: string)
    requires |s| == 36 && |t| == 36 && WellFormed36(s)
    requires forall i :: 0 <= i < 36 ==> Lower(s[i]) == Lower(t[i]) && IsHex(s[i]) == IsHex(t[i])
    ensures ParseUuid(s).Some? && ParseUuid(s) == ParseUuid(t)
  {
    assert WellFormed36(t) by {
      forall i | 0 <= i < 36 && IsHyphenPos(i) ensures t[i] == '-' {
        assert Lower(s[i]) == '-';
      }
    }
    assert seq(36, i requires 0 <= i < 36 => Lower(s[i])) == seq(36, i requires 0 <= i < 36 => Lower(t[i]));
  }
}
