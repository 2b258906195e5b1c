/** The few Python `str` operations the digest code relies on, over
    `seq<char>` (Python indexes strings by code point, as Dafny does with
    Unicode chars): `startswith`, `endswith`, `find`, `replace(p, "", 1)`,
    `rsplit(p, 1)[0]`, `strip()` and `str()` of a natural number. */
module Strings {
  import opened Outcomes

  predicate StartsWith(s: string, p: string) {
    |p| <= |s| && s[..|p|] == p
  }

  predicate EndsWith(s: string, p: string) {
    |p| <= |s| && s[|s| - |p|..] == p
  }

  /** `s.startswith(p)` holds exactly when `s` is `p` followed by more text. */
  lemma StartsWithIff(s: string, p: string)
    ensures StartsWith(s, p) <==> |p| <= |s| && s == p + s[|p|..]
  {
    if |p| <= |s| {
      assert s == s[..|p|] + s[|p|..];
      assert (p + s[|p|..])[..|p|] == p;
    }
  }

  /** `s.endswith(p)` holds exactly when `s` is some text followed by `p`. */
  lemma EndsWithIff(s: string, p: string)
    ensures EndsWith(s, p) <==> |p| <= |s| && s == s[..|s| - |p|] + p
  {
    if |p| <= |s| {
      assert s == s[..|s| - |p|] + s[|s| - |p|..];
      var h := s[..|s| - |p|];
      assert (h + p)[|h|..] == p;
    }
  }

  /** `p` occurs in `s` starting at index `i`. */
  predicate OccursAt(s: string, p: string, i: nat) {
    i + |p| <= |s| && s[i..i + |p|] == p
  }

  /** `r` is a contiguous piece of `s`. */
  ghost predicate IsSlice(r: string, s: string) {
    exists i, j :: SliceAt(r, s, i, j)
  }

  /** `r` is `s[i..j]`. */
  predicate SliceAt(r: string, s: string, i: int, j: int) {
    0 <= i <= j <= |s| && r == s[i..j]
  }

  lemma SliceTransitive(a: string, b: string, c: string)
    requires IsSlice(a, b) && IsSlice(b, c)
    ensures IsSlice(a, c)
  {
    var i, j :| SliceAt(a, b, i, j);
    var k, l :| SliceAt(b, c, k, l);
    assert 0 <= i <= j <= |b| && a == b[i..j];
    assert 0 <= k <= l <= |c| && b == c[k..l];
    forall t | 0 <= t < j - i
      ensures a[t] == c[k + i + t]
    {
      assert a[t] == b[i + t];
    }
    assert a == c[k + i..k + j];
    assert SliceAt(a, c, k + i, k + j);
  }

  // ---------------------------------------------------------------------
  // find / rfind

  /** The leftmost occurrence of `p` in `s` at or after `i` (Python's
      `s.find(p, i)`, with `None` for -1). */
  function FindFrom(s: string, p: string, i: nat): (r: Option<nat>)
    requires i <= |s|
    ensures r.Some? ==> i <= r.value && OccursAt(s, p, r.value)
    ensures r.Some? ==> forall m :: i <= m < r.value ==> !OccursAt(s, p, m)
    ensures r.None? ==> forall m :: i <= m ==> !OccursAt(s, p, m)
    decreases |s| - i
  {
    if OccursAt(s, p, i) then Some(i)
    else if i + |p| >= |s| then None
    else FindFrom(s, p, i + 1)
  }

  /** The rightmost occurrence of `p` in `s` starting at or before `j`. */
  function FindLastFrom(s: string, p: string, j: nat): (r: Option<nat>)
    ensures r.Some? ==> r.value <= j && OccursAt(s, p, r.value)
    ensures r.Some? ==> forall m :: r.value < m <= j ==> !OccursAt(s, p, m)
    ensures r.None? ==> forall m :: 0 <= m <= j ==> !OccursAt(s, p, m)
  {
    if OccursAt(s, p, j) then Some(j)
    else if j == 0 then None
    else FindLastFrom(s, p, j - 1)
  }

  /** Python's `s.replace(p, "", 1)`: delete the leftmost occurrence of `p`. */
  function ReplaceFirst(s: string, p: string): (r: string)
    ensures FindFrom(s, p, 0).None? ==> r == s
    ensures FindFrom(s, p, 0).Some? ==>
              var k := FindFrom(s, p, 0).value;
              k <= |r| && s == r[..k] + p + r[k..]
    ensures StartsWith(s, p) ==> p + r == s
  {
    match FindFrom(s, p, 0)
    case None => s
    case Some(k) =>
      var r := s[..k] + s[k + |p|..];
      assert r[..k] == s[..k] && r[k..] == s[k + |p|..];
      assert s == s[..k] + s[k..k + |p|] + s[k + |p|..];
      r
  }

  /** Python's `s.rsplit(sep, 1)[0]`: everything before the rightmost
      occurrence of `sep`, or all of `s` when `sep` does not occur.
      Python raises on an empty separator, hence the precondition. */
  function RSplitHead(s: string, sep: string): (r: string)
    requires |sep| > 0
    ensures (forall m :: !OccursAt(s, sep, m)) ==> r == s
    ensures (exists m: nat :: OccursAt(s, sep, m)) ==> OccursAt(s, sep, |r|) && s[..|r|] == r
    ensures forall m :: |r| < m ==> !OccursAt(s, sep, m)
    ensures EndsWith(s, sep) ==> r + sep == s
  {
    match FindLastFrom(s, sep, |s|)
    case None =>
      assert EndsWith(s, sep) ==> OccursAt(s, sep, |s| - |sep|);
      s
    case Some(k) =>
      assert forall m :: |s| < m ==> !OccursAt(s, sep, m);
      if EndsWith(s, sep) then
        assert OccursAt(s, sep, |s| - |sep|);
        assert s == s[..|s| - |sep|] + sep;
        s[..k]
      else
        s[..k]
  }

  // ---------------------------------------------------------------------
  // strip

  /** Python's `str.isspace()` for one character: the characters CPython's
      Unicode tables class as whitespace. */
  predicate IsSpace(c: char) {
    || ('\t' <= c <= '\r')
    || ('\U{1C}' <= c <= '\U{1F}')
    || c == ' '
    || c == '\U{85}'
    || c == '\U{A0}'
    || c == '\U{1680}'
    || ('\U{2000}' <= c <= '\U{200A}')
    || c == '\U{2028}'
    || c == '\U{2029}'
    || c == '\U{202F}'
    || c == '\U{205F}'
    || c == '\U{3000}'
  }

  predicate AllSpace(s: string) {
    forall k :: 0 <= k < |s| ==> IsSpace(s[k])
  }

  /** Neither end of `s` is whitespace. */
  predicate Trimmed(s: string) {
    |s| == 0 || (!IsSpace(s[0]) && !IsSpace(s[|s| - 1]))
  }

  /** `r` is `s` with all surrounding whitespace removed, and nothing else:
      a slice of `s` whose cut-off ends are whitespace and whose own ends
      are not. */
  ghost predicate IsTrimOf(r: string, s: string) {
    exists i, j :: TrimAt(r, s, i, j)
  }

  /** `r` is `s[i..j]`, everything outside `i..j` is whitespace, and `r`
      neither starts nor ends with whitespace. */
  predicate TrimAt(r: string, s: string, i: int, j: int) {
    0 <= i <= j <= |s| && r == s[i..j]
    && AllSpace(s[..i]) && AllSpace(s[j..]) && Trimmed(r)
  }

  /** Number of whitespace characters at the front of `s`. */
  function LeadingSpace(s: string): (n: nat)
    ensures n <= |s| && AllSpace(s[..n])
    ensures n < |s| ==> !IsSpace(s[n])
  {
    if |s| == 0 || !IsSpace(s[0]) then 0
    else
      var n := 1 + LeadingSpace(s[1..]);
      assert s[..n] == [s[0]] + s[1..][..n - 1];
      n
  }

  /** Number of whitespace characters at the back of `s`. */
  function TrailingSpace(s: string): (n: nat)
    ensures n <= |s| && AllSpace(s[|s| - n..])
    ensures n < |s| ==> !IsSpace(s[|s| - n - 1])
  {
    if |s| == 0 || !IsSpace(s[|s| - 1]) then 0
    else
      var t := s[..|s| - 1];
      var n := 1 + TrailingSpace(t);
      assert s[|s| - n..] == t[|t| - (n - 1)..] + [s[|s| - 1]];
      n
  }

  /** Python's `s.strip()`; `StripCharacterised` says what it removes. */
  function Strip(s: string): (r: string)
    ensures Trimmed(r) && |r| <= |s|
  {
    var t := s[LeadingSpace(s)..];
    t[..|t| - TrailingSpace(t)]
  }

  /** `Strip` removes exactly the whitespace at both ends. */
  lemma StripCharacterised(s: string)
    ensures IsTrimOf(Strip(s), s)
  {
    var i := LeadingSpace(s);
    var t := s[i..];
    var n := TrailingSpace(t);
    var j := i + |t| - n;
    assert t[..|t| - n] == s[i..j];
    assert t[|t| - n..] == s[j..];
    assert TrimAt(Strip(s), s, i, j);
  }

  /** A whitespace prefix of `s` is never longer than the one `LeadingSpace`
      counts. */
  lemma {:induction false} LeadingSpaceMaximal(s: string, i: nat)
    requires i <= |s| && AllSpace(s[..i])
    ensures i <= LeadingSpace(s)
  {
    if i > 0 {
      assert IsSpace(s[..i][0]);
      assert s[1..][..i - 1] == s[..i][1..];
      LeadingSpaceMaximal(s[1..], i - 1);
    }
  }

  /** A whitespace suffix of `s` is never longer than the one `TrailingSpace`
      counts. */
  lemma {:induction false} TrailingSpaceMaximal(s: string, j: nat)
    requires j <= |s| && AllSpace(s[j..])
    ensures |s| - j <= TrailingSpace(s)
  {
    if j < |s| {
      assert IsSpace(s[j..][|s| - 1 - j]);
      var t := s[..|s| - 1];
      assert t[j..] == s[j..][..|s| - 1 - j];
      TrailingSpaceMaximal(t, j);
    }
  }

  /** `LeadingSpace` stops at the first non-whitespace character. */
  lemma {:induction false} LeadingSpaceMinimal(s: string, i: nat)
    requires i < |s| && !IsSpace(s[i])
    ensures LeadingSpace(s) <= i
  {
    if i > 0 && IsSpace(s[0]) {
      LeadingSpaceMinimal(s[1..], i - 1);
    }
  }

  /** `TrailingSpace` stops at the last non-whitespace character. */
  lemma {:induction false} TrailingSpaceMinimal(s: string, j: nat)
    requires j < |s| && !IsSpace(s[j])
    ensures TrailingSpace(s) <= |s| - 1 - j
  {
    if j < |s| - 1 && IsSpace(s[|s| - 1]) {
      TrailingSpaceMinimal(s[..|s| - 1], j);
    }
  }

  /** A string of whitespace strips to nothing. */
  lemma StripAllSpace(s: string)
    requires AllSpace(s)
    ensures Strip(s) == []
  {
    LeadingSpaceMaximal(s, |s|);
  }

  /** The first and last non-whitespace characters of `s` delimit its strip. */
  lemma StripBetween(s: string, i: nat, j: nat)
    requires i < j <= |s| && AllSpace(s[..i]) && AllSpace(s[j..])
    requires !IsSpace(s[i]) && !IsSpace(s[j - 1])
    ensures Strip(s) == s[i..j]
  {
    LeadingSpaceMaximal(s, i);
    LeadingSpaceMinimal(s, i);
    var t := s[i..];
    assert t[j - i..] == s[j..];
    TrailingSpaceMaximal(t, j - i);
    TrailingSpaceMinimal(t, j - i - 1);
    assert t[..j - i] == s[i..j];
  }

  /** Every string `IsTrimOf` admits is the one `Strip` computes. */
  lemma TrimIsStrip(r: string, s: string)
    requires IsTrimOf(r, s)
    ensures r == Strip(s)
  {
    var i, j :| TrimAt(r, s, i, j);
    if i == j {
      assert s == s[..i] + s[j..];
      StripAllSpace(s);
    } else {
      assert s[i] == r[0] && s[j - 1] == r[|r| - 1];
      StripBetween(s, i, j);
    }
  }

  /** The characterisation `IsTrimOf` pins down a single string, so the
      contract of `Strip` says everything about its result. */
  lemma TrimUnique(r1: string, r2: string, s: string)
    requires IsTrimOf(r1, s) && IsTrimOf(r2, s)
    ensures r1 == r2
  {
    TrimIsStrip(r1, s);
    TrimIsStrip(r2, s);
  }

  /** Stripping only cuts off the two ends. */
  lemma StripIsSlice(s: string)
    ensures IsSlice(Strip(s), s)
  {
    var r := Strip(s);
    StripCharacterised(s);
    var i, j :| TrimAt(r, s, i, j);
    assert SliceAt(r, s, i, j);
  }

  /** Stripping changes nothing once there is nothing to strip. */
  lemma StripTrimmed(s: string)
    requires Trimmed(s)
    ensures Strip(s) == s
  {
    assert s[0..|s|] == s && s[..0] == [] && s[|s|..] == [];
    assert TrimAt(s, s, 0, |s|);
    TrimUnique(Strip(s), s, s);
  }

  // ---------------------------------------------------------------------
  // str(n) for a natural number

  predicate IsDigit(c: char) {
    '0' <= c <= '9'
  }

  function DigitChar(d: nat): (c: char)
    requires d < 10
    ensures IsDigit(c) && c as int - '0' as int == d
  {
    (d + '0' as int) as char
  }

  /** Python's `str(n)` for `n >= 0`: decimal digits, no leading zero. */
  function Decimal(n: nat): (r: string)
    ensures |r| > 0 && forall k :: 0 <= k < |r| ==> IsDigit(r[k])
    ensures r[0] == '0' ==> n == 0
  {
    if n < 10 then [DigitChar(n)]
    else Decimal(n / 10) + [DigitChar(n % 10)]
  }

  /** The number a string of decimal digits denotes. */
  function DigitsValue(s: string): nat
    requires forall k :: 0 <= k < |s| ==> IsDigit(s[k])
  {
    if |s| == 0 then 0
    else
      assert IsDigit(s[|s| - 1]);
      DigitsValue(s[..|s| - 1]) * 10 + (s[|s| - 1] as int - '0' as int)
  }

  lemma {:induction false} DecimalRoundTrip(n: nat)
    ensures DigitsValue(Decimal(n)) == n
  {
    if n >= 10 {
      var s := Decimal(n);
      assert s[..|s| - 1] == Decimal(n / 10);
      DecimalRoundTrip(n / 10);
    }
  }

  /** Different numbers get different digit strings. */
  lemma DecimalInjective(a: nat, b: nat)
    requires Decimal(a) == Decimal(b)
    ensures a == b
  {
    DecimalRoundTrip(a);
    DecimalRoundTrip(b);
  }

  // ---------------------------------------------------------------------
  // sep.join(parts)

  /** Python's `sep.join(parts)`. */
  function Join(sep: string, parts: seq<string>): string {
    if |parts| == 0 then ""
    else if |parts| == 1 then parts[0]
    else parts[0] + sep + Join(sep, parts[1..])
  }

  /** With three or more parts, the joined text opens with the first two
      parts, each followed by the separator. */
  lemma JoinOpening(sep: string, parts: seq<string>)
    requires |parts| >= 3
    ensures StartsWith(Join(sep, parts), parts[0] + sep + parts[1] + sep)
  {
    var rest := Join(sep, parts[2..]);
    assert Join(sep, parts[1..]) == parts[1] + sep + rest by {
      assert parts[1..][0] == parts[1] && parts[1..][1..] == parts[2..];
    }
    var p := parts[0] + sep + parts[1] + sep;
    assert Join(sep, parts) == p + rest;
    assert (p + rest)[..|p|] == p;
  }

  /** Where part `i` begins in `Join(sep, parts)`: the parts before it,
      each followed by one separator. */
  function Offset(sep: string, parts: seq<string>, i: nat): nat
    requires i <= |parts|
  {
    if i == 0 then 0 else |parts[0]| + |sep| + Offset(sep, parts[1..], i - 1)
  }

  lemma SliceOfConcat(a: string, b: string, x: nat, y: nat)
    requires x <= y <= |b|
    ensures (a + b)[|a| + x..|a| + y] == b[x..y]
  {
    assert forall t :: 0 <= t < y - x ==> (a + b)[|a| + x..|a| + y][t] == b[x..y][t];
  }

  /** Part `i` sits verbatim at `Offset(sep, parts, i)`. */
  lemma {:induction false} JoinPartAt(sep: string, parts: seq<string>, i: nat)
    requires i < |parts|
    ensures var o := Offset(sep, parts, i);
            o + |parts[i]| <= |Join(sep, parts)|
            && Join(sep, parts)[o..o + |parts[i]|] == parts[i]
  {
    if |parts| > 1 {
      var head := parts[0] + sep;
      var rest := Join(sep, parts[1..]);
      assert Join(sep, parts) == head + rest;
      if i > 0 {
        JoinPartAt(sep, parts[1..], i - 1);
        var o := Offset(sep, parts[1..], i - 1);
        SliceOfConcat(head, rest, o, o + |parts[i]|);
      } else {
        assert (head + rest)[..|parts[0]|] == parts[0];
      }
    }
  }

  /** Every part but the last is followed by one separator. */
  lemma {:induction false} JoinSeparatorAfter(sep: string, parts: seq<string>, i: nat)
    requires i + 1 < |parts|
    ensures var o := Offset(sep, parts, i) + |parts[i]|;
            o + |sep| <= |Join(sep, parts)| && Join(sep, parts)[o..o + |sep|] == sep
  {
    var head := parts[0] + sep;
    var rest := Join(sep, parts[1..]);
    assert Join(sep, parts) == head + rest;
    if i > 0 {
      JoinSeparatorAfter(sep, parts[1..], i - 1);
      var e := Offset(sep, parts[1..], i - 1) + |parts[i]|;
      SliceOfConcat(head, rest, e, e + |sep|);
    } else {
      assert (head + rest)[|parts[0]|..|parts[0]| + |sep|] == sep;
    }
  }

  /** The joined text is exactly the parts and the separators between them. */
  lemma {:induction false} JoinLength(sep: string, parts: seq<string>)
    ensures |parts| == 0 ==> Join(sep, parts) == ""
    ensures |parts| > 0 ==> |Join(sep, parts)| + |sep| == Offset(sep, parts, |parts|)
  {
    if |parts| > 1 {
      JoinLength(sep, parts[1..]);
    }
  }
}
