/** The handful of Python `str` operations the pipeline relies on, restricted to
    ASCII: `lower`, `strip`, `in`/`index`, `replace` of one character, and
    `os.path.join` with an explicit separator. */
module Text {
  import opened Optional

  /** `str.isspace` on the ASCII range: tab through carriage return (9..13),
      the four information separators (28..31) and the space. */
  predicate IsSpace(c: char) {
    var n := c as int;
    n == 32 || 9 <= n <= 13 || 28 <= n <= 31
  }

  predicate AllSpace(s: string) {
    forall i :: 0 <= i < |s| ==> IsSpace(s[i])
  }

  /** ASCII `str.lower` on one character. */
  function Lower(c: char): (r: char)
    ensures 'A' <= c <= 'Z' ==> 'a' <= r <= 'z' && r as int == c as int + 32
    ensures !('A' <= c <= 'Z') ==> r == c
  {
    if 'A' <= c <= 'Z' then (c as int + 32) as char else c
  }

  function LowerStr(s: string): (r: string)
    ensures |r| == |s|
    ensures forall i :: 0 <= i < |s| ==> r[i] == Lower(s[i])
  {
    if |s| == 0 then [] else [Lower(s[0])] + LowerStr(s[1..])
  }

  // ---------------------------------------------------------------- strip

  /** A string with no whitespace at either end: what `str.strip` returns. */
  predicate IsStripped(s: string) {
    |s| == 0 || (!IsSpace(s[0]) && !IsSpace(s[|s| - 1]))
  }

  /** `r` is `s` with the whitespace `s[..a]` and `s[a + |r|..]` cut off. */
  predicate IsTrimOf(r: string, s: string, a: int) {
    0 <= a && a + |r| <= |s|
    && r == s[a..a + |r|]
    && AllSpace(s[..a]) && AllSpace(s[a + |r|..])
  }

  /** Index of the first non-whitespace character at or after `i`. */
  function SkipSpace(s: string, i: nat): (a: nat)
    requires i <= |s|
    ensures i <= a <= |s|
    ensures forall k :: i <= k < a ==> IsSpace(s[k])
    ensures a == |s| || !IsSpace(s[a])
    decreases |s| - i
  {
    if i == |s| || !IsSpace(s[i]) then i else SkipSpace(s, i + 1)
  }

  /** Index just past the last non-whitespace character before `j`, not below `lo`. */
  function SkipSpaceBack(s: string, lo: nat, j: nat): (b: nat)
    requires lo <= j <= |s|
    ensures lo <= b <= j
    ensures forall k :: b <= k < j ==> IsSpace(s[k])
    ensures b == lo || !IsSpace(s[b - 1])
    decreases j
  {
    if j == lo || !IsSpace(s[j - 1]) then j else SkipSpaceBack(s, lo, j - 1)
  }

  /** Python's `str.strip()` with no argument. */
  function Strip(s: string): (r: string)
    ensures IsStripped(r)
    ensures exists a :: IsTrimOf(r, s, a)
    ensures r == [] <==> AllSpace(s)
  {
    var a := SkipSpace(s, 0);
    var b := SkipSpaceBack(s, a, |s|);
    assert IsTrimOf(s[a..b], s, a);
    s[a..b]
  }

  /** Whitespace around a stripped string is exactly what `strip` removes. */
  lemma StripPadded(pre: string, s: string, post: string)
    requires AllSpace(pre) && AllSpace(post) && IsStripped(s)
    ensures Strip(pre + s + post) == s
  {
    var t := pre + s + post;
    var a := SkipSpace(t, 0);
    if |s| == 0 {
      assert AllSpace(t);
    } else {
      assert t[|pre|] == s[0];
      assert a == |pre|;
      assert t[|pre| + |s| - 1] == s[|s| - 1];
      var b := SkipSpaceBack(t, a, |t|);
      assert b == |pre| + |s|;
      assert t[a..b] == s;
    }
  }

  // ---------------------------------------------------------------- substring search

  predicate OccursAt(s: string, pat: string, i: int) {
    0 <= i && i + |pat| <= |s| && s[i..i + |pat|] == pat
  }

  /** Python's `s.index(pat)` as an option: the leftmost occurrence, if any. */
  function IndexOfFrom(s: string, pat: string, i: nat): (r: Option<nat>)
    requires i <= |s|
    ensures r.Some? ==> i <= r.value && OccursAt(s, pat, r.value)
    ensures r.Some? ==> forall j :: i <= j < r.value ==> !OccursAt(s, pat, j)
    ensures r.None? ==> forall j :: i <= j ==> !OccursAt(s, pat, j)
    decreases |s| - i
  {
    if OccursAt(s, pat, i) then Some(i)
    else if i == |s| then None
    else IndexOfFrom(s, pat, i + 1)
  }

  function IndexOf(s: string, pat: string): (r: Option<nat>)
    ensures r.Some? ==> OccursAt(s, pat, r.value)
    ensures r.Some? ==> forall j :: 0 <= j < r.value ==> !OccursAt(s, pat, j)
    ensures r.None? <==> forall j :: !OccursAt(s, pat, j)
  {
    IndexOfFrom(s, pat, 0)
  }

  /** Python's `pat in s`. */
  predicate Contains(s: string, pat: string) {
    IndexOf(s, pat).Some?
  }

  // ---------------------------------------------------------------- replace, join

  /** Python's `s.replace(from, to)` for one-character `from` and `to`. */
  function ReplaceChar(s: string, from: char, to: char): (r: string)
    ensures |r| == |s|
    ensures forall i :: 0 <= i < |s| && s[i] == from ==> r[i] == to
    ensures forall i :: 0 <= i < |s| && s[i] != from ==> r[i] == s[i]
  {
    if |s| == 0 then [] else [if s[0] == from then to else s[0]] + ReplaceChar(s[1..], from, to)
  }

  /** Two-argument `os.path.join` with separator `sep`, following the POSIX
      rules: an absolute second part replaces the first, and a separator is
      inserted only when the first part is non-empty and does not already end
      in one. */
  function Join(a: string, b: string, sep: char): (r: string)
    ensures |b| > 0 && b[0] == sep ==> r == b
    ensures !(|b| > 0 && b[0] == sep) && |a| > 0 && a[|a| - 1] != sep ==> r == a + [sep] + b
    ensures !(|b| > 0 && b[0] == sep) && (|a| == 0 || a[|a| - 1] == sep) ==> r == a + b
  {
    if |b| > 0 && b[0] == sep then b
    else if |a| == 0 || a[|a| - 1] == sep then a + b
    else a + [sep] + b
  }

  // ---------------------------------------------------------------- case

  /** Equal once both are lower-cased. */
  predicate SameUpToCase(s: string, t: string) {
    |s| == |t| && forall i :: 0 <= i < |s| ==> Lower(s[i]) == Lower(t[i])
  }

  lemma SameUpToCaseSlices(s: string, t: string, lo: nat, hi: nat)
    requires SameUpToCase(s, t) && lo <= hi <= |s|
    ensures SameUpToCase(s[lo..hi], t[lo..hi])
    ensures hi == |s| ==> SameUpToCase(s[lo..], t[lo..])
    ensures lo == 0 ==> SameUpToCase(s[..hi], t[..hi])
  {
  }

  lemma SkipSpaceUpToCase(s: string, t: string, i: nat)
    requires SameUpToCase(s, t) && i <= |s|
    ensures SkipSpace(s, i) == SkipSpace(t, i)
    decreases |s| - i
  {
  }

  lemma SkipSpaceBackUpToCase(s: string, t: string, lo: nat, j: nat)
    requires SameUpToCase(s, t) && lo <= j <= |s|
    ensures SkipSpaceBack(s, lo, j) == SkipSpaceBack(t, lo, j)
    decreases j
  {
  }

  /** Stripping cuts strings that agree up to case at the same places. */
  lemma StripUpToCase(s: string, t: string)
    requires SameUpToCase(s, t)
    ensures SameUpToCase(Strip(s), Strip(t))
  {
    SkipSpaceUpToCase(s, t, 0);
    var a := SkipSpace(s, 0);
    SkipSpaceBackUpToCase(s, t, a, |s|);
    var b := SkipSpaceBack(s, a, |s|);
    SameUpToCaseSlices(s, t, a, b);
  }
}
