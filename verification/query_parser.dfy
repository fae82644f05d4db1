/** The rule-based negative-clause parser `get_structured_query`. search.py and
    design/search.py hold copies with the same statements, differing only in
    comments.

    The source builds the regular expression `' ' + '|'.join(triggers) + ' '`,
    each trigger passed through `re.escape`, and compiles it
    case-insensitively. Escaping only puts a backslash before each space
    inside a trigger, and an escaped space matches a space, so the model
    works with the unescaped text. Because `|` binds loosest, only the
    first alternative gets the leading space and only the last one gets the
    trailing space; the model reproduces the pattern text and splits it into
    the literal alternatives the regex engine actually tries. */
module QueryParser {
  import opened Optional
  import opened Text

  /** The trigger phrases, in the order the source lists them. */
  const Triggers: seq<string> :=
    ["but not", "without", "and not", "except",
     "do not have", "don't have", "not including", "excluding"]

  /** `'|'.join(parts)`. */
  function JoinBars(parts: seq<string>): (r: string)
    ensures |parts| == 1 ==> r == parts[0]
  {
    if |parts| == 0 then ""
    else if |parts| == 1 then parts[0]
    else parts[0] + "|" + JoinBars(parts[1..])
  }

  /** The pattern text handed to `re.compile`, before `re.escape` puts a
      backslash in front of each space inside a trigger. */
  function PatternText(): string {
    " " + JoinBars(Triggers) + " "
  }

  /** The top-level alternatives of a pattern without groups: its text cut at
      every `|`. The pieces before the current one are in `done`, the current
      piece so far in `cur`. */
  function SplitBars(s: string, cur: string, done: seq<string>): (r: seq<string>)
    ensures |r| >= 1
    decreases |s|
  {
    if |s| == 0 then done + [cur]
    else if s[0] == '|' then SplitBars(s[1..], "", done + [cur])
    else SplitBars(s[1..], cur + [s[0]], done)
  }

  predicate BarFree(s: string) {
    forall i :: 0 <= i < |s| ==> s[i] != '|'
  }

  lemma {:induction false} SplitBarFree(a: string, rest: string, cur: string, done: seq<string>)
    requires BarFree(a)
    ensures SplitBars(a + rest, cur, done) == SplitBars(rest, cur + a, done)
    decreases |a|
  {
    if |a| > 0 {
      assert (a + rest)[0] == a[0];
      assert (a + rest)[1..] == a[1..] + rest;
      SplitBarFree(a[1..], rest, cur + [a[0]], done);
      assert cur + [a[0]] + a[1..] == cur + a;
    } else {
      assert a + rest == rest;
      assert cur + a == cur;
    }
  }

  /** Reading a bar-free piece and then a bar closes the current piece. */
  lemma BarStep(a: string, rest: string, cur: string, done: seq<string>)
    requires BarFree(a)
    ensures SplitBars(a + "|" + rest, cur, done) == SplitBars(rest, "", done + [cur + a])
  {
    assert a + "|" + rest == a + ("|" + rest);
    SplitBarFree(a, "|" + rest, cur, done);
    assert ("|" + rest)[1..] == rest;
  }

  /** The last piece runs to the end of the text. */
  lemma LastPiece(a: string, done: seq<string>)
    requires BarFree(a)
    ensures SplitBars(a, "", done) == done + [a]
  {
    SplitBarFree(a, "", "", done);
    assert a + "" == a && "" + a == a;
  }

  /** Splitting `JoinBars(parts) + post` at the bars, with `cur` already
      read into the current piece, gives the parts back, with `cur` glued to
      the first and `post` to the last. */
  lemma {:induction false} SplitJoined(parts: seq<string>, cur: string, post: string, done: seq<string>)
    requires |parts| >= 2 && BarFree(post)
    requires forall i :: 0 <= i < |parts| ==> BarFree(parts[i])
    ensures SplitBars(JoinBars(parts) + post, cur, done)
         == done + [cur + parts[0]] + parts[1..|parts| - 1] + [parts[|parts| - 1] + post]
    decreases |parts|
  {
    var n := |parts|;
    var rest := parts[1..];
    var done' := done + [cur + parts[0]];
    assert JoinBars(parts) + post == parts[0] + "|" + (JoinBars(rest) + post);
    BarStep(parts[0], JoinBars(rest) + post, cur, done);
    if n == 2 {
      LastPiece(parts[1] + post, done');
      assert parts[1..n - 1] == [];
    } else {
      SplitJoined(rest, "", post, done');
      MiddleParts(parts);
    }
  }

  /** How the pieces of the shorter list line up with those of the longer. */
  lemma MiddleParts(parts: seq<string>)
    requires |parts| >= 3
    ensures [parts[1..][0]] + parts[1..][1..|parts| - 2] == parts[1..|parts| - 1]
    ensures "" + parts[1..][0] == parts[1]
    ensures parts[1..][|parts[1..]| - 1] == parts[|parts| - 1]
  {
  }

  /** The alternatives of `pad + '|'.join(parts) + pad`. */
  lemma PatternSplit(parts: seq<string>, pad: string)
    requires |parts| >= 2 && BarFree(pad)
    requires forall i :: 0 <= i < |parts| ==> BarFree(parts[i])
    ensures SplitBars(pad + JoinBars(parts) + pad, "", [])
         == [pad + parts[0]] + parts[1..|parts| - 1] + [parts[|parts| - 1] + pad]
  {
    var body := JoinBars(parts) + pad;
    assert pad + JoinBars(parts) + pad == pad + body;
    SplitBarFree(pad, body, "", []);
    assert "" + pad == pad;
    SplitJoined(parts, pad, pad, []);
  }

  /** The alternatives the compiled pattern tries at each position, in order. */
  const Alternatives: seq<string> :=
    [" but not", "without", "and not", "except",
     "do not have", "don't have", "not including", "excluding "]

  /** The alternatives above are exactly what the source's pattern text
      denotes: only the first trigger is preceded by a space and only the last
      one is followed by one. */
  lemma AlternativesOfPattern()
    ensures SplitBars(PatternText(), "", []) == Alternatives
  {
    TriggersBarFree();
    PatternSplit(Triggers, " ");
    PaddedTriggers();
  }

  lemma TriggersBarFree()
    ensures forall i :: 0 <= i < |Triggers| ==> BarFree(Triggers[i])
  {
  }

  lemma PaddedTriggers()
    ensures [" " + Triggers[0]] + Triggers[1..7] + [Triggers[7] + " "] == Alternatives
  {
    assert " " + Triggers[0] == Alternatives[0];
    assert Triggers[7] + " " == Alternatives[7];
    assert Triggers[1..7] == Alternatives[1..7];
  }


  // ---------------------------------------------------------------- matching
  //
  // The search is stated for any list `alts` of literal alternatives, and
  // `Search` and `Parse` below apply it to `Alternatives`.

  /** `alt` matches `q` at position `i`, ignoring ASCII case (`re.IGNORECASE`). */
  predicate MatchesAt(q: string, i: nat, alt: string) {
    i + |alt| <= |q| && SameUpToCase(q[i..i + |alt|], alt)
  }

  /** The first alternative, from the `b`-th on, that matches at `i`: the regex
      engine tries the branches of `|` left to right. */
  function FirstAlt(alts: seq<string>, q: string, i: nat, b: nat): Option<nat>
    requires b <= |alts|
    decreases |alts| - b
  {
    if b == |alts| then None
    else if MatchesAt(q, i, alts[b]) then Some(b)
    else FirstAlt(alts, q, i, b + 1)
  }

  lemma {:induction false} FirstAltChoosesFirst(alts: seq<string>, q: string, i: nat, b: nat)
    requires b <= |alts|
    ensures var r := FirstAlt(alts, q, i, b);
      && (r.Some? ==> b <= r.value < |alts| && MatchesAt(q, i, alts[r.value]))
      && (r.Some? ==> forall c :: b <= c < r.value ==> !MatchesAt(q, i, alts[c]))
      && (r.None? ==> forall c :: b <= c < |alts| ==> !MatchesAt(q, i, alts[c]))
    decreases |alts| - b
  {
    if b < |alts| && !MatchesAt(q, i, alts[b]) {
      FirstAltChoosesFirst(alts, q, i, b + 1);
    }
  }

  /** A successful `re.search`: where the match starts and which alternative matched. */
  datatype Match = Match(start: nat, alt: nat)

  /** No alternative matches at position `p`. */
  predicate NoneAt(alts: seq<string>, q: string, p: nat) {
    forall b :: 0 <= b < |alts| ==> !MatchesAt(q, p, alts[b])
  }

  /** No alternative matches anywhere in `q`. */
  predicate NoMatch(alts: seq<string>, q: string) {
    forall p :: 0 <= p <= |q| ==> NoneAt(alts, q, p)
  }

  /** `m` is what `re.search` reports: the leftmost position at which some
      alternative matches, and the first alternative that matches there. */
  predicate IsLeftmost(alts: seq<string>, q: string, m: Match) {
    && m.start <= |q|
    && m.alt < |alts|
    && MatchesAt(q, m.start, alts[m.alt])
    && (forall b :: 0 <= b < m.alt ==> !MatchesAt(q, m.start, alts[b]))
    && (forall p :: 0 <= p < m.start ==> NoneAt(alts, q, p))
  }

  /** The scan of `re.search` from position `i` on: the first position at
      which some alternative matches. */
  function SearchFrom(alts: seq<string>, q: string, i: nat): Option<Match>
    requires i <= |q|
    decreases |q| - i
  {
    match FirstAlt(alts, q, i, 0)
    case Some(b) => Some(Match(i, b))
    case None => if i == |q| then None else SearchFrom(alts, q, i + 1)
  }

  /** No alternative matches at a position in `lo..hi`. */
  predicate ClearBetween(alts: seq<string>, q: string, lo: nat, hi: nat) {
    forall p :: lo <= p < hi ==> NoneAt(alts, q, p)
  }

  /** The scan from `i` finds the first matching position at or after `i`,
      and the first alternative that matches there. */
  lemma {:induction false} SearchFromFindsFirst(alts: seq<string>, q: string, i: nat)
    requires i <= |q|
    ensures var r := SearchFrom(alts, q, i);
      && (r.Some? ==> && i <= r.value.start <= |q|
                      && r.value.alt < |alts|
                      && MatchesAt(q, r.value.start, alts[r.value.alt])
                      && (forall b :: 0 <= b < r.value.alt ==> !MatchesAt(q, r.value.start, alts[b]))
                      && ClearBetween(alts, q, i, r.value.start))
      && (r.None? ==> ClearBetween(alts, q, i, |q| + 1))
    decreases |q| - i
  {
    FirstAltChoosesFirst(alts, q, i, 0);
    if FirstAlt(alts, q, i, 0).None? && i < |q| {
      SearchFromFindsFirst(alts, q, i + 1);
    }
  }

  /** `re.search` with the alternatives `alts`. */
  function SearchWith(alts: seq<string>, q: string): (r: Option<Match>)
    ensures r.Some? ==> IsLeftmost(alts, q, r.value)
    ensures r.None? <==> NoMatch(alts, q)
  {
    SearchFromFindsFirst(alts, q, 0);
    var r := SearchFrom(alts, q, 0);
    assert r.Some? ==> !NoneAt(alts, q, r.value.start);
    r
  }

  /** There is only one leftmost match. */
  lemma LeftmostUnique(alts: seq<string>, q: string, m: Match, m': Match)
    requires IsLeftmost(alts, q, m) && IsLeftmost(alts, q, m')
    ensures m == m'
  {
    assert !NoneAt(alts, q, m.start) && !NoneAt(alts, q, m'.start);
  }

  /** `trigger_pattern.search(q)`. */
  function Search(q: string): Option<Match> {
    SearchWith(Alternatives, q)
  }

  // ---------------------------------------------------------------- parsing

  datatype ParsedQuery = ParsedQuery(positive: string, negative: string)

  /** The split `get_structured_query` makes, for alternatives `alts`: with no
      match the whole query, untouched, is the positive clause and the
      negative clause is empty; otherwise the text before the leftmost match
      and the text after it, each stripped. */
  function ParseWith(alts: seq<string>, q: string): (r: ParsedQuery)
    ensures NoMatch(alts, q) ==> r == ParsedQuery(q, "")
    ensures forall m :: IsLeftmost(alts, q, m) ==> r == SplitAt(alts, q, m)
  {
    match SearchWith(alts, q)
    case None =>
      NothingLeftmost(alts, q);
      ParsedQuery(q, "")
    case Some(m) =>
      OnlyLeftmost(alts, q, m);
      SplitAt(alts, q, m)
  }

  /** The clauses either side of match `m`, each stripped. */
  function SplitAt(alts: seq<string>, q: string, m: Match): ParsedQuery
    requires IsLeftmost(alts, q, m)
  {
    ParsedQuery(Strip(q[..m.start]), Strip(q[m.start + |alts[m.alt]|..]))
  }

  lemma NothingLeftmost(alts: seq<string>, q: string)
    requires NoMatch(alts, q)
    ensures forall m :: !IsLeftmost(alts, q, m)
  {
    forall m ensures !IsLeftmost(alts, q, m) {
      if m.start <= |q| {
        assert NoneAt(alts, q, m.start);
      }
    }
  }

  lemma OnlyLeftmost(alts: seq<string>, q: string, m: Match)
    requires IsLeftmost(alts, q, m)
    ensures forall m' :: IsLeftmost(alts, q, m') ==> m' == m
  {
    forall m' | IsLeftmost(alts, q, m') ensures m' == m {
      LeftmostUnique(alts, q, m, m');
    }
  }

  /** `get_structured_query(q)`. */
  function Parse(q: string): (r: ParsedQuery)
    ensures NoMatch(Alternatives, q) ==> r == ParsedQuery(q, "")
    ensures forall m :: IsLeftmost(Alternatives, q, m) ==>
      r == ParsedQuery(Strip(q[..m.start]), Strip(q[m.start + |Alternatives[m.alt]|..]))
  {
    ParseWith(Alternatives, q)
  }

  // ---------------------------------------------------------------- case

  /** Whether an alternative matches at `i` does not depend on letter case. */
  lemma MatchesUpToCase(q: string, q': string, i: nat, alt: string)
    requires SameUpToCase(q, q')
    ensures MatchesAt(q, i, alt) == MatchesAt(q', i, alt)
  {
  }

  lemma {:induction false} FirstAltUpToCase(alts: seq<string>, q: string, q': string, i: nat, b: nat)
    requires SameUpToCase(q, q') && b <= |alts|
    ensures FirstAlt(alts, q, i, b) == FirstAlt(alts, q', i, b)
    decreases |alts| - b
  {
    if b < |alts| {
      MatchesUpToCase(q, q', i, alts[b]);
      FirstAltUpToCase(alts, q, q', i, b + 1);
    }
  }

  lemma {:induction false} SearchFromUpToCase(alts: seq<string>, q: string, q': string, i: nat)
    requires SameUpToCase(q, q') && i <= |q|
    ensures SearchFrom(alts, q, i) == SearchFrom(alts, q', i)
    decreases |q| - i
  {
    FirstAltUpToCase(alts, q, q', i, 0);
    if FirstAlt(alts, q, i, 0).None? && i < |q| {
      SearchFromUpToCase(alts, q, q', i + 1);
    }
  }

  /** Changing the letter case of a query moves neither the match nor the
      choice of alternative. */
  lemma SearchIgnoresCase(alts: seq<string>, q: string, q': string)
    requires SameUpToCase(q, q')
    ensures SearchWith(alts, q) == SearchWith(alts, q')
  {
    SearchFromUpToCase(alts, q, q', 0);
  }

  /** ... so both clauses come out the same up to case. */
  lemma ParseIgnoresCase(alts: seq<string>, q: string, q': string)
    requires SameUpToCase(q, q')
    ensures SameUpToCase(ParseWith(alts, q).positive, ParseWith(alts, q').positive)
    ensures SameUpToCase(ParseWith(alts, q).negative, ParseWith(alts, q').negative)
  {
    SearchIgnoresCase(alts, q, q');
    match SearchWith(alts, q)
    case None =>
    case Some(m) =>
      OnlyLeftmost(alts, q, m);
      var e := m.start + |alts[m.alt]|;
      SameUpToCaseSlices(q, q', 0, m.start);
      StripUpToCase(q[..m.start], q'[..m.start]);
      SameUpToCaseSlices(q, q', e, |q|);
      StripUpToCase(q[e..], q'[e..]);
  }

  // ---------------------------------------------------------------- splits

  /** A query built as `x`, then an alternative, then `y`, where nothing
      matches before the alternative and no earlier alternative matches at
      its position, splits into `x` and `y`, each stripped. */
  lemma ParseAround(alts: seq<string>, x: string, b: nat, y: string)
    requires b < |alts|
    requires ClearBetween(alts, x + alts[b] + y, 0, |x|)
    requires forall c :: 0 <= c < b ==> !MatchesAt(x + alts[b] + y, |x|, alts[c])
    ensures ParseWith(alts, x + alts[b] + y) == ParsedQuery(Strip(x), Strip(y))
  {
    var alt := alts[b];
    var q := x + alt + y;
    assert q[|x|..|x| + |alt|] == alt;
    var m := Match(|x|, b);
    assert IsLeftmost(alts, q, m);
    assert q[..m.start] == x;
    assert q[m.start + |alt|..] == y;
  }

  /** " but not" carries its leading space, so it matches only where the
      query has a space: a query opening with "but not" is not split there. */
  lemma ButNotNeedsLeadingSpace(q: string, p: nat)
    requires MatchesAt(q, p, Alternatives[0])
    ensures q[p] == ' '
  {
  }

  /** "excluding " carries its trailing space, so a query that ends in
      "excluding" is not split at that word. */
  lemma ExcludingNeedsTrailingSpace(q: string, p: nat)
    requires MatchesAt(q, p, Alternatives[7])
    ensures p + 10 <= |q| && q[p + 9] == ' '
  {
  }

  /** A query that opens with "without" has an empty positive clause, and the
      rest, stripped, is the negative clause. */
  lemma LeadingWithout(y: string)
    ensures Parse("without" + y) == ParsedQuery("", Strip(y))
  {
    var q := "" + Alternatives[1] + y;
    if 8 <= |q| {
      assert q[0..8][0] == 'w';
    }
    ParseAround(Alternatives, "", 1, y);
    assert "" + Alternatives[1] + y == "without" + y;
  }

  /** The other words carry no spaces at all, so "except" matches inside a
      word and cuts it in two: "exceptional" splits around "except". */
  lemma ExceptInsideWord(x: string, y: string)
    requires ClearBetween(Alternatives, x + "except" + y, 0, |x|)
    ensures Parse(x + "except" + y) == ParsedQuery(Strip(x), Strip(y))
  {
    var q := x + Alternatives[3] + y;
    assert q[|x|..|x| + 6][0] == q[|x|];
    ParseAround(Alternatives, x, 3, y);
  }

  /** In "... but not including ..." both " but not" and "not including"
      match; the leftmost wins, so "including" stays in the negative clause. */
  lemma LeftmostTriggerWins(x: string, y: string)
    requires ClearBetween(Alternatives, x + " but not including " + y, 0, |x|)
    ensures MatchesAt(x + " but not including " + y, |x| + 5, Alternatives[6])
    ensures Parse(x + " but not including " + y) == ParsedQuery(Strip(x), Strip(" including " + y))
  {
    var mid := " but not including ";
    var q := x + mid + y;
    assert q == x + Alternatives[0] + (" including " + y) by {
      assert mid == Alternatives[0] + " including ";
    }
    assert q[|x| + 5..|x| + 18] == Alternatives[6] by {
      assert q[|x|..|x| + |mid|] == mid;
      assert q[|x| + 5..|x| + 18] == mid[5..18];
    }
    ParseAround(Alternatives, x, 0, " including " + y);
  }
}
