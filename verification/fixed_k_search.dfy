/** The design-mode search (`design/search.py`): a strict load that refuses a
    catalog whose length differs from the embedding matrix, a search that
    returns a fixed number of the highest-scoring rows with no threshold, and
    the command-line step that filters those rows afterwards. */
module FixedKSearch {
  import opened Optional
  import opened Text
  import opened Catalog
  import opened Sublists
  import opened Ranking
  import opened QueryParser
  import opened Similarity
  import opened ThresholdSearch

  /** `perform_search`'s default `top_k`. */
  const DefaultTopK: int := 12

  // ---------------------------------------------------------------- loading

  /** The outcome of `load_resources`: ready to search, or the process exits. */
  datatype Load = Ready(data: seq<Item>) | Fatal

  /** Loading stops the program when the record count and the embedding row
      count differ, and otherwise keeps the catalog as read. */
  function LoadStrict(data: seq<Item>, rows: nat): (r: Load)
    ensures r.Ready? <==> |data| == rows
    ensures r.Ready? ==> r.data == data
  {
    if |data| != rows then Fatal else Ready(data)
  }

  // ---------------------------------------------------------------- top K

  /** Where Python starts the slice `xs[st:]` of a length-`n` list: a
      negative start counts from the end and is clamped at 0, a start past
      the end gives an empty slice. */
  function SliceStart(n: nat, st: int): (r: nat)
    ensures r <= n
  {
    if st < 0 then (if n + st < 0 then 0 else n + st)
    else if st > n then n else st
  }

  /** `np.argsort(final_scores)[-top_k:][::-1]`. Note `-0 == 0`: a `top_k`
      of 0 keeps every row. */
  function TopK(asc: seq<nat>, topK: int): (r: seq<nat>)
    ensures |r| <= |asc|
    ensures forall k :: 0 <= k < |r| ==> r[k] == asc[|asc| - 1 - k]
  {
    Reverse(asc[SliceStart(|asc|, -topK)..])
  }

  /** How many rows the fixed-K search keeps: `top_k` of them when there are
      that many, every row when `top_k` is 0, and all but the lowest
      `-top_k` when `top_k` is negative. */
  lemma TopKSize(asc: seq<nat>, topK: int)
    ensures topK > 0 ==> |TopK(asc, topK)| == if topK < |asc| then topK else |asc|
    ensures topK == 0 ==> |TopK(asc, topK)| == |asc|
    ensures topK < 0 ==> |TopK(asc, topK)| == if |asc| + topK < 0 then 0 else |asc| + topK
  {
  }

  /** The kept rows are distinct row numbers, highest score first, and no
      row left out scores above a kept one. */
  lemma TopKBest(asc: seq<nat>, s: seq<real>, topK: int)
    requires IsArgsort(asc, s)
    ensures var top := TopK(asc, topK);
      && (forall k :: 0 <= k < |top| ==> top[k] < |s|)
      && (forall k, l :: 0 <= k < l < |top| ==> top[k] != top[l] && s[top[k]] >= s[top[l]])
    ensures var top := TopK(asc, topK);
      forall i: nat, k :: i < |s| && i !in top && 0 <= k < |top| ==> s[top[k]] >= s[i]
  {
    var start := SliceStart(|asc|, -topK);
    var top := TopK(asc, topK);
    assert forall k :: 0 <= k < |top| ==> top[k] == asc[|asc| - 1 - k];
    forall k, l | 0 <= k < l < |top|
      ensures top[k] != top[l] && s[top[k]] >= s[top[l]]
    {
      assert top[k] == asc[|asc| - 1 - k] && top[l] == asc[|asc| - 1 - l];
    }
    forall j | start <= j < |asc|
      ensures asc[j] in top
    {
      assert top[|asc| - 1 - j] == asc[j];
    }
    forall i: nat, k | i < |s| && i !in top && 0 <= k < |top|
      ensures s[top[k]] >= s[i]
    {
      assert i in asc;
      var j :| 0 <= j < |asc| && asc[j] == i;
      assert j < start <= |asc| - 1 - k;
    }
  }

  // ---------------------------------------------------------------- search

  /** What `perform_search` returns for final scores `final`: the top rows
      ranked from 1, or nothing when one of them has no catalog record (the
      `IndexError` lands in the catch-all `except`). */
  function FixedResults(final: seq<real>, topK: int, data: seq<Item>, asc: seq<nat>): (r: seq<Hit>)
    requires IsArgsort(asc, final)
    ensures r == [] || |r| == |TopK(asc, topK)|
    ensures (exists k :: 0 <= k < |TopK(asc, topK)| && TopK(asc, topK)[k] >= |data|) ==> r == []
    ensures forall k :: 0 <= k < |r| ==>
      var idx := TopK(asc, topK)[k];
      idx < |data| && r[k] == Hit(data[idx], final[idx], k + 1)
    ensures forall k, l :: 0 <= k < l < |r| ==> r[k].score >= r[l].score
    ensures (forall k :: 0 <= k < |TopK(asc, topK)| ==> TopK(asc, topK)[k] < |data|) ==>
      r == Ranked(TopK(asc, topK), final, data)
  {
    var top := TopK(asc, topK);
    TopKBest(asc, final, topK);
    if forall k :: 0 <= k < |top| ==> top[k] < |data| then Ranked(top, final, data) else []
  }

  /** `perform_search(user_query, top_k)` of the design-mode search. */
  method PerformSearch(query: string, topK: int, data: seq<Item>, sim: Scorer, argsort: seq<real> -> seq<nat>)
    returns (results: seq<Hit>)
    requires RowsAgree(sim) && forall s :: IsArgsort(argsort(s), s)
    ensures FinalScores(Parse(query), sim).None? ==> results == []
    ensures FinalScores(Parse(query), sim).Some? ==>
      var final := FinalScores(Parse(query), sim).value;
      results == FixedResults(final, topK, data, argsort(final))
    ensures forall k :: 0 <= k < |results| ==> results[k].rank == k + 1
  {
    var scored := FinalScores(Parse(query), sim);
    if scored.None? {
      return [];
    }
    var final := scored.value;
    results := TopResults(final, topK, data, argsort(final));
  }

  /** Steps 4 and 5 of the design-mode `perform_search` once the final
      scores are known: keep the top rows and format them. */
  method TopResults(final: seq<real>, topK: int, data: seq<Item>, asc: seq<nat>) returns (results: seq<Hit>)
    requires IsArgsort(asc, final)
    ensures results == FixedResults(final, topK, data, asc)
    ensures forall k :: 0 <= k < |results| ==> results[k].rank == k + 1
  {
    TopKBest(asc, final, topK);
    results := FormatTop(TopK(asc, topK), final, data);
  }

  /** Step 5 of the design-mode `perform_search`: one record per kept row,
      ranked from 1, abandoned for an empty list at the first row with no
      catalog record. */
  method FormatTop(top: seq<nat>, final: seq<real>, data: seq<Item>) returns (results: seq<Hit>)
    requires forall k :: 0 <= k < |top| ==> top[k] < |final|
    ensures (forall k :: 0 <= k < |top| ==> top[k] < |data|) ==> results == Ranked(top, final, data)
    ensures !(forall k :: 0 <= k < |top| ==> top[k] < |data|) ==> results == []
  {
    results := [];
    var rank := 1;
    var j := 0;
    while j < |top|
      invariant j <= |top|
      invariant forall k :: 0 <= k < j ==> top[k] < |data|
      invariant results == Ranked(top[..j], final, data)
      invariant rank == j + 1
    {
      var idx := top[j];
      if idx >= |data| {
        return [];
      }
      results := results + [Hit(data[idx], final[idx], rank)];
      rank := rank + 1;
      j := j + 1;
    }
    assert top[..j] == top;
  }

  /** When the catalog and the score rows line up, as the strict load
      guarantees, the search never hits the `IndexError` path: it returns
      exactly `min(top_k, N)` rows (all `N` for `top_k` 0). */
  lemma AlignedNeverEmpties(final: seq<real>, topK: int, data: seq<Item>, asc: seq<nat>)
    requires IsArgsort(asc, final) && |data| == |final|
    ensures FixedResults(final, topK, data, asc) == Ranked(TopK(asc, topK), final, data)
    ensures topK >= 0 ==>
      |FixedResults(final, topK, data, asc)| == (if topK == 0 || topK > |final| then |final| else topK)
  {
  }

  /** With the default `top_k` and an aligned catalog, the search returns the
      twelve best rows, or every row when there are fewer. */
  lemma DefaultKeepsTwelve(final: seq<real>, data: seq<Item>, asc: seq<nat>)
    requires IsArgsort(asc, final) && |data| == |final|
    ensures |FixedResults(final, DefaultTopK, data, asc)| == if |final| < 12 then |final| else 12
  {
  }

  // ---------------------------------------------------------------- command line

  /** `r['score'] < 0.5` in the command-line filter. */
  function BelowCeiling(h: Hit): bool {
    h.score < ScoreCeiling
  }

  /** `[r for r in all_results if r['score'] < 0.5][:6]`. The records keep
      the ranks `perform_search` gave them. */
  function CliFilter(hits: seq<Hit>): (r: seq<Hit>)
    ensures |r| <= ResultCap
    ensures forall k :: 0 <= k < |r| ==> r[k].score < ScoreCeiling
  {
    Take(Filter(hits, BelowCeiling), ResultCap)
  }

  /** One turn of the command-line loop. */
  datatype CliStep = Quit | Skip | Show(results: seq<Hit>)

  /** `q` in either case quits, a blank query asks again, and anything else
      searches every row and filters. */
  method CliTurn(query: string, data: seq<Item>, sim: Scorer, argsort: seq<real> -> seq<nat>)
    returns (step: CliStep)
    requires RowsAgree(sim) && forall s :: IsArgsort(argsort(s), s)
    ensures LowerStr(query) == "q" ==> step == Quit
    ensures LowerStr(query) != "q" && AllSpace(query) ==> step == Skip
    ensures LowerStr(query) != "q" && !AllSpace(query) ==> step.Show? && |step.results| <= ResultCap
    ensures LowerStr(query) != "q" && !AllSpace(query) && FinalScores(Parse(query), sim).None? ==>
      step == Show([])
    ensures LowerStr(query) != "q" && !AllSpace(query) && FinalScores(Parse(query), sim).Some? ==>
      var final := FinalScores(Parse(query), sim).value;
      step == Show(CliFilter(FixedResults(final, |data|, data, argsort(final))))
  {
    if LowerStr(query) == "q" {
      return Quit;
    }
    if Strip(query) == [] {
      return Skip;
    }
    var all := PerformSearch(query, |data|, data, sim, argsort);
    return Show(CliFilter(all));
  }

  /** Filtering ranked rows by score keeps the same records as ranking the
      rows that pass the threshold test, each still carrying its rank in the
      unfiltered list. */
  lemma {:induction false} FilterRanked(order: seq<nat>, s: seq<real>, data: seq<Item>)
    requires forall k :: 0 <= k < |order| ==> order[k] < |s| && order[k] < |data|
    ensures var f := Filter(Ranked(order, s, data), BelowCeiling);
      var q := Qualifying(order, s, |data|);
      |f| == |q| && forall k :: 0 <= k < |f| ==> f[k].item == data[q[k]] && f[k].score == s[q[k]]
    decreases |order|
  {
    if |order| > 0 {
      var n := |order|;
      var init := order[..n - 1];
      FilterRanked(init, s, data);
      var all := Ranked(order, s, data);
      assert all[..n - 1] == Ranked(init, s, data);
      FilterSnoc(all, n - 1, BelowCeiling);
      FilterSnoc(order, n - 1, QualifyTest(s, |data|));
      assert all[..n] == all && order[..n] == order;
      FilterRankedStep(Filter(Ranked(init, s, data), BelowCeiling), Qualifying(init, s, |data|),
                       all[n - 1], order[n - 1], s, data);
    }
  }

  /** One more row: the filtered record and the qualifying row are both
      added, or both not. */
  lemma FilterRankedStep(f: seq<Hit>, q: seq<nat>, h: Hit, x: nat, s: seq<real>, data: seq<Item>)
    requires x < |s| && x < |data| && h.item == data[x] && h.score == s[x]
    requires forall k :: 0 <= k < |q| ==> q[k] < |s| && q[k] < |data|
    requires |f| == |q| && forall k :: 0 <= k < |f| ==> f[k].item == data[q[k]] && f[k].score == s[q[k]]
    ensures var f' := f + (if BelowCeiling(h) then [h] else []);
      var q' := q + (if QualifyTest(s, |data|)(x) then [x] else []);
      |f'| == |q'| && forall k :: 0 <= k < |f'| ==> f'[k].item == data[q'[k]] && f'[k].score == s[q'[k]]
  {
  }

  /** The command-line filter passes records through untouched, rank
      included: each record shown is the record at some position of the
      unfiltered list, in order, and it is shown because its score is below
      the ceiling. With fewer than six shown, every such record is shown. */
  lemma CliKeepsRecords(hits: seq<Hit>) returns (pos: seq<nat>)
    ensures Increasing(pos, |hits|) && |pos| == |CliFilter(hits)|
    ensures forall k :: 0 <= k < |pos| ==> CliFilter(hits)[k] == hits[pos[k]]
    ensures forall i :: 0 <= i < |hits| && i in pos ==> hits[i].score < ScoreCeiling
    ensures |pos| < ResultCap ==>
      forall i :: 0 <= i < |hits| ==> (i in pos <==> hits[i].score < ScoreCeiling)
  {
    var all := FilterPositions(hits, BelowCeiling);
    pos := Take(all, ResultCap);
    forall i | 0 <= i < |hits| && i in pos
      ensures hits[i].score < ScoreCeiling
    {
      var k :| 0 <= k < |pos| && pos[k] == i;
      assert all[k] == i;
    }
    if |pos| < ResultCap {
      assert pos == all;
    }
  }

  /** Ranks after the command-line filter are not renumbered: the record
      shown from position `p` of the unfiltered list keeps rank `p + 1`.
      So ranks increase strictly and may skip numbers, and the `k`-th
      record shown can carry a rank above `k + 1`. */
  lemma CliRanksGap(hits: seq<Hit>) returns (pos: seq<nat>)
    requires forall k :: 0 <= k < |hits| ==> hits[k].rank == k + 1
    ensures Increasing(pos, |hits|) && |pos| == |CliFilter(hits)|
    ensures forall k :: 0 <= k < |pos| ==>
      CliFilter(hits)[k] == hits[pos[k]] && CliFilter(hits)[k].rank == pos[k] + 1
    ensures var r := CliFilter(hits);
      forall k :: 0 <= k < |r| ==> r[k].rank >= k + 1
    ensures var r := CliFilter(hits);
      forall k, l :: 0 <= k < l < |r| ==> r[k].rank < r[l].rank
  {
    var r := CliFilter(hits);
    pos := CliKeepsRecords(hits);
    forall k | 0 <= k < |r|
      ensures r[k].rank == pos[k] + 1 >= k + 1
    {
      IncreasingFloor(pos, |hits|, k);
    }
    forall k, l | 0 <= k < l < |r|
      ensures r[k].rank < r[l].rank
    {
      assert pos[k] < pos[l];
    }
  }

  /** An increasing pick of positions picks its `k`-th at position `k` or
      later. */
  lemma {:induction false} IncreasingFloor(pos: seq<nat>, n: nat, k: nat)
    requires Increasing(pos, n) && k < |pos|
    ensures pos[k] >= k
  {
    if k > 0 {
      IncreasingFloor(pos, n, k - 1);
    }
  }

  /** The command line of the design-mode search and the web back end's
      threshold search return the same records with the same scores, in the
      same order, for the same final scores and argsort, once the catalog
      lines up with the embedding rows; only the ranks may differ, the
      command line's being at least the web back end's. */
  lemma CliMatchesThreshold(final: seq<real>, data: seq<Item>, asc: seq<nat>)
    requires IsArgsort(asc, final) && |data| == |final|
    ensures var cli := CliFilter(FixedResults(final, |data|, data, asc));
      var web := Selection(Reverse(asc), final, data);
      |cli| == |web| &&
      forall k :: 0 <= k < |cli| ==>
        cli[k].item == web[k].item && cli[k].score == web[k].score && cli[k].rank >= web[k].rank
  {
    assert FixedResults(final, |data|, data, asc) == Ranked(Reverse(asc), final, data) by {
      AlignedNeverEmpties(final, |data|, data, asc);
      assert asc[0..] == asc;
    }
    ReversedArgsort(asc, final);
    CliOverOrder(Reverse(asc), final, data);
  }

  /** The same statement for any walk over every row: filtering after
      ranking and ranking after filtering pick the same records. */
  lemma CliOverOrder(order: seq<nat>, final: seq<real>, data: seq<Item>)
    requires IsIndexPerm(order, |final|) && |data| == |final|
    ensures var cli := CliFilter(Ranked(order, final, data));
      var web := Selection(order, final, data);
      |cli| == |web| &&
      forall k :: 0 <= k < |cli| ==>
        cli[k].item == web[k].item && cli[k].score == web[k].score && cli[k].rank >= web[k].rank
  {
    var all := Ranked(order, final, data);
    FilterRanked(order, final, data);
    var _ := CliRanksGap(all);
    var cli := CliFilter(all);
    var web := Selection(order, final, data);
    var q := Qualifying(order, final, |data|);
    forall k | 0 <= k < |cli|
      ensures cli[k].item == web[k].item && cli[k].score == web[k].score && cli[k].rank >= web[k].rank
    {
      assert cli[k] == Filter(all, BelowCeiling)[k];
      assert web[k] == Hit(data[q[k]], final[q[k]], k + 1);
    }
  }
}
