/** The web back end's search (`search.py`): a lenient reconciliation of the
    catalog with the embedding matrix at load time, and a threshold selection
    that walks every row from the highest final score down and keeps at most
    six whose score is below one half. */
module ThresholdSearch {
  import opened Optional
  import opened Catalog
  import opened Sublists
  import opened Ranking
  import opened QueryParser
  import opened Similarity

  /** At most this many results are returned. */
  const ResultCap: nat := 6

  /** A row is returned only when its final score is strictly below this. */
  const ScoreCeiling: real := 0.5

  // ---------------------------------------------------------------- loading

  function HasDescription(it: Item): bool {
    it.description.Some?
  }

  /** The catalog after loading, and whether its length now matches the
      number of embedding rows. A mismatch is only reported, never fatal. */
  datatype Loaded = Loaded(data: seq<Item>, countsMatch: bool)

  /** When the catalog has more records than there are embedding rows, the
      records whose description is missing are dropped (an empty description
      is kept); otherwise the catalog is used as read. */
  function Reconcile(data: seq<Item>, rows: nat): (r: Loaded)
    ensures |data| > rows ==> r.data == Filter(data, HasDescription)
    ensures |data| <= rows ==> r.data == data
    ensures r.countsMatch <==> |r.data| == rows
  {
    var kept := if |data| > rows then Filter(data, HasDescription) else data;
    Loaded(kept, |kept| == rows)
  }

  /** Reconciliation keeps records in their order, and drops a record only
      when there were more records than rows and that record has no
      description; every such record is dropped. */
  lemma ReconcileDropsOnlyUndescribed(data: seq<Item>, rows: nat) returns (pos: seq<nat>)
    ensures Increasing(pos, |data|) && |pos| == |Reconcile(data, rows).data|
    ensures forall k :: 0 <= k < |pos| ==> Reconcile(data, rows).data[k] == data[pos[k]]
    ensures forall i :: 0 <= i < |data| ==>
      (i in pos <==> |data| <= rows || data[i].description.Some?)
  {
    if |data| > rows {
      pos := FilterPositions(data, HasDescription);
    } else {
      pos := seq(|data|, k requires 0 <= k < |data| => k);
      forall i | 0 <= i < |data|
        ensures i in pos
      {
        assert pos[i] == i;
      }
    }
  }

  // ---------------------------------------------------------------- selection

  /** Row `idx` may be returned: its score is below the ceiling and it names
      a catalog record. */
  predicate Qualifies(idx: nat, scores: seq<real>, n: nat) {
    idx < |scores| && scores[idx] < ScoreCeiling && idx < n
  }

  /** `Qualifies` as the test a list comprehension applies. */
  function QualifyTest(scores: seq<real>, n: nat): nat -> bool {
    (idx: nat) => Qualifies(idx, scores, n)
  }

  /** The rows of `order` that may be returned, in order. */
  function Qualifying(order: seq<nat>, scores: seq<real>, n: nat): (r: seq<nat>)
    ensures forall k :: 0 <= k < |r| ==> Qualifies(r[k], scores, n)
  {
    Filter(order, QualifyTest(scores, n))
  }

  /** The rows returned: the first six that qualify. */
  function Picked(order: seq<nat>, scores: seq<real>, n: nat): (r: seq<nat>)
    ensures |r| <= ResultCap
    ensures forall k :: 0 <= k < |r| ==> Qualifies(r[k], scores, n)
  {
    Take(Qualifying(order, scores, n), ResultCap)
  }

  /** What the selection loop returns, stated without the loop. */
  function Selection(order: seq<nat>, scores: seq<real>, data: seq<Item>): seq<Hit> {
    Ranked(Picked(order, scores, |data|), scores, data)
  }

  /** Step 5 of `perform_search`: walk `order`, stop once six results are
      held, skip a row whose score is not below the ceiling or that has no
      catalog record, and rank the rest from 1 in the order met. */
  method SelectThreshold(order: seq<nat>, scores: seq<real>, data: seq<Item>) returns (results: seq<Hit>)
    requires forall k :: 0 <= k < |order| ==> order[k] < |scores|
    ensures results == Selection(order, scores, data)
    ensures |results| <= ResultCap
    ensures forall k :: 0 <= k < |results| ==>
      results[k].score < ScoreCeiling && results[k].rank == k + 1
  {
    ghost var keep := QualifyTest(scores, |data|);
    results := [];
    var rank := 1;
    var j := 0;
    while j < |order|
      invariant j <= |order|
      invariant |Filter(order[..j], keep)| <= ResultCap
      invariant results == Ranked(Filter(order[..j], keep), scores, data)
      invariant rank == |results| + 1
    {
      if |results| >= ResultCap {
        TakeStopped(order, j, keep);
        return;
      }
      var idx: nat := order[j];
      var score := scores[idx];
      ghost var before := Filter(order[..j], keep);
      assert order[..j + 1] == order[..j] + [idx];
      FilterAppend<nat>(order[..j], [idx], keep);
      assert Filter([idx], keep) == if keep(idx) then [idx] else [] by {
        assert [idx][1..] == [];
      }
      if score < ScoreCeiling && idx < |data| {
        assert Ranked(before + [idx], scores, data) == results + [Hit(data[idx], score, rank)];
        results := results + [Hit(data[idx], score, rank)];
        rank := rank + 1;
      } else {
        assert before + [] == before;
      }
      j := j + 1;
    }
    assert order[..j] == order;
  }

  /** Once six rows of a prefix qualify, the prefix's qualifying rows are the
      first six of the whole walk. */
  lemma TakeStopped(order: seq<nat>, j: nat, keep: nat -> bool)
    requires j <= |order| && |Filter(order[..j], keep)| >= ResultCap
    ensures Take(Filter(order, keep), ResultCap) == Take(Filter(order[..j], keep), ResultCap)
  {
    assert order == order[..j] + order[j..];
    FilterAppend(order[..j], order[j..], keep);
  }

  /** Along a walk from the highest score down, the qualifying rows keep
      that order. */
  lemma QualifyingNonIncreasing(order: seq<nat>, scores: seq<real>, n: nat)
    requires IsIndexPerm(order, |scores|) && NonIncreasingAlong(order, scores)
    ensures var q := Qualifying(order, scores, n);
      forall k, l :: 0 <= k < l < |q| ==> scores[q[k]] >= scores[q[l]]
  {
    var q := Qualifying(order, scores, n);
    var pos := FilterPositions(order, QualifyTest(scores, n));
    forall k, l | 0 <= k < l < |q|
      ensures scores[q[k]] >= scores[q[l]]
    {
      assert q[k] == order[pos[k]] && q[l] == order[pos[l]];
    }
  }

  /** Every qualifying row appears among the qualifying rows of a walk that
      visits every row. */
  lemma QualifyingComplete(order: seq<nat>, scores: seq<real>, n: nat, i: nat) returns (t: nat)
    requires IsIndexPerm(order, |scores|) && Qualifies(i, scores, n)
    ensures t < |Qualifying(order, scores, n)| && Qualifying(order, scores, n)[t] == i
  {
    var keep := QualifyTest(scores, n);
    var pos := FilterPositions(order, keep);
    assert i in order;
    var j :| 0 <= j < |order| && order[j] == i;
    assert keep(order[j]);
    assert j in pos;
    t :| 0 <= t < |pos| && pos[t] == j;
  }

  /** The selection is the best the walk can offer: when the walk visits rows
      from the highest score down, the returned scores never increase, and a
      qualifying row left out means six results came back, each scoring at
      least as high as it. */
  lemma SelectionTakesBest(order: seq<nat>, scores: seq<real>, data: seq<Item>)
    requires IsIndexPerm(order, |scores|) && NonIncreasingAlong(order, scores)
    ensures var r := Selection(order, scores, data);
      forall k, l :: 0 <= k < l < |r| ==> r[k].score >= r[l].score
    ensures var p := Picked(order, scores, |data|);
      forall i: nat :: Qualifies(i, scores, |data|) && i !in p ==>
        |p| == ResultCap && forall k :: 0 <= k < |p| ==> scores[p[k]] >= scores[i]
  {
    var p := Picked(order, scores, |data|);
    QualifyingNonIncreasing(order, scores, |data|);
    forall i: nat | Qualifies(i, scores, |data|) && i !in p
      ensures |p| == ResultCap && forall k :: 0 <= k < |p| ==> scores[p[k]] >= scores[i]
    {
      var t := QualifyingComplete(order, scores, |data|, i);
      assert t >= |p|;
    }
  }

  // ---------------------------------------------------------------- search

  /** `perform_search`: parse, score, order every row by final score from the
      highest down, and select. Any failure while scoring gives no results. */
  method PerformSearch(query: string, data: seq<Item>, sim: Scorer, argsort: seq<real> -> seq<nat>)
    returns (results: seq<Hit>)
    requires RowsAgree(sim) && forall s :: IsArgsort(argsort(s), s)
    ensures FinalScores(Parse(query), sim).None? ==> results == []
    ensures FinalScores(Parse(query), sim).Some? ==>
      var final := FinalScores(Parse(query), sim).value;
      results == Selection(Reverse(argsort(final)), final, data)
    ensures |results| <= ResultCap
    ensures forall k, l :: 0 <= k < l < |results| ==> results[k].score >= results[l].score
    ensures forall k :: 0 <= k < |results| ==>
      results[k].score < ScoreCeiling && results[k].rank == k + 1
  {
    var scored := FinalScores(Parse(query), sim);
    if scored.None? {
      return [];
    }
    var final := scored.value;
    var order := Reverse(argsort(final));
    ReversedArgsort(argsort(final), final);
    results := SelectThreshold(order, final, data);
    SelectionTakesBest(order, final, data);
  }
}
