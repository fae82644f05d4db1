/** Score combination and the ordering both searches rank by.

    The similarities come from a sentence-embedding model and cosine
    similarity, outside this model; they arrive here as one `real` per stored
    embedding row. `np.argsort` is modelled by what it promises: some
    permutation of the row indices under which the scores never decrease. Its
    default sort is not stable, so nothing is promised about ties. */
module Ranking {
  import opened Optional

  /** `penalty_weight` in both searches. */
  const PenaltyWeight: real := 1.0

  // ---------------------------------------------------------------- scores

  /** `final_scores`: the positive similarities alone when there is no
      negative clause, otherwise `similarities_positive - similarities_negative
      * penalty_weight`, elementwise. */
  function Combine(pos: seq<real>, neg: Option<seq<real>>): (r: seq<real>)
    requires neg.Some? ==> |neg.value| == |pos|
    ensures |r| == |pos|
    ensures neg.None? ==> r == pos
    ensures neg.Some? ==> forall i :: 0 <= i < |pos| ==> r[i] == pos[i] - neg.value[i] * PenaltyWeight
  {
    match neg
    case None => pos
    case Some(n) => seq(|pos|, i requires 0 <= i < |pos| => pos[i] - n[i] * PenaltyWeight)
  }

  /** An item that resembles the negative clause more than it resembles the
      positive one ends up with a negative final score. */
  lemma PenaltyOutweighs(pos: seq<real>, neg: seq<real>, i: nat)
    requires |neg| == |pos| && i < |pos|
    ensures Combine(pos, Some(neg))[i] < 0.0 <==> pos[i] < neg[i]
  {
  }

  /** Between two items the positive clause ranks alike, the one less like the
      negative clause ranks strictly higher; with no negative clause the order
      is the positive one unchanged. */
  lemma PenaltySeparatesTies(pos: seq<real>, neg: seq<real>, i: nat, j: nat)
    requires |neg| == |pos| && i < |pos| && j < |pos| && pos[i] == pos[j]
    ensures Combine(pos, Some(neg))[i] > Combine(pos, Some(neg))[j] <==> neg[i] < neg[j]
    ensures Combine(pos, None)[i] == Combine(pos, None)[j]
  {
  }

  // ---------------------------------------------------------------- orders

  /** `order` lists each of `0..n` exactly once. */
  predicate IsIndexPerm(order: seq<nat>, n: nat) {
    && |order| == n
    && (forall k :: 0 <= k < |order| ==> order[k] < n)
    && (forall i :: 0 <= i < n ==> i in order)
    && (forall k, l :: 0 <= k < l < |order| ==> order[k] != order[l])
  }

  /** Along `order`, the scores never decrease. */
  predicate NonDecreasingAlong(order: seq<nat>, s: seq<real>)
    requires forall k :: 0 <= k < |order| ==> order[k] < |s|
  {
    forall k, l :: 0 <= k < l < |order| ==> s[order[k]] <= s[order[l]]
  }

  /** Along `order`, the scores never increase. */
  predicate NonIncreasingAlong(order: seq<nat>, s: seq<real>)
    requires forall k :: 0 <= k < |order| ==> order[k] < |s|
  {
    forall k, l :: 0 <= k < l < |order| ==> s[order[k]] >= s[order[l]]
  }

  /** What `np.argsort(s)` may return. */
  predicate IsArgsort(order: seq<nat>, s: seq<real>) {
    IsIndexPerm(order, |s|) && NonDecreasingAlong(order, s)
  }

  /** `order[::-1]`. */
  function Reverse<T>(order: seq<T>): (r: seq<T>)
    ensures |r| == |order|
    ensures forall k :: 0 <= k < |r| ==> r[k] == order[|order| - 1 - k]
  {
    seq(|order|, k requires 0 <= k < |order| => order[|order| - 1 - k])
  }

  /** Reversing an argsort lists every index once, highest score first. */
  lemma ReversedArgsort(asc: seq<nat>, s: seq<real>)
    requires IsArgsort(asc, s)
    ensures IsIndexPerm(Reverse(asc), |s|)
    ensures NonIncreasingAlong(Reverse(asc), s)
  {
    var r := Reverse(asc);
    forall k, l | 0 <= k < l < |r|
      ensures r[k] != r[l] && s[r[k]] >= s[r[l]]
    {
      assert r[k] == asc[|asc| - 1 - k] && r[l] == asc[|asc| - 1 - l];
    }
    forall i | 0 <= i < |s|
      ensures i in r
    {
      assert i in asc;
      var k :| 0 <= k < |asc| && asc[k] == i;
      assert r[|asc| - 1 - k] == i;
    }
  }

  // ---------------------------------------------------------------- a witness

  /** The first position from `j` on whose score exceeds `x`. */
  function FirstAbove(s: seq<real>, order: seq<nat>, x: real, j: nat): (p: nat)
    requires j <= |order| && forall k :: 0 <= k < |order| ==> order[k] < |s|
    ensures j <= p <= |order|
    ensures forall m :: j <= m < p ==> s[order[m]] <= x
    ensures p < |order| ==> s[order[p]] > x
    decreases |order| - j
  {
    if j == |order| || s[order[j]] > x then j else FirstAbove(s, order, x, j + 1)
  }

  /** An insertion sort of the indices `0..n` by score: every score
      sequence has an argsort, so the oracle the searches take is never
      asked for the impossible. */
  function ArgsortUpTo(s: seq<real>, n: nat): (r: seq<nat>)
    requires n <= |s|
    ensures IsIndexPerm(r, n)
    ensures NonDecreasingAlong(r, s)
  {
    if n == 0 then []
    else
      var o := ArgsortUpTo(s, n - 1);
      var p := FirstAbove(s, o, s[n - 1], 0);
      InsertKeepsOrder(s, o, n - 1, p);
      o[..p] + [n - 1] + o[p..]
  }

  /** Inserting index `m` just before the first higher score keeps an
      ascending order of `0..m` ascending, now over `0..m + 1`. */
  lemma InsertKeepsOrder(s: seq<real>, o: seq<nat>, m: nat, p: nat)
    requires m < |s| && IsIndexPerm(o, m) && NonDecreasingAlong(o, s) && p <= |o|
    requires forall j :: 0 <= j < p ==> s[o[j]] <= s[m]
    requires p < |o| ==> s[o[p]] > s[m]
    ensures IsIndexPerm(o[..p] + [m] + o[p..], m + 1)
    ensures NonDecreasingAlong(o[..p] + [m] + o[p..], s)
  {
    InsertCovers(o, m, p);
    var r := o[..p] + [m] + o[p..];
    forall k, l | 0 <= k < l < |r|
      ensures s[r[k]] <= s[r[l]]
    {
      InsertAt(o, m, p, k);
      InsertAt(o, m, p, l);
      if l == p {
        assert s[r[k]] <= s[m];
      } else if k == p {
        assert s[o[p]] <= s[o[l - 1]];
      } else if k < p < l {
        assert s[o[k]] <= s[m] < s[o[p]] <= s[o[l - 1]];
      }
    }
  }

  /** Where each element of `o[..p] + [m] + o[p..]` comes from. */
  lemma InsertAt(o: seq<nat>, m: nat, p: nat, k: nat)
    requires p <= |o| && k <= |o|
    ensures (o[..p] + [m] + o[p..])[k] == if k < p then o[k] else if k == p then m else o[k - 1]
  {
  }

  /** Inserting a new index `m` into a listing of `0..m` lists `0..m + 1`. */
  lemma InsertCovers(o: seq<nat>, m: nat, p: nat)
    requires IsIndexPerm(o, m) && p <= |o|
    ensures IsIndexPerm(o[..p] + [m] + o[p..], m + 1)
  {
    var r := o[..p] + [m] + o[p..];
    forall i | 0 <= i < m + 1
      ensures i in r
    {
      if i < m {
        assert i in o;
        var k :| 0 <= k < |o| && o[k] == i;
        InsertAt(o, m, p, if k < p then k else k + 1);
      } else {
        InsertAt(o, m, p, p);
      }
    }
    forall k, l | 0 <= k < l < |r|
      ensures r[k] < m + 1 && r[k] != r[l]
    {
      InsertAt(o, m, p, k);
      InsertAt(o, m, p, l);
    }
  }

  /** Every score sequence has an argsort. */
  lemma ArgsortExists(s: seq<real>)
    ensures IsArgsort(ArgsortUpTo(s, |s|), s)
  {
  }
}
