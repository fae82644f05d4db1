/** Sublists that keep their source's order: the list comprehensions with an
    `if` clause, and the slices `[:n]`, that the searches and the offline
    builders use. */
module Sublists {
  /** `pos` picks positions of a length-`n` sequence, in order and each at
      most once. */
  predicate Increasing(pos: seq<nat>, n: nat) {
    && (forall k :: 0 <= k < |pos| ==> pos[k] < n)
    && (forall k, l :: 0 <= k < l < |pos| ==> pos[k] < pos[l])
  }

  /** `[x for x in s if keep(x)]`. */
  function Filter<T>(s: seq<T>, keep: T -> bool): (r: seq<T>)
    ensures |r| <= |s|
    ensures forall k :: 0 <= k < |r| ==> keep(r[k])
  {
    if |s| == 0 then []
    else if keep(s[0]) then [s[0]] + Filter(s[1..], keep)
    else Filter(s[1..], keep)
  }

  /** The filtered list is exactly the kept elements, in their original order:
      `pos` says where each one came from, and a position is picked if and
      only if its element is kept. */
  lemma {:induction false} FilterPositions<T>(s: seq<T>, keep: T -> bool) returns (pos: seq<nat>)
    ensures Increasing(pos, |s|) && |pos| == |Filter(s, keep)|
    ensures forall k :: 0 <= k < |pos| ==> Filter(s, keep)[k] == s[pos[k]]
    ensures forall i :: 0 <= i < |s| ==> (i in pos <==> keep(s[i]))
  {
    if |s| == 0 {
      pos := [];
    } else {
      var rest := FilterPositions(s[1..], keep);
      var shifted := Shift(rest);
      ShiftRest(rest, s, keep);
      if keep(s[0]) {
        pos := [0] + shifted;
        PrependPosition(shifted, s, keep);
      } else {
        pos := shifted;
      }
    }
  }

  /** The positions of the kept elements of `s[1..]`, as positions in `s`. */
  lemma ShiftRest<T>(rest: seq<nat>, s: seq<T>, keep: T -> bool)
    requires |s| > 0
    requires Increasing(rest, |s| - 1) && |rest| == |Filter(s[1..], keep)|
    requires forall k :: 0 <= k < |rest| ==> Filter(s[1..], keep)[k] == s[1..][rest[k]]
    requires forall i :: 0 <= i < |s| - 1 ==> (i in rest <==> keep(s[1..][i]))
    ensures Increasing(Shift(rest), |s|) && |Shift(rest)| == |Filter(s[1..], keep)|
    ensures forall k :: 0 <= k < |rest| ==> Filter(s[1..], keep)[k] == s[Shift(rest)[k]]
    ensures forall i :: 1 <= i < |s| ==> (i in Shift(rest) <==> keep(s[i]))
    ensures 0 !in Shift(rest)
  {
  }

  /** Adding the first position in front of the positions of the rest. */
  lemma PrependPosition<T>(shifted: seq<nat>, s: seq<T>, keep: T -> bool)
    requires |s| > 0 && keep(s[0]) && 0 !in shifted
    requires Increasing(shifted, |s|) && |shifted| == |Filter(s[1..], keep)|
    requires forall k :: 0 <= k < |shifted| ==> Filter(s[1..], keep)[k] == s[shifted[k]]
    requires forall i :: 1 <= i < |s| ==> (i in shifted <==> keep(s[i]))
    ensures Increasing([0] + shifted, |s|) && |[0] + shifted| == |Filter(s, keep)|
    ensures forall k :: 0 <= k < |[0] + shifted| ==> Filter(s, keep)[k] == s[([0] + shifted)[k]]
    ensures forall i :: 0 <= i < |s| ==> (i in [0] + shifted <==> keep(s[i]))
  {
    var pos := [0] + shifted;
    var f := Filter(s, keep);
    assert f == [s[0]] + Filter(s[1..], keep);
    forall k | 0 < k < |pos|
      ensures pos[k] == shifted[k - 1] && f[k] == s[pos[k]]
    {
    }
    forall k, l | 0 <= k < l < |pos|
      ensures pos[k] < pos[l]
    {
      assert pos[l] == shifted[l - 1];
      if k > 0 {
        assert pos[k] == shifted[k - 1];
      }
    }
    forall i | 0 <= i < |s|
      ensures i in pos <==> keep(s[i])
    {
      if i > 0 {
        assert i in pos <==> i in shifted;
      }
    }
  }

  /** Every position one further along. */
  function Shift(pos: seq<nat>): (r: seq<nat>)
    ensures |r| == |pos|
    ensures forall k :: 0 <= k < |r| ==> r[k] == pos[k] + 1
  {
    seq(|pos|, k requires 0 <= k < |pos| => pos[k] + 1)
  }

  /** Filtering distributes over concatenation. */
  lemma {:induction false} FilterAppend<T>(a: seq<T>, b: seq<T>, keep: T -> bool)
    ensures Filter(a + b, keep) == Filter(a, keep) + Filter(b, keep)
  {
    if |a| == 0 {
      assert a + b == b;
    } else {
      assert (a + b)[0] == a[0];
      assert (a + b)[1..] == a[1..] + b;
      FilterAppend(a[1..], b, keep);
    }
  }

  /** Filtering one element further along a prefix. */
  lemma FilterSnoc<T>(s: seq<T>, j: nat, keep: T -> bool)
    requires j < |s|
    ensures Filter(s[..j + 1], keep) == Filter(s[..j], keep) + (if keep(s[j]) then [s[j]] else [])
  {
    assert s[..j + 1] == s[..j] + [s[j]];
    FilterAppend(s[..j], [s[j]], keep);
    assert [s[j]][1..] == [];
  }

  /** `s[:n]`. */
  function Take<T>(s: seq<T>, n: nat): (r: seq<T>)
    ensures |r| == if |s| <= n then |s| else n
    ensures forall k :: 0 <= k < |r| ==> r[k] == s[k]
  {
    if |s| <= n then s else s[..n]
  }
}
