/** The path-rebasing pass of the web back end's indexer (`indexer.py`):
    every record's `File Path` is cut back to the part from the first
    `bathroom` on, given the local separator and re-rooted at the script's
    directory; records without a usable path are left as they are. Then one
    description per record is gathered for embedding. */
module Indexer {
  import opened Optional
  import opened Text
  import opened Catalog
  import opened ThresholdSearch
  import opened FixedKSearch

  /** The directory name every stored image path passes through. */
  const Marker: string := "bathroom"

  /** The pass skips a record whose path is missing, empty, or does not
      mention the marker. */
  predicate Skipped(stored: Option<string>) {
    !Present(stored) || !Contains(stored.value, Marker)
  }

  /** The rebased path of a record, or `None` when the record is skipped. */
  function NewPath(stored: Option<string>, dir: string, sep: char): (r: Option<string>)
    ensures r.None? <==> !Present(stored) || !Contains(stored.value, Marker)
  {
    if Skipped(stored) then None
    else
      var p := stored.value;
      var i := IndexOf(p, Marker).value;
      Some(Join(dir, ReplaceChar(p[i..], '/', sep), sep))
  }

  /** A rebased path is the script directory joined to the stored path's tail
      from its first marker on, with every `/` turned into the separator. */
  lemma RebasedShape(stored: Option<string>, dir: string, sep: char) returns (i: nat, rel: string)
    requires NewPath(stored, dir, sep).Some?
    ensures i + |Marker| <= |stored.value| && stored.value[i..i + |Marker|] == Marker
    ensures forall j :: 0 <= j < i ==> !OccursAt(stored.value, Marker, j)
    ensures |rel| == |stored.value| - i && rel[..|Marker|] == Marker
    ensures rel == ReplaceChar(stored.value[i..], '/', sep)
    ensures sep != '/' ==> forall k :: 0 <= k < |rel| ==> rel[k] != '/'
    ensures NewPath(stored, dir, sep) == Some(Join(dir, rel, sep))
  {
    i := IndexOf(stored.value, Marker).value;
    rel := ReplaceChar(stored.value[i..], '/', sep);
    assert rel[..|Marker|] == Marker by {
      forall k | 0 <= k < |Marker|
        ensures rel[k] == Marker[k]
      {
        assert stored.value[i..][k] == Marker[k];
      }
    }
  }

  /** The record after the pass: only its `File Path` may change. */
  function Rebase(it: Item, dir: string, sep: char): (r: Item)
    ensures r.filePath == (if NewPath(it.filePath, dir, sep).Some? then NewPath(it.filePath, dir, sep) else it.filePath)
    ensures r.(filePath := it.filePath) == it
  {
    match NewPath(it.filePath, dir, sep)
    case None => it
    case Some(p) => it.(filePath := Some(p))
  }

  /** How many of `data`'s records get a rebased path. */
  function Fixable(data: seq<Item>): (n: nat)
    ensures n <= |data|
  {
    if |data| == 0 then 0
    else Fixable(data[..|data| - 1]) + (if Skipped(data[|data| - 1].filePath) then 0 else 1)
  }

  /** The count reaches the number of records exactly when no record is
      skipped, and stays at zero exactly when every record is skipped. */
  lemma {:induction false} FixableAllOrNone(data: seq<Item>)
    ensures Fixable(data) == |data| <==> forall k :: 0 <= k < |data| ==> !Skipped(data[k].filePath)
    ensures Fixable(data) == 0 <==> forall k :: 0 <= k < |data| ==> Skipped(data[k].filePath)
  {
    if |data| > 0 {
      var pre := data[..|data| - 1];
      FixableAllOrNone(pre);
      assert forall k :: 0 <= k < |pre| ==> pre[k] == data[k];
    }
  }

  /** The rebasing loop: every record is visited once and counted either as
      fixed or as skipped. */
  method RebaseAll(data: seq<Item>, dir: string, sep: char) returns (out: seq<Item>, fixed: nat, skipped: nat)
    ensures |out| == |data|
    ensures forall k :: 0 <= k < |data| ==> out[k] == Rebase(data[k], dir, sep)
    ensures fixed == Fixable(data)
    ensures fixed + skipped == |data|
  {
    out := [];
    fixed := 0;
    skipped := 0;
    var j := 0;
    while j < |data|
      invariant j <= |data| && |out| == j
      invariant forall k :: 0 <= k < j ==> out[k] == Rebase(data[k], dir, sep)
      invariant fixed == Fixable(data[..j])
      invariant fixed + skipped == j
    {
      var item := data[j];
      assert data[..j + 1][..j] == data[..j];
      assert Fixable(data[..j + 1]) == fixed + (if Skipped(item.filePath) then 0 else 1);
      ghost var out0 := out;
      var stored := item.filePath;
      if !Present(stored) || !Contains(stored.value, Marker) {
        skipped := skipped + 1;
        out := out + [item];
      } else {
        var p := stored.value;
        var start := IndexOf(p, Marker).value;
        var rel := ReplaceChar(p[start..], '/', sep);
        out := out + [item.(filePath := Some(Join(dir, rel, sep)))];
        fixed := fixed + 1;
      }
      assert out[j] == Rebase(item, dir, sep);
      assert forall k :: 0 <= k < j ==> out[k] == out0[k];
      j := j + 1;
    }
    assert data[..j] == data;
  }

  /** `Generated Description` of every record, one per record and in record
      order: the description itself where there is one, and the empty text
      where it is missing. */
  function Descriptions(data: seq<Item>): (r: seq<string>)
    ensures |r| == |data|
    ensures forall k :: 0 <= k < |data| && data[k].description.Some? ==> r[k] == data[k].description.value
    ensures forall k :: 0 <= k < |data| && data[k].description.None? ==> r[k] == ""
  {
    seq(|data|, k requires 0 <= k < |data| => data[k].description.GetOr(""))
  }

  /** The indexer writes as many embedding rows as records, so both searches
      load its output as written: the lenient load drops nothing and finds
      the counts equal, and the strict load does not stop. */
  lemma IndexerOutputLoads(data: seq<Item>, dir: string, sep: char, out: seq<Item>)
    requires |out| == |data| && forall k :: 0 <= k < |data| ==> out[k] == Rebase(data[k], dir, sep)
    ensures Reconcile(out, |Descriptions(out)|) == Loaded(out, true)
    ensures LoadStrict(out, |Descriptions(out)|) == Ready(out)
  {
  }

  /** Running the pass again leaves a rebased path alone, provided the
      script directory itself does not end in a way that makes the marker
      occur before the rebased tail. Otherwise the first marker found would
      lie inside the script directory and the path would be cut there. */
  lemma RebaseIdempotent(stored: Option<string>, dir: string, sep: char)
    requires NewPath(stored, dir, sep).Some?
    requires |dir| > 0 && dir[|dir| - 1] != sep && sep != Marker[0]
    requires forall j :: 0 <= j <= |dir| ==> !OccursAt(dir + [sep] + Marker, Marker, j)
    ensures NewPath(NewPath(stored, dir, sep), dir, sep) == NewPath(stored, dir, sep)
  {
    var i, rel := RebasedShape(stored, dir, sep);
    var p := dir + [sep] + rel;
    assert Join(dir, rel, sep) == p;
    var at := |dir| + 1;
    assert OccursAt(p, Marker, at) by {
      assert p[at..at + |Marker|] == rel[..|Marker|];
    }
    var w := dir + [sep] + Marker;
    assert p[..at + |Marker|] == w by {
      assert rel[..|Marker|] == Marker;
      forall k | 0 <= k < |w|
        ensures p[k] == w[k]
      {
        if k >= at {
          assert p[k] == rel[k - at];
        }
      }
    }
    forall j | 0 <= j < at
      ensures !OccursAt(p, Marker, j)
    {
      assert !OccursAt(w, Marker, j);
      assert p[..at + |Marker|][j..j + |Marker|] == p[j..j + |Marker|];
    }
    IndexOfFirst(p, Marker, at);
    assert p[at..] == rel;
    assert ReplaceChar(rel, '/', sep) == rel;
  }

  /** An occurrence with none before it is what `index` finds. */
  lemma IndexOfFirst(s: string, pat: string, at: nat)
    requires OccursAt(s, pat, at) && forall j :: 0 <= j < at ==> !OccursAt(s, pat, j)
    ensures IndexOf(s, pat) == Some(at)
  {
  }
}
