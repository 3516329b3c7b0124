/**
 The point update and the range query as the original writes them: their
 midpoint `(start + end) / 2` is a true division, so below the root the
 bounds become fractions and the recursion walks a tree of a different shape
 from the one the build produced. Bounds are modelled as `real`s; on the
 inputs used below every bound is a dyadic fraction, so binary floating point
 computes them exactly and agrees with these models. Recursion through
 fractional ranges need not reach `start == end`, so each model carries a
 fuel bound.

 The counterexamples are stated for the script's own data and hold for every valid
 tree for it, in particular the one the build produces;
 `SegmentTree.RangeSum` and `SegmentTree.Update` are the corrected
 operations.
 */
module AsWritten {
  import opened Shape
  import opened SegmentTree
  import opened Script

  /** Outcome of running a recursive routine of the original. */
  datatype Run<T> = Done(value: T) | IndexError | OutOfFuel

  /** The range query with a fractional midpoint. A node over a single point
      never recurses: it answers its stored value when the point lies in the
      query and 0 otherwise. */
  function RangeSumAsWritten(t: seq<int>, node: nat, start: real, end: real,
                             left: real, right: real, fuel: nat): (r: Run<int>)
    ensures start == end && node < |t| ==> r == Done(if left <= start <= right then t[node] else 0)
    decreases fuel
  {
    if left > end || right < start then Done(0)
    else if left <= start && end <= right then
      (if node < |t| then Done(t[node]) else IndexError)
    else if fuel == 0 then OutOfFuel
    else
      var mid := (start + end) / 2.0;
      match RangeSumAsWritten(t, 2 * node, start, mid, left, right, fuel - 1)
      case Done(l) =>
        (match RangeSumAsWritten(t, 2 * node + 1, mid + 1.0, end, left, right, fuel - 1)
         case Done(r) => Done(l + r)
         case other => other)
      case other => other
  }

  /** The point update with a fractional midpoint, on a snapshot of the list. */
  function UpdateAsWritten(t: seq<int>, node: nat, start: real, end: real,
                           index: real, diff: int, fuel: nat): (r: Run<seq<int>>)
    ensures r.Done? ==> |r.value| == |t|
    decreases fuel
  {
    if index < start || index > end then Done(t)
    else if node >= |t| then IndexError
    else
      var t1 := t[node := t[node] + diff];
      if start == end then Done(t1)
      else if fuel == 0 then OutOfFuel
      else
        var mid := (start + end) / 2.0;
        match UpdateAsWritten(t1, 2 * node, start, mid, index, diff, fuel - 1)
        case Done(t2) => UpdateAsWritten(t2, 2 * node + 1, mid + 1.0, end, index, diff, fuel - 1)
        case other => other
  }

  /** As written, the query for `[2, 5]` over any valid tree for the script's
      data returns `tree[9] + tree[10]`, i.e. 15, although `6 + 7 + 2 + 9 == 24`:
      the fractional right half `[5.625, 5.5]` of node 5 drops index 5. */
  lemma RangeSumAsWrittenMissesElements(t: seq<int>)
    requires Valid(t, ScriptValues, 1, 0, 11)
    ensures Sum(ScriptValues, 2, 5) == 24
    ensures RangeSumAsWritten(t, 1, 0.0, 11.0, 2.0, 5.0, 8) == Done(15)
  {
  }

  /** In a valid tree over twelve values, node 21 is the leaf of index 4. */
  lemma LeafOfIndexFour(t: seq<int>, a: seq<int>)
    requires Valid(t, a, 1, 0, 11)
    ensures 21 < |t| && t[21] == a[4]
  {
  }

  /** The slots the as-written update at index 4 of a twelve-element tree
      visits and changes: nodes 1, 2, 5, 10 and 20. */
  function BumpedAsWritten(t: seq<int>, diff: int): (t': seq<int>)
    requires |t| > 20
    ensures |t'| == |t| && (|t| > 21 ==> t'[21] == t[21])
  {
    t[1 := t[1] + diff][2 := t[2] + diff][5 := t[5] + diff][10 := t[10] + diff][20 := t[20] + diff]
  }

  /** The as-written update at index 4 from the root over `[0, 11]`. */
  lemma UpdateAsWrittenAtFour(t: seq<int>, diff: int)
    requires |t| > 20
    ensures UpdateAsWritten(t, 1, 0.0, 11.0, 4.0, diff, 8) == Done(BumpedAsWritten(t, diff))
  {
  }

  /** As written, adding 10 at index 4 of any valid tree for the script's data
      changes node 20, the leaf of index 3, while node 21, the leaf of index
      4, keeps its old value: the result is not a valid tree for the updated
      sequence. */
  lemma UpdateAsWrittenCorruptsTree(t: seq<int>)
    requires Valid(t, ScriptValues, 1, 0, 11)
    ensures |t| > 20
    ensures UpdateAsWritten(t, 1, 0.0, 11.0, 4.0, 10, 8) == Done(BumpedAsWritten(t, 10))
    ensures !Valid(BumpedAsWritten(t, 10), ScriptValues[4 := ScriptValues[4] + 10], 1, 0, 11)
  {
  }
}
