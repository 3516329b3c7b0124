/**
 A 1-indexed, array-backed segment tree of range sums over a fixed sequence
 of integers: building the tree (`Init`), adding a delta to one position
 (`Update`) and answering an inclusive range-sum query (`RangeSum`), plus the
 driver that sizes the backing array and builds the tree from the root.
 */
module SegmentTree {
  import opened Shape

  /** Sum of `arr[lo]`, ..., `arr[hi]` (inclusive); 0 when `lo > hi`. */
  ghost function Sum(arr: seq<int>, lo: int, hi: int): int
    requires 0 <= lo && hi < |arr|
    decreases hi - lo
  {
    if lo > hi then 0 else Sum(arr, lo, hi - 1) + arr[hi]
  }

  function Max(a: int, b: int): int { if a < b then b else a }
  function Min(a: int, b: int): int { if a < b then a else b }

  lemma {:induction false} SumSplit(arr: seq<int>, lo: int, mid: int, hi: int)
    requires 0 <= lo <= mid + 1 && mid <= hi < |arr|
    ensures Sum(arr, lo, hi) == Sum(arr, lo, mid) + Sum(arr, mid + 1, hi)
    decreases hi - mid
  {
    if mid < hi {
      SumSplit(arr, lo, mid, hi - 1);
    }
  }

  /** Splitting a range at any point `m` into the part up to `m` and the part after it. */
  lemma SumSplitAt(arr: seq<int>, lo: int, hi: int, m: int)
    requires 0 <= lo && hi < |arr| && m >= -1
    ensures Sum(arr, lo, hi) == Sum(arr, lo, Min(hi, m)) + Sum(arr, Max(lo, m + 1), hi)
  {
    if lo <= m && m < hi {
      SumSplit(arr, lo, m, hi);
    }
  }

  /** Adding `d` to `arr[i]` adds `d` to exactly the range sums that contain `i`. */
  lemma {:induction false} SumPointUpdate(arr: seq<int>, i: int, d: int, lo: int, hi: int)
    requires 0 <= i < |arr| && 0 <= lo && hi < |arr|
    ensures Sum(arr[i := arr[i] + d], lo, hi) == Sum(arr, lo, hi) + (if lo <= i <= hi then d else 0)
    decreases hi - lo
  {
    if lo <= hi {
      SumPointUpdate(arr, i, d, lo, hi - 1);
    }
  }

  /** The segment-tree invariant for the subtree rooted at `node` over
      `[start, end]`: every node of it stores the sum of its range of `arr`. */
  ghost predicate Valid(t: seq<int>, arr: seq<int>, node: nat, start: nat, end: nat)
    decreases end - start
  {
    && start <= end < |arr|
    && node < |t|
    && t[node] == Sum(arr, start, end)
    && (start < end ==>
          var mid := Mid(start, end);
          Valid(t, arr, 2 * node, start, mid) && Valid(t, arr, 2 * node + 1, mid + 1, end))
  }

  /** The local form of the invariant: a leaf stores its element of `arr`,
      and every internal node stores the sum of its two children. */
  ghost predicate Consistent(t: seq<int>, arr: seq<int>, node: nat, start: nat, end: nat)
    decreases end - start
  {
    && start <= end < |arr|
    && node < |t|
    && (if start == end then t[node] == arr[start]
        else
          var mid := Mid(start, end);
          && Consistent(t, arr, 2 * node, start, mid)
          && Consistent(t, arr, 2 * node + 1, mid + 1, end)
          && t[node] == t[2 * node] + t[2 * node + 1])
  }

  /** The two forms of the invariant agree. */
  lemma {:induction false} ValidIffConsistent(t: seq<int>, arr: seq<int>, node: nat, start: nat, end: nat)
    ensures Valid(t, arr, node, start, end) <==> Consistent(t, arr, node, start, end)
    decreases end - start
  {
    if start < end && end < |arr| {
      var mid := Mid(start, end);
      ValidIffConsistent(t, arr, 2 * node, start, mid);
      ValidIffConsistent(t, arr, 2 * node + 1, mid + 1, end);
      SumSplit(arr, start, mid, end);
      if Consistent(t, arr, node, start, end) {
        assert Valid(t, arr, 2 * node, start, mid);
        assert Valid(t, arr, 2 * node + 1, mid + 1, end);
      }
    } else if start == end && end < |arr| {
      assert Sum(arr, start, end) == Sum(arr, start, start - 1) + arr[start];
    }
  }

  /** A valid subtree only uses slots of the backing array it can index. */
  lemma {:induction false} ValidFits(t: seq<int>, arr: seq<int>, node: nat, start: nat, end: nat)
    requires Valid(t, arr, node, start, end)
    ensures Fits(|t|, node, start, end)
    decreases end - start
  {
    if start < end {
      var mid := Mid(start, end);
      ValidFits(t, arr, 2 * node, start, mid);
      ValidFits(t, arr, 2 * node + 1, mid + 1, end);
    }
  }

  /** Validity of a subtree depends only on the slots of that subtree. */
  lemma {:induction false} ValidFrame(t: seq<int>, t': seq<int>, arr: seq<int>, node: nat, start: nat, end: nat)
    requires Valid(t, arr, node, start, end)
    requires |t'| == |t|
    requires forall k :: 0 <= k < |t| && InShape(node, start, end, k) ==> t'[k] == t[k]
    ensures Valid(t', arr, node, start, end)
    decreases end - start
  {
    if start < end {
      var mid := Mid(start, end);
      ValidFrame(t, t', arr, 2 * node, start, mid);
      ValidFrame(t, t', arr, 2 * node + 1, mid + 1, end);
    }
  }

  /** Builds the subtree rooted at `node` over `[start, end]` and returns the
      value stored at `node`, which is the sum of that range. */
  method Init(arr: seq<int>, tree: array<int>, node: nat, start: nat, end: nat) returns (r: int)
    requires node >= 1 && start <= end < |arr|
    requires Fits(tree.Length, node, start, end)
    modifies tree
    ensures r == tree[node] == Sum(arr, start, end)
    ensures Valid(tree[..], arr, node, start, end)
    ensures forall k :: 0 <= k < tree.Length && !InShape(node, start, end, k) ==> tree[k] == old(tree[k])
    decreases end - start
  {
    if start == end {
      tree[node] := arr[start];
      return tree[node];
    }
    var mid := Mid(start, end);
    var sumLeft := Init(arr, tree, 2 * node, start, mid);
    ghost var afterLeft := tree[..];
    var sumRight := Init(arr, tree, 2 * node + 1, mid + 1, end);
    ghost var afterRight := tree[..];
    tree[node] := sumLeft + sumRight;
    SumSplit(arr, start, mid, end);
    forall k | 0 <= k < tree.Length
      ensures InShape(2 * node, start, mid, k) ==> afterRight[k] == afterLeft[k]
      ensures InShape(2 * node, start, mid, k) || InShape(2 * node + 1, mid + 1, end, k) ==> tree[k] == afterRight[k]
    {
      ChildrenDisjoint(node, start, end, k);
    }
    ValidFrame(afterLeft, afterRight, arr, 2 * node, start, mid);
    ValidFrame(afterRight, tree[..], arr, 2 * node, start, mid);
    ValidFrame(afterRight, tree[..], arr, 2 * node + 1, mid + 1, end);
    return tree[node];
  }

  /** Slot `k` is a node of the subtree rooted at `node` over `[start, end]`
      whose range contains `index`: one of the nodes a point update visits
      and changes. */
  ghost predicate OnPath(node: nat, start: nat, end: nat, index: int, k: nat)
    decreases end - start
  {
    && start <= index <= end
    && (|| k == node
        || (start < end &&
              var mid := Mid(start, end);
              OnPath(2 * node, start, mid, index, k) || OnPath(2 * node + 1, mid + 1, end, index, k)))
  }

  lemma {:induction false} OnPathInShape(node: nat, start: nat, end: nat, index: int, k: nat)
    requires OnPath(node, start, end, index, k)
    ensures InShape(node, start, end, k)
    decreases end - start
  {
    if k != node {
      var mid := Mid(start, end);
      if OnPath(2 * node, start, mid, index, k) {
        OnPathInShape(2 * node, start, mid, index, k);
      } else {
        OnPathInShape(2 * node + 1, mid + 1, end, index, k);
      }
    }
  }

  /** The slots the two recursive calls of a point update change are disjoint
      from each other and from the parent's slot. */
  lemma PathsExclusive(node: nat, start: nat, end: nat, index: int, k: nat)
    requires node >= 1 && start < end
    ensures var mid := Mid(start, end);
      && (OnPath(2 * node, start, mid, index, k) ==> InShape(2 * node, start, mid, k))
      && (OnPath(2 * node + 1, mid + 1, end, index, k) ==> InShape(2 * node + 1, mid + 1, end, k))
      && (InShape(2 * node, start, mid, k) ==> k != node && !OnPath(2 * node + 1, mid + 1, end, index, k))
      && (InShape(2 * node + 1, mid + 1, end, k) ==> k != node && !OnPath(2 * node, start, mid, index, k))
  {
    var mid := Mid(start, end);
    ChildrenDisjoint(node, start, end, k);
    if OnPath(2 * node, start, mid, index, k) {
      OnPathInShape(2 * node, start, mid, index, k);
    }
    if OnPath(2 * node + 1, mid + 1, end, index, k) {
      OnPathInShape(2 * node + 1, mid + 1, end, index, k);
    }
  }

  /** Adds `diff` to every node of the subtree whose range contains `index`
      (each exactly once) and leaves every other slot of `tree` unchanged. */
  method Update(tree: array<int>, node: nat, start: nat, end: nat, index: int, diff: int)
    requires node >= 1 && start <= end
    requires Fits(tree.Length, node, start, end)
    modifies tree
    ensures forall k :: 0 <= k < tree.Length ==>
      tree[k] == old(tree[k]) + (if OnPath(node, start, end, index, k) then diff else 0)
    ensures index < start || end < index ==> tree[..] == old(tree[..])
    ensures diff == 0 ==> tree[..] == old(tree[..])
    decreases end - start
  {
    if index < start || index > end {
      return;
    }
    tree[node] := tree[node] + diff;
    if start != end {
      var mid := Mid(start, end);
      Update(tree, 2 * node, start, mid, index, diff);
      Update(tree, 2 * node + 1, mid + 1, end, index, diff);
      forall k | 0 <= k < tree.Length
        ensures tree[k] == old(tree[k]) + (if OnPath(node, start, end, index, k) then diff else 0)
      {
        PathsExclusive(node, start, end, index, k);
      }
    }
  }

  /** A point update turns a valid tree for `arr` into a valid tree for
      `arr` with `diff` added at `index`. */
  lemma {:induction false} UpdateKeepsValid(t: seq<int>, t': seq<int>, arr: seq<int>,
                                            node: nat, start: nat, end: nat, index: int, diff: int)
    requires node >= 1 && 0 <= index < |arr|
    requires Valid(t, arr, node, start, end)
    requires |t'| == |t|
    requires forall k :: 0 <= k < |t| && InShape(node, start, end, k) ==>
      t'[k] == t[k] + (if OnPath(node, start, end, index, k) then diff else 0)
    ensures Valid(t', arr[index := arr[index] + diff], node, start, end)
    decreases end - start
  {
    SumPointUpdate(arr, index, diff, start, end);
    if start < end {
      var mid := Mid(start, end);
      forall k | 0 <= k < |t| && InShape(2 * node, start, mid, k)
        ensures t'[k] == t[k] + (if OnPath(2 * node, start, mid, index, k) then diff else 0)
      {
        PathsExclusive(node, start, end, index, k);
      }
      forall k | 0 <= k < |t| && InShape(2 * node + 1, mid + 1, end, k)
        ensures t'[k] == t[k] + (if OnPath(2 * node + 1, mid + 1, end, index, k) then diff else 0)
      {
        PathsExclusive(node, start, end, index, k);
      }
      UpdateKeepsValid(t, t', arr, 2 * node, start, mid, index, diff);
      UpdateKeepsValid(t, t', arr, 2 * node + 1, mid + 1, end, index, diff);
    }
  }

  /** A point update from the root of a valid tree leaves a valid tree for
      `arr` with `diff` added at `index`. */
  method UpdateValid(tree: array<int>, arr: seq<int>, index: int, diff: int)
    requires 0 <= index < |arr|
    requires Valid(tree[..], arr, 1, 0, |arr| - 1)
    modifies tree
    ensures Valid(tree[..], arr[index := arr[index] + diff], 1, 0, |arr| - 1)
  {
    ValidFits(tree[..], arr, 1, 0, |arr| - 1);
    Update(tree, 1, 0, |arr| - 1, index, diff);
    UpdateKeepsValid(old(tree[..]), tree[..], arr, 1, 0, |arr| - 1, index, diff);
  }

  /** The sum of the query range `[left, right]` restricted to the node's
      range `[start, end]`, read from the stored node sums. */
  function RangeSum(tree: array<int>, node: nat, start: nat, end: nat, left: int, right: int): (r: int)
    reads tree
    requires start <= end && Fits(tree.Length, node, start, end)
    ensures left > right ==> r == 0
    decreases end - start
  {
    if left > end || right < start then 0
    else if left <= start && end <= right then tree[node]
    else
      var mid := Mid(start, end);
      RangeSum(tree, 2 * node, start, mid, left, right)
        + RangeSum(tree, 2 * node + 1, mid + 1, end, left, right)
  }

  /** On a valid tree the query returns the sum of `arr` over the intersection
      of `[left, right]` with `[start, end]`: 0 when they are disjoint, the
      stored `tree[node]` when `[start, end]` lies inside the query. */
  lemma {:induction false} RangeSumCorrect(tree: array<int>, arr: seq<int>, node: nat, start: nat, end: nat,
                                           left: int, right: int)
    requires Valid(tree[..], arr, node, start, end)
    ensures Fits(tree.Length, node, start, end)
    ensures RangeSum(tree, node, start, end, left, right) == Sum(arr, Max(left, start), Min(right, end))
    decreases end - start
  {
    ValidFits(tree[..], arr, node, start, end);
    assert end < |arr| && tree[node] == Sum(arr, start, end);
    if left > end || right < start {
      assert Max(left, start) > Min(right, end);
    } else if left <= start && end <= right {
      assert Max(left, start) == start && Min(right, end) == end;
    } else {
      var mid := Mid(start, end);
      RangeSumCorrect(tree, arr, 2 * node, start, mid, left, right);
      RangeSumCorrect(tree, arr, 2 * node + 1, mid + 1, end, left, right);
      CombineHalves(tree, arr, node, start, end, left, right);
    }
  }

  /** The partial-overlap step of `RangeSumCorrect`: if both children answer
      their part of the query, the node answers its part. */
  lemma CombineHalves(tree: array<int>, arr: seq<int>, node: nat, start: nat, end: nat, left: int, right: int)
    requires start < end < |arr| && Fits(tree.Length, node, start, end)
    requires !(left > end || right < start) && !(left <= start && end <= right)
    requires RangeSum(tree, 2 * node, start, Mid(start, end), left, right)
          == Sum(arr, Max(left, start), Min(right, Mid(start, end)))
    requires RangeSum(tree, 2 * node + 1, Mid(start, end) + 1, end, left, right)
          == Sum(arr, Max(left, Mid(start, end) + 1), Min(right, end))
    ensures RangeSum(tree, node, start, end, left, right) == Sum(arr, Max(left, start), Min(right, end))
  {
    IntersectionSplit(arr, left, right, start, Mid(start, end), end);
  }

  /** The part of `[left, right]` inside `[start, end]` splits at `mid` into the
      parts inside `[start, mid]` and inside `[mid + 1, end]`. */
  lemma IntersectionSplit(arr: seq<int>, left: int, right: int, start: nat, mid: nat, end: nat)
    requires start <= mid < end < |arr|
    ensures Sum(arr, Max(left, start), Min(right, end))
         == Sum(arr, Max(left, start), Min(right, mid)) + Sum(arr, Max(left, mid + 1), Min(right, end))
  {
    SumSplitAt(arr, Max(left, start), Min(right, end), mid);
    assert Min(Min(right, end), mid) == Min(right, mid);
    assert Max(Max(left, start), mid + 1) == Max(left, mid + 1);
  }

  /** Queries from the root of a valid tree over all of `arr`: an in-range
      query is the sum of `arr[left..right]`, a single position reads back its
      element, and a query lying entirely outside `[0, |arr| - 1]` is 0. */
  lemma RootQuery(tree: array<int>, arr: seq<int>, left: int, right: int)
    requires |arr| >= 1 && Valid(tree[..], arr, 1, 0, |arr| - 1)
    ensures Fits(tree.Length, 1, 0, |arr| - 1)
    ensures 0 <= left && right < |arr| ==> RangeSum(tree, 1, 0, |arr| - 1, left, right) == Sum(arr, left, right)
    ensures 0 <= left < |arr| && left == right ==> RangeSum(tree, 1, 0, |arr| - 1, left, right) == arr[left]
    ensures right < 0 || left >= |arr| ==> RangeSum(tree, 1, 0, |arr| - 1, left, right) == 0
  {
    RangeSumCorrect(tree, arr, 1, 0, |arr| - 1, left, right);
  }

  /** After a point update of a valid tree, the position reads back its old
      value plus `diff` and the total grows by exactly `diff`. */
  lemma QueryAfterUpdate(tree: array<int>, arr: seq<int>, index: int, diff: int)
    requires 0 <= index < |arr|
    requires Valid(tree[..], arr[index := arr[index] + diff], 1, 0, |arr| - 1)
    ensures Fits(tree.Length, 1, 0, |arr| - 1)
    ensures RangeSum(tree, 1, 0, |arr| - 1, index, index) == arr[index] + diff
    ensures RangeSum(tree, 1, 0, |arr| - 1, 0, |arr| - 1) == Sum(arr, 0, |arr| - 1) + diff
  {
    var arr' := arr[index := arr[index] + diff];
    RootQuery(tree, arr', index, index);
    RootQuery(tree, arr', 0, |arr| - 1);
    SumPointUpdate(arr, index, diff, 0, |arr| - 1);
  }

  /** The driver: allocates a zero-filled backing array of `Capacity(|values|)`
      slots and builds the tree from the root `(1, 0, |values| - 1)`. */
  method Build(values: seq<int>) returns (tree: array<int>)
    requires |values| >= 1
    ensures fresh(tree) && tree.Length == Capacity(|values|)
    ensures Valid(tree[..], values, 1, 0, |values| - 1)
    ensures forall k :: 0 <= k < tree.Length && !InShape(1, 0, |values| - 1, k) ==> tree[k] == 0
  {
    CapacitySuffices(|values|);
    tree := new int[Capacity(|values|)](_ => 0);
    var _ := Init(values, tree, 1, 0, |values| - 1);
  }
}
