# Segment tree of range sums, modelled in Dafny

The repository is one data structure: a 1-indexed, array-backed segment
tree over a fixed sequence of integers (`segment-tree.py`). Node `k` covers
an inclusive index range `[start, end]` and stores the sum of that range.
If `start < end`, its children are `2k` over `[start, mid]` and `2k + 1`
over `[mid + 1, end]`, with `mid = (start + end) / 2` rounded down. The
root is node 1 over `[0, N - 1]`. The file has three recursive operations:

- `init` builds the tree.
- `update` adds a delta to every node whose range contains one index.
- `sum` answers an inclusive range-sum query.

A short driver sizes the backing list as `1 << (ceil(log2 N) + 1)` and
builds the tree for twelve fixed values.

Modules:

- `Shape` (`shape.dfy`): the midpoint and which slots the recursion visits
  (`Fits`, `InShape`). `Desc` is "lies in the subtree of slot `a`"; left and
  right subtrees are disjoint. Also the capacity computation and the proof
  that it is large enough.
- `SegmentTree` (`segment_tree.dfy`): the range sum `Sum`, the tree
  invariant `Valid`, and its local form `Consistent` (a leaf holds its
  element, an internal node the sum of its children). `Init` and `Update`
  are methods that change an `array<int>` in place. `RangeSum` is a function
  that reads the array. `Build` is the driver.
- `Script` (`script.dfy`): the script's data, and the answers the
  operations give on it, derived from their contracts.
- `AsWritten` (`as_written.dfy`): `update` and `sum` with their
  true-division midpoint, and inputs on which they go wrong (see Findings).

The code allocates `1 << height` slots, with `height = ceil(log2 N) + 1`,
which is `2 * 2^ceil(log2 N)`. `Shape.Capacity` is the
code's value, and `Shape.CapacitySuffices` proves it is enough.

The midpoint is the one deliberate departure from the code, and the
comment on `Shape.Mid` records it. `init` truncates the midpoint. `update`
and `sum` use true division, so their bounds become fractions. The model
uses the floor midpoint in all three operations. The as-written behaviour
is kept in `AsWritten` and listed under Findings.

## Model

| member | source | states |
|---|---|---|
| `Shape.Mid` | segment-tree.py:26 | The midpoint lies in `[start, end - 1]`. The left child gets `ceil(L/2)` of the node's `L` indices and the right child `floor(L/2)`, so both halves are non-empty and smaller than the node. |
| `Shape.InShapeIsDesc` | segment-tree.py:30-32 | Every slot the recursion from `node` visits lies in the subtree rooted at `node` (children `2k`, `2k + 1`) and is at least `node`. |
| `Shape.ChildrenDisjoint` | segment-tree.py:30-34 | The left and right recursive calls visit disjoint sets of slots, and neither visits the parent's slot. |
| `Shape.CeilLog2` | segment-tree.py:91 | The height `h` is the least `h` with `2^h >= N`, i.e. `ceil(log2 N)` in integers. |
| `Shape.Capacity` | segment-tree.py:91-93 | The backing length `1 << (ceil(log2 N) + 1)` is the least power of two that is at least `2N`, so it lies in `[2N, 4N)`. |
| `Shape.FitsBelow` | segment-tree.py:17-34 | A node over at most `2^h` indices recurses at most `h` levels, so every slot it visits is below `(node + 1) * 2^h`. |
| `Shape.CapacitySuffices` | segment-tree.py:90-95 | Every slot that `init`, `update` or `sum` visits from the root `(1, 0, N - 1)` indexes the backing array of length `Capacity(N)`. |
| `SegmentTree.SumSplit` | segment-tree.py:30-34 | The sum of a range is the sum of its part up to `mid` plus its part after `mid`. This is why an internal node can store the sum of its children's results. |
| `SegmentTree.SumPointUpdate` | segment-tree.py:41-45 | Adding `d` at index `i` adds `d` to exactly those range sums whose range contains `i`, and leaves every other range sum unchanged. |
| `SegmentTree.ValidIffConsistent` | segment-tree.py:17-34 | In both directions: every node stores the sum of its range iff every leaf stores `arr[start]` and every internal node stores `tree[2k] + tree[2k+1]`. |
| `SegmentTree.ValidFits` | segment-tree.py:17-34 | A valid subtree only occupies slots inside the backing array. |
| `SegmentTree.ValidFrame` | segment-tree.py:18 | Validity of a subtree depends only on the slots of that subtree. |
| `SegmentTree.Init` | segment-tree.py:5-36 | Returns the value it stores at `node`, which equals the sum of `arr[start..end]`. The subtree is afterwards valid: every node holds its range sum and every leaf its element. No slot outside the subtree's nodes changes. |
| `SegmentTree.PathsExclusive` | segment-tree.py:41-53 | The slots the two recursive update calls change are disjoint from each other and from the parent's slot, so each slot changes at most once. |
| `SegmentTree.Update` | segment-tree.py:39-53 | Every slot that is a node of the subtree with `index` in its range gains `diff` exactly once, and every other slot is unchanged. An `index` outside `[start, end]` and a `diff` of 0 leave the array unchanged. |
| `SegmentTree.UpdateKeepsValid` | segment-tree.py:39-53 | Such a change turns a valid tree for `arr` into a valid tree for `arr` with `diff` added at `index`. |
| `SegmentTree.UpdateValid` | segment-tree.py:39-53 | An update from the root `(1, 0, N - 1)` of a valid tree leaves a valid tree for `arr` with `diff` added at `index`. |
| `SegmentTree.RangeSum` | segment-tree.py:56-87 | An empty query (`left > right`) yields 0 at every node, including nodes where it is neither disjoint from nor covered by the node's range. |
| `SegmentTree.RangeSumCorrect` | segment-tree.py:56-87 | On a valid tree the query returns the sum of `arr` over the intersection of `[left, right]` and `[start, end]`. That is 0 when they are disjoint and the stored `tree[node]` when `[start, end]` lies inside the query. The query reads the array and changes nothing. |
| `SegmentTree.IntersectionSplit` | segment-tree.py:82-87 | The query's part inside a node splits at `mid` into its parts inside the two children. |
| `SegmentTree.RootQuery` | segment-tree.py:74-87 | From the root of a valid tree, `[left, right]` inside `[0, N - 1]` gives the sum of `arr[left..right]`. `[k, k]` gives `arr[k]`, and a query wholly outside `[0, N - 1]` gives 0. |
| `SegmentTree.QueryAfterUpdate` | segment-tree.py:39-87 | After an update of a valid tree, `[index, index]` reads the old value plus `diff`, and the whole-range total grows by exactly `diff`. |
| `SegmentTree.Build` | segment-tree.py:90-95 | Allocates a zero-filled array of `Capacity(N)` slots and builds a valid tree for the values from the root `(1, 0, N - 1)`. Slots that are not tree nodes stay 0. |
| `Script.ScriptSums` | segment-tree.py:90 | For the script's data the total is 57 and the sum of indices 2 to 5 is 24. |
| `Script.ScriptQueries` | segment-tree.py:90-95 | On the built tree for the script's data, the whole-range query gives 57 and the query for `[2, 5]` gives 24. |
| `Script.ScriptQueriesAfterUpdate` | segment-tree.py:39-87 | After adding 10 at index 4, those two queries give 67 and 34. |
| `Script.ScriptScenario` | segment-tree.py:90-95 | Builds the tree for the script's data as the driver does. It then runs a query, an update and another query that the script itself never makes, as a sanity scenario: the answers are 57 and 24, then 34 and 67 after adding 10 at index 4. |
| `AsWritten.UpdateAsWritten` | segment-tree.py:39-53 | The as-written update (fractional midpoint, with a fuel bound) keeps the list's length whenever it finishes. |
| `AsWritten.RangeSumAsWritten` | segment-tree.py:56-87 | Models the query as written: a disjoint range gives 0, a covered range gives `tree[node]` or an `IndexError`, and anything else recurses with a fractional midpoint, under a fuel bound. Its contract states that a node over a single point never recurses: it gives its stored value when the point is inside the query, and 0 otherwise. |
| `AsWritten.RangeSumAsWrittenMissesElements` | segment-tree.py:56-87 | On any valid tree for the script's data, the as-written query for `[2, 5]` returns 15 where the true sum is 24. |
| `AsWritten.UpdateAsWrittenAtFour` | segment-tree.py:39-53 | The as-written update at index 4 over `[0, 11]` changes exactly nodes 1, 2, 5, 10 and 20. |
| `AsWritten.LeafOfIndexFour` | segment-tree.py:17-32 | In a valid tree over twelve values, node 21 is the leaf that holds `arr[4]`. |
| `AsWritten.UpdateAsWrittenCorruptsTree` | segment-tree.py:39-53 | On any valid tree for the script's data, the as-written update adding 10 at index 4 leaves node 21 (the leaf of index 4) unchanged. The result is not a valid tree for the updated data. |

## Left out

- The diagnostic `print` calls (segment-tree.py:35 and :96) have no effect on results and are not modelled.
- The height is computed with floating-point `math.log` and `math.ceil` (segment-tree.py:91). The model uses the integer `Shape.CeilLog2` instead. For exact powers of two, float rounding could in principle give a different height; that is not modelled.
- An empty input is not modelled: `Build` requires `N >= 1`. In the original, `math.log(0, 2)` raises, and `init` on `(0, -1)` would index past the input.
- Values are unbounded integers. Python lists may hold other numbers, such as floats, whose sums round; that is not modelled.
- The backing list is an `array<int>`. Python lists are bounds-checked and raise `IndexError`. For the corrected operations `Fits` rules out any out-of-range access, so no error path is needed.
- `AsWritten.UpdateAsWritten` and `AsWritten.RangeSumAsWritten` model Python floats as exact reals and carry a fuel bound. Their bounds can shrink without reaching `start == end`, and Python would end such a descent on float underflow, an `IndexError` or its recursion limit. Those endings are collapsed into `IndexError` or `OutOfFuel`. The counterexamples use only dyadic bounds at depth at most 5, where floats are exact.
- `SegmentTree.RangeSum`'s own contract states only the empty-query case. Its value on a valid tree is stated by `SegmentTree.RangeSumCorrect` and `SegmentTree.RootQuery`.

## Findings

| source | as written | input that shows it | evidently intended | confidence | as-written member | corrected member |
|---|---|---|---|---|---|---|
| segment-tree.py:82 | `mid = (start + end) / 2` is a true division, so the query descends with fractional bounds into a tree of a different shape from the one `init` built | script data `[3,5,6,7,2,9,4,5,2,8,1,5]`, `sum(tree, 1, 0, 11, 2, 5)`: reads nodes 9 and 10 and gives 15 instead of 24 | floor midpoint as in `init` (line 26); the query returns the sum over `[left, right]` | high (hand-traced, not executed) | `AsWritten.RangeSumAsWrittenMissesElements` | `SegmentTree.RangeSumCorrect` |
| segment-tree.py:49 | the same true division in `update` | script data, `update(tree, 1, 0, 11, 4, 10)`: adds 10 to node 20 (leaf of index 3) and not to node 21 (leaf of index 4) | floor midpoint; every node whose range contains `index` gains `diff` | high (hand-traced, not executed) | `AsWritten.UpdateAsWrittenCorruptsTree` | `SegmentTree.UpdateKeepsValid` |
