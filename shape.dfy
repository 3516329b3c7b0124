/**
 The shape of the segment tree: which node covers which index range, which
 array slots the recursion visits, and how large the backing array must be.

 Node `k` covers `[start, end]`; when `start < end` its children are `2k`
 over `[start, Mid(start, end)]` and `2k + 1` over `[Mid(start, end) + 1, end]`.
 The root is node 1 over `[0, N - 1]`.
 */
module Shape {

  /** The midpoint that splits a node's range between its two children.
      The tree is built with a truncated midpoint; for the non-negative
      bounds used here truncation is floor division. The point update and the
      range query of the original divide without truncating, which yields
      fractional bounds and a different tree from the one that was built;
      this model deliberately uses this same integer midpoint in all three
      operations (see AsWritten for the behaviour as written). */
  function Mid(start: nat, end: nat): (m: nat)
    requires start < end
    ensures start <= m < end
    ensures m - start + 1 == (end - start + 2) / 2 && end - m == (end - start + 1) / 2
  {
    (start + end) / 2
  }

  /** Every node the recursion from `node` over `[start, end]` visits lies
      below `cap`, i.e. indexes an array of length `cap`. */
  ghost predicate Fits(cap: nat, node: nat, start: nat, end: nat)
    decreases end - start
  {
    && node < cap
    && (start < end ==>
          var mid := Mid(start, end);
          Fits(cap, 2 * node, start, mid) && Fits(cap, 2 * node + 1, mid + 1, end))
  }

  /** `k` is one of the nodes of the tree rooted at `node` over `[start, end]`. */
  ghost predicate InShape(node: nat, start: nat, end: nat, k: nat)
    decreases end - start
  {
    || k == node
    || (start < end &&
          var mid := Mid(start, end);
          InShape(2 * node, start, mid, k) || InShape(2 * node + 1, mid + 1, end, k))
  }

  /** `k` lies in the subtree rooted at slot `a` of an implicit binary tree
      whose children of `n` are `2n` and `2n + 1`. */
  ghost predicate Desc(a: nat, k: nat)
    decreases k
  {
    k == a || (k > a && Desc(a, k / 2))
  }

  lemma {:induction false} DescTrans(a: nat, b: nat, k: nat)
    requires Desc(a, b) && Desc(b, k)
    ensures Desc(a, k)
    decreases k
  {
    if k != b {
      DescAtLeast(a, b);
      DescTrans(a, b, k / 2);
    }
  }

  lemma {:induction false} DescAtLeast(a: nat, k: nat)
    requires Desc(a, k)
    ensures a <= k
    decreases k
  {
  }

  /** The subtrees of the two children of a node share no slot. */
  lemma SiblingsDisjoint(n: nat, k: nat)
    requires n >= 1
    ensures !(Desc(2 * n, k) && Desc(2 * n + 1, k))
  {
  }

  /** The recursion from `node` only visits slots in the subtree rooted at `node`. */
  lemma {:induction false} InShapeIsDesc(node: nat, start: nat, end: nat, k: nat)
    requires InShape(node, start, end, k)
    ensures Desc(node, k) && node <= k
    decreases end - start
  {
    if k != node {
      var mid := Mid(start, end);
      assert Desc(node, 2 * node) by { assert (2 * node) / 2 == node; }
      assert Desc(node, 2 * node + 1) by { assert (2 * node + 1) / 2 == node; }
      if InShape(2 * node, start, mid, k) {
        InShapeIsDesc(2 * node, start, mid, k);
        DescTrans(node, 2 * node, k);
      } else {
        InShapeIsDesc(2 * node + 1, mid + 1, end, k);
        DescTrans(node, 2 * node + 1, k);
      }
    }
  }

  /** No slot is visited both by the left and by the right recursive call,
      and neither visits the parent's own slot. */
  lemma ChildrenDisjoint(node: nat, start: nat, end: nat, k: nat)
    requires node >= 1 && start < end
    ensures var mid := Mid(start, end);
      && !(InShape(2 * node, start, mid, k) && InShape(2 * node + 1, mid + 1, end, k))
      && (InShape(2 * node, start, mid, k) ==> k != node)
      && (InShape(2 * node + 1, mid + 1, end, k) ==> k != node)
  {
    var mid := Mid(start, end);
    if InShape(2 * node, start, mid, k) {
      InShapeIsDesc(2 * node, start, mid, k);
    }
    if InShape(2 * node + 1, mid + 1, end, k) {
      InShapeIsDesc(2 * node + 1, mid + 1, end, k);
    }
    SiblingsDisjoint(node, k);
  }

  /** 2 to the power `k`: the value of `1 << k`. */
  function Pow2(k: nat): (p: nat)
    ensures p >= 1
  {
    if k == 0 then 1 else 2 * Pow2(k - 1)
  }

  /** The integer `ceil(log2 n)`: the least `h` with `2^h >= n`. */
  function CeilLog2(n: nat): (h: nat)
    requires n >= 1
    ensures Pow2(h) >= n
    ensures h == 0 || Pow2(h - 1) < n
    decreases n
  {
    if n == 1 then 0 else 1 + CeilLog2((n + 1) / 2)
  }

  /** Length of the backing array: `1 << (ceil(log2 n) + 1)`, the least power
      of two that is at least `2n`. */
  function Capacity(n: nat): (c: nat)
    requires n >= 1
    ensures 2 * n <= c < 4 * n
  {
    var h := CeilLog2(n);
    assert Pow2(h + 1) == 2 * Pow2(h);
    assert h > 0 ==> Pow2(h) == 2 * Pow2(h - 1);
    Pow2(h + 1)
  }

  /** The recursion from `node` over at most `2^h` indices goes at most `h`
      levels down, so it visits only slots below `(node + 1) * 2^h`. */
  lemma {:induction false} FitsBelow(cap: nat, node: nat, start: nat, end: nat, h: nat)
    requires start <= end && end - start + 1 <= Pow2(h)
    requires (node + 1) * Pow2(h) <= cap
    ensures Fits(cap, node, start, end)
    decreases end - start
  {
    if start == end {
      assert node < (node + 1) * Pow2(h);
    } else {
      var mid := Mid(start, end);
      HalvesFit(start, end, h);
      ChildrenBound(node, h);
      FitsBelow(cap, 2 * node, start, mid, h - 1);
      FitsBelow(cap, 2 * node + 1, mid + 1, end, h - 1);
      FitsNode(cap, node, start, end);
    }
  }

  lemma HalvesFit(start: nat, end: nat, h: nat)
    requires start < end && end - start + 1 <= Pow2(h)
    ensures h >= 1
    ensures Mid(start, end) - start + 1 <= Pow2(h - 1) && end - Mid(start, end) <= Pow2(h - 1)
  {
  }

  lemma ChildrenBound(node: nat, h: nat)
    requires h >= 1
    ensures (2 * node + 1) * Pow2(h - 1) <= (2 * node + 2) * Pow2(h - 1) == (node + 1) * Pow2(h)
  {
  }

  lemma FitsNode(cap: nat, node: nat, start: nat, end: nat)
    requires start < end
    requires Fits(cap, 2 * node, start, Mid(start, end)) && Fits(cap, 2 * node + 1, Mid(start, end) + 1, end)
    ensures Fits(cap, node, start, end)
  {
  }

  /** The capacity computed by the driver holds every slot the recursion from
      the root `(1, 0, n - 1)` visits. */
  lemma CapacitySuffices(n: nat)
    requires n >= 1
    ensures Fits(Capacity(n), 1, 0, n - 1)
  {
    FitsBelow(Capacity(n), 1, 0, n - 1, CeilLog2(n));
  }
}
