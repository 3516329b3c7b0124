/**
 The script at the bottom of the original: builds the tree for a fixed
 sequence of twelve values. Here the expected answers for that data are
 derived from the contracts of the operations.
 */
module Script {
  import opened Shape
  import opened SegmentTree

  /** The script's input sequence. */
  const ScriptValues: seq<int> := [3, 5, 6, 7, 2, 9, 4, 5, 2, 8, 1, 5]

  /** Range sums of the script's data that the scenario below reads back. */
  lemma ScriptSums()
    ensures Sum(ScriptValues, 0, 11) == 57
    ensures Sum(ScriptValues, 2, 5) == 24
  {
    var v := ScriptValues;
    assert Sum(v, 0, 5) == 32;
    assert Sum(v, 6, 11) == 25;
    SumSplit(v, 0, 5, 11);
  }

  /** Queries on a valid tree for the script's data. */
  lemma ScriptQueries(tree: array<int>)
    requires Valid(tree[..], ScriptValues, 1, 0, 11)
    ensures Fits(tree.Length, 1, 0, 11)
    ensures RangeSum(tree, 1, 0, 11, 0, 11) == 57
    ensures RangeSum(tree, 1, 0, 11, 2, 5) == 24
  {
    ScriptSums();
    RootQuery(tree, ScriptValues, 0, 11);
    RootQuery(tree, ScriptValues, 2, 5);
  }

  /** Queries on a valid tree for the script's data after adding 10 at index 4. */
  lemma ScriptQueriesAfterUpdate(tree: array<int>)
    requires Valid(tree[..], ScriptValues[4 := ScriptValues[4] + 10], 1, 0, 11)
    ensures Fits(tree.Length, 1, 0, 11)
    ensures RangeSum(tree, 1, 0, 11, 0, 11) == 67
    ensures RangeSum(tree, 1, 0, 11, 2, 5) == 34
  {
    ScriptSums();
    SumPointUpdate(ScriptValues, 4, 10, 2, 5);
    RootQuery(tree, ScriptValues[4 := ScriptValues[4] + 10], 2, 5);
    QueryAfterUpdate(tree, ScriptValues, 4, 10);
  }

  /** Builds the tree for the script's data, queries the whole range and
      `[2, 5]`, adds 10 at index 4 and queries both ranges again. */
  method ScriptScenario() returns (total: int, part: int, partAfter: int, totalAfter: int)
    ensures total == 57 && part == 24
    ensures partAfter == 34 && totalAfter == 67
  {
    var tree := Build(ScriptValues);
    ScriptQueries(tree);
    total := RangeSum(tree, 1, 0, 11, 0, 11);
    part := RangeSum(tree, 1, 0, 11, 2, 5);

    ghost var before := tree[..];
    Update(tree, 1, 0, 11, 4, 10);
    UpdateKeepsValid(before, tree[..], ScriptValues, 1, 0, 11, 4, 10);
    ScriptQueriesAfterUpdate(tree);
    partAfter := RangeSum(tree, 1, 0, 11, 2, 5);
    totalAfter := RangeSum(tree, 1, 0, 11, 0, 11);
  }
}
