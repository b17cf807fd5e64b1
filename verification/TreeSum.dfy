/** The map-reduce sum: plain for short inputs, by groups of a hundred, recursively, for long ones. */
module TreeSum {
  import opened Sums

  const TREE_REDUCTION_THRESHOLD := 1000
  const TREE_REDUCTION_GROUP_SIZE := 100

  method AddUp(values: seq<real>) returns (total: real)
    ensures total == Sum(values)
  {
    total := 0.0;
    for i := 0 to |values|
      invariant total == Sum(values[..i])
    {
      assert values[..i + 1] == values[..i] + [values[i]];
      SumByAppend(values[..i], values[i], x => x);
      total := total + values[i];
    }
    assert values[..|values|] == values;
  }

  /** Every level has a hundredth as many values, rounded up, so the recursion ends; the sum never changes. */
  method TreeReduceSum(values: seq<real>) returns (total: real)
    ensures total == Sum(values)
    decreases |values|
  {
    if |values| <= TREE_REDUCTION_GROUP_SIZE {
      total := AddUp(values);
      return;
    }
    var groupSums: seq<real> := [];
    var i := 0;
    while i < |values|
      invariant i == |groupSums| * TREE_REDUCTION_GROUP_SIZE < |values| + TREE_REDUCTION_GROUP_SIZE
      invariant Sum(groupSums) == Sum(values[..if i < |values| then i else |values|])
    {
      var end := i + TREE_REDUCTION_GROUP_SIZE;
      if end > |values| {
        end := |values|;
      }
      var s := AddUp(values[i..end]);
      assert values[..end] == values[..i] + values[i..end];
      SumByConcat(values[..i], values[i..end], x => x);
      SumByAppend(groupSums, s, x => x);
      groupSums := groupSums + [s];
      i := i + TREE_REDUCTION_GROUP_SIZE;
    }
    assert values[..|values|] == values;
    assert |groupSums| == (|values| + 99) / 100 && |groupSums| < |values|;
    total := TreeReduceSum(groupSums);
  }

  /** The same answer on both sides of the threshold. */
  method SumValues(values: seq<real>) returns (total: real)
    ensures total == Sum(values)
  {
    if |values| > TREE_REDUCTION_THRESHOLD {
      total := TreeReduceSum(values);
      return;
    }
    total := AddUp(values);
  }
}
