/**
 * Partitions driven through the evaluator operations as the host engine
 * drives them, with the results the contracts guarantee.
 */
module Scenarios {
  import opened Wrappers
  import opened Lifecycle
  import ExactLag
  import ExactRowLag

  method ExactLagPartitions()
  {
    var b := ExactLag.GetNewAggregationBuffer<char>();
    var r := ExactLag.Terminate(b);
    assert r == Failure(NullPointer);

    // keys 0..4, lag 4: the first value
    ExactLag.Iterate(b, ExactLag.LagRow(Some('A'), Some(0), 4));
    ExactLag.Iterate(b, ExactLag.LagRow(Some('B'), Some(1), 4));
    ExactLag.Iterate(b, ExactLag.LagRow(Some('C'), Some(2), 4));
    ExactLag.Iterate(b, ExactLag.LagRow(Some('D'), Some(3), 4));
    ExactLag.Iterate(b, ExactLag.LagRow(Some('E'), Some(4), 4));
    r := ExactLag.Terminate(b);
    assert r == Success(Some('A'));

    // keys 0..3, lag 2: distance 3, null
    ExactLag.Reset(b);
    ExactLag.Iterate(b, ExactLag.LagRow(Some('A'), Some(0), 2));
    ExactLag.Iterate(b, ExactLag.LagRow(Some('B'), Some(1), 2));
    ExactLag.Iterate(b, ExactLag.LagRow(Some('C'), Some(2), 2));
    ExactLag.Iterate(b, ExactLag.LagRow(Some('D'), Some(3), 2));
    r := ExactLag.Terminate(b);
    assert r == Success(None);

    // a null last key: the subtraction unboxes null
    ExactLag.Reset(b);
    ExactLag.Iterate(b, ExactLag.LagRow(Some('A'), Some(0), 1));
    ExactLag.Iterate(b, ExactLag.LagRow(Some('B'), None, 1));
    r := ExactLag.Terminate(b);
    assert r == Failure(NullPointer);
  }

  method ExactRowLagPartitions()
  {
    var b := ExactRowLag.GetNewAggregationBuffer<char>();
    var r := ExactRowLag.Terminate(b);
    assert r == None;

    // four rows, lag 3: null
    ExactRowLag.Iterate(b, ExactRowLag.RowLagRow(Some('A'), 3));
    ExactRowLag.Iterate(b, ExactRowLag.RowLagRow(Some('B'), 3));
    ExactRowLag.Iterate(b, ExactRowLag.RowLagRow(Some('C'), 3));
    ExactRowLag.Iterate(b, ExactRowLag.RowLagRow(Some('D'), 3));
    r := ExactRowLag.Terminate(b);
    assert r == None;

    // three rows, lag 3: the first value; later lag amounts are ignored
    ExactRowLag.Reset(b);
    ExactRowLag.Iterate(b, ExactRowLag.RowLagRow(Some('A'), 3));
    ExactRowLag.Iterate(b, ExactRowLag.RowLagRow(Some('B'), 7));
    ExactRowLag.Iterate(b, ExactRowLag.RowLagRow(Some('C'), 1));
    r := ExactRowLag.Terminate(b);
    assert r == Some('A');
  }
}
