/**
 * How the two aggregates relate: over a partition whose ORDER BY keys step by
 * one per row, exact_lag with lag amount L gives what exact_row_lag gives with
 * lag amount L + 1, because n rows span a key distance of n - 1.
 */
module LagEquivalence {
  import opened Wrappers
  import opened Lifecycle
  import ExactLag
  import ExactRowLag

  /** The ORDER BY keys of rows are k, k + 1, k + 2, ... and none is null. */
  ghost predicate KeysFrom<T>(rows: seq<ExactLag.LagRow<T>>, k: int)
  {
    forall i :: 0 <= i < |rows| ==> rows[i].orderBy.Some? && rows[i].orderBy.value == k + i
  }

  /** The truncated key distance n - 1 equals L exactly when the truncated count n equals L + 1. */
  lemma ShiftByOne(n: int, lag: Int)
    requires lag + 1 <= 0x7fff_ffff
    ensures (WrapLong(n - 1) == lag) <==> (WrapLong(n) == lag + 1)
  {
    WrapLongSucc(n - 1);
  }

  lemma ExactLagIsShiftedRowLag<T>(
    s: ExactLag.LagState<T>, lagRows: seq<ExactLag.LagRow<T>>,
    rowRows: seq<ExactRowLag.RowLagRow<T>>, k: int)
    requires ExactLag.Armed(s)
    requires lagRows != [] && KeysFrom(lagRows, k)
    requires |rowRows| == |lagRows| && rowRows[0].value == lagRows[0].value
    requires rowRows[0].lag == lagRows[0].lag + 1
    ensures ExactLag.Finish(ExactLag.Run(s, lagRows))
         == Success(ExactRowLag.Finish(ExactRowLag.Run(ExactRowLag.Initial(), rowRows)))
  {
    var n := |lagRows|;
    ExactLag.ExactLagResult(s, lagRows);
    assert lagRows[n - 1].orderBy.value - lagRows[0].orderBy.value == n - 1;
    ExactRowLag.RunCountsRows(rowRows);
    ShiftByOne(n, lagRows[0].lag);
  }

  /** With equal lag amounts the two disagree: one row at lag 0 is a hit for exact_lag only. */
  lemma EqualLagDisagrees<T>(x: T)
    ensures ExactLag.Finish(ExactLag.Run(ExactLag.NewState(), [ExactLag.LagRow(Some(x), Some(0), 0)]))
         == Success(Some(x))
    ensures ExactRowLag.Finish(ExactRowLag.Run(ExactRowLag.Initial(), [ExactRowLag.RowLagRow(Some(x), 0)]))
         == None
  {
    ExactLag.ExactLagResult(ExactLag.NewState(), [ExactLag.LagRow(Some(x), Some(0), 0)]);
    ExactRowLag.ExactRowLagResult([ExactRowLag.RowLagRow(Some(x), 0)]);
  }
}
