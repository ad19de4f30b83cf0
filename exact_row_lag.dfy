/**
 * exact_row_lag(value, lag_amount): a window aggregate that returns the first
 * row's value when the partition has exactly lag_amount rows, and null otherwise.
 */
module ExactRowLag {
  import opened Wrappers
  import opened Lifecycle

  /** The arguments of one call of iterate: value, lag amount (already coerced to int). */
  datatype RowLagRow<T> = RowLagRow(value: Option<T>, lag: Int)

  /** The fields of an ExactRowLagBuffer, as a value. */
  datatype RowLagState<T> = RowLagState(
    val: Option<T>,
    valSet: bool,
    firstRow: bool,
    rowsSeen: Long,
    lagAmount: Int)

  /** The number of arguments exact_row_lag takes. */
  const Arity: nat := 2

  /** Resolver: only a call with two arguments gets an evaluator (the exception names argument 3). */
  function GetEvaluator<D>(parameters: seq<D>): (r: Outcome)
    ensures r.Pass? <==> |parameters| == Arity
    ensures r.Fail? ==> r.error == ArgumentCount(3, Arity, |parameters|)
  {
    if |parameters| != Arity then Fail(ArgumentCount(3, Arity, |parameters|)) else Pass
  }

  /**
   * Evaluator init: any mode but COMPLETE is refused; otherwise the output type
   * is a copy of the value argument's type (the copy is the identity here).
   */
  function EvaluatorInit<D>(m: Mode, parameters: seq<D>): (r: Result<D, HiveError>)
    requires m == Complete ==> |parameters| > 0
    ensures r.Success? <==> m == Complete
    ensures r.Success? ==> r.value == parameters[0]
    ensures r.Failure? ==> r.error == HiveException("Only COMPLETE mode supported for the exact_row_lag function")
  {
    if m != Complete then Failure(HiveException("Only COMPLETE mode supported for the exact_row_lag function"))
    else Success(parameters[0])
  }

  /** The buffer's init(), whatever it held before: every field back to its initial value. */
  function Initial<T>(): RowLagState<T>
  {
    RowLagState(None, false, true, 0, 0)
  }

  /** One iterate call on the buffer's fields. */
  function Step<T>(s: RowLagState<T>, row: RowLagRow<T>): RowLagState<T>
  {
    var s1 := if s.firstRow then s.(firstRow := false, lagAmount := row.lag) else s;
    var s2 := if !s1.valSet then s1.(val := row.value, valSet := true) else s1;
    s2.(rowsSeen := LongInc(s2.rowsSeen))
  }

  /** The buffer after iterating over rows, one after another, from s. */
  function Run<T>(s: RowLagState<T>, rows: seq<RowLagRow<T>>): RowLagState<T>
    decreases |rows|
  {
    if rows == [] then s else Step(Run(s, rows[..|rows| - 1]), rows[|rows| - 1])
  }

  /** terminate on the buffer's fields: the int lag amount is widened and compared with the count. */
  function Finish<T>(s: RowLagState<T>): Option<T>
  {
    if s.rowsSeen == s.lagAmount then s.val else None
  }

  /** What exact_row_lag yields: the first value when there are exactly lag-amount rows, null otherwise. */
  function ExactRowLagOf<T>(rows: seq<RowLagRow<T>>): Option<T>
  {
    if rows != [] && |rows| == rows[0].lag then rows[0].value else None
  }

  /** The two latches of a buffer flip together. */
  predicate Latched<T>(s: RowLagState<T>)
  {
    s.valSet == !s.firstRow
  }

  /**
   * After a non-empty partition the lag amount and the value come from the
   * first row, and rowsSeen is the number of rows truncated to a `long`.
   */
  lemma {:induction false} RunCountsRows<T>(rows: seq<RowLagRow<T>>)
    ensures Run(Initial(), rows) ==
      if rows == [] then Initial() else RowLagState(rows[0].value, true, false, WrapLong(|rows|), rows[0].lag)
  {
    if |rows| > 1 {
      var init := rows[..|rows| - 1];
      RunCountsRows(init);
      assert init[0] == rows[0];
      WrapLongSucc(|init|);
    }
  }

  /** Every state a run from a reset buffer reaches keeps the two latches in step. */
  lemma RunKeepsLatched<T>(rows: seq<RowLagRow<T>>)
    ensures Latched(Run(Initial(), rows))
  {
    RunCountsRows(rows);
  }

  /** A partition of fewer than 2^63 rows yields its first value exactly when it has lag-amount rows. */
  lemma ExactRowLagResult<T>(rows: seq<RowLagRow<T>>)
    requires |rows| <= MaxLong
    ensures Finish(Run(Initial(), rows)) == ExactRowLagOf(rows)
  {
    RunCountsRows(rows);
  }

  /** A lag amount of zero or less never yields the captured value once a row has been seen. */
  lemma NonPositiveLagYieldsNull<T>(rows: seq<RowLagRow<T>>)
    requires rows != [] && |rows| <= MaxLong && rows[0].lag <= 0
    ensures Finish(Run(Initial(), rows)) == None
  {
    ExactRowLagResult(rows);
  }

  /** The per-partition aggregation buffer of exact_row_lag. */
  class ExactRowLagBuffer<T> {
    var val: Option<T>
    var valSet: bool
    var firstRow: bool
    var rowsSeen: Long
    var lagAmount: Int

    /** The rows iterated since init() last ran. */
    ghost var Rows: seq<RowLagRow<T>>

    function State(): RowLagState<T>
      reads this
    {
      RowLagState(val, valSet, firstRow, rowsSeen, lagAmount)
    }

    ghost predicate Valid()
      reads this
    {
      State() == Run(Initial(), Rows) && Latched(State())
    }

    /** new ExactRowLagBuffer(): Java's default field values, then init(). */
    constructor ()
      ensures Valid() && Rows == [] && State() == Initial()
    {
      val, valSet, firstRow, rowsSeen, lagAmount := None, false, false, 0, 0;
      new;
      Init();
    }

    /** Restores every field to its initial value. */
    method Init()
      modifies this
      ensures Valid() && Rows == [] && State() == Initial()
    {
      val := None;
      valSet := false;
      firstRow := true;
      rowsSeen := 0;
      lagAmount := 0;
      Rows := [];
    }
  }

  method GetNewAggregationBuffer<T>() returns (b: ExactRowLagBuffer<T>)
    ensures fresh(b) && b.Valid() && b.Rows == [] && b.State() == Initial()
  {
    b := new ExactRowLagBuffer();
  }

  method Reset<T>(b: ExactRowLagBuffer<T>)
    modifies b
    ensures b.Valid() && b.Rows == [] && b.State() == Initial()
  {
    b.Init();
  }

  method Iterate<T>(b: ExactRowLagBuffer<T>, row: RowLagRow<T>)
    requires b.Valid()
    modifies b
    ensures b.Valid() && b.Rows == old(b.Rows) + [row]
    ensures b.State() == Step(old(b.State()), row)
    ensures b.lagAmount == if old(b.firstRow) then row.lag else old(b.lagAmount)
    ensures b.val == if old(b.valSet) then old(b.val) else row.value
    ensures b.rowsSeen == LongInc(old(b.rowsSeen))
    ensures b.valSet && !b.firstRow
  {
    if b.firstRow {
      b.firstRow := false;
      b.lagAmount := row.lag;
    }
    if !b.valSet {
      b.val := row.value;
      b.valSet := true;
    }
    b.rowsSeen := LongInc(b.rowsSeen);
    b.Rows := b.Rows + [row];
    assert b.Rows[..|b.Rows| - 1] == old(b.Rows);
  }

  /** Partial aggregation is not supported: always throws. */
  function TerminatePartial<T>(b: ExactRowLagBuffer<T>): (r: Result<Option<T>, HiveError>)
    ensures r.Failure? && r.error == HiveException("terminatePartial not supported")
  {
    Failure(HiveException("terminatePartial not supported"))
  }

  /** Merging partial results is not supported: always throws. */
  function Merge<T, P>(b: ExactRowLagBuffer<T>, partial: P): (r: Outcome)
    ensures r.Fail? && r.error == HiveException("merge not supported")
  {
    Fail(HiveException("merge not supported"))
  }

  /**
   * The partition's result: the first row's value when rowsSeen equals the lag
   * amount, which for fewer than 2^63 rows means exactly lag-amount rows, else null.
   */
  method Terminate<T>(b: ExactRowLagBuffer<T>) returns (r: Option<T>)
    requires b.Valid()
    ensures r == Finish(b.State())
    ensures b.rowsSeen == WrapLong(|b.Rows|)
    ensures |b.Rows| <= MaxLong ==> r == ExactRowLagOf(b.Rows)
  {
    if b.rowsSeen == b.lagAmount {
      r := b.val;
    } else {
      r := None;
    }
    RunCountsRows(b.Rows);
    if |b.Rows| <= MaxLong {
      ExactRowLagResult(b.Rows);
    }
  }
}
