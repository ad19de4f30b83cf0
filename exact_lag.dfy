/**
 * exact_lag(value, order_by_value, lag_amount): a window aggregate that returns
 * the first row's value when the ORDER BY key of the partition's last row lies
 * exactly lag_amount above the key of its first row, and null otherwise.
 */
module ExactLag {
  import opened Wrappers
  import opened Lifecycle

  /** The arguments of one call of iterate: value, ORDER BY key, lag amount (already coerced to int). */
  datatype LagRow<T> = LagRow(value: Option<T>, orderBy: Option<Long>, lag: Int)

  /** The fields of an ExactLagBuffer, as a value. */
  datatype LagState<T> = LagState(
    val: Option<T>,
    orderByVal: Option<Long>,
    lastOrderByVal: Option<Long>,
    valSet: bool,
    firstRow: bool,
    lagAmount: Int)

  /** The number of arguments exact_lag takes. */
  const Arity: nat := 3

  /** Resolver: only a call with three arguments gets an evaluator. */
  function GetEvaluator<D>(parameters: seq<D>): (r: Outcome)
    ensures r.Pass? <==> |parameters| == Arity
    ensures r.Fail? ==> r.error == ArgumentCount(3, Arity, |parameters|)
  {
    if |parameters| != Arity then Fail(ArgumentCount(3, Arity, |parameters|)) else Pass
  }

  /**
   * Evaluator init: any mode but COMPLETE is refused; otherwise the output type
   * is a copy of the value argument's type (the copy is the identity here).
   */
  function EvaluatorInit<D>(m: Mode, parameters: seq<D>): (r: Result<D, HiveError>)
    requires m == Complete ==> |parameters| > 0
    ensures r.Success? <==> m == Complete
    ensures r.Success? ==> r.value == parameters[0]
    ensures r.Failure? ==> r.error == HiveException("Only COMPLETE mode supported for Rank function")
  {
    if m != Complete then Failure(HiveException("Only COMPLETE mode supported for Rank function"))
    else Success(parameters[0])
  }

  /** The buffer's init(): clears the value and re-arms both latches, and nothing else. */
  function InitState<T>(s: LagState<T>): LagState<T>
  {
    s.(val := None, valSet := false, firstRow := true)
  }

  /** A new buffer: Java's default field values, then init(). */
  function NewState<T>(): LagState<T>
  {
    InitState(LagState(None, None, None, false, false, 0))
  }

  /** One iterate call on the buffer's fields. */
  function Step<T>(s: LagState<T>, row: LagRow<T>): LagState<T>
  {
    var s1 := if s.firstRow then s.(firstRow := false, lagAmount := row.lag) else s;
    var s2 := if !s1.valSet then s1.(val := row.value, orderByVal := row.orderBy, valSet := true) else s1;
    s2.(lastOrderByVal := row.orderBy)
  }

  /** The buffer after iterating over rows, one after another, from s. */
  function Run<T>(s: LagState<T>, rows: seq<LagRow<T>>): LagState<T>
    decreases |rows|
  {
    if rows == [] then s else Step(Run(s, rows[..|rows| - 1]), rows[|rows| - 1])
  }

  /** terminate on the buffer's fields; unboxing a null key throws. */
  function Finish<T>(s: LagState<T>): Result<Option<T>, HiveError>
  {
    if s.lastOrderByVal.None? || s.orderByVal.None? then Failure(NullPointer)
    else if LongSub(s.lastOrderByVal.value, s.orderByVal.value) == s.lagAmount then Success(s.val)
    else Success(None)
  }

  /**
   * What exact_lag yields for a non-empty partition, read off its first and
   * last rows: an exception when either key is null, the first value when the
   * key distance is the first row's lag amount, null otherwise.
   */
  function ExactLagOf<T>(rows: seq<LagRow<T>>): Result<Option<T>, HiveError>
    requires |rows| > 0
  {
    var first, last := rows[0], rows[|rows| - 1];
    if first.orderBy.None? || last.orderBy.None? then Failure(NullPointer)
    else if LongSub(last.orderBy.value, first.orderBy.value) == first.lag then Success(first.value)
    else Success(None)
  }

  /** The two latches of a buffer flip together. */
  predicate Latched<T>(s: LagState<T>)
  {
    s.valSet == !s.firstRow
  }

  /** A buffer right after init(): both latches armed, no value. */
  predicate Armed<T>(s: LagState<T>)
  {
    s.firstRow && !s.valSet && s.val.None?
  }

  /**
   * After a non-empty run from an armed buffer, the lag amount, the value and
   * the first key come from the first row, the last key from the last row,
   * whatever the buffer held before.
   */
  lemma {:induction false} RunLatchesFirstRow<T>(s: LagState<T>, rows: seq<LagRow<T>>)
    requires Armed(s) && |rows| > 0
    ensures Run(s, rows) ==
      LagState(rows[0].value, rows[0].orderBy, rows[|rows| - 1].orderBy, true, false, rows[0].lag)
  {
    if |rows| > 1 {
      var init := rows[..|rows| - 1];
      RunLatchesFirstRow(s, init);
      assert init[0] == rows[0];
    }
  }

  /** Every state a run from an armed buffer reaches keeps the two latches in step. */
  lemma {:induction false} RunKeepsLatched<T>(s: LagState<T>, rows: seq<LagRow<T>>)
    requires Armed(s)
    ensures Latched(Run(s, rows))
  {
    if rows != [] {
      RunLatchesFirstRow(s, rows);
    }
  }

  /**
   * init() leaves the old keys and lag amount in place, yet once a row has
   * been iterated the buffer is as if it were new.
   */
  lemma ResetForgetsPartition<T>(s: LagState<T>, rows: seq<LagRow<T>>)
    requires |rows| > 0
    ensures Run(InitState(s), rows) == Run(NewState(), rows)
  {
    RunLatchesFirstRow(InitState(s), rows);
    RunLatchesFirstRow(NewState<T>(), rows);
  }

  /** terminate after a non-empty partition is decided by the first and last rows alone. */
  lemma ExactLagResult<T>(s: LagState<T>, rows: seq<LagRow<T>>)
    requires Armed(s) && |rows| > 0
    ensures Finish(Run(s, rows)) == ExactLagOf(rows)
  {
    RunLatchesFirstRow(s, rows);
  }

  /**
   * terminate with no row since the buffer was made throws; with no row since
   * a reset it compares the previous partition's keys and yields null.
   */
  lemma TerminateWithoutRows<T>(s: LagState<T>)
    ensures Finish(NewState<T>()) == Failure(NullPointer)
    ensures Finish(InitState(s)) ==
      if s.orderByVal.None? || s.lastOrderByVal.None? then Failure(NullPointer) else Success(None)
  {
  }

  /**
   * The key distance is a wrapping `long` subtraction: a partition that falls
   * from the largest key to the smallest is one unit long.
   */
  lemma WrappedDistance<T>(a: Option<T>, b: Option<T>, lag: Int)
    ensures Finish(Run(NewState(), [LagRow(a, Some(MaxLong), 1), LagRow(b, Some(MinLong), lag)])) == Success(a)
  {
    var rows := [LagRow(a, Some(MaxLong), 1), LagRow(b, Some(MinLong), lag)];
    ExactLagResult(NewState(), rows);
    assert LongSub(MinLong, MaxLong) == 1;
  }

  /** The per-partition aggregation buffer of exact_lag. */
  class ExactLagBuffer<T> {
    var val: Option<T>
    var orderByVal: Option<Long>
    var lastOrderByVal: Option<Long>
    var valSet: bool
    var firstRow: bool
    var lagAmount: Int

    /** The buffer's state when init() last ran. */
    ghost var Start: LagState<T>
    /** The rows iterated since init() last ran. */
    ghost var Rows: seq<LagRow<T>>

    function State(): LagState<T>
      reads this
    {
      LagState(val, orderByVal, lastOrderByVal, valSet, firstRow, lagAmount)
    }

    ghost predicate Valid()
      reads this
    {
      Armed(Start) && State() == Run(Start, Rows) && Latched(State())
    }

    /** new ExactLagBuffer(): Java's default field values, then init(). */
    constructor ()
      ensures Valid() && Rows == [] && State() == NewState()
    {
      val, orderByVal, lastOrderByVal := None, None, None;
      valSet, firstRow, lagAmount := false, false, 0;
      new;
      Init();
    }

    /** Clears the value and re-arms the latches; the keys and the lag amount stay. */
    method Init()
      modifies this
      ensures Valid() && Rows == [] && State() == InitState(old(State()))
      ensures val.None? && !valSet && firstRow
      ensures orderByVal == old(orderByVal) && lastOrderByVal == old(lastOrderByVal)
      ensures lagAmount == old(lagAmount)
    {
      val := None;
      valSet := false;
      firstRow := true;
      Start, Rows := State(), [];
    }
  }

  method GetNewAggregationBuffer<T>() returns (b: ExactLagBuffer<T>)
    ensures fresh(b) && b.Valid() && b.Rows == [] && b.State() == NewState()
  {
    b := new ExactLagBuffer();
  }

  method Reset<T>(b: ExactLagBuffer<T>)
    modifies b
    ensures b.Valid() && b.Rows == [] && b.State() == InitState(old(b.State()))
  {
    b.Init();
  }

  method Iterate<T>(b: ExactLagBuffer<T>, row: LagRow<T>)
    requires b.Valid()
    modifies b
    ensures b.Valid() && b.Start == old(b.Start) && b.Rows == old(b.Rows) + [row]
    ensures b.State() == Step(old(b.State()), row)
    ensures b.lagAmount == if old(b.firstRow) then row.lag else old(b.lagAmount)
    ensures old(b.valSet) ==> b.val == old(b.val) && b.orderByVal == old(b.orderByVal)
    ensures !old(b.valSet) ==> b.val == row.value && b.orderByVal == row.orderBy
    ensures b.lastOrderByVal == row.orderBy
    ensures b.valSet && !b.firstRow
  {
    if b.firstRow {
      b.firstRow := false;
      b.lagAmount := row.lag;
    }
    if !b.valSet {
      b.val := row.value;
      b.orderByVal := row.orderBy;
      b.valSet := true;
    }
    b.lastOrderByVal := row.orderBy;
    b.Rows := b.Rows + [row];
    assert b.Rows[..|b.Rows| - 1] == old(b.Rows);
  }

  /** Partial aggregation is not supported: always throws. */
  function TerminatePartial<T>(b: ExactLagBuffer<T>): (r: Result<Option<T>, HiveError>)
    ensures r.Failure? && r.error == HiveException("terminatePartial not supported")
  {
    Failure(HiveException("terminatePartial not supported"))
  }

  /** Merging partial results is not supported: always throws. */
  function Merge<T, P>(b: ExactLagBuffer<T>, partial: P): (r: Outcome)
    ensures r.Fail? && r.error == HiveException("merge not supported")
  {
    Fail(HiveException("merge not supported"))
  }

  /**
   * The partition's result: after at least one row, the first row's value when
   * the last key minus the first key equals the lag amount, null when it does
   * not, and a NullPointerException when either key is null.
   */
  method Terminate<T>(b: ExactLagBuffer<T>) returns (r: Result<Option<T>, HiveError>)
    requires b.Valid()
    ensures r == Finish(b.State())
    ensures b.Rows != [] ==> r == ExactLagOf(b.Rows)
    ensures b.Rows == [] ==>
      r == if b.orderByVal.None? || b.lastOrderByVal.None? then Failure(NullPointer) else Success(None)
  {
    if b.lastOrderByVal.None? || b.orderByVal.None? {
      r := Failure(NullPointer);
    } else if LongSub(b.lastOrderByVal.value, b.orderByVal.value) == b.lagAmount {
      r := Success(b.val);
    } else {
      r := Success(None);
    }
    if b.Rows != [] {
      ExactLagResult(b.Start, b.Rows);
    }
  }
}
