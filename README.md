# exact_lag and exact_row_lag

A Dafny model of two Hive window aggregate functions, `exact_lag(value, order_by_value, lag_amount)` and `exact_row_lag(value, lag_amount)`. Each keeps one mutable aggregation buffer per partition. On the first row after the buffer is created or reset, the buffer latches the lag amount and the row's value. `exact_lag` also latches the row's ORDER BY key and overwrites a "last key" on every row. `exact_row_lag` counts the rows instead. `terminate` returns the latched value when the measured distance equals the lag amount, and null otherwise (for exact_lag, a null ORDER BY key throws instead). Only COMPLETE mode is supported. `terminatePartial` and `merge` always throw.

Layout:

- `wrappers.dfy` (`Wrappers`): `Option` stands for a nullable reference and `Result` for "returns or throws".
- `lifecycle.dfy` (`Lifecycle`): Java `long` and `int` as subset types; two's-complement wrap (`WrapLong`, `LongSub`, `LongInc`); the evaluator `Mode`s; the exceptions raised (`HiveError`).
- `exact_lag.dfy` (`ExactLag`) and `exact_row_lag.dfy` (`ExactRowLag`):
  - Each buffer is a class with the Java fields.
  - Its ghost fields record the rows iterated since the last `init()`.
  - `Valid()` ties the fields to a pure fold (`Run`) of a one-row step function (`Step`) over those rows.
  - The evaluator operations are module-level members that take the buffer, as the Java evaluator methods do.
- `lag_equivalence.dfy` (`LagEquivalence`): how the two aggregates relate.
- `scenarios.dfy` (`Scenarios`): sample partitions driven through the evaluator operations.

Behaviour of the code that is easy to get wrong (the model follows the code):

- A null ORDER BY key does not give a null result in exact_lag. `terminate` computes `lastOrderByVal - orderByVal` on boxed `Long`s, so a null key throws `NullPointerException`. This is modelled as `Failure(NullPointer)`. The same happens when `terminate` runs on a buffer that has never seen a row.
- With keys that step by one per row, the two aggregates agree only when `exact_row_lag` gets a lag amount one larger; with equal lag amounts they can differ: n rows span a key distance of n - 1, but `rowsSeen` is n.
- `ExactLagBuffer.init()` does not clear `orderByVal`, `lastOrderByVal` or `lagAmount`. The first row after a reset overwrites all three, so this only shows when `terminate` runs with no row since the reset: it then compares the previous partition's keys and yields null, or throws NullPointerException if either of those keys is null.
- The key distance is a wrapping 64-bit subtraction, and `rowsSeen++` also wraps.

## Model

| member | source | states |
|---|---|---|
| `Lifecycle.LongSub` | ql/src/java/org/apache/hadoop/hive/ql/udf/generic/GenericUDAFExactLag.java:174 | `long` subtraction equals the exact difference when that difference fits, and is congruent to it modulo 2^64 always |
| `Lifecycle.LongInc` | ql/src/java/org/apache/hadoop/hive/ql/udf/generic/GenericUDAFExactRowLag.java:145 | `rowsSeen++` adds one, except that the largest `long` steps to the smallest |
| `Lifecycle.WrapLongSucc` | ql/src/java/org/apache/hadoop/hive/ql/udf/generic/GenericUDAFExactRowLag.java:145 | counting up one `long` increment at a time gives the exact count truncated to 64 bits |
| `ExactLag.GetEvaluator` | ql/src/java/org/apache/hadoop/hive/ql/udf/generic/GenericUDAFExactLag.java:52-61 | an evaluator is returned iff there are exactly 3 arguments; otherwise an argument exception (argument id 3, expected 3, actual count) |
| `ExactLag.EvaluatorInit` | ql/src/java/org/apache/hadoop/hive/ql/udf/generic/GenericUDAFExactLag.java:97-109 | succeeds iff the mode is COMPLETE, returning the value argument's type; every other mode throws the "Only COMPLETE mode supported" exception |
| `ExactLag.ExactLagBuffer.constructor` | ql/src/java/org/apache/hadoop/hive/ql/udf/generic/GenericUDAFExactLag.java:77-80 | a new buffer has null keys, no value, both latches armed and lag amount 0 |
| `ExactLag.ExactLagBuffer.Init` | ql/src/java/org/apache/hadoop/hive/ql/udf/generic/GenericUDAFExactLag.java:82-87 | clears the value and re-arms both latches; the two keys and the lag amount are left unchanged |
| `ExactLag.GetNewAggregationBuffer` | ql/src/java/org/apache/hadoop/hive/ql/udf/generic/GenericUDAFExactLag.java:112-115 | returns a fresh buffer in the initial state |
| `ExactLag.Reset` | ql/src/java/org/apache/hadoop/hive/ql/udf/generic/GenericUDAFExactLag.java:118-121 | has exactly the effect of the buffer's `init()` |
| `ExactLag.Iterate` | ql/src/java/org/apache/hadoop/hive/ql/udf/generic/GenericUDAFExactLag.java:124-156 | the lag amount changes only on the first row; value and first key change only while `valSet` is false; the last key becomes this row's key (null stays null); afterwards `valSet` and `!firstRow` hold |
| `ExactLag.TerminatePartial` | ql/src/java/org/apache/hadoop/hive/ql/udf/generic/GenericUDAFExactLag.java:159-162 | always throws "terminatePartial not supported", whatever the buffer |
| `ExactLag.Merge` | ql/src/java/org/apache/hadoop/hive/ql/udf/generic/GenericUDAFExactLag.java:165-168 | always throws "merge not supported", whatever the buffer and partial |
| `ExactLag.Terminate` | ql/src/java/org/apache/hadoop/hive/ql/udf/generic/GenericUDAFExactLag.java:171-179 | after at least one row: the first value iff both keys are non-null and last key minus first key (wrapping) equals the lag amount; null when both are non-null but the distance differs; NullPointerException when either key is null. With no rows since a reset, it uses the stale keys and never yields a value |
| `ExactLag.RunLatchesFirstRow` | ql/src/java/org/apache/hadoop/hive/ql/udf/generic/GenericUDAFExactLag.java:128-154 | after any non-empty partition, lag amount, value and first key are the first row's and the last key is the last row's, whatever later rows carry and whatever the buffer held before |
| `ExactLag.RunKeepsLatched` | ql/src/java/org/apache/hadoop/hive/ql/udf/generic/GenericUDAFExactLag.java:128-148 | `valSet == !firstRow` holds after `init()` and after every run of `iterate` calls |
| `ExactLag.ResetForgetsPartition` | ql/src/java/org/apache/hadoop/hive/ql/udf/generic/GenericUDAFExactLag.java:82-87 | although `init()` keeps the old keys and lag amount, after one row a reset buffer and a new buffer are identical |
| `ExactLag.ExactLagResult` | ql/src/java/org/apache/hadoop/hive/ql/udf/generic/GenericUDAFExactLag.java:124-179 | `terminate` after any non-empty partition equals the result read off its first and last rows alone |
| `ExactLag.TerminateWithoutRows` | ql/src/java/org/apache/hadoop/hive/ql/udf/generic/GenericUDAFExactLag.java:171-179 | `terminate` on a never-iterated buffer throws NullPointerException; right after a reset it throws iff a stale key is null, and otherwise yields null |
| `ExactLag.WrappedDistance` | ql/src/java/org/apache/hadoop/hive/ql/udf/generic/GenericUDAFExactLag.java:174 | a partition whose key falls from the largest `long` to the smallest has distance 1 and matches lag amount 1 |
| `ExactRowLag.GetEvaluator` | ql/src/java/org/apache/hadoop/hive/ql/udf/generic/GenericUDAFExactRowLag.java:52-61 | an evaluator is returned iff there are exactly 2 arguments; otherwise an argument exception (argument id 3, expected 2, actual count) |
| `ExactRowLag.EvaluatorInit` | ql/src/java/org/apache/hadoop/hive/ql/udf/generic/GenericUDAFExactRowLag.java:98-110 | succeeds iff the mode is COMPLETE, returning the value argument's type; every other mode throws |
| `ExactRowLag.ExactRowLagBuffer.constructor` | ql/src/java/org/apache/hadoop/hive/ql/udf/generic/GenericUDAFExactRowLag.java:76-79 | a new buffer is in the initial state: no value, latches armed, count 0, lag amount 0 |
| `ExactRowLag.ExactRowLagBuffer.Init` | ql/src/java/org/apache/hadoop/hive/ql/udf/generic/GenericUDAFExactRowLag.java:81-88 | restores every field to its initial value, whatever the buffer held |
| `ExactRowLag.GetNewAggregationBuffer` | ql/src/java/org/apache/hadoop/hive/ql/udf/generic/GenericUDAFExactRowLag.java:113-116 | returns a fresh buffer in the initial state |
| `ExactRowLag.Reset` | ql/src/java/org/apache/hadoop/hive/ql/udf/generic/GenericUDAFExactRowLag.java:119-122 | puts the buffer back in the initial state |
| `ExactRowLag.Iterate` | ql/src/java/org/apache/hadoop/hive/ql/udf/generic/GenericUDAFExactRowLag.java:125-146 | the lag amount changes only on the first row; the value only while `valSet` is false; `rowsSeen` goes up by one (wrapping); afterwards `valSet` and `!firstRow` hold |
| `ExactRowLag.TerminatePartial` | ql/src/java/org/apache/hadoop/hive/ql/udf/generic/GenericUDAFExactRowLag.java:149-152 | always throws "terminatePartial not supported" |
| `ExactRowLag.Merge` | ql/src/java/org/apache/hadoop/hive/ql/udf/generic/GenericUDAFExactRowLag.java:155-158 | always throws "merge not supported" |
| `ExactRowLag.Terminate` | ql/src/java/org/apache/hadoop/hive/ql/udf/generic/GenericUDAFExactRowLag.java:161-169 | `rowsSeen` is the number of rows since the reset, truncated to `long`; for fewer than 2^63 rows the result is the first value iff there were exactly lag-amount rows, otherwise null |
| `ExactRowLag.RunCountsRows` | ql/src/java/org/apache/hadoop/hive/ql/udf/generic/GenericUDAFExactRowLag.java:129-145 | after n > 0 rows, value and lag amount are the first row's, both latches are flipped and `rowsSeen` is n truncated to `long`; after none the buffer is initial |
| `ExactRowLag.RunKeepsLatched` | ql/src/java/org/apache/hadoop/hive/ql/udf/generic/GenericUDAFExactRowLag.java:129-143 | `valSet == !firstRow` holds after `init()` and after every run of `iterate` calls |
| `ExactRowLag.ExactRowLagResult` | ql/src/java/org/apache/hadoop/hive/ql/udf/generic/GenericUDAFExactRowLag.java:161-169 | for fewer than 2^63 rows, `terminate` yields the first value iff the partition is non-empty and has exactly lag-amount rows, else null |
| `ExactRowLag.NonPositiveLagYieldsNull` | ql/src/java/org/apache/hadoop/hive/ql/udf/generic/GenericUDAFExactRowLag.java:164 | a lag amount of 0 or less never yields the value once a row has been seen |
| `LagEquivalence.ExactLagIsShiftedRowLag` | ql/src/java/org/apache/hadoop/hive/ql/udf/generic/GenericUDAFExactLag.java:174 | with keys k, k+1, … exact_lag at lag L gives exactly what exact_row_lag gives at lag L + 1, for every non-empty partition and every L below the largest `int` |
| `LagEquivalence.EqualLagDisagrees` | ql/src/java/org/apache/hadoop/hive/ql/udf/generic/GenericUDAFExactLag.java:174 | with equal lag amounts the two differ: one row with key 0 at lag 0 is a hit for exact_lag and null for exact_row_lag |

## Left out

- Type machinery is not modelled. This covers the `ObjectInspector`s, `getStandardObjectInspector` and `copyToStandardObject`. The value is an abstract type `T` and the deep copy is the identity. `EvaluatorInit` returns the value argument's type descriptor unchanged.
- Coercion is not modelled. The lag amount arrives as an already-coerced `int` (`PrimitiveObjectInspectorUtils.getInt`), and ORDER BY keys arrive as nullable `long`s. A failing coercion and the `ClassCastException` of the `(Long)` cast are not modelled.
- `super.init(m, parameters)` and the `AbstractGenericUDAFResolver`/`GenericUDAFEvaluator` base classes are not part of this model. The recorded mode is not modelled.
- ExactLag.EvaluatorInit: in COMPLETE mode requires at least one argument type, because `parameters[0]` is read once the mode check passes; the array-index exception for an empty argument list is not modelled.
- ExactRowLag.EvaluatorInit: in COMPLETE mode requires at least one argument type, for the same reason.
- Logging (`LOG`) and the `@WindowFunctionDescription` metadata (`supportsWindow`, `pivotResult`, `impliesOrder`) carry no behaviour.
- `createEvaluator` is folded into `GetEvaluator`, which returns `Pass` in place of an evaluator object.
- ExactRowLag.ExactRowLagResult: holds only for partitions of fewer than 2^63 rows, beyond which `rowsSeen` wraps; `ExactRowLag.RunCountsRows` gives the wrapped count for any length.
- ExactRowLag.NonPositiveLagYieldsNull: holds only for partitions of fewer than 2^63 rows, for the same reason.
- ExactRowLag.Terminate: its exact-row-count clause holds only for fewer than 2^63 rows; its wrapped-count clause holds always.
