/**
 * What both lag aggregates share: Java's fixed-width integers, the evaluation
 * modes of a Hive aggregate evaluator and the exceptions the lifecycle raises.
 */
module Lifecycle {

  const MinLong: int := -0x8000_0000_0000_0000
  const MaxLong: int := 0x7fff_ffff_ffff_ffff
  const TwoTo64: int := 0x1_0000_0000_0000_0000

  /** Java `long`. */
  type Long = x: int | -0x8000_0000_0000_0000 <= x <= 0x7fff_ffff_ffff_ffff

  /** Java `int`. */
  type Int = x: int | -0x8000_0000 <= x <= 0x7fff_ffff

  /** Two's-complement truncation of a mathematical integer to a `long`. */
  function WrapLong(x: int): (r: Long)
    ensures MinLong <= x <= MaxLong ==> r == x
    ensures (x - r) % TwoTo64 == 0
  {
    (x - MinLong) % TwoTo64 + MinLong
  }

  /** Java `a - b` on two `long`s. */
  function LongSub(a: Long, b: Long): (r: Long)
    ensures MinLong <= a - b <= MaxLong ==> r == a - b
    ensures (a - b - r) % TwoTo64 == 0
  {
    WrapLong(a - b)
  }

  /** Java `x++` on a `long`: the largest value steps to the smallest. */
  function LongInc(x: Long): (r: Long)
    ensures x < MaxLong ==> r == x + 1
    ensures x == MaxLong ==> r == MinLong
  {
    WrapLong(x + 1)
  }

  /** Counting up one step at a time in `long` arithmetic lands where truncating the exact count does. */
  lemma WrapLongSucc(n: int)
    ensures LongInc(WrapLong(n)) == WrapLong(n + 1)
  {
    var q := (n - MinLong) / TwoTo64;
    assert n - MinLong == q * TwoTo64 + (n - MinLong) % TwoTo64;
  }

  /** The modes in which Hive may drive an aggregate evaluator. */
  datatype Mode = Partial1 | Partial2 | Final | Complete

  /** The exceptions the two aggregates raise. */
  datatype HiveError =
    | ArgumentCount(argumentId: int, expected: nat, got: nat)  // UDFArgumentTypeException
    | HiveException(message: string)
    | NullPointer                                               // unboxing a null Long

  /** The outcome of a Java method that returns nothing or throws. */
  datatype Outcome = Pass | Fail(error: HiveError)
}
