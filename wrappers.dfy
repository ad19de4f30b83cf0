/** Nullable values and exception-or-value results, in place of Java's null and throw. */
module Wrappers {

  /** A Java reference that may be null: None stands for null. */
  datatype Option<+T> = None | Some(value: T)

  /** The outcome of a Java method that returns a value or throws. */
  datatype Result<+R, +E> = Success(value: R) | Failure(error: E)
}
