/** Wrappers for the source's nullable values and exceptions. */
module Wrappers {

  /** A value that may be absent (a Java `null` or an empty `Optional`). */
  datatype Option<+T> = None | Some(value: T)

  /** Either a result or the error kind the source throws instead. */
  datatype Result<+T, +E> = Success(value: T) | Failure(error: E)

  /** The outcome of an operation that returns nothing (`void`) or throws. */
  datatype Outcome<+E> = Pass | Fail(error: E)
}
