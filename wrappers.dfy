/** Failure-carrying results, used in place of the exceptions the connector raises. */
module Wrappers {

  datatype Option<+T> = None | Some(value: T)

  /** The value of an operation that returns, or the error it raises. */
  datatype Result<+R, +E> = Success(value: R) | Failure(error: E)

  /** The result of an operation that returns nothing, or the error it raises. */
  datatype Outcome<+E> = Pass | Fail(error: E)
}
