/** Failure-compatible wrappers shared by the catalog loader and the input checks. */
module Wrappers {

  /** A value that may be absent: Python's `None` versus a present value. */
  datatype Option<+T> = None | Some(value: T)

  /** The outcome of a check that either accepts a value or rejects it with an error. */
  datatype Result<+T, +E> = Success(value: T) | Failure(error: E)
}
