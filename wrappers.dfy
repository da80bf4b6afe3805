/** Failure-compatible result types shared by the rest of the model. */
module Wrappers {

  /** A value that may be absent: Python's `None` or a missing dictionary entry. */
  datatype Option<+T> = None | Some(value: T)

  /** The outcome of an operation that raises an exception in the source. */
  datatype Result<+T, +E> = Success(value: T) | Failure(error: E)
}
