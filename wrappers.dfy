/** Failure-compatible wrappers: an absent value, and a value or the error that aborted the computation. */
module Wrappers {
  datatype Option<+T> = None | Some(value: T)

  datatype Result<+T, +E> = Success(value: T) | Failure(error: E)
}
