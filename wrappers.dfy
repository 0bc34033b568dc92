/** Failure-carrying values used for the tool's exceptions. */
module Wrappers {

  datatype Option<+T> = None | Some(value: T)

  datatype Result<+T, +E> = Success(value: T) | Failure(error: E)

  /** The outcome of an operation that either completes or raises `error`. */
  datatype Outcome<+E> = Pass | Fail(error: E)
}
