/** Failure-carrying return types used in place of the loader's exceptions. */
module Wrappers {

  datatype Option<+T> = None | Some(value: T)

  /** A value, or the error that the source raises as an exception. */
  datatype Result<+T, +E> = Success(value: T) | Failure(error: E)

  /** A check that either passes or fails with an error (a `void` method that may throw). */
  datatype Outcome<+E> = Pass | Fail(error: E)
}
