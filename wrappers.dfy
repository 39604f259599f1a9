/** Wrappers for the source's `None` values and raised exceptions. */
module Wrappers {

  /** A value that may be absent (Python's `X | None`). */
  datatype Option<+T> = None | Some(value: T)

  /** The outcome of an operation that returns nothing but may raise `error`. */
  datatype Outcome<+E> = Pass | Fail(error: E)

  /** A value, or the exception raised instead of returning it. */
  datatype Result<+R, +E> = Success(value: R) | Failure(error: E)
}
