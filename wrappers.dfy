/** Failure-carrying datatypes shared by the scheduler model. */
module Wrappers {

  /** A value that may be absent (Python's `None`). */
  datatype Option<+T> = None | Some(value: T)

  /** The value of a computation, or the exception it raised. */
  datatype Result<+T, +E> = Ok(value: T) | Err(error: E)

  /** Whether a statement returned normally or raised `error`. */
  datatype Outcome<+E> = Pass | Fail(error: E)
}
