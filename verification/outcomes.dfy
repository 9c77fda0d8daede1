/** Failure-carrying result types shared by the rest of the model. */
module Outcomes {

  /** A value that may be absent: JavaScript's `undefined`/`null`, or a C NULL pointer. */
  datatype Option<+T> = None | Some(value: T)

  /** The outcome of an operation that either produces a value or fails with an error. */
  datatype Result<+T, +E> = Ok(value: T) | Err(error: E)
}
