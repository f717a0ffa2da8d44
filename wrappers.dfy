/** Failure-compatible result types shared by the outline and kerning models. */
module Wrappers {

  datatype Option<+T> = None | Some(value: T)

  /** The value of a fallible operation, or the error it stopped with. */
  datatype Result<+R, +E> = Success(value: R) | Failure(error: E)

  /** The outcome of an operation that returns nothing on success (Rust's `Result<()>`). */
  datatype Outcome<+E> = Pass | Fail(error: E)
}
