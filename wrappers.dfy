/** Option, Result and Outcome: the shapes of "maybe a value", "a value or an error"
    and "done or an error" used throughout the model. */
module Wrappers {

  /** A value that may be absent (JavaScript's `undefined`). */
  datatype Option<+T> = None | Some(value: T)

  /** A computed value, or the error that a callback would receive instead. */
  datatype Result<+T, +E> = Ok(value: T) | Err(error: E)

  /** An operation that returns nothing on success, or the error it failed with. */
  datatype Outcome<+E> = Pass | Fail(error: E)
}
