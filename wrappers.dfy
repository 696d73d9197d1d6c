/** Failure-compatible wrappers used for the page object's thrown errors. */
module Wrappers {

  datatype Option<+T> = None | Some(value: T)

  datatype Result<+T, +E> = Ok(value: T) | Err(error: E)

  /** The outcome of a step that yields no value: it passes or throws. */
  datatype Outcome<+E> = Pass | Fail(error: E)
}
