/** Failure-carrying values used throughout the model. */
module Wrappers {

  /** A value that may be absent; `None` stands for JavaScript's `null` or
      `undefined`, or for a step that threw. */
  datatype Option<+T> = None | Some(value: T)

  /** A value, or the error that was thrown instead. */
  datatype Result<+T, +E> = Ok(value: T) | Err(error: E)
}
