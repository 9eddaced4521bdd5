/** Failure-carrying values: the model's counterpart of Rust's `Option` and `Result`. */
module Wrappers {

  datatype Option<+T> = None | Some(value: T)

  datatype Result<+T, +E> = Ok(value: T) | Err(error: E)

  /** The unit value `()` returned by operations that only succeed or fail. */
  datatype Unit = Unit
}
