/** Option and Result, shaped after Rust's `Option<T>` and `Result<T, E>`. */
module Wrappers {

  datatype Option<+T> = None | Some(value: T)

  datatype Result<+T, +E> = Ok(value: T) | Err(error: E)

  /** Rust's `()`, the value of a `Result<(), E>` that succeeded. */
  datatype Unit = Unit
}
