/** Option and Result, the two wrapper types the tool's Rust code uses. */
module Wrappers {

  /** Rust's `Option<T>`. */
  datatype Option<+T> = None | Some(value: T)

  /** Rust's `Result<T, E>` (here always with an `anyhow::Error`-like error type). */
  datatype Result<+T, +E> = Ok(value: T) | Err(error: E)
}
