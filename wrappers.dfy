/** Failure-carrying values used in place of Rust's `Option`, `Result<T, E>` and `Result<(), E>`. */
module Wrappers {

  datatype Option<+T> = None | Some(value: T)

  datatype Result<+T, +E> = Ok(value: T) | Err(error: E)

  /** A `Result<(), E>`: either success or an error value. */
  datatype Outcome<+E> = Pass | Fail(error: E)
}
