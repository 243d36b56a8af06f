/** Optional values and error-carrying results, standing in for Rust's
    `Option` and `anyhow::Result`, and the outcome of code that may
    panic. */
module Wrappers {

  datatype Option<+T> = None | Some(value: T)

  datatype Result<+T, +E> = Ok(value: T) | Err(error: E)

  /** A computation that either returns a value or panics. */
  datatype Completion<+T> = Returned(value: T) | Panic
}
