/** Failure-carrying values used throughout the model: `Option` for Rust's
    `Option`, `Result` for a computation that may end in a panic. */
module Wrappers {

  datatype Option<+T> = None | Some(value: T)

  datatype Result<+T, +E> = Success(value: T) | Failure(error: E)
}
