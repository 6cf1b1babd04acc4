/** Option and Result, the shapes of Rust's `Option` and `anyhow::Result` used by the parser. */
module Wrappers {

  datatype Option<+T> = None | Some(value: T)

  datatype Result<+T, +E> = Success(value: T) | Failure(error: E)
}
