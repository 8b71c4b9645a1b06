/** Option and Result values shared by the modules of this project. */
module Wrappers {

  /** A value that may be absent, as Rust's `Option<T>`. */
  datatype Option<+T> = None | Some(value: T)

  /** The outcome of an operation that can fail, as Rust's `Result<T, E>`. */
  datatype Result<+T, +E> = Ok(value: T) | Err(error: E)
}
