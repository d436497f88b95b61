/** Option and Result, the two failure-carrying types the AST builder returns. */
module Wrappers {

  /** Rust's `Option<T>`. */
  datatype Option<T> = None | Some(value: T)

  /** Rust's `Result<T, E>`: a value or an error. */
  datatype Result<T, E> = Success(value: T) | Failure(error: E)
}
