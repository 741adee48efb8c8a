/** Rust's `Option` and `Result`, as the iterator's functions return them. */
module Wrappers {
  /** A value that may be absent, as Rust's `Option<T>`. */
  datatype Option<+T> = None | Some(value: T)

  /** The outcome of a fallible step, as Rust's `Result<R, E>`. */
  datatype Result<+R, +E> = Success(value: R) | Failure(error: E)
}
