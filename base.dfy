/** Option and Result, the two wrappers the Rust code returns everywhere. */
module Base {

  datatype Option<+T> = None | Some(value: T)

  /** `Result<T, E>` as in Rust: `Ok` carries the value, `Err` the reason. */
  datatype Result<+T, +E> = Ok(value: T) | Err(error: E)

  /** Rust's `()`: the value of an operation that only succeeds or fails. */
  datatype Unit = Unit
}
