/** Option and Result, the two failure types the fabric's signatures use. */
module Wrappers {

  /** Rust's `Option<T>`. */
  datatype Option<+T> = None | Some(value: T)

  /** Rust's `Result<T, E>`; `Result<(), E>` is the shape of an insert's outcome. */
  datatype Result<+T, +E> = Ok(value: T) | Err(error: E)
}
