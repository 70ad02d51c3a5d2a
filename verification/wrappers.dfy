/** Result and Option datatypes shared by the other modules. */
module Wrappers {

  /** Either a value or an error, as Rust's `Result<T, E>`. */
  datatype Result<+T, +E> = Ok(value: T) | Err(error: E)

  /** An optional value, as Rust's `Option<T>`. */
  datatype Option<+T> = None | Some(value: T)
}
