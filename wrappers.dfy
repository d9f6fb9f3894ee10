/** Optional values and fallible results, after Rust's `Option` and `Result<T, ()>`. */
module Wrappers {
  datatype Option<T> = None | Some(value: T)

  /** A result whose error carries no information, as in `Result<T, ()>`. */
  datatype Result<T> = Ok(value: T) | Err
}
