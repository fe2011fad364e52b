/** Optional values and results shared by every module. */
module Wrappers {

  /** An optional value, standing for Rust's `Option`. */
  datatype Option<+T> = None | Some(value: T)

  /** A value or an error, standing for Rust's `Result`. */
  datatype Result<+T, +E> = Success(value: T) | Failure(error: E)
}
