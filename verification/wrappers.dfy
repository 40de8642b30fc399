/** Rust's `Option` and `Result`, as datatypes. */
module Wrappers {

  datatype Option<+T> = None | Some(value: T)

  /** `std::result::Result`: a handler either answers `Ok` or fails with an error. */
  datatype Result<+T, +E> = Ok(value: T) | Err(error: E)
}
