/** Failure-carrying return values used in place of Swift's optionals and traps. */
module Wrappers {

  /** A value that may be absent (Swift's `T?`). */
  datatype Option<+T> = None | Some(value: T)

  /** Either a value or the reason the computation stopped. */
  datatype Result<+T, +E> = Ok(value: T) | Err(error: E)
}
