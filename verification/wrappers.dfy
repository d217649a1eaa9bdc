/** Failure-carrying datatypes shared by the modules of the DNS question reader. */
module Wrappers {

  /** A value that may be absent, as Rust's `Option`. */
  datatype Option<+T> = None | Some(value: T)

  /** A value or an error describing why it could not be produced. */
  datatype Result<+T, +E> = Success(value: T) | Failure(error: E)
}
