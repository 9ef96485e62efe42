/** Failure-compatible return types shared by the Merkle tree modules. */
module Wrappers {

  /** An optional value, as Rust's `Option`. */
  datatype Option<+T> = None | Some(value: T)

  /** A value or an error, as Rust's `Result`. */
  datatype Result<+T, +E> = Success(value: T) | Failure(error: E)

  /** The outcome of an operation that returns `Result<(), E>`. */
  datatype Outcome<+E> = Pass | Fail(error: E)
}
