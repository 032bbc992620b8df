/** Failure-carrying values: Java's `null` and thrown exceptions become data. */
module Wrappers {

  /** An absent or present value (a Java reference that may be `null`). */
  datatype Option<+T> = None | Some(value: T)

  /** The outcome of an operation that may throw: a value or the error it raised. */
  datatype Result<+T, +E> = Ok(value: T) | Err(error: E)
}
