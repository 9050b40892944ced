/** Kotlin's nullable types (`T?`) and the outcome of a call that may throw. */
module Wrappers {

  datatype Option<+T> = None | Some(value: T)

  /** The outcome of an operation that may fail with an error instead of throwing. */
  datatype Result<+R, +E> = Ok(value: R) | Err(error: E)
}
