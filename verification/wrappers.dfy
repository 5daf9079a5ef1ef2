/** Failure-compatible wrappers used for the mailer's optional values and errors. */
module Wrappers {

  /** A value that may be absent (a nullable column, a failed reconstruction). */
  datatype Option<+T> = None | Some(value: T)

  /** The outcome of an operation that can fail with an error value. */
  datatype Result<+R, +E> = Success(value: R) | Failure(error: E)
}
