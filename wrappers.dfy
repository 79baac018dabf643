/** Failure-carrying result types used to model Python exceptions as values. */
module Wrappers {

  datatype Option<+T> = None | Some(value: T)

  /** The value of a call that either returns normally or raises. */
  datatype Result<+R, +E> = Success(value: R) | Failure(error: E)

  /** The value of a call that returns nothing on success. */
  datatype Outcome<+E> = Pass | Fail(error: E)
}
