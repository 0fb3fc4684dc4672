/** Failure-carrying datatypes shared by the store and the code pool. */
module Wrappers {

  /** A value that may be missing, as Python's `None` return. */
  datatype Option<+T> = None | Some(value: T)

  /** The outcome of a call that either returns a value or raises an exception. */
  datatype Result<+R, +E> = Success(value: R) | Failure(error: E)
}
