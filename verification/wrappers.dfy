/** Failure-carrying datatypes used in place of Python's `None` and exceptions. */
module Wrappers {

  /** An optional value: Python's `Optional[T]`. */
  datatype Option<+T> = None | Some(value: T)

  /** The outcome of an operation that either returns a value or raises an error. */
  datatype Result<+T, +E> = Success(value: T) | Failure(error: E)
}
