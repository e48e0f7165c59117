/** Failure-carrying datatypes used in place of Python's exceptions. */
module Wrappers {

  /** A value that may be absent: `None` stands for a lookup that raised. */
  datatype Option<+T> = None | Some(value: T)

  /** The outcome of a validating call: `Failure` stands for a raised `ValueError`. */
  datatype Result<+R, +E> = Success(value: R) | Failure(error: E)
}
