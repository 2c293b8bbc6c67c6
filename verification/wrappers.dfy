/** Failure-carrying datatypes shared by the whole model. */
module Wrappers {

  /** A value that may be absent: a JSON key that is missing, or a `None`. */
  datatype Option<+T> = None | Some(value: T)

  /** The outcome of a step that may raise: `Success` carries the value,
      `Failure` carries what was raised. */
  datatype Result<+T, +E> = Success(value: T) | Failure(error: E)
}
