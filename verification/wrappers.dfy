/** Failure-compatible wrapper datatypes used throughout the model. */
module Wrappers {

  /** A value that may be absent; stands in for JavaScript `null`/`undefined`. */
  datatype Option<+T> = None | Some(value: T)

  /** The outcome of an operation that the source expresses with `throw`. */
  datatype Result<+R, +E> = Success(value: R) | Failure(error: E)
}
