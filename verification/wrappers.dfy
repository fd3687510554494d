/** Option and Result datatypes used throughout the model. */
module Wrappers {

  /** A value that may be absent; Ruby's `nil` is `None`. */
  datatype Option<+T> = None | Some(value: T) {
    function GetOr(default: T): T {
      match this
      case Some(v) => v
      case None => default
    }
  }

  /** The outcome of an operation that can fail with an error `E`. */
  datatype Result<+R, +E> = Success(value: R) | Failure(error: E)
}
