/** Option and Result, the two shapes JavaScript's `null` and thrown errors take in this model. */
module Wrappers {

  /** A value that may be absent (`null` in the source). */
  datatype Option<+T> = None | Some(value: T) {
    function GetOr(default: T): T {
      match this
      case Some(v) => v
      case None => default
    }
  }

  /** The outcome of an operation that can fail with a classified error. */
  datatype Result<+R, +E> = Success(value: R) | Failure(error: E)
}
