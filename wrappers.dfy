/** Optional values and results shared by the model's modules. */
module Wrappers {

  /** Swift's `Optional`. */
  datatype Option<+T> = None | Some(value: T) {
    function GetOr(default: T): T {
      match this
      case Some(v) => v
      case None => default
    }
  }

  /** Swift's `Result`: either a value or the error a throwing call raised. */
  datatype Result<+T, +E> = Success(value: T) | Failure(error: E)
}
