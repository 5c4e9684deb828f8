/** Option and Result, shared by every module of the model. */
module Wrappers {

  /** A nullable reference or nullable value of the source (`string?`, `DateTime?`, `User?`). */
  datatype Option<+T> = None | Some(value: T) {
    function GetOr(default: T): T {
      match this
      case Some(v) => v
      case None => default
    }
  }

  /** A value or an error, for operations of the source that throw. */
  datatype Result<+T, +E> = Success(value: T) | Failure(error: E)
}
