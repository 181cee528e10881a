/** Option and Result values shared by the converter modules (plain datatypes, not used with `:-`). */
module Wrappers {

  /** A value that may be absent (Python's `None`, a missing dictionary key). */
  datatype Option<+T> = None | Some(value: T) {

    /** The wrapped value, or `default` when absent (Python's `dict.get(key, default)`). */
    function GetOr(default: T): T {
      match this
      case Some(v) => v
      case None => default
    }
  }

  /** The outcome of a step that may raise an exception that is not caught locally. */
  datatype Result<+T, +E> = Success(value: T) | Failure(error: E)
}
