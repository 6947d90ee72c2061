/** Failure-compatible value wrappers shared by every module of the election model. */
module Wrappers {

  /** A value that may be absent: a missing document field, a missing store entry. */
  datatype Option<+T> = None | Some(value: T) {

    /** The wrapped value, or `default` when absent. */
    function GetOr(default: T): T {
      match this
      case Some(v) => v
      case None => default
    }
  }

  /** The outcome of an operation that can fail with an error value of type `E`. */
  datatype Result<+R, +E> = Ok(value: R) | Err(error: E)
}
