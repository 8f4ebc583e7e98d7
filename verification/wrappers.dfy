/** Failure-compatible wrappers shared by every module of the model. */
module Wrappers {

  /** A value that may be absent: a missing JSON key, a NULL column, a failed parse. */
  datatype Option<+T> = None | Some(value: T) {

    function GetOr(default: T): T {
      match this
      case Some(v) => v
      case None => default
    }
  }

  /** The outcome of a route or task: the new state, or the error the route answers with. */
  datatype Result<+T, +E> = Ok(value: T) | Err(error: E)
}
