/** Option and Result, the model's stand-ins for JavaScript's `undefined`/`null`
    and for operations that either return a value or throw. */
module Wrappers {

  datatype Option<+T> = None | Some(value: T) {

    /** The wrapped value, or `default` when there is none. */
    function GetOr(default: T): T {
      match this
      case Some(v) => v
      case None => default
    }
  }

  /** `Ok` for a normal return, `Err` for a thrown error. */
  datatype Result<+T, +E> = Ok(value: T) | Err(error: E)
}
