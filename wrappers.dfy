/** Option and Result types used for the JavaScript `null`/`undefined` results and
    for thrown errors (`throw new Error(...)`, C's `die(...)`). */
module Wrappers {

  datatype Option<+T> = None | Some(value: T) {
    function GetOr(default: T): T {
      match this
      case Some(v) => v
      case None => default
    }
  }

  datatype Result<+T, +E> = Ok(value: T) | Err(error: E)

  /** The outcome of a call that returns nothing but may throw. */
  datatype Outcome<+E> = Pass | Fail(error: E)
}
