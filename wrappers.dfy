/** Option and Result values shared by the other modules. */
module Wrappers {

  /** A JavaScript value that may be null or undefined (None) or present (Some). */
  datatype Option<+T> = None | Some(value: T) {
    function GetOr(default: T): T {
      match this
      case Some(v) => v
      case None => default
    }
  }

  /** The outcome of a store operation that can be rejected. */
  datatype Result<+R, +E> = Ok(value: R) | Err(error: E)
}
