/** Optional values and error-carrying results used across the model. */
module Wrappers {

  /** A value that may be missing: an empty cell, an absent column or Python's `None`. */
  datatype Option<+T> = None | Some(value: T) {

    /** The carried value, or `default` when there is none. */
    function GetOr(default: T): T {
      match this
      case Some(v) => v
      case None => default
    }
  }

  /** The outcome of a step that can stop the script. */
  datatype Result<+R, +E> = Ok(value: R) | Err(error: E)
}
