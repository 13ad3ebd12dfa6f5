/** Option and Result: the absent-or-present values and the error returns of the model. */
module Wrappers {

  /** A value that may be absent, used where the source distinguishes `undefined`. */
  datatype Option<+T> = None | Some(value: T) {

    /** The contained value, or `default` when absent. */
    function GetOr(default: T): T {
      match this
      case Some(v) => v
      case None => default
    }
  }

  /** Either a value or an error; stands for a JavaScript function that may throw. */
  datatype Result<+T, +E> = Ok(value: T) | Err(error: E)
}
