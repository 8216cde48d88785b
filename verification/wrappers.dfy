/** Option and Result, the JavaScript `null`-or-value and throw-or-return shapes. */
module Wrappers {

  /** A value that may be absent (`null` / `undefined` in the source). */
  datatype Option<+T> = None | Some(value: T) {

    /** The value, or `default` when absent: the `??` operator. */
    function GetOr(default: T): T {
      match this
      case Some(v) => v
      case None => default
    }
  }

  /** The outcome of an operation that may throw: a value or the thrown error. */
  datatype Result<+R, +E> = Ok(value: R) | Err(error: E)
}
