/** Shared option, outcome and result types, used by every module of the model. */
module Wrappers {

  /** Python's `None` or a value. */
  datatype Option<+T> = None | Some(value: T) {
    /** The value, or `default` when there is none (Python's `x or default` on optional values). */
    function GetOr(default: T): T {
      if Some? then value else default
    }
  }

  /** The outcome of a validator: it returns normally, or raises `ValueError(message)`. */
  datatype Outcome = Pass | Fail(message: string)

  /** A value, or the error a Django view reports instead of it. */
  datatype Result<+T> = Ok(value: T) | Err(message: string)
}
