/** Failure-carrying values used across the model: an absent Python value
    (`None`) and the outcome of a call that may raise. */
module Wrappers {

  /** Python's `Optional[T]`: `None` or a present value. */
  datatype Option<+T> = None | Some(value: T) {

    /** The value if present, otherwise `default` (Python's `x if x is not None else default`,
        and `dict.get(key, default)` when the key is absent). */
    function GetOr(default: T): T
    {
      match this
      case Some(v) => v
      case None => default
    }
  }

  /** The outcome of a call that either returns a value or raises an exception. */
  datatype Result<+T> = Ok(value: T) | Raised(error: string)
}
