/** Value types shared by the whole model: an optional value (Python's
    `None` or a value), and the outcome of a Python call, which either
    returns a value or raises an exception that escapes the function. */
module Outcomes {

  /** A value that may be absent: a missing dictionary key, or a function
      that returns `None`. */
  datatype Option<+T> = None | Some(value: T) {

    /** The value, or `default` when absent (Python's `d.get(key, default)`). */
    function GetOr(default: T): T {
      match this
      case Some(v) => v
      case None => default
    }
  }

  /** The exceptions the modelled code can let escape. */
  datatype Exception = KeyError(key: string)

  /** A Python call either returns a value or raises. */
  datatype Outcome<+T> = Returns(value: T) | Raises(error: Exception)
}
