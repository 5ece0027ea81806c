/** Small failure-carrying datatypes shared by every module of the model. */
module Wrappers {

  /** A value that may be absent: a missing dictionary key, a failed parse, a call that raised. */
  datatype Option<+T> = None | Some(value: T) {
    function GetOr(default: T): T {
      match this
      case Some(v) => v
      case None => default
    }
  }

  /** The larger of two integers (Python's `max` on two ints). */
  function Max(a: int, b: int): int {
    if a < b then b else a
  }

  /** The smaller of two integers (Python's `min` on two ints). */
  function Min(a: int, b: int): int {
    if a < b then a else b
  }
}
