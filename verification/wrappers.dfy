/** Option and Result: the missing value (NaN) and the aborted run of the source. */
module Wrappers {

  /** `None` stands for a missing value (a pandas NaN). */
  datatype Option<+T> = None | Some(value: T) {

    /** The value, or `default` when it is missing. */
    function GetOr(default: T): T {
      match this
      case Some(v) => v
      case None => default
    }
  }

  /** The outcome of a run: a value, or the error that aborted it. */
  datatype Result<+R, +E> = Success(value: R) | Failure(error: E)
}
