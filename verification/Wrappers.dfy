/** Option and Result, standing for Python's `None`-or-value returns and for
    exceptions that propagate out of a call. */
module Wrappers {

  /** A value that may be absent: Python's `None` or an object. */
  datatype Option<+T> = None | Some(value: T)

  /** Either the call returned normally with `value`, or it raised `error`. */
  datatype Result<+R, +E> = Success(value: R) | Failure(error: E)
}
