/** Option and Result: the model's stand-ins for Go's nil results and its
    (value, error) return pairs. */
module Wrappers {

  /** A value that may be absent (a nil pointer, a failed parse). */
  datatype Option<+T> = None | Some(value: T)

  /** Either a value or the error that stopped its computation. */
  datatype Result<+T, +E> = Success(value: T) | Failure(error: E)
}
