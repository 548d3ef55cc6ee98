/** Optional values and error-carrying results, used wherever the original
    program has a missing cell (`None`/NaN) or raises an exception. */
module Wrappers {

  /** A value that may be absent (Python `None`, pandas NaN). */
  datatype Option<+T> = None | Some(value: T)

  /** The outcome of an operation that can fail with an error of type `E`. */
  datatype Result<+T, +E> = Success(value: T) | Failure(error: E)
}
