/** Optional values and success/failure results, standing in for Python's
    `Optional[...]` returns and `(bool, value)` result tuples. */
module Wrappers {

  datatype Option<+T> = None | Some(value: T)

  /** `(True, value)` / `(False, error)` result pairs. */
  datatype Result<+T, +E> = Success(value: T) | Failure(error: E)
}
