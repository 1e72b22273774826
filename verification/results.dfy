/** Optional values and success/failure results, used where the Python code
    works with possibly absent dictionary keys or raises an exception. */
module Results {

  /** A value that may be absent (a missing dictionary key, an unset variable). */
  datatype Option<+T> = None | Some(value: T)

  /** The outcome of a computation that either produces a value or stops
      with an error, as a raised exception does. */
  datatype Result<+T, +E> = Success(value: T) | Failure(error: E)
}
