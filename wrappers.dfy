/** Optional values and results that may carry an error. */
module Wrappers {

  /** An optional value: `None` stands for Python's `None` (and for the
      `float('inf')` sentinel of the best-so-far search). */
  datatype Option<+T> = None | Some(value: T)

  /** The outcome of an operation that can raise: `Err` carries what the
      exception would be about. */
  datatype Result<+T, +E> = Ok(value: T) | Err(error: E)
}
