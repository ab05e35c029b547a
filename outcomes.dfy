/** Values that stand for Python's `None` and for a raised exception. */
module Outcomes {

  datatype Option<+T> = None | Some(value: T)

  /** The result of a construction that either yields an object or raises. */
  datatype Result<+T, +E> = Success(value: T) | Failure(error: E)

  /** The result of a statement that either completes or raises. */
  datatype Outcome<+E> = Pass | Fail(error: E)
}
