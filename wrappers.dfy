/** Python's `None`-or-value and raise-or-return, as values. */
module Wrappers {

  /** An `Optional[...]` value: `None` or a present value. */
  datatype Option<+T> = None | Some(value: T)

  /** A call that either returns a value or raises an error. */
  datatype Result<+T, +E> = Success(value: T) | Failure(error: E)
}
