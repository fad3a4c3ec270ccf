/** Optional values and results shared by the model: an optional value and a
    success-or-error outcome. */
module Wrappers {

  /** A value that may be absent (Python's `None`). */
  datatype Option<+T> = None | Some(value: T)

  /** The outcome of an operation that either produces a value or fails. */
  datatype Result<+T, +E> = Success(value: T) | Failure(error: E)

  /** Python truthiness of an optional string: present and non-empty. */
  predicate IsTruthy(o: Option<string>) {
    o.Some? && |o.value| > 0
  }
}
