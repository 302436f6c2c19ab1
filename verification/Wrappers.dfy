/** Failure-compatible wrappers used by the heap's constructors: an optional
    value (the comparator that may be absent) and a value-or-error result. */
module Wrappers {

  /** Some value or nothing; `None` stands for a nil function value. */
  datatype Option<+T> = None | Some(value: T)

  /** Either a successfully built value or an error message. */
  datatype Result<+R, +E> = Success(value: R) | Failure(error: E)
}
