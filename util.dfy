/** Small helper datatypes shared by the modules of this model. */
module Util {

  /** A value that may be missing; stands for a C pointer that may be NULL. */
  datatype Option<+T> = None | Some(value: T)

  /** Outcome of an operation that either yields a value or raises an error. */
  datatype Result<+T, +E> = Success(value: T) | Failure(error: E)

  function Min(a: int, b: int): int { if a <= b then a else b }
}
