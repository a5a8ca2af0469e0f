/** Optional values and results shared by the other modules. */
module Wrappers {

  /** A value that may be absent: a NULL pointer, an unset data slot. */
  datatype Option<+T> = None | Some(value: T)

  /** The outcome of an operation that either yields a value or hits a fault. */
  datatype Result<+R, +E> = Success(value: R) | Failure(error: E)
}
