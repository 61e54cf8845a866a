/** Optional values and results used by the filter translator. */
module Wrappers {

  /** An optional value: a field that is either set or left out. */
  datatype Option<+T> = None | Some(value: T)

  /** The outcome of an operation that returns a value or raises an error. */
  datatype Result<+R, +E> = Success(value: R) | Failure(error: E)
}
