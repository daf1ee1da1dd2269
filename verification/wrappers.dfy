/** Failure-carrying return types used by the index's operations. */
module Wrappers {

  /** An optional value: the result of a query that may find nothing. */
  datatype Option<+T> = None | Some(value: T)

  /** A value or the reason it could not be produced. */
  datatype Result<+T, +E> = Success(value: T) | Failure(error: E)
}
