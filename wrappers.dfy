/** Failure-carrying result types used across the route planner model. */
module Wrappers {

  /** A value that may be absent: an unresolved geocode, no candidate yet. */
  datatype Option<T> = None | Some(value: T)

  /** The outcome of an operation that raises in the source. */
  datatype Result<T, E> = Success(value: T) | Failure(error: E)
}
