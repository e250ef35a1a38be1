/** Optional values and results with an error, as the backend's queries and mutations produce them. */
module Wrappers {

  /** A value that may be absent (a `v.optional` field, or a query that found no row). */
  datatype Option<+T> = None | Some(value: T)

  /** The outcome of a Convex call that either returns a value or throws an error. */
  datatype Result<+R, +E> = Success(value: R) | Failure(error: E)

  /** The outcome of a Convex call that returns nothing or throws an error. */
  datatype Outcome<+E> = Pass | Fail(error: E)
}
