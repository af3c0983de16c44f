/** Optional values and error results, standing in for java.util.Optional and for
    methods that throw instead of returning. */
module Wrappers {

  /** java.util.Optional, and also a field of the source that may hold null. */
  datatype Option<T> = None | Some(value: T)

  /** The result of a query that either yields a value or throws. */
  datatype Result<R, E> = Success(value: R) | Failure(error: E)

  /** The result of a command that either completes or throws. */
  datatype Outcome<E> = Pass | Fail(error: E)
}
