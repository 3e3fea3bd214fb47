/** Optional values and results with an error, as the rest of the model uses them. */
module Wrappers {

  /** A value that may be absent: a GraphQL argument that was not given is `None`. */
  datatype Option<+T> = None | Some(value: T)

  /** The outcome of a resolver: a value, or the error the call rejects with. */
  datatype Result<+T, +E> = Success(value: T) | Failure(error: E)
}
