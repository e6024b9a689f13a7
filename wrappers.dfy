/** Optional values, for lookups and parses that may find nothing, and outcomes of steps that may raise. */
module Wrappers {
  datatype Option<+T> = None | Some(value: T)

  /** The value a step returns, or the message of the exception it raised. */
  datatype Result<+T> = Success(value: T) | Failure(error: string)
}
