/** Optional values and results with an error, as java.util.Optional and thrown exceptions are modelled. */
module Wrappers {

  /** java.util.Optional: `None` is `Optional.empty()`. */
  datatype Option<+T> = None | Some(value: T)

  /** The outcome of a Java call that either returns a value or throws. */
  datatype Result<+T, +E> = Success(value: T) | Failure(error: E)
}
