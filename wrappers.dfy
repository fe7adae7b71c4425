/** Optional values and results with an error, shared by every module of the model. */
module Wrappers {

  /** A value that may be absent; the service returns null where this model returns None. */
  datatype Option<+T> = None | Some(value: T)

  /** The outcome of an operation that can throw: its value, or the error that ended it. */
  datatype Result<+T, +E> = Ok(value: T) | Err(error: E)
}
