/** Optional values and results with an error, as used throughout the model. */
module Wrappers {

  /** A value that may be absent; Python's `None` is `None` here. */
  datatype Option<+T> = None | Some(value: T)

  /** Either a value or the exception a Python call raised instead of returning. */
  datatype Result<+T, +E> = Ok(value: T) | Err(error: E)
}
