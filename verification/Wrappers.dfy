/** Optional values and results that may be an error, as the registry's `None` and exceptions. */
module Wrappers {
  datatype Option<+T> = None | Some(value: T)

  datatype Result<+T, +E> = Ok(value: T) | Error(error: E)
}
