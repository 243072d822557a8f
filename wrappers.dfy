/** Optional values and the error results that the program propagates with `?`. */
module Wrappers {

  datatype Option<T> = None | Some(value: T)

  /** An `anyhow::Result`: either a value or an error message. */
  datatype Result<T> = Ok(value: T) | Err(error: string)
}
