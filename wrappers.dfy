/** Optional values and error results, the model's form of Go's nil and error returns. */
module Wrappers {

  datatype Option<T> = None | Some(value: T)

  /** A value or an error message; an error is Go's `error` reduced to its text. */
  datatype Result<T> = Ok(value: T) | Err(error: string)
}
