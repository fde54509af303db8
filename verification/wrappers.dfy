/** Optional values, standing for JavaScript's `undefined` results. */
module Wrappers {

  datatype Option<+T> = None | Some(value: T)

  /** The outcome of an operation that can throw: its value, or the error it raised. */
  datatype Result<+T> = Ok(value: T) | Err(error: string)
}
