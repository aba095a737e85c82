/** Optional values and the results of store operations that may throw. */
module Wrappers {

  datatype Option<+T> = None | Some(value: T)

  /** The exceptions the store lets escape: the only one this model represents is the one `JSON.parse` throws. */
  datatype Error = JsonSyntaxError

  /** The outcome of a call that either returns a value or throws. */
  datatype Result<+T> = Ok(value: T) | Err(error: Error)
}
