/** Optional values and results shared by every module of the model. */
module Wrappers {

  /** A value that may be absent: a request field left out, a row not found. */
  datatype Option<+T> = None | Some(value: T)

  /** The outcome of a request handler: a value on success, or the error it responds with. */
  datatype Result<+T, +E> = Ok(value: T) | Err(error: E)
}
