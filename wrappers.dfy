/** Option and Result, the two failure-compatible wrappers the model uses. */
module Wrappers {

  datatype Option<+T> = None | Some(value: T)

  /** The JavaScript exceptions the modelled code can raise. */
  datatype Error = TypeError

  datatype Result<+R> = Ok(value: R) | Err(error: Error)
}
