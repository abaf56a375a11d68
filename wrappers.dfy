/** Option and Result, the failure-carrying wrappers the rest of the model uses
    for Python's `None` returns and raised exceptions. */
module Wrappers {

  datatype Option<+T> = None | Some(value: T)

  /** The error kinds the modelled code raises. */
  datatype Error =
    | KeyError(key: string)
    | ValueError(message: string)
    | IndexError
    | TypeError(message: string)

  datatype Result<+R> = Ok(value: R) | Err(error: Error)
}
