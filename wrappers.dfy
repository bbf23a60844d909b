/** Option and Result, the two failure-carrying values the model needs. */
module Wrappers {

  datatype Option<+T> = None | Some(value: T)

  /** An I/O failure reported by the operating system (the cause is not modelled). */
  datatype IoError = IoError

  datatype Result<+T> = Ok(value: T) | Err(error: IoError)
}
