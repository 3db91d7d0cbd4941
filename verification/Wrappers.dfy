/** The two failure-carrying types used throughout the model. */
module Wrappers {
  datatype Option<+T> = None | Some(value: T)

  datatype Result<+T, +E> = Ok(value: T) | Err(error: E)

  /** The error kinds the modelled code returns. */
  datatype IoError = InvalidData | InvalidInput | UnexpectedEof | Unsupported | NoReader
}
