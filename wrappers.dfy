/** Option and Result, for the optional fields of decoded messages and for error returns, and the byte type. */
module Wrappers {

  datatype Option<+T> = None | Some(value: T)

  datatype Result<+T, +E> = Ok(value: T) | Err(error: E)

  /** An octet of a packet or of a message buffer. */
  newtype byte = b: int | 0 <= b < 256
}
