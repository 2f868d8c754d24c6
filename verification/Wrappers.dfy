/** Failure-carrying results, and the byte strings every component stores. */
module Wrappers {

  datatype Option<+T> = None | Some(value: T)

  datatype Result<+T, +E> = Ok(value: T) | Err(error: E)

  type byte = n: nat | n < 256

  type Bytes = seq<byte>
}
