/** Failure-carrying results and the byte type shared by the models. */
module Wrappers {
  datatype Option<+T> = None | Some(value: T)

  datatype Result<+T, +E> = Ok(value: T) | Err(error: E)

  /** Go's `uint8`/`byte`. */
  type byte = x: int | 0 <= x < 256

  const TWO_64: int := 0x1_0000_0000_0000_0000
  const TWO_63: int := 0x8000_0000_0000_0000
  const TWO_32: int := 0x1_0000_0000
}
