/** Shared vocabulary of the model: bytes and optional values. */
module Prelude {

  /** One octet, as Python's `bytes` holds it. */
  type byte = x: int | 0 <= x < 256

  /** A value that may be absent: a missing session key, or a Python call that raises. */
  datatype Option<+T> = None | Some(value: T)
}
