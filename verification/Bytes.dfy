/** Bytes, as the C sources see them, and the optional result used throughout. */
module Bytes {

  type byte = x: int | 0 <= x < 256

  type bytes = seq<byte>

  datatype Option<+T> = None | Some(value: T)
}
