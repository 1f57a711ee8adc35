/** Values shared by every part of the model. */
module Wrappers {
  /** The usual optional value. */
  datatype Option<+T> = None | Some(value: T)
}

module Bytes {
  /** An unsigned 8-bit integer (Rust's `u8`). Arithmetic that would leave this
      range panics in a debug build, so the model states it as a precondition or
      as an explicit panic outcome wherever the program can reach it. */
  type Byte = b: int | 0 <= b < 256
}
