/** Machine integer ranges, byte strings and the failure-compatible wrappers
    shared by every other module of the store model. */
module Basics {

  /** Rust `i16`, `i32`, `i64` and `u64`, as ranges of the unbounded integers. */
  type int16 = x: int | -0x8000 <= x < 0x8000
  type int32 = x: int | -0x8000_0000 <= x < 0x8000_0000
  type int64 = x: int | -0x8000_0000_0000_0000 <= x < 0x8000_0000_0000_0000
  type uint64 = x: int | 0 <= x < 0x1_0000_0000_0000_0000

  const INT64_MAX: int := 0x7FFF_FFFF_FFFF_FFFF

  /** Rust `u8`. */
  type byte = x: int | 0 <= x < 0x100

  /** `Vec<u8>`: an opaque byte string the store never interprets. */
  type Bytes = seq<byte>

  /** Rust's `()`. */
  datatype Unit = Unit

  datatype Option<T> = None | Some(value: T)

  datatype Result<T, E> = Ok(value: T) | Err(error: E)
}
