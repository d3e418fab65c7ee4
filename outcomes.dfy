/** Value types shared by the whole model: the fixed-width integers the
    source uses and the ways a call of the source can end. */
module Outcomes {

  /** Rust's `u8`: a byte, or one radix digit as `to_radix_be` returns it. */
  newtype u8 = x: int | 0 <= x < 0x100

  /** Rust's `u32`: key sizes and thresholds. */
  newtype u32 = x: int | 0 <= x < 0x1_0000_0000

  datatype Option<T> = None | Some(value: T)

  /** Rust's `Result<T, &'static str>`. */
  datatype Result<T> = Ok(value: T) | Err(error: string)

  /** How a call of the source ends: it returns its `Result`, it panics
      (an `unwrap` of a failure, a division by zero), or it never returns. */
  datatype Run<T> = Returns(result: Result<T>) | Panics(reason: string) | Diverges
}
