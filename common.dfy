/** Small shared vocabulary: optional values, results, and the fixed-width
    integer ranges the program works with. */
module Common {

  /** Rust's `Option`: used for the two optional children of a tree node. */
  datatype Option<T> = None | Some(value: T)

  /** Rust's `Result<T, _>` where the error carries no information
      (`Err(())` in the decoder, a `ParseIntError` in the hex parser). */
  datatype Result<T> = Ok(value: T) | Err

  /** An unsigned 8-bit value (`u8`). */
  type byte = x: int | 0 <= x < 0x100

  /** An unsigned 32-bit value (`u32`). */
  type u32 = x: int | 0 <= x < 0x1_0000_0000
}
