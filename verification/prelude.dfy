/** Small shared vocabulary: Rust's `u8`, `Option` and `Result`. */
module Prelude {

  /** An unsigned 8-bit integer (Rust `u8`). */
  type Byte = b: int | 0 <= b < 256

  datatype Option<+T> = None | Some(value: T)

  datatype Result<+T, +E> = Ok(value: T) | Err(error: E)
}
