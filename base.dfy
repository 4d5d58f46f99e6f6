/** Small shared vocabulary: an optional value and the byte type. */
module Base {

  /** A value that may be absent (Rust's `Option`). */
  datatype Option<+T> = None | Some(value: T)

  /** An unsigned 8-bit value, as in Rust's `u8`. */
  newtype byte = b: int | 0 <= b < 256
}
