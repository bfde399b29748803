/** Bytes, and the Option used for a decode that panics. */
module ByteStrings {

  /** Rust's `u8`. */
  newtype u8 = x: int | 0 <= x < 256

  datatype Option<T> = None | Some(value: T)
}
