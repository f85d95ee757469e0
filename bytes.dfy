/** Rust's byte type, shared by the byte view and the Argon2 interface. */
module Bytes {

  /** Rust's `u8`. */
  newtype uint8 = x: int | 0 <= x < 0x100
}
