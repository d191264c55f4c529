/** The machine integer types the program's values are held in. */
module Ints {
  /** Rust's `u16`, the type of USB vendor and product ids. */
  newtype u16 = x: int | 0 <= x < 0x1_0000

  const U16_MAX: int := 0xFFFF
}
