/** Numbers and types that several components share. */
module Common {
  /** 2^32, where unsigned 32-bit numbers wrap around. */
  const TWO32: nat := 0x1_0000_0000

  type Byte = b: int | 0 <= b < 256

  function Min(a: int, b: int): int {
    if a < b then a else b
  }
}
