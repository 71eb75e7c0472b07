/** Bytes and 32-bit unsigned words. */
module Words {
  const TWO32: nat := 0x1_0000_0000

  type Byte = x: int | 0 <= x < 256
  type U32 = w: int | 0 <= w < TWO32
}
