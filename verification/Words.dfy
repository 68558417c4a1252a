// Unsigned 32-bit arithmetic.
module Words {
  const WORD := 0x1_0000_0000

  type Word = h: int | 0 <= h < WORD
}
