/** The 32-bit words of the source, as integers. */
module Words {
  const TWO32 := 0x1_0000_0000

  type Word = x: int | 0 <= x < TWO32
}
