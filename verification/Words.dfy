/** Machine words and memory cells. */
module Words {
  const TWO_32: nat := 0x1_0000_0000

  type byte = b: int | 0 <= b < 256
}
