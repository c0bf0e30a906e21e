/** The machine's word size. */
module Words {
  /** One more than the largest 32-bit value. */
  const WORD: nat := 0x1_0000_0000
}
