/** Unsigned 32-bit words and the reduction that stores a result in one. */
module Words {
  const WORD := 0x1_0000_0000

  type Word = x: int | 0 <= x < 0x1_0000_0000

  function Wrap(x: int): (r: Word)
    ensures 0 <= x < WORD ==> r == x
    ensures -WORD <= x < 0 ==> r == x + WORD
    ensures WORD <= x < 2 * WORD ==> r == x - WORD
  {
    x % WORD
  }

  /** The word stored for a number differs from it by a multiple of 2^32. */
  lemma WrapIsResidue(x: int)
    ensures (x - Wrap(x)) % WORD == 0
  {
  }
}
