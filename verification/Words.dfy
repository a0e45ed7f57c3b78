/** The widths of the machine: 8-bit bytes, 32-bit ints, longs and unsigned words. */
module Words {
  type byte = bv8

  /** One more than the largest int or long, and than the largest unsigned word. */
  const INT_END := 0x8000_0000
  const WORD_END := 0x1_0000_0000

  /** What a 32-bit int or long holds that was given a larger value. */
  function Wrap(x: int): (r: int)
    ensures -INT_END <= r < INT_END && (-INT_END <= x < INT_END ==> r == x)
  {
    (x + INT_END) % WORD_END - INT_END
  }
}
