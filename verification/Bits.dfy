/** Numbers of eight bits, as integers and as bit vectors. */
module Bits {

  lemma IntBits(a: int)
    requires 0 <= a < 256
    ensures (a as bv8) as int == a
  {
  }

  /** Where no bit is set in both, bitwise or is addition. */
  lemma DisjointBits(x: bv8, y: bv8)
    requires x & 0x0f == 0 && y & 0xf0 == 0
    ensures (x | y) as int == x as int + y as int
  {
  }
}
