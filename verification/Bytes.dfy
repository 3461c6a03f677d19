/** Bytes, the byte classes of the lexer, and the masks the C code tests them with. */
module Bytes {
  import opened Bits

  newtype byte = b: int | 0 <= b < 256

  type bytes = seq<byte>

  const TAB: byte := 0x09
  const LF: byte := 0x0A
  const CR: byte := 0x0D
  const SPACE: byte := 0x20
  const QUOTE: byte := 0x22
  const PLUS: byte := 0x2B
  const COMMA: byte := 0x2C
  const MINUS: byte := 0x2D
  const DOT: byte := 0x2E
  const SLASH: byte := 0x2F
  const COLON: byte := 0x3A
  const OPEN_BRACKET: byte := 0x5B
  const BACKSLASH: byte := 0x5C
  const CLOSE_BRACKET: byte := 0x5D
  const OPEN_CURLY: byte := 0x7B
  const CLOSE_CURLY: byte := 0x7D

  predicate Blank(b: byte) { b == SPACE || b == LF || b == CR || b == TAB }

  predicate Digit(b: byte) { 0x30 <= b <= 0x39 }

  predicate Exponent(b: byte) { b == 0x65 || b == 0x45 }

  function DigitValue(b: byte): nat
    requires Digit(b)
  {
    b as int - 0x30
  }

  /** The value of a hexadecimal digit, in the three ranges the lexer accepts. */
  predicate Hex(b: byte) { Digit(b) || 0x61 <= b <= 0x66 || 0x41 <= b <= 0x46 }

  function HexValue(b: byte): (v: byte)
    requires Hex(b)
    ensures v < 16
  {
    if Digit(b) then b - 0x30
    else if 0x61 <= b <= 0x66 then 10 + b - 0x61
    else 10 + b - 0x41
  }

  // Ranges of UTF-8 bytes.
  predicate Continuation(b: byte) { 0x80 <= b <= 0xBF }
  predicate Lead2(b: byte) { 0xC0 <= b <= 0xDF }
  predicate Lead3(b: byte) { 0xE0 <= b <= 0xEF }
  predicate Lead4(b: byte) { 0xF0 <= b <= 0xF7 }

  /** What the mask 0xd0 lets through after F0: the ranges 90..9F and B0..BF. */
  predicate AfterF0(b: byte) { 0x90 <= b <= 0x9F || 0xB0 <= b <= 0xBF }

  /** The leads F1..F3 and F5..F7, after which the lexer does not check the second byte. */
  predicate LooseLead(b: byte) { Lead4(b) && b != 0xF0 && b != 0xF4 }

  function And(b: byte, mask: bv8): bv8 { b as bv8 & mask }

  lemma ContinuationMasks(b: byte)
    ensures And(b, 0xe0) == 0xa0 <==> 0xA0 <= b <= 0xBF
    ensures And(b, 0xf0) == 0x80 <==> 0x80 <= b <= 0x8F
    ensures And(b, 0xc0) == 0x80 <==> Continuation(b)
  {
  }

  lemma AfterF0Mask(b: byte)
    ensures And(b, 0xd0) == 0x90 <==> AfterF0(b)
  {
  }

  lemma LeadMasks(b: byte)
    ensures And(b, 0xe0) == 0xc0 <==> Lead2(b)
    ensures And(b, 0xf0) == 0xe0 <==> Lead3(b)
  {
  }

  lemma LongLeadMasks(b: byte)
    ensures And(b, 0xf8) == 0xf0 <==> Lead4(b)
    ensures And(b, 0xf8) == 0xf8 <==> 0xF8 <= b
  {
  }

  function Or(a: byte, b: byte): byte { (a as bv8 | b as bv8) as byte }

  /** Into an empty lower half, bitwise or is addition. */
  lemma OrNibble(a: byte, v: byte)
    requires a % 16 == 0 && v < 16
    ensures Or(a, v) as int == a as int + v as int
  {
    LowHalfEmpty(a);
    HighHalfEmpty(v);
    DisjointBits(a as bv8, v as bv8);
    ByteBits(a);
    ByteBits(v);
    BitsByte(a as bv8 | v as bv8);
  }

  lemma ByteBits(a: byte)
    ensures (a as bv8) as int == a as int
  {
    IntBits(a as int);
  }

  lemma BitsByte(x: bv8)
    ensures (x as byte) as int == x as int
  {
  }

  lemma LowHalfEmpty(a: byte)
    requires a % 16 == 0
    ensures a as bv8 & 0x0f == 0
  {
  }

  lemma HighHalfEmpty(v: byte)
    requires v < 16
    ensures v as bv8 & 0xf0 == 0
  {
  }
}
