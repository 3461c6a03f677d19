/**
 * The terminals of JSON, with the values that RFC 8259 gives them. The texts of the grammar are
 * made of these; the lexer compares with the constants of `Bytes`, and the two are proved to agree.
 */
module Terminals {
  import opened Bytes

  // Section 2: white space, and the six structural characters.

  predicate White(b: byte) { b == 0x20 || b == 0x09 || b == 0x0A || b == 0x0D }

  const BEGIN_ARRAY: byte := 0x5B
  const BEGIN_OBJECT: byte := 0x7B
  const END_ARRAY: byte := 0x5D
  const END_OBJECT: byte := 0x7D
  const NAME_SEPARATOR: byte := 0x3A
  const VALUE_SEPARATOR: byte := 0x2C

  predicate Structural(b: byte) {
    || b == BEGIN_ARRAY || b == BEGIN_OBJECT || b == END_ARRAY || b == END_OBJECT
    || b == NAME_SEPARATOR || b == VALUE_SEPARATOR
  }

  // Section 3: the three words.

  const TRUE_WORD: bytes := [0x74, 0x72, 0x75, 0x65]
  const FALSE_WORD: bytes := [0x66, 0x61, 0x6C, 0x73, 0x65]
  const NULL_WORD: bytes := [0x6E, 0x75, 0x6C, 0x6C]

  // Section 6: numbers.

  predicate DecimalDigit(b: byte) { 0x30 <= b <= 0x39 }
  predicate ExponentLetter(b: byte) { b == 0x65 || b == 0x45 }

  const ZERO_DIGIT: byte := 0x30
  const DECIMAL_POINT: byte := 0x2E
  const MINUS_SIGN: byte := 0x2D
  const PLUS_SIGN: byte := 0x2B

  // Section 7: strings.

  const QUOTATION_MARK: byte := 0x22
  const ESCAPE: byte := 0x5C
  const UNICODE_LETTER: byte := 0x75

  predicate HexDigit(b: byte) {
    DecimalDigit(b) || 0x41 <= b <= 0x46 || 0x61 <= b <= 0x66
  }

  // Section 4 of RFC 3629.

  predicate Utf8Tail(b: byte) { 0x80 <= b <= 0xBF }

  /** What the lexer tests bytes with is the grammar's. */
  lemma LexerTests(b: byte)
    ensures Blank(b) <==> White(b)
    ensures Digit(b) <==> DecimalDigit(b)
    ensures Exponent(b) <==> ExponentLetter(b)
    ensures Hex(b) <==> HexDigit(b)
    ensures Continuation(b) <==> Utf8Tail(b)
  {
  }

  /** The bytes of a text in ASCII. */
  predicate Letters(bs: bytes, text: string) {
    |bs| == |text| && forall i :: 0 <= i < |bs| ==> bs[i] as int as char == text[i]
  }

  /** The words, in letters. */
  lemma Words()
    ensures Letters(TRUE_WORD, "true") && Letters(FALSE_WORD, "false") && Letters(NULL_WORD, "null")
  {
  }
}
