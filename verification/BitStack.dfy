/** A stack of bits packed into bytes, eight to a byte, and the sequence of bits it stands for. */
module BitStack {

  const ONE: seq<bv8> := [0x01, 0x02, 0x04, 0x08, 0x10, 0x20, 0x40, 0x80]
  const ZERO: seq<bv8> := [0xFE, 0xFD, 0xFB, 0xF7, 0xEF, 0xDF, 0xBF, 0x7F]

  function BitAt(cells: seq<bv8>, i: nat): bool
    requires i < 8 * |cells|
  {
    CellBit(cells[i / 8], i % 8)
  }

  function CellBit(cell: bv8, i: nat): bool
    requires i < 8
  {
    cell & ONE[i] != 0
  }

  function WithBit(cell: bv8, i: nat, value: bool): bv8
    requires i < 8
  {
    if value then cell | ONE[i] else cell & ZERO[i]
  }

  function BitsOf(cells: seq<bv8>, n: nat): (bits: seq<bool>)
    requires n <= 8 * |cells|
    ensures |bits| == n && forall i :: 0 <= i < n ==> bits[i] == BitAt(cells, i)
  {
    seq(n, i requires 0 <= i < n => BitAt(cells, i))
  }

  /** Setting or clearing bit i of a byte by its mask is seen at bit j only if j is i. */
  lemma MasksSeparate(x: bv8, i: nat, j: nat)
    requires i < 8 && j < 8
    ensures (x | ONE[i]) & ONE[j] != 0 <==> i == j || x & ONE[j] != 0
    ensures (x & ZERO[i]) & ONE[j] != 0 <==> i != j && x & ONE[j] != 0
  {
    var a, b, z := ONE[i], ONE[j], ZERO[i];
    assert a & b != 0 <==> i == j;
    assert z & b == if i == j then 0 else b;
    Distribute(x, a, b, z);
  }

  lemma Distribute(x: bv8, a: bv8, b: bv8, z: bv8)
    ensures (x | a) & b == (x & b) | (a & b)
    ensures (x & z) & b == x & (z & b)
  {
  }

  /** The cells after writing bit n, as `stack_push` writes it. */
  function Written(cells: seq<bv8>, n: nat, value: bool): seq<bv8>
    requires n < 8 * |cells|
  {
    cells[n / 8 := WithBit(cells[n / 8], n % 8, value)]
  }

  /** Writing one bit sets it and leaves every other one, below and above, as it was. */
  lemma WriteOneBit(cells: seq<bv8>, n: nat, value: bool, i: nat)
    requires n < 8 * |cells| && i < 8 * |cells|
    ensures BitAt(Written(cells, n, value), i) == if i == n then value else BitAt(cells, i)
  {
    SamePlace(i, n);
    if i / 8 == n / 8 {
      WriteInCell(cells[n / 8], n % 8, value, i % 8);
    }
  }

  lemma WriteInCell(cell: bv8, n: nat, value: bool, i: nat)
    requires n < 8 && i < 8
    ensures CellBit(WithBit(cell, n, value), i) == if i == n then value else CellBit(cell, i)
  {
    MasksSeparate(cell, n, i);
  }

  lemma SamePlace(i: nat, n: nat)
    ensures i == n <==> i / 8 == n / 8 && i % 8 == n % 8
  {
  }

  /** So a push on the cells is a push on the sequence. */
  lemma PushBit(cells: seq<bv8>, n: nat, value: bool)
    requires n < 8 * |cells|
    ensures BitsOf(Written(cells, n, value), n + 1) == BitsOf(cells, n) + [value]
  {
    forall i | 0 <= i <= n
      ensures BitAt(Written(cells, n, value), i) == (BitsOf(cells, n) + [value])[i]
    {
      WriteOneBit(cells, n, value, i);
    }
  }
}
