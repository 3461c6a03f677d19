/**
 * Strings as a printer writes them: which bytes it writes for the bytes that are meant, with every
 * escape of section 7 of RFC 8259 at its choice, and that the lexer delivers what was meant.
 */
module PrintedStrings {
  import opened Bytes
  import opened Tokens
  import opened LexerMachine
  import opened StringReading
  import opened Strings

  /**
   * What the printer may do next: write a unit as it stands, or a byte by its letter, or two bytes
   * at once, as a number of 16 bits, by four hexadecimal digits, each letter capital or not.
   */
  datatype Part = AsIs(unit: bytes) | Short(b: byte) | ByCode(u: nat, capitals: seq<bool>)

  /** The eight pairs of a letter and the byte it escapes. */
  predicate EscapePair(c: byte, b: byte) {
    || (c == 0x22 && b == 0x22) || (c == 0x5C && b == 0x5C) || (c == 0x2F && b == 0x2F)
    || (c == 0x62 && b == 0x08) || (c == 0x66 && b == 0x0C) || (c == 0x6E && b == 0x0A)
    || (c == 0x72 && b == 0x0D) || (c == 0x74 && b == 0x09)
  }

  /** The letter for a byte that has one. */
  function Letter(b: byte): seq<byte> {
    match b
    case 0x22 => [0x22]
    case 0x5C => [0x5C]
    case 0x2F => [0x2F]
    case 0x08 => [0x62]
    case 0x0C => [0x66]
    case 0x0A => [0x6E]
    case 0x0D => [0x72]
    case 0x09 => [0x74]
    case _ => []
  }

  /** The digit for d, with a capital letter or a small one. */
  function Hexit(d: nat, capital: bool): byte
    requires d < 16
  {
    if d < 10 then (0x30 + d) as byte
    else if capital then (0x41 + d - 10) as byte
    else (0x61 + d - 10) as byte
  }

  function Hexits(u: nat, capitals: seq<bool>): bytes
    requires u < 0x1_0000 && |capitals| == 4
  {
    [Hexit(u / 0x1000, capitals[0]), Hexit(u / 0x100 % 0x10, capitals[1]),
     Hexit(u / 0x10 % 0x10, capitals[2]), Hexit(u % 0x10, capitals[3])]
  }

  predicate Printable(p: Part) {
    match p
    case AsIs(u) => Unit(u)
    case Short(b) => Letter(b) != []
    case ByCode(u, capitals) => u < 0x1_0000 && |capitals| == 4
  }

  /** The bytes meant. */
  function Meant(p: Part): bytes
    requires Printable(p)
  {
    match p
    case AsIs(u) => u
    case Short(b) => [b]
    case ByCode(u, _) => [(u / 0x100) as byte, (u % 0x100) as byte]
  }

  /** The bytes written. */
  function Print(p: Part): bytes
    requires Printable(p)
  {
    match p
    case AsIs(u) => u
    case Short(b) => [0x5C, Letter(b)[0]]
    case ByCode(u, capitals) => [0x5C, 0x75] + Hexits(u, capitals)
  }

  predicate AllPrintable(ps: seq<Part>) {
    forall i :: 0 <= i < |ps| ==> Printable(ps[i])
  }

  function AllMeant(ps: seq<Part>): bytes
    requires AllPrintable(ps)
  {
    if ps == [] then [] else Meant(ps[0]) + AllMeant(ps[1..])
  }

  function PrintAll(ps: seq<Part>): bytes
    requires AllPrintable(ps)
  {
    if ps == [] then [] else Print(ps[0]) + PrintAll(ps[1..])
  }

  // ---- The lexer's tables ----

  /** The lexer's table of short escapes, in both directions. */
  lemma ShortEscapes(c: byte, b: byte)
    ensures Unescaped(c) == [b] <==> EscapePair(c, b)
    ensures Letter(b) == [c] <==> EscapePair(c, b)
  {
  }

  /** A hexadecimal digit, capital or not, is worth what the printer wrote it for. */
  lemma HexitValue(d: nat, capital: bool)
    requires d < 16
    ensures Hex(Hexit(d, capital)) && HexValue(Hexit(d, capital)) as int == d
  {
  }

  lemma HexitOfValue(b: byte) returns (capital: bool)
    requires Hex(b)
    ensures Hexit(HexValue(b) as int, capital) == b
  {
    capital := b < 0x61;
  }

  lemma Nibbles(u: nat)
    requires u < 0x1_0000
    ensures u / 0x100 == 16 * (u / 0x1000) + u / 0x100 % 0x10
    ensures u % 0x100 == 16 * (u / 0x10 % 0x10) + u % 0x10
  {
  }

  /** Every spelling of a 16-bit number is decoded to its two bytes, the higher one first. */
  lemma HexitsDecode(u: nat, capitals: seq<bool>)
    requires u < 0x1_0000 && |capitals| == 4
    ensures Correct(Unicode(Hexits(u, capitals)))
    ensures PieceBytes(Unicode(Hexits(u, capitals))) == [(u / 0x100) as byte, (u % 0x100) as byte]
  {
    HexitValue(u / 0x1000, capitals[0]);
    HexitValue(u / 0x100 % 0x10, capitals[1]);
    HexitValue(u / 0x10 % 0x10, capitals[2]);
    HexitValue(u % 0x10, capitals[3]);
    Nibbles(u);
  }

  // ---- Decoding undoes printing ----

  function PieceOf(p: Part): Piece
    requires Printable(p)
  {
    match p
    case AsIs(u) => Plain(u)
    case Short(b) => Escape(Letter(b)[0])
    case ByCode(u, capitals) => Unicode(Hexits(u, capitals))
  }

  function PiecesOf(ps: seq<Part>): seq<Piece>
    requires AllPrintable(ps)
  {
    if ps == [] then [] else [PieceOf(ps[0])] + PiecesOf(ps[1..])
  }

  lemma PieceDecodes(p: Part)
    requires Printable(p)
    ensures var q := PieceOf(p); Correct(q) && PieceText(q) == Print(p) && PieceBytes(q) == Meant(p)
  {
    match p
    case AsIs(_) =>
    case Short(b) => ShortEscapes(Letter(b)[0], b);
    case ByCode(u, capitals) => HexitsDecode(u, capitals);
  }

  lemma {:induction false} DecodeUndoesPrint(ps: seq<Part>)
    requires AllPrintable(ps)
    ensures var qs := PiecesOf(ps);
            AllCorrect(qs) && Orderly(qs) && BodyText(qs) == PrintAll(ps) && BodyBytes(qs) == AllMeant(ps)
    decreases |ps|
  {
    if ps != [] {
      PieceDecodes(ps[0]);
      DecodeUndoesPrint(ps[1..]);
      assert PiecesOf(ps)[1..] == PiecesOf(ps[1..]);
    }
  }

  /** What is printed between two quotes is read as one string, and what was meant is delivered. */
  lemma PrintedStringIsRead(cfg: Config, l: Lexer, ps: seq<Part>)
    requires Between(l, 0) && AllPrintable(ps)
    ensures ReadAsString(cfg, l, PrintAll(ps), AllMeant(ps), 0)
  {
    DecodeUndoesPrint(ps);
    OrderlyIsBody(PiecesOf(ps));
    BodyIsRead(cfg, l, 0, PiecesOf(ps));
  }

  // ---- Nothing else is decoded ----

  lemma PartOf(q: Piece) returns (p: Part)
    requires Correct(q) && (q.Plain? || q.Escape? || q.Unicode?)
    ensures Printable(p) && PieceOf(p) == q
  {
    match q
    case Plain(u) => p := AsIs(u);
    case Escape(c) =>
      ShortEscapes(c, Unescaped(c)[0]);
      p := Short(Unescaped(c)[0]);
    case Unicode(h) => p := CodeOf(h);
  }

  lemma CodeOf(h: bytes) returns (p: Part)
    requires Correct(Unicode(h))
    ensures Printable(p) && PieceOf(p) == Unicode(h)
  {
    var c0 := HexitOfValue(h[0]);
    var c1 := HexitOfValue(h[1]);
    var c2 := HexitOfValue(h[2]);
    var c3 := HexitOfValue(h[3]);
    var a, b, c, d := HexValue(h[0]) as int, HexValue(h[1]) as int, HexValue(h[2]) as int, HexValue(h[3]) as int;
    var u := 16 * (16 * (16 * a + b) + c) + d;
    FourNibbles(a, b, c, d);
    p := ByCode(u, [c0, c1, c2, c3]);
    assert Hexits(u, [c0, c1, c2, c3]) == h;
  }

  lemma Nibble(high: nat, d: nat)
    requires d < 16
    ensures (16 * high + d) / 16 == high && (16 * high + d) % 16 == d
  {
  }

  lemma Quotients(u: nat)
    ensures u / 0x100 == u / 16 / 16 && u / 0x1000 == u / 16 / 16 / 16
  {
  }

  lemma FourNibbles(a: nat, b: nat, c: nat, d: nat)
    requires a < 16 && b < 16 && c < 16 && d < 16
    ensures var u := 16 * (16 * (16 * a + b) + c) + d;
            u < 0x1_0000 && u / 0x1000 == a && u / 0x100 % 0x10 == b && u / 0x10 % 0x10 == c && u % 0x10 == d
  {
    Nibble(16 * (16 * a + b) + c, d);
    Nibble(16 * a + b, c);
    Nibble(a, b);
    Quotients(16 * (16 * (16 * a + b) + c) + d);
  }

  /** Every body without loose leads is one that the printer can write, for the bytes it is decoded to. */
  lemma {:induction false} OrderlyIsPrinted(qs: seq<Piece>) returns (ps: seq<Part>)
    requires AllCorrect(qs) && Orderly(qs)
    ensures AllPrintable(ps) && PiecesOf(ps) == qs
    ensures PrintAll(ps) == BodyText(qs) && AllMeant(ps) == BodyBytes(qs)
    decreases |qs|
  {
    ps := [];
    if qs != [] {
      var p := PartOf(qs[0]);
      var rest := OrderlyIsPrinted(qs[1..]);
      ps := [p] + rest;
      assert ps[1..] == rest;
      DecodeUndoesPrint(ps);
    }
  }
}
