/** What the two machines exchange and report: tokens, callbacks (events), error codes, settings. */
module Tokens {
  import opened Bytes

  /** Lexer output. A string is delivered between `StringBegin` and `StringEnd`, byte by byte. */
  datatype Token =
    | OpenCurly
    | CloseCurly
    | OpenBracket
    | CloseBracket
    | Comma
    | Colon
    | True
    | False
    | Null
    | Int(i: int)
    | Double(r: real)
    | StringBegin
    | StringByte(b: byte)
    | StringEnd

  /** The user's callbacks. `Chunk` is one `embedjson_string_chunk` call. */
  datatype Event =
    | NullEvent
    | BoolEvent(value: bool)
    | IntEvent(i: int)
    | DoubleEvent(r: real)
    | BeginString
    | Chunk(data: bytes)
    | EndString
    | BeginObject
    | EndObject
    | BeginArray
    | EndArray

  /** The error codes the default configuration can report. */
  datatype Error =
    | BadUtf8 | LongUtf8 | BadUnicodeEscape | BadExponent | BadTrue | BadFalse | BadNull
    | EofInString | EofInExponent | EofInTrue | EofInFalse | EofInNull
    | StackOverflow
    | UnexpCloseCurly | UnexpCloseBracket | UnexpComma | UnexpColon
    | ExpColon | ExpObjectKeyOrCloseCurly | ExpObjectKey
    | ExpCommaOrCloseBracket | ExpCommaOrCloseCurly
    | ExcessiveInput | InsufficientInput
    | UnexpSymbol | LeadingZero | LeadingPlus | EmptyFrac | EmptyExp | BadEscape
    | ExponentOverflow | IntOverflow
    | InternalError

  datatype Status = Ok | Failed(error: Error)

  /**
   * `intMax` is EMBEDJSON_INT_MAX, `stackBytes` is EMBEDJSON_STATIC_STACK_SIZE. `beyond` is what
   * the code finds when it reads past the end of its table of powers of ten: C does not say, and
   * nothing is assumed about it.
   */
  datatype Config = Config(intMax: nat, stackBytes: nat, beyond: nat -> real)
  {
    /** Every signed type of at least eight bits holds one decimal digit. */
    predicate Valid() { intMax >= 127 }

    /** The nesting limit as `stack_full` computes it, in an unsigned char. */
    function Limit(): nat { 8 * stackBytes % 256 }
  }

  // The default build: 64-bit integers and a stack of 16 bytes.
  const LLONG_MAX := 0x7FFF_FFFF_FFFF_FFFF
  const STACK_BYTES := 16

  /** The callbacks of one token. String bytes count as chunks of one byte. */
  function EventsOf(t: Token): seq<Event> {
    match t
    case OpenCurly => [BeginObject]
    case CloseCurly => [EndObject]
    case OpenBracket => [BeginArray]
    case CloseBracket => [EndArray]
    case Comma => []
    case Colon => []
    case True => [BoolEvent(true)]
    case False => [BoolEvent(false)]
    case Null => [NullEvent]
    case Int(i) => [IntEvent(i)]
    case Double(r) => [DoubleEvent(r)]
    case StringBegin => [BeginString]
    case StringByte(b) => [Chunk([b])]
    case StringEnd => [EndString]
  }

  function AllEvents(ts: seq<Token>): seq<Event> {
    if ts == [] then [] else EventsOf(ts[0]) + AllEvents(ts[1..])
  }

  lemma {:induction false} AllEventsConcat(a: seq<Token>, b: seq<Token>)
    ensures AllEvents(a + b) == AllEvents(a) + AllEvents(b)
  {
    if a == [] {
      assert a + b == b;
    } else {
      AllEventsConcat(a[1..], b);
      assert (a + b)[1..] == a[1..] + b;
      Associate(EventsOf(a[0]), AllEvents(a[1..]), AllEvents(b));
    }
  }

  function StringBytes(bs: bytes): seq<Token> {
    seq(|bs|, i requires 0 <= i < |bs| => StringByte(bs[i]))
  }

  // ---- Chunks ----

  /** A chunk cut into chunks of one byte; any other callback as it is. */
  function CutUp(e: Event): seq<Event> {
    if e.Chunk? then AllEvents(StringBytes(e.data)) else [e]
  }

  /** One chunk per byte: where the lexer cuts a string's contents is forgotten, the rest is kept. */
  function Bytewise(es: seq<Event>): seq<Event> {
    if es == [] then [] else CutUp(es[0]) + Bytewise(es[1..])
  }

  lemma {:induction false} BytewiseConcat(a: seq<Event>, b: seq<Event>)
    ensures Bytewise(a + b) == Bytewise(a) + Bytewise(b)
  {
    if a == [] {
      assert a + b == b;
    } else {
      BytewiseConcat(a[1..], b);
      assert (a + b)[1..] == a[1..] + b;
      Associate(CutUp(a[0]), Bytewise(a[1..]), Bytewise(b));
    }
  }

  lemma Associate(x: seq<Event>, y: seq<Event>, z: seq<Event>)
    ensures x + (y + z) == x + y + z
  {
  }
}
