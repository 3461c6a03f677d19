/**
 * The parser object: `embedjson_parser` with its embedded lexer, its one-bit-per-level stack and
 * the functions that update it in place. Each method is specified by the functions of the other
 * modules; callbacks are appended to the ghost field `trace`.
 */
module EmbedJson {
  import opened Bytes
  import opened Decimal
  import opened Tokens
  import opened Documents
  import opened LexerMachine
  import opened Pushdown
  import opened Strings
  import opened System
  import opened Traces
  import opened BitStack

  /** What a call with one token did, by the transitions of the shipped machine. */
  ghost predicate Took(
    limit: nat, before: Pda, told: seq<Event>, t: Token, st: Status, after: Pda, telling: seq<Event>)
  {
    var m := Advance(Shipped, limit, before, t);
    match m.next
    case Broken(e) => st == Failed(e) && after == before && telling == told
    case Ready(q) => st == Ok && after == q && telling == told + m.events
  }

  /** The buffer's contents. */
  ghost predicate Holds(data: array<byte>, input: bytes)
    reads data
  {
    data[..] == input
  }

  class Parser {
    const cfg: Config
    const stack: array<bv8>
    var lexer: Lexer
    var state: State
    var stackSize: nat
    ghost var trace: seq<Event>

    /** The array has the configured size and the stack stays within the limit. */
    ghost predicate Shape()
      reads this
    {
      cfg.Valid() && stack.Length == cfg.stackBytes && stackSize <= cfg.Limit()
    }

    /** State and stack as the abstract machine sees them. */
    ghost function View(): Pda
      reads this, stack
      requires Shape()
    {
      Pda(state, BitsOf(stack[..], stackSize))
    }

    ghost predicate Valid()
      reads this, stack
    {
      Shape() && SysInv(cfg, Sys(lexer, View())) && NoEmptyChunks(trace)
    }

    constructor (cfg: Config)
      requires cfg.Valid()
      ensures Valid() && this.cfg == cfg && fresh(stack)
      ensures Sys(lexer, View()) == INITIAL && trace == []
    {
      this.cfg := cfg;
      stack := new bv8[cfg.stackBytes](_ => 0);
      lexer, state, stackSize := FRESH, ExpectValue, 0;
      trace := [];
    }

    // ---- The stack ----

    predicate StackEmpty()
      reads this
    {
      stackSize == 0
    }

    /**
     * The capacity in bits passes through an unsigned char. A stack that is not full has a free bit
     * in its array, whatever the capacity; up to 31 bytes full means that every bit is taken.
     */
    predicate StackFull()
      reads this
      requires Shape()
      ensures !StackFull() ==> stackSize < 8 * stack.Length
      ensures stack.Length <= 31 ==> (StackFull() <==> stackSize == 8 * stack.Length)
    {
      stackSize == 8 * stack.Length % 256
    }

    /** Sets or clears bit n of the array. */
    method WriteBit(n: nat, value: bool)
      requires n < 8 * stack.Length
      modifies stack
      ensures stack[..] == Written(old(stack[..]), n, value)
    {
      var bucket, bit := n / 8, n % 8;
      var cell := stack[bucket];
      if value {
        cell := cell | ONE[bit];
      } else {
        cell := cell & ZERO[bit];
      }
      ghost var cells := stack[..];
      assert Written(cells, n, value) == cells[bucket := cell];
      stack[bucket] := cell;
    }

    method StackPush(value: bool) returns (st: Status)
      requires Shape()
      modifies `stackSize, stack
      ensures Shape()
      ensures if old(stackSize) == cfg.Limit()
              then st == Failed(StackOverflow) && View() == old(View()) && stack[..] == old(stack[..])
              else st == Ok && View().stack == old(View()).stack + [value]
                   && stack[..] == Written(old(stack[..]), old(stackSize), value)
    {
      if StackFull() {
        return Failed(StackOverflow);
      }
      PushBit(stack[..], stackSize, value);
      WriteBit(stackSize, value);
      stackSize := stackSize + 1;
      return Ok;
    }

    method StackPop()
      requires Shape() && stackSize > 0
      modifies `stackSize
      ensures Shape() && View().stack == Pop(old(View()).stack)
    {
      stackSize := stackSize - 1;
    }

    function StackTop(): bool
      reads this, stack
      requires Shape() && stackSize > 0
      ensures StackTop() == Top(View().stack)
    {
      stack[(stackSize - 1) / 8] & ONE[(stackSize - 1) % 8] != 0
    }

    // ---- Tokens ----

    method OpenContainer(value: bool, e: Event, inner: State) returns (st: Status)
      requires Shape() && (e.BeginObject? || e.BeginArray?)
      modifies `state, `stackSize, `trace, stack
      ensures Shape()
      ensures if |old(View()).stack| == cfg.Limit()
              then st == Failed(StackOverflow) && View() == old(View()) && trace == old(trace)
              else st == Ok && View() == Pda(inner, old(View()).stack + [value]) && trace == old(trace) + [e]
    {
      st := StackPush(value);
      if st == Ok {
        trace := trace + [e];
        state := inner;
      }
    }

    /** After the end callback: pop, and go where the enclosing container continues. */
    method CloseContainer(e: Event, inObject: State)
      requires Shape() && stackSize > 0 && (e.EndObject? || e.EndArray?)
      modifies `state, `stackSize, `trace
      ensures Shape() && trace == old(trace) + [e]
      ensures var rest := Pop(old(View()).stack);
              View() == Pda(if rest == [] then Done else if Top(rest) == CURLY then inObject else MaybeArrayComma, rest)
    {
      trace := trace + [e];
      StackPop();
      if StackEmpty() {
        state := Done;
      } else if StackTop() == CURLY {
        state := inObject;
      } else {
        state := MaybeArrayComma;
      }
    }

    /** The part of `embedjson_token` that the four states expecting a value share. */
    method ValueToken(t: Token, next: State) returns (st: Status)
      requires Shape() && TakesValue(state) && next == AfterValue(state)
      requires t.OpenCurly? || t.OpenBracket? || t.CloseCurly? || t.Comma? || t.Colon?
               || t.True? || t.False? || t.Null? || (t.CloseBracket? && !state.MaybeArrayValue?)
      modifies `state, `stackSize, `trace, stack
      ensures Shape() && Took(cfg.Limit(), old(View()), old(trace), t, st, View(), trace)
    {
      st := Ok;
      match t
      case OpenCurly => st := OpenContainer(CURLY, BeginObject, MaybeObjectKey);
      case OpenBracket => st := OpenContainer(SQUARE, BeginArray, MaybeArrayValue);
      case CloseCurly => st := Failed(UnexpCloseCurly);
      case CloseBracket => st := Failed(UnexpCloseBracket);
      case Comma => st := Failed(UnexpComma);
      case Colon => st := Failed(UnexpColon);
      case True => trace, state := trace + [BoolEvent(true)], next;
      case False => trace, state := trace + [BoolEvent(false)], next;
      case Null => trace, state := trace + [NullEvent], next;
    }

    /** `embedjson_token`. */
    method Token(t: Token) returns (st: Status)
      requires Shape() && Coupled(View())
      requires t.OpenCurly? || t.CloseCurly? || t.OpenBracket? || t.CloseBracket? || t.Comma? || t.Colon?
               || t.True? || t.False? || t.Null?
      modifies `state, `stackSize, `trace, stack
      ensures Shape() && Took(cfg.Limit(), old(View()), old(trace), t, st, View(), trace)
    {
      st := Ok;
      match state
      case ExpectValue => st := ValueToken(t, Done);
      case MaybeObjectKey =>
        if t.CloseCurly? {
          CloseContainer(EndObject, MaybeObjectComma);
        } else {
          st := Failed(ExpObjectKey);
        }
      case ExpectObjectKey => st := Failed(ExpObjectKey);
      case ExpectColon =>
        if !t.Colon? {
          return Failed(ExpColon);
        }
        state := ExpectObjectValue;
      case MaybeObjectComma =>
        if t.Comma? {
          state := ExpectObjectKey;
        } else if t.CloseCurly? {
          CloseContainer(EndObject, MaybeObjectComma);
        } else {
          st := Failed(ExpCommaOrCloseCurly);
        }
      case ExpectObjectValue => st := ValueToken(t, MaybeObjectComma);
      case MaybeArrayValue =>
        if t.CloseBracket? {
          // An empty array inside an object: the key state, where the diagram has the comma state.
          CloseContainer(EndArray, MaybeObjectKey);
        } else {
          st := ValueToken(t, MaybeArrayComma);
        }
      case ExpectArrayValue => st := ValueToken(t, MaybeArrayComma);
      case MaybeArrayComma =>
        if t.Comma? {
          state := ExpectArrayValue;
        } else if t.CloseBracket? {
          CloseContainer(EndArray, MaybeObjectComma);
        } else {
          st := Failed(ExpCommaOrCloseBracket);
        }
      case Done => st := Failed(ExcessiveInput);
    }

    /** `embedjson_tokeni` and `embedjson_tokenf`, which differ only in the callback. */
    method TokenNumber(t: Token) returns (st: Status)
      requires Shape() && Coupled(View()) && (t.Int? || t.Double?)
      modifies `state, `trace
      ensures Shape() && Took(cfg.Limit(), old(View()), old(trace), t, st, View(), trace)
    {
      match state {
        case ExpectValue => state := Done;
        case MaybeObjectKey => return Failed(ExpObjectKeyOrCloseCurly);
        case ExpectObjectKey => return Failed(ExpObjectKey);
        case ExpectColon => return Failed(ExpColon);
        case MaybeObjectComma => return Failed(ExpCommaOrCloseBracket);
        case ExpectObjectValue => state := MaybeObjectComma;
        case MaybeArrayValue => state := MaybeArrayComma;
        case ExpectArrayValue => state := MaybeArrayComma;
        case MaybeArrayComma => return Failed(ExpCommaOrCloseCurly);
        case Done => return Failed(ExcessiveInput);
      }
      trace := trace + [if t.Int? then IntEvent(t.i) else DoubleEvent(t.r)];
      return Ok;
    }

    /** `embedjson_tokenc_begin`. */
    method TokenStringBegin() returns (st: Status)
      requires Shape() && Coupled(View())
      modifies `trace
      ensures Took(cfg.Limit(), old(View()), old(trace), StringBegin, st, View(), trace)
    {
      match state {
        case ExpectColon => return Failed(ExpColon);
        case MaybeObjectComma => return Failed(ExpCommaOrCloseCurly);
        case MaybeArrayComma => return Failed(ExpCommaOrCloseBracket);
        case Done => return Failed(ExcessiveInput);
        case _ =>
      }
      trace := trace + [BeginString];
      return Ok;
    }

    /** `embedjson_tokenc`: hands over a slice. */
    method TokenStringChunk(data: bytes)
      modifies `trace
      ensures trace == old(trace) + [Chunk(data)]
    {
      trace := trace + [Chunk(data)];
    }

    /** `embedjson_tokenc_end`, with its table of next states. */
    method TokenStringEnd()
      requires Shape() && Coupled(View()) && TakesString(state)
      modifies `state, `trace
      ensures Shape() && Took(cfg.Limit(), old(View()), old(trace), StringEnd, Ok, View(), trace)
    {
      match state {
        case ExpectValue => state := Done;
        case MaybeObjectKey => state := ExpectColon;
        case ExpectObjectKey => state := ExpectColon;
        case ExpectObjectValue => state := MaybeObjectComma;
        case MaybeArrayValue => state := MaybeArrayComma;
        case ExpectArrayValue => state := MaybeArrayComma;
      }
      trace := trace + [EndString];
    }

    // ---- The arms of the loop body ----

    /** A byte that is a token by itself. */
    method PunctuationArm(lex: Lexer, b: byte) returns (st: Status)
      requires Shape() && Coupled(View()) && Punctuation(b) != []
      modifies `state, `stackSize, `trace, stack
      ensures Shape() && Did(cfg, LookupByte(lex, b), old(View()), old(trace), st, lex, false, View(), trace)
    {
      ghost var p, told := View(), trace;
      st := Token(Punctuation(b)[0]);
      TookDid(cfg, LookupByte(lex, b), Punctuation(b)[0], p, told, st, View(), trace);
    }

    /** The quote that opens a string. */
    method QuoteArm(lex: Lexer) returns (st: Status)
      requires Shape() && Coupled(View())
      modifies `trace
      ensures Did(cfg, LookupByte(lex, QUOTE), old(View()), old(trace), st, lex.(mode := InString), false,
                  View(), trace)
    {
      ghost var p, told := View(), trace;
      st := TokenStringBegin();
      TookDid(cfg, LookupByte(lex, QUOTE), StringBegin, p, told, st, View(), trace);
    }

    /** Between tokens. */
    method LookupArm(lex: Lexer, b: byte, i: nat, begin: int) returns (st: Status, lex': Lexer, begin': int)
      requires Shape() && Coupled(View()) && lex.mode.LookupToken?
      modifies `state, `stackSize, `trace, stack
      ensures Shape() && Did(cfg, LookupByte(lex, b), old(View()), old(trace), st, lex', false, View(), trace)
      ensures st == Ok && lex'.mode.InString? ==> begin' == i + 1
    {
      st, lex', begin' := Ok, lex, begin;
      if Punctuation(b) != [] {
        st := PunctuationArm(lex, b);
      } else if b == QUOTE {
        begin' := i + 1;
        st := QuoteArm(lex);
        lex' := lex.(mode := InString);
      } else {
        QuietDid(cfg, LookupByte(lex, b), View(), trace);
        if !Blank(b) {
          st, lex' := BeginWordOrNumber(lex, b);
        }
      }
    }

    /** Hands over the pending slice, if there is any. */
    method FlushChunk(data: array<byte>, begin: nat, i: nat, ghost input: bytes)
      requires begin <= i <= data.Length && Holds(data, input)
      modifies `trace
      ensures trace == old(trace) + Flush(input[begin..i])
    {
      assert input[begin..i] == data[begin..i];
      if i != begin {
        TokenStringChunk(data[begin..i]);
      }
    }

    /** Inside a string. */
    method StringArm(lex: Lexer, data: array<byte>, i: nat, begin: nat, ghost input: bytes)
      returns (st: Status, lex': Lexer)
      requires Shape() && Coupled(View())
      requires lex.mode.InString? && begin <= i < data.Length && TakesString(state) && Holds(data, input)
      modifies `state, `trace
      ensures Shape()
      ensures Passed(cfg, lex, input[i], input[begin..i], old(View()), old(trace), st, lex', false, View(), trace)
    {
      ghost var p, r, slice := View(), Iterate(cfg, lex, data[i]), input[begin..i];
      var kind: StringByteKind;
      st, lex', kind := ReadStringByte(lex, data[i]);
      if st.Failed? {
        QuietDid(cfg, r, p, trace);
        return;
      }
      match kind
      case Deliver =>
        BytesFeed(cfg, p, [data[i]]);
        StringBytesOne(data[i]);
      case StartEscape =>
        FlushChunk(data, begin, i, input);
        QuietDid(cfg, r, p, trace);
      case CloseString =>
        CloseArm(data, i, begin, input, r, lex');
    }

    /** The quote that closes a string: the last slice, and the end. */
    method CloseArm(data: array<byte>, i: nat, begin: nat, ghost input: bytes, ghost r: Iteration, ghost l': Lexer)
      requires Shape() && Coupled(View())
      requires begin <= i < data.Length && TakesString(state) && Holds(data, input) && r == Emit(StringEnd, l')
      modifies `state, `trace
      ensures Shape()
      ensures Did(cfg, r, old(View()), old(trace) + Flush(input[begin..i]), Ok, l', false, View(), trace)
    {
      ghost var p := View();
      FlushChunk(data, begin, i, input);
      ghost var told := trace;
      TokenStringEnd();
      TookDid(cfg, r, StringEnd, p, told, Ok, View(), trace);
    }

    /** After a backslash. */
    method EscapeArm(lex: Lexer, b: byte, i: nat, begin: int) returns (st: Status, lex': Lexer, begin': int)
      requires Shape() && Coupled(View()) && lex.mode.InStringEscape?
      modifies `trace
      ensures Did(cfg, EscapeByte(lex, b), old(View()), old(trace), st, lex', false, View(), trace)
      ensures st == Ok && lex'.mode.InString? ==> begin' == i + 1
    {
      ghost var r, p, told := EscapeByte(lex, b), View(), trace;
      st, lex', begin' := Ok, lex, begin;
      if Unescaped(b) != [] {
        TokenStringChunk(Unescaped(b));
        begin' := i + 1;
        lex' := lex.(mode := InString);
        StringBytesOne(Unescaped(b)[0]);
        ChunkDid(cfg, r, Unescaped(b), p, told);
      } else {
        if b == 0x75 {
          lex' := lex.(mode := InStringUnicodeEscape, offset := 0);
        } else {
          st := Failed(BadEscape);
        }
        QuietDid(cfg, r, p, told);
      }
    }

    /** The four digits of a hexadecimal escape. */
    method UnicodeArm(lex: Lexer, b: byte, i: nat, begin: int) returns (st: Status, lex': Lexer, begin': int)
      requires Shape() && Coupled(View())
      requires lex.mode.InStringUnicodeEscape? && Inv(cfg, lex)
      modifies `trace
      ensures Did(cfg, UnicodeByte(lex, b), old(View()), old(trace), st, lex', false, View(), trace)
      ensures st == Ok && lex'.mode.InString? ==> begin' == i + 1
    {
      ghost var r, p, told := UnicodeByte(lex, b), View(), trace;
      st, lex' := ReadHexDigit(lex, b);
      begin' := begin;
      if st.Failed? || lex'.offset < 4 {
        QuietDid(cfg, r, p, told);
        return;
      }
      var cp := [lex'.cp0, lex'.cp1];
      TokenStringChunk(cp);
      begin' := i + 1;
      assert StringBytes(cp) == [StringByte(cp[0]), StringByte(cp[1])];
      ChunkDid(cfg, r, cp, p, told);
    }

    /** A number that has ended: its token, and the registers it used cleared. */
    method EndNumberArm(lex: Lexer, t: Token) returns (st: Status, lex': Lexer)
      requires Shape() && Coupled(View()) && (t.Int? || t.Double?)
      modifies `state, `trace
      ensures Shape() && Did(cfg, EndNumber(t, lex), old(View()), old(trace), st, lex', true, View(), trace)
    {
      ghost var p, told := View(), trace;
      st := TokenNumber(t);
      lex' := lex.(intValue := 0, minus := false, mode := LookupToken);
      if !lex.mode.InNumber? {
        lex' := lex'.(fracPower := 0, fracValue := 0);
        if !lex.mode.InNumberFrac? {
          lex' := lex'.(expValue := 0, expMinus := false, expNotEmpty := false);
        }
      }
      TookDid(cfg, EndNumber(t, lex), t, p, told, st, View(), trace);
    }

    /** The five number states. With `again` the byte was not part of the number. */
    method NumberArm(lex: Lexer, b: byte) returns (st: Status, lex': Lexer, again: bool)
      requires Shape() && Coupled(View()) && NumberMode(lex.mode)
      modifies `state, `trace
      ensures Shape() && Did(cfg, Iterate(cfg, lex, b), old(View()), old(trace), st, lex', again, View(), trace)
      ensures st == Ok ==> !lex'.mode.InString?
    {
      var done: bool;
      NumberModes(cfg, lex, b);
      st, lex', done := ReadNumberByte(cfg, lex, b);
      again := false;
      if done {
        var t := MakeNumber(cfg, lex);
        st, lex' := EndNumberArm(lex, t);
        again := true;
      } else {
        QuietDid(cfg, Iterate(cfg, lex, b), View(), trace);
      }
    }

    /** The three keyword states. */
    method KeywordArm(lex: Lexer, word: bytes, t: Token, e: Error, b: byte) returns (st: Status, lex': Lexer)
      requires Shape() && Coupled(View()) && (t.True? || t.False? || t.Null?)
      modifies `state, `stackSize, `trace, stack
      ensures Shape()
      ensures Did(cfg, KeywordByte(lex, word, t, e, b), old(View()), old(trace), st, lex', false, View(), trace)
    {
      ghost var r, p, told := KeywordByte(lex, word, t, e, b), View(), trace;
      if b != CharAt(word, lex.offset) {
        QuietDid(cfg, r, p, told);
        return Failed(e), lex;
      }
      lex' := lex.(offset := lex.offset + 1);
      if lex'.offset > |word| - 1 {
        st := Token(t);
        lex' := lex'.(mode := LookupToken);
        TookDid(cfg, r, t, p, told, st, View(), trace);
      } else {
        st := Ok;
        QuietDid(cfg, r, p, told);
      }
    }

    method KeywordPass(lex: Lexer, b: byte) returns (st: Status, lex': Lexer)
      requires Shape() && Coupled(View())
      requires lex.mode.InTrue? || lex.mode.InFalse? || lex.mode.InNull?
      modifies `state, `stackSize, `trace, stack
      ensures Shape() && Did(cfg, Iterate(cfg, lex, b), old(View()), old(trace), st, lex', false, View(), trace)
      ensures st == Ok ==> !lex'.mode.InString?
    {
      KeywordModes(cfg, lex, b);
      if lex.mode.InTrue? {
        st, lex' := KeywordArm(lex, KW_TRUE, True, BadTrue, b);
      } else if lex.mode.InFalse? {
        st, lex' := KeywordArm(lex, KW_FALSE, False, BadFalse, b);
      } else {
        st, lex' := KeywordArm(lex, KW_NULL, Null, BadNull, b);
      }
    }

    /** One pass outside the plain part of a string: every mode but LEXER_STATE_IN_STRING. */
    method OutsidePass(lex: Lexer, b: byte, i: nat, begin: int)
      returns (st: Status, lex': Lexer, begin': int, again: bool)
      requires Shape() && Coupled(View()) && Inv(cfg, lex) && !lex.mode.InString?
      modifies `state, `stackSize, `trace, stack
      ensures Shape() && Did(cfg, Iterate(cfg, lex, b), old(View()), old(trace), st, lex', again, View(), trace)
      ensures st == Ok && lex'.mode.InString? ==> begin' == i + 1 && !again
    {
      begin', again := begin, false;
      match lex.mode
      case LookupToken => st, lex', begin' := LookupArm(lex, b, i, begin);
      case InStringEscape => st, lex', begin' := EscapeArm(lex, b, i, begin);
      case InStringUnicodeEscape => st, lex', begin' := UnicodeArm(lex, b, i, begin);
      case InTrue | InFalse | InNull => st, lex' := KeywordPass(lex, b);
      case InNumberSign | InNumber | InNumberFrac | InNumberExpSign | InNumberExp =>
        st, lex', again := NumberArm(lex, b);
    }

    /** One pass through the switch of the loop, for the byte at index i. */
    method Pass(lex: Lexer, data: array<byte>, i: nat, begin: int, ghost input: bytes)
      returns (st: Status, lex': Lexer, begin': int, again: bool)
      requires Shape() && Coupled(View()) && Inv(cfg, lex)
      requires lex.mode.InString? ==> 0 <= begin <= i && TakesString(state)
      requires i < data.Length && Holds(data, input)
      modifies `state, `stackSize, `trace, stack
      ensures Shape()
      ensures Passed(cfg, lex, input[i], Slice(lex, input, begin, i), old(View()), old(trace), st, lex', again,
                     View(), trace)
      ensures st == Ok && lex'.mode.InString? ==> !again && 0 <= begin' <= i + 1
      ensures st == Ok ==> Slice(lex', input, begin', if again then i else i + 1)
                           == SliceAfter(lex, Iterate(cfg, lex, input[i]), Slice(lex, input, begin, i), input[i])
    {
      if lex.mode.InString? {
        begin', again := begin, false;
        st, lex' := StringArm(lex, data, i, begin, input);
        SliceGrows(input, begin, i);
      } else {
        st, lex', begin', again := OutsidePass(lex, data[i], i, begin);
        DidPassed(cfg, lex, input[i], View(), trace);
        SliceBegins(input, i + 1);
      }
    }

    /** A pass, with the account of what is told and what is still to be told of the whole push. */
    method AccountedPass(
        lex: Lexer, data: array<byte>, i: nat, begin: int, ghost input: bytes, ghost whole: seq<Event>, ghost end: End)
      returns (st: Status, lex': Lexer, begin': int, again: bool)
      requires Shape() && i < data.Length && Holds(data, input)
      requires Accounted(cfg, Sys(lex, View()), input, begin, i, trace, whole, end)
      modifies `state, `stackSize, `trace, stack
      ensures Shape()
      ensures st.Failed? ==> end == Error(st.error) && whole == trace
      ensures st == Ok ==>
                && Accounted(cfg, Sys(lex', View()), input, begin', if again then i else i + 1, trace, whole, end)
                && (again ==> lex'.mode.LookupToken? && !lex.mode.LookupToken?)
    {
      ghost var sys, told := Sys(lex, View()), trace;
      st, lex', begin', again := Pass(lex, data, i, begin, input);
      PassAccounted(cfg, sys, input, i, Slice(lex, input, begin, i), told, st, lex', again, View(), trace);
    }

    /** The loop of `embedjson_lexer_push`; a last slice of a string is handed over after it. */
    method Loop(data: array<byte>, ghost input: bytes) returns (st: Status, lex: Lexer, begin: int, ghost passes: nat)
      requires Valid() && Holds(data, input) && data as object != stack as object
      modifies `state, `stackSize, `trace, stack
      ensures Shape()
      ensures st == Ok && lex.mode.InString? ==> 0 <= begin <= data.Length
      ensures System.Push(cfg, Sys(lexer, old(View())), input).end
              == if st.Failed? then Error(st.error) else Running(Sys(lex, View()))
      ensures st == Ok ==> SysInv(cfg, Sys(lex, View()))
      ensures old(trace) + Traced(cfg, Sys(lexer, old(View())), [], input)
              == trace + if st.Failed? then [] else Flush(Slice(lex, input, begin, data.Length))
      ensures passes <= 2 * data.Length + 1
    {
      ghost var whole := trace + Traced(cfg, Sys(lexer, View()), [], input);
      ghost var end := System.Push(cfg, Sys(lexer, View()), input).end;
      lex := lexer;
      begin := if lex.mode.InString? then 0 else -1;
      var i := 0;
      passes, st := 0, Ok;
      AtTheStart(cfg, Sys(lex, View()), input, begin, trace);
      while i < data.Length
        invariant Shape() && 0 <= i <= data.Length && Holds(data, input) && st == Ok
        invariant Accounted(cfg, Sys(lex, View()), input, begin, i, trace, whole, end)
        invariant passes + 2 * (data.Length - i) + (if lex.mode.LookupToken? then 0 else 1) <= 2 * data.Length + 1
        decreases 2 * (data.Length - i) + (if lex.mode.LookupToken? then 0 else 1)
      {
        var lex': Lexer, begin': int, again: bool;
        st, lex', begin', again := AccountedPass(lex, data, i, begin, input, whole, end);
        passes := passes + 1;
        if st.Failed? {
          NothingMore(trace);
          return;
        }
        lex, begin := lex', begin';
        if again {
          i := i - 1;
        }
        i := i + 1;
      }
      AtTheEnd(cfg, Sys(lex, View()), input, begin, i, trace, whole, end);
    }

    /**
     * `embedjson_push`. Its callbacks are, chunk by chunk, those that `Traced` says, after an error
     * too. One pass per byte, and one more for each byte that ends a number, which is at most
     * 2n + 1 passes for n bytes. On an error the lexer is left as it was.
     */
    method Push(data: array<byte>) returns (st: Status, ghost passes: nat)
      requires Valid() && data as object != stack as object
      modifies this, stack
      ensures trace == old(trace) + Traced(cfg, Sys(old(lexer), old(View())), [], old(data[..]))
      ensures NoEmptyChunks(trace)
      ensures match System.Push(cfg, Sys(old(lexer), old(View())), old(data[..])).end
              case Running(sys) => st == Ok && Valid() && Sys(lexer, View()) == sys
              case Error(e) => st == Failed(e) && lexer == old(lexer)
      ensures passes <= 2 * data.Length + 1
    {
      ghost var input, sys := data[..], Sys(lexer, View());
      var lex: Lexer, begin: int;
      st, lex, begin, passes := Loop(data, input);
      TracedNoEmpty(cfg, sys, [], input);
      NoEmptyConcat(old(trace), Traced(cfg, sys, [], input));
      if st.Failed? {
        NothingMore(trace);
        return;
      }
      if lex.mode.InString? {
        FlushChunk(data, begin, data.Length, input);
      }
      lexer := lex;
    }

    /** `embedjson_finalize`. */
    method Finalize() returns (st: Status)
      requires Valid()
      modifies `state, `trace
      ensures var o := System.Finalize(cfg, Sys(lexer, old(View())));
              && st == (if o.end.Error? then Failed(o.end.error) else Ok)
              && NoEmptyChunks(trace) && trace == old(trace) + o.events
    {
      NothingEnds(cfg, View(), trace);
      match lexer.mode {
        case LookupToken =>
        case InTrue => return Failed(EofInTrue);
        case InFalse => return Failed(EofInFalse);
        case InNull => return Failed(EofInNull);
        case InNumberExpSign => return Failed(EofInExponent);
        case InNumberSign => return Failed(EofInString);
        case InString => return Failed(EofInString);
        case InStringEscape => return Failed(EofInString);
        case InStringUnicodeEscape => return Failed(EofInString);
        case _ =>
          st := FinishNumber();
          if st.Failed? {
            return;
          }
      }
      if state != Done {
        return Failed(InsufficientInput);
      }
      st := Ok;
    }

    /** A number that the end of the input completes. */
    method FinishNumber() returns (st: Status)
      requires Shape() && Coupled(View()) && NoEmptyChunks(trace)
      requires lexer.mode.InNumber? || lexer.mode.InNumberFrac? || lexer.mode.InNumberExp?
      modifies `state, `trace
      ensures Shape() && NoEmptyChunks(trace)
      ensures Ended(cfg, old(View()), old(trace), lexer, st, View(), trace)
    {
      ghost var p, told := View(), trace;
      var t := MakeNumber(cfg, lexer);
      FinishToken(cfg, lexer);
      st := TokenNumber(t);
      TookAtTheEnd(cfg, lexer, t, p, told, st, View(), trace);
    }
  }

  // ---- Passes ----

  /**
   * One iteration was carried out, its tokens taken, its next state reached and its callbacks made;
   * or it met its error, the parser's or the lexer's, and nothing was told.
   */
  ghost predicate Did(
    cfg: Config, r: Iteration, before: Pda, told: seq<Event>, st: Status, l': Lexer, again: bool, after: Pda,
    telling: seq<Event>)
  {
    var m := Feed(Shipped, cfg.Limit(), before, r.toks);
    match st
    case Failed(e) => telling == told && (m.next == Broken(e) || (m.next.Ready? && r.next == Stop(e)))
    case Ok =>
      && m.next == Ready(after) && r.next == Go(l') && again == r.again
      && telling == told + Callbacks(r.toks)
  }

  /** The same of a pass of the loop, with `slice` not yet handed over before it. */
  ghost predicate Passed(
    cfg: Config, l: Lexer, b: byte, slice: bytes, before: Pda, told: seq<Event>, st: Status, l': Lexer, again: bool,
    after: Pda, telling: seq<Event>)
  {
    var r := Iterate(cfg, l, b);
    var m := Feed(Shipped, cfg.Limit(), before, r.toks);
    match st
    case Failed(e) => telling == told && (m.next == Broken(e) || (m.next.Ready? && r.next == Stop(e)))
    case Ok =>
      && m.next == Ready(after) && r.next == Go(l') && again == r.again
      && telling == told + Made(l, r, slice)
  }

  lemma DidPassed(cfg: Config, l: Lexer, b: byte, q: Pda, telling: seq<Event>)
    requires !l.mode.InString?
    ensures forall before, told, st, l', again |
              Did(cfg, Iterate(cfg, l, b), before, told, st, l', again, q, telling) ::
              Passed(cfg, l, b, [], before, told, st, l', again, q, telling)
  {
    var r := Iterate(cfg, l, b);
    assert Flush([]) + Callbacks(r.toks) == Callbacks(r.toks);
  }

  lemma QuietDid(cfg: Config, r: Iteration, p: Pda, told: seq<Event>)
    requires r.toks == []
    ensures match r.next
            case Stop(e) => forall l, q :: Did(cfg, r, p, told, Failed(e), l, false, q, told)
            case Go(l) => Did(cfg, r, p, told, Ok, l, r.again, p, told)
  {
    assert told + [] == told;
  }

  lemma TookDid(
      cfg: Config, r: Iteration, t: Token, before: Pda, told: seq<Event>, st: Status, after: Pda, telling: seq<Event>)
    requires r.toks == [t] && r.next.Go? && !t.StringByte? && Coupled(before)
    requires Took(cfg.Limit(), before, told, t, st, after, telling)
    ensures Did(cfg, r, before, told, st, r.next.lexer, r.again, after, telling)
    ensures st.Failed? ==> forall l, again :: Did(cfg, r, before, told, st, l, again, after, telling)
  {
    FeedOne(Shipped, cfg.Limit(), before, t);
  }

  /** String bytes leave the parser where it is. */
  lemma {:induction false} BytesFeed(cfg: Config, p: Pda, s: bytes)
    requires !p.state.Invalid?
    ensures Feed(Shipped, cfg.Limit(), p, StringBytes(s)).next == Ready(p)
    decreases |s|
  {
    if s != [] {
      StringBytesTail(s);
      BytesFeed(cfg, p, s[1..]);
    }
  }

  lemma {:induction false} ContentsOfBytes(s: bytes)
    ensures Contents(StringBytes(s)) == s
    decreases |s|
  {
    if s != [] {
      StringBytesTail(s);
      ContentsOfBytes(s[1..]);
    }
  }

  lemma ChunkDid(cfg: Config, r: Iteration, data: bytes, p: Pda, told: seq<Event>)
    requires r.toks == StringBytes(data) && data != [] && r.next.Go? && !p.state.Invalid?
    ensures Did(cfg, r, p, told, Ok, r.next.lexer, r.again, p, told + [Chunk(data)])
  {
    BytesFeed(cfg, p, data);
    StringBytesTail(data);
    ContentsOfBytes(data);
  }

  lemma KeywordModes(cfg: Config, l: Lexer, b: byte)
    requires l.mode.InTrue? || l.mode.InFalse? || l.mode.InNull?
    ensures var r := Iterate(cfg, l, b); r.next.Go? ==> !r.next.lexer.mode.InString?
  {
  }

  lemma NumberModes(cfg: Config, l: Lexer, b: byte)
    requires NumberMode(l.mode)
    ensures var r := Iterate(cfg, l, b); r.next.Go? ==> !r.next.lexer.mode.InString?
  {
  }

  // ---- Slices ----

  /** Inside a string, the bytes of the buffer that are still to be handed over at index i. */
  function Slice(lex: Lexer, data: bytes, begin: int, i: int): bytes
    requires lex.mode.InString? ==> 0 <= begin <= i <= |data|
  {
    if lex.mode.InString? then data[begin..i] else []
  }

  lemma SliceGrows(data: bytes, begin: nat, i: nat)
    requires begin <= i < |data|
    ensures data[begin..i + 1] == data[begin..i] + [data[i]]
  {
  }

  lemma SliceBegins(data: bytes, i: nat)
    requires i <= |data|
    ensures data[i..i] == []
  {
  }

  // ---- The account of a push ----

  /**
   * The loop stands at index i: what has been told, and what the rest of the buffer will tell with
   * the slice that is pending, make up the whole; and the rest decides how the push ends.
   */
  ghost predicate Accounted(
    cfg: Config, sys: Sys, input: bytes, begin: int, i: int, told: seq<Event>, whole: seq<Event>, end: End)
  {
    && 0 <= i <= |input| && SysInv(cfg, sys) && (sys.lexer.mode.InString? ==> 0 <= begin <= i)
    && end == System.Push(cfg, sys, input[i..]).end
    && whole == told + Traced(cfg, sys, Slice(sys.lexer, input, begin, i), input[i..])
  }

  /** What has been told and what is still to be told make up the whole, after every pass. */
  lemma PassAccounted(
      cfg: Config, sys: Sys, input: bytes, i: nat, slice: bytes, told: seq<Event>, st: Status, l': Lexer, again: bool,
      q: Pda, telling: seq<Event>)
    requires cfg.Valid() && SysInv(cfg, sys) && i < |input|
    requires Passed(cfg, sys.lexer, input[i], slice, sys.pda, told, st, l', again, q, telling)
    ensures var rest := Traced(cfg, sys, slice, input[i..]);
            match st
            case Failed(e) => System.Push(cfg, sys, input[i..]).end == Error(e) && told + rest == telling
            case Ok =>
              var later, next := SliceAfter(sys.lexer, Iterate(cfg, sys.lexer, input[i]), slice, input[i]),
                                 input[if again then i else i + 1..];
              && SysInv(cfg, Sys(l', q)) && (again ==> l'.mode.LookupToken? && !sys.lexer.mode.LookupToken?)
              && System.Push(cfg, sys, input[i..]).end == System.Push(cfg, Sys(l', q), next).end
              && told + rest == telling + Traced(cfg, Sys(l', q), later, next)
  {
    var r := Iterate(cfg, sys.lexer, input[i]);
    assert input[i..][0] == input[i] && input[i..][1..] == input[i + 1..];
    PushIteration(cfg, sys, input[i..]);
    if st == Ok {
      IterationKeepsInv(cfg, sys, input[i]);
      Associate(told, Made(sys.lexer, r, slice),
                Traced(cfg, Sys(l', q), SliceAfter(sys.lexer, r, slice, input[i]),
                       input[if again then i else i + 1..]));
    } else {
      assert told + [] == told;
    }
  }

  lemma AtTheStart(cfg: Config, sys: Sys, input: bytes, begin: int, told: seq<Event>)
    requires SysInv(cfg, sys) && (sys.lexer.mode.InString? ==> begin == 0)
    ensures Accounted(cfg, sys, input, begin, 0, told, told + Traced(cfg, sys, [], input),
                      System.Push(cfg, sys, input).end)
  {
    assert input[0..] == input;
    assert Slice(sys.lexer, input, begin, 0) == [];
  }

  lemma NothingMore(told: seq<Event>)
    ensures told + [] == told
  {
  }

  lemma AtTheEnd(
      cfg: Config, sys: Sys, input: bytes, begin: int, i: nat, told: seq<Event>, whole: seq<Event>, end: End)
    requires i == |input| && Accounted(cfg, sys, input, begin, i, told, whole, end)
    ensures end == Running(sys) && whole == told + Flush(Slice(sys.lexer, input, begin, i))
  {
    assert input[i..] == [];
  }

  // ---- The final call ----

  /** The end of the input did to the parser what `Finish` says. */
  ghost predicate Ended(
    cfg: Config, before: Pda, told: seq<Event>, l: Lexer, st: Status, after: Pda, telling: seq<Event>)
  {
    var o := Combine(cfg, before, Finish(cfg, l));
    && telling == told + o.events
    && o.end == if st.Failed? then Error(st.error) else Running(Sys(l, after))
  }

  lemma FinishToken(cfg: Config, l: Lexer)
    requires l.mode.InNumber? || l.mode.InNumberFrac? || l.mode.InNumberExp?
    ensures Finish(cfg, l) == Scanned([TokenOf(cfg, l)], Go(l))
    ensures TokenOf(cfg, l).Int? || TokenOf(cfg, l).Double?
  {
  }

  lemma TookAtTheEnd(
      cfg: Config, l: Lexer, t: Token, before: Pda, told: seq<Event>, st: Status, after: Pda, telling: seq<Event>)
    requires Finish(cfg, l) == Scanned([t], Go(l)) && (t.Int? || t.Double?) && NoEmptyChunks(told)
    requires Took(cfg.Limit(), before, told, t, st, after, telling)
    ensures Ended(cfg, before, told, l, st, after, telling) && NoEmptyChunks(telling)
  {
    FeedOne(Shipped, cfg.Limit(), before, t);
    assert told + [] == told;
  }

  lemma NothingEnds(cfg: Config, p: Pda, told: seq<Event>)
    ensures Feed(Shipped, cfg.Limit(), p, []) == Move([], Ready(p))
    ensures told + [] == told
  {
  }

  // ---- Parts of the loop body that only compute ----

  /** Between tokens, a byte that is neither white space nor punctuation nor a quote. */
  method BeginWordOrNumber(lex: Lexer, b: byte) returns (st: Status, lex': Lexer)
    requires !Blank(b) && Punctuation(b) == [] && b != QUOTE
    ensures LookupByte(lex, b) == if st == Ok then Quiet(lex') else Reject(st.error)
  {
    st, lex' := Ok, lex;
    if b == KW_TRUE[0] {
      lex' := lex.(offset := 1, mode := InTrue);
    } else if b == KW_FALSE[0] {
      lex' := lex.(offset := 1, mode := InFalse);
    } else if b == KW_NULL[0] {
      lex' := lex.(offset := 1, mode := InNull);
    } else if b == MINUS {
      lex' := lex.(minus := true, mode := InNumberSign);
    } else if b == PLUS {
      st := Failed(LeadingPlus);
    } else if 0x30 <= b <= 0x39 {
      lex' := lex.(intValue := b as int - 0x30, mode := InNumber);
    } else {
      st := Failed(UnexpSymbol);
    }
  }

  /** What the lexer does with a string byte once the sequence it continues has been counted. */
  datatype StringByteKind = Deliver | StartEscape | CloseString

  function ModeAfter(kind: StringByteKind, mode: Mode): Mode {
    match kind
    case Deliver => mode
    case StartEscape => InStringEscape
    case CloseString => LookupToken
  }

  method ClassifyStringByte(lex: Lexer, b: byte) returns (st: Status, lex': Lexer, kind: StringByteKind)
    ensures StringPlainByte(lex, b)
            == if st.Failed? then Reject(st.error)
               else match kind
                    case Deliver => Emit(StringByte(b), lex')
                    case StartEscape => Quiet(lex')
                    case CloseString => Emit(StringEnd, lex')
    ensures st.Failed? ==> kind == Deliver
    ensures st == Ok ==> lex'.mode == ModeAfter(kind, lex.mode)
  {
    st, lex', kind := Ok, lex, Deliver;
    LeadMasks(b);
    LongLeadMasks(b);
    if And(b, 0xe0) == 0xc0 {
      lex' := lex.(nb := 1);
    } else if And(b, 0xf0) == 0xe0 {
      lex' := lex.(nb := 2, cc := if b == 0xE0 then 1 else lex.cc);
    } else if And(b, 0xf8) == 0xf0 {
      lex' := lex.(nb := 3, cc := if b == 0xF0 then 2 else if b == 0xF4 then 3 else lex.cc);
    } else if And(b, 0xf8) == 0xf8 {
      st := Failed(LongUtf8);
    } else if b == BACKSLASH {
      lex', kind := lex.(mode := InStringEscape), StartEscape;
    } else if b == QUOTE {
      lex', kind := lex.(mode := LookupToken), CloseString;
    } else if lex.nb == 0 && b < 0x20 {
      st := Failed(BadUtf8);
    }
  }

  /** Checks a byte against the multibyte sequence it should continue, with the masks of the code. */
  method CountContinuation(lex: Lexer, b: byte) returns (st: Status, lex': Lexer)
    ensures if lex.nb > 0 && !Continues(lex.nb, lex.cc, b) then st == Failed(BadUtf8)
            else st == Ok && lex' == Counted(lex, b)
  {
    st, lex' := Ok, lex;
    ContinuationMasks(b);
    AfterF0Mask(b);
    if lex.nb > 0 {
      if lex.nb == 2 && lex.cc == 1 {
        if And(b, 0xe0) != 0xa0 {
          return Failed(BadUtf8), lex;
        }
        lex' := lex'.(cc := 0);
      } else if lex.nb == 3 {
        if lex.cc == 2 {
          if And(b, 0xd0) != 0x90 {
            return Failed(BadUtf8), lex;
          }
          lex' := lex'.(cc := 0);
        } else if lex.cc == 3 {
          if And(b, 0xf0) != 0x80 {
            return Failed(BadUtf8), lex;
          }
          lex' := lex'.(cc := 0);
        }
      } else if And(b, 0xc0) != 0x80 {
        return Failed(BadUtf8), lex;
      }
      lex' := lex'.(nb := lex'.nb - 1);
    }
  }

  /** The case LEXER_STATE_IN_STRING, but for what it hands to the parser. */
  method ReadStringByte(lex: Lexer, b: byte) returns (st: Status, lex': Lexer, kind: StringByteKind)
    requires lex.mode.InString?
    ensures InStringByte(lex, b)
            == if st.Failed? then Reject(st.error)
               else match kind
                    case Deliver => Emit(StringByte(b), lex')
                    case StartEscape => Quiet(lex')
                    case CloseString => Emit(StringEnd, lex')
    ensures st == Ok ==> lex'.mode == ModeAfter(kind, InString)
  {
    kind := Deliver;
    st, lex' := CountContinuation(lex, b);
    if st == Ok {
      st, lex', kind := ClassifyStringByte(lex', b);
    }
  }

  /** The lower half of a byte of the code point, by bitwise or. */
  method OrInto(cp: byte, value: byte) returns (r: byte)
    requires cp % 16 == 0 && value < 16
    ensures r == WithLowNibble(cp, value)
  {
    OrNibble(cp, value);
    r := Or(cp, value);
  }

  /** The case LEXER_STATE_IN_STRING_UNICODE_ESCAPE, but for the chunk at its end. */
  method ReadHexDigit(lex: Lexer, b: byte) returns (st: Status, lex': Lexer)
    requires lex.offset <= 3
    requires (lex.offset == 1 ==> lex.cp0 % 16 == 0) && (lex.offset == 3 ==> lex.cp1 % 16 == 0)
    ensures UnicodeByte(lex, b)
            == if st.Failed? then Reject(st.error)
               else if lex.offset == 3 then Iteration([StringByte(lex'.cp0), StringByte(lex'.cp1)], Go(lex'), false)
               else Quiet(lex')
    ensures st == Ok ==> lex'.offset == lex.offset + 1
                         && lex'.mode == if lex.offset == 3 then InString else lex.mode
  {
    st, lex' := Ok, lex;
    var value: byte;
    if 0x30 <= b <= 0x39 {
      value := b - 0x30;
    } else if 0x61 <= b <= 0x66 {
      value := 10 + b - 0x61;
    } else if 0x41 <= b <= 0x46 {
      value := 10 + b - 0x41;
    } else {
      return Failed(BadUnicodeEscape), lex;
    }
    if lex.offset == 0 {
      lex' := lex'.(cp0 := value * 16);
    } else if lex.offset == 1 {
      var cp := OrInto(lex.cp0, value);
      lex' := lex'.(cp0 := cp);
    } else if lex.offset == 2 {
      lex' := lex'.(cp1 := value * 16);
    } else {
      var cp := OrInto(lex.cp1, value);
      lex' := lex'.(cp1 := cp, mode := InString);
    }
    lex' := lex'.(offset := lex.offset + 1);
  }

  /** The number states, up to the point where a number is complete (`done`). */
  method ReadNumberByte(cfg: Config, lex: Lexer, b: byte) returns (st: Status, lex': Lexer, done: bool)
    requires NumberMode(lex.mode)
    ensures Iterate(cfg, lex, b)
            == if st.Failed? then Reject(st.error)
               else if done then EndNumber(TokenOf(cfg, lex), lex)
               else Quiet(lex')
    ensures st.Failed? ==> !done
  {
    st, lex', done := Ok, lex, false;
    var digit := 0x30 <= b <= 0x39;
    match lex.mode
    case InNumberSign =>
      if digit {
        lex' := lex.(intValue := 10 * lex.intValue + b as int - 0x30, mode := InNumber);
      } else {
        st := Failed(EofInString);
      }
    case InNumber =>
      if digit {
        if lex.intValue == 0 {
          st := Failed(LeadingZero);
        } else if lex.intValue > cfg.intMax / 10 - b as int + 0x30 {
          st := Failed(IntOverflow);
        } else {
          lex' := lex.(intValue := 10 * lex.intValue + b as int - 0x30);
        }
      } else if b == DOT {
        lex' := lex.(mode := InNumberFrac);
      } else if b == 0x65 || b == 0x45 {
        lex' := lex.(mode := InNumberExpSign);
      } else {
        done := true;
      }
    case InNumberFrac =>
      if digit {
        lex' := lex.(fracValue := U64(10 * lex.fracValue + b as int - 0x30), fracPower := U16(lex.fracPower + 1));
      } else if lex.fracPower == 0 {
        st := Failed(EmptyFrac);
      } else if b == 0x65 || b == 0x45 {
        lex' := lex.(mode := InNumberExpSign);
      } else {
        done := true;
      }
    case InNumberExpSign =>
      if b == MINUS {
        lex' := lex.(expMinus := true);
      } else if digit {
        lex' := lex.(expValue := b as int - 0x30, expNotEmpty := true);
      } else if b != PLUS {
        return Failed(BadExponent), lex, false;
      }
      lex' := lex'.(mode := InNumberExp);
    case InNumberExp =>
      if digit {
        lex' := lex.(expValue := U16(10 * lex.expValue + b as int - 0x30), expNotEmpty := true);
        if (lex.expMinus && lex'.expValue > 323) || (!lex.expMinus && lex'.expValue > 308) {
          st := Failed(ExponentOverflow);
        }
      } else if !lex.expNotEmpty {
        st := Failed(EmptyExp);
      } else {
        done := true;
      }
  }

  /** The token of the number in the registers. */
  function TokenOf(cfg: Config, lex: Lexer): Token {
    if lex.mode.InNumberExp? then ExpToken(cfg, lex)
    else if lex.mode.InNumberFrac? then FracToken(cfg, lex)
    else IntToken(lex)
  }

  /** `powm10`: past the end of the table there is whatever the configuration says. */
  function TableEntry(cfg: Config, n: nat): real {
    if n <= TABLE_MAX then PowM10(n) else cfg.beyond(n)
  }

  /** The value computed from the registers, with the products the code forms. */
  method MakeNumber(cfg: Config, lex: Lexer) returns (t: Token)
    ensures t == TokenOf(cfg, lex)
  {
    if lex.mode.InNumberFrac? || lex.mode.InNumberExp? {
      ScaleIsProduct(lex.fracValue as real, lex.fracPower);
      var value := lex.intValue as real + lex.fracValue as real * TableEntry(cfg, lex.fracPower);
      assert value == Mantissa(cfg, lex.intValue, lex.fracValue, lex.fracPower);
      if lex.mode.InNumberExp? {
        var e: int := if lex.expMinus then lex.expValue else 0 - lex.expValue;
        ScaleIsProduct(value, e);
        value := value * PowM10(e);
        assert value == Scale(Mantissa(cfg, lex.intValue, lex.fracValue, lex.fracPower), e);
      }
      if lex.minus {
        value := 0.0 - value;
      }
      t := Double(value);
    } else {
      t := Int(if lex.minus then 0 - lex.intValue else lex.intValue);
    }
  }
}
