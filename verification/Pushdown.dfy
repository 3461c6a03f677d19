/**
 * The pushdown parser as a function of one token at a time, with its stack as a sequence whose
 * last element is the top. The same function describes the machine as shipped and the automaton
 * of the repository's diagram; they differ in one transition.
 */
module Pushdown {
  import opened Tokens

  datatype State =
    | ExpectValue
    | MaybeObjectKey
    | ExpectObjectKey
    | ExpectColon
    | MaybeObjectComma
    | ExpectObjectValue
    | MaybeArrayValue
    | ExpectArrayValue
    | MaybeArrayComma
    | Done
    | Invalid

  const CURLY := false
  const SQUARE := true

  datatype Pda = Pda(state: State, stack: seq<bool>)

  const START := Pda(ExpectValue, [])

  /** Which transitions: those of the code, or those drawn in the diagram. */
  datatype Rules = Shipped | Drawn

  datatype Move = Move(events: seq<Event>, next: Result)
  datatype Result = Ready(pda: Pda) | Broken(error: Error)

  function Top(stack: seq<bool>): bool
    requires stack != []
  {
    stack[|stack| - 1]
  }

  function Pop(stack: seq<bool>): seq<bool>
    requires stack != []
  {
    stack[..|stack| - 1]
  }

  // ---- Transitions ----

  /** The states that take a value other than a string. */
  predicate TakesValue(s: State) {
    s.ExpectValue? || s.ExpectObjectValue? || s.MaybeArrayValue? || s.ExpectArrayValue?
  }

  predicate TakesString(s: State) {
    TakesValue(s) || s.MaybeObjectKey? || s.ExpectObjectKey?
  }

  function AfterValue(s: State): State {
    match s
    case ExpectValue => Done
    case ExpectObjectValue => MaybeObjectComma
    case MaybeArrayValue => MaybeArrayComma
    case ExpectArrayValue => MaybeArrayComma
    case _ => Invalid
  }

  /** The table `next_state` of `embedjson_tokenc_end`. */
  function AfterString(s: State): State {
    if s.MaybeObjectKey? || s.ExpectObjectKey? then ExpectColon else AfterValue(s)
  }

  /** The state after a container is closed, `stack` being what is left of the stack. */
  function AfterClose(stack: seq<bool>): State {
    if stack == [] then Done
    else if Top(stack) == CURLY then MaybeObjectComma
    else MaybeArrayComma
  }

  /** The code sends an empty array that is a member's value to the key state, not the comma state. */
  function AfterEmptyArray(rules: Rules, stack: seq<bool>): State {
    if rules == Shipped && stack != [] && Top(stack) == CURLY then MaybeObjectKey else AfterClose(stack)
  }

  /** The error for a token other than a number or a string in a state without a transition for it. */
  function TokenError(s: State, t: Token): Error {
    match s
    case MaybeObjectKey => ExpObjectKey
    case ExpectObjectKey => ExpObjectKey
    case ExpectColon => ExpColon
    case MaybeObjectComma => ExpCommaOrCloseCurly
    case MaybeArrayComma => ExpCommaOrCloseBracket
    case Done => ExcessiveInput
    case _ =>
      if t.CloseCurly? then UnexpCloseCurly
      else if t.CloseBracket? then UnexpCloseBracket
      else if t.Comma? then UnexpComma
      else UnexpColon
  }

  function NumberError(s: State): Error {
    match s
    case MaybeObjectKey => ExpObjectKeyOrCloseCurly
    case ExpectObjectKey => ExpObjectKey
    case ExpectColon => ExpColon
    case MaybeObjectComma => ExpCommaOrCloseBracket
    case MaybeArrayComma => ExpCommaOrCloseCurly
    case _ => ExcessiveInput
  }

  function StringError(s: State): Error {
    match s
    case ExpectColon => ExpColon
    case MaybeObjectComma => ExpCommaOrCloseCurly
    case MaybeArrayComma => ExpCommaOrCloseBracket
    case _ => ExcessiveInput
  }

  function To(t: Token, s: State, stack: seq<bool>): Move {
    Move(EventsOf(t), Ready(Pda(s, stack)))
  }

  function Fail(e: Error): Move { Move([], Broken(e)) }

  function Open(limit: nat, p: Pda, t: Token, bracket: bool, inner: State): Move {
    if !TakesValue(p.state) then Fail(TokenError(p.state, t))
    else if |p.stack| == limit then Fail(StackOverflow)
    else To(t, inner, p.stack + [bracket])
  }

  /** Closing needs something to close; `NeverInternalError` shows that there always is. */
  function CloseWith(t: Token, stack: seq<bool>, s: State): Move {
    if stack == [] then Fail(InternalError) else To(t, s, Pop(stack))
  }

  function Advance(rules: Rules, limit: nat, p: Pda, t: Token): Move {
    var s := p.state;
    if s.Invalid? then Move(if t.StringByte? then EventsOf(t) else [], Ready(p))
    else
      match t
      case OpenCurly => Open(limit, p, t, CURLY, MaybeObjectKey)
      case OpenBracket => Open(limit, p, t, SQUARE, MaybeArrayValue)
      case CloseCurly =>
        if s.MaybeObjectKey? || s.MaybeObjectComma? then
          CloseWith(t, p.stack, if p.stack == [] then Done else AfterClose(Pop(p.stack)))
        else Fail(TokenError(s, t))
      case CloseBracket =>
        if s.MaybeArrayValue? then
          CloseWith(t, p.stack, if p.stack == [] then Done else AfterEmptyArray(rules, Pop(p.stack)))
        else if s.MaybeArrayComma? then
          CloseWith(t, p.stack, if p.stack == [] then Done else AfterClose(Pop(p.stack)))
        else Fail(TokenError(s, t))
      case Comma =>
        if s.MaybeObjectComma? then To(t, ExpectObjectKey, p.stack)
        else if s.MaybeArrayComma? then To(t, ExpectArrayValue, p.stack)
        else Fail(TokenError(s, t))
      case Colon =>
        if s.ExpectColon? then To(t, ExpectObjectValue, p.stack) else Fail(TokenError(s, t))
      case True => if TakesValue(s) then To(t, AfterValue(s), p.stack) else Fail(TokenError(s, t))
      case False => if TakesValue(s) then To(t, AfterValue(s), p.stack) else Fail(TokenError(s, t))
      case Null => if TakesValue(s) then To(t, AfterValue(s), p.stack) else Fail(TokenError(s, t))
      case Int(_) => if TakesValue(s) then To(t, AfterValue(s), p.stack) else Fail(NumberError(s))
      case Double(_) => if TakesValue(s) then To(t, AfterValue(s), p.stack) else Fail(NumberError(s))
      case StringBegin => if TakesString(s) then To(t, s, p.stack) else Fail(StringError(s))
      case StringByte(_) => To(t, s, p.stack)
      case StringEnd => To(t, AfterString(s), p.stack)
  }

  function Feed(rules: Rules, limit: nat, p: Pda, ts: seq<Token>): Move
    decreases |ts|
  {
    if ts == [] then Move([], Ready(p))
    else
      var m := Advance(rules, limit, p, ts[0]);
      match m.next
      case Broken(_) => m
      case Ready(p') => Following(m.events, Feed(rules, limit, p', ts[1..]))
  }

  function Following(es: seq<Event>, m: Move): Move {
    Move(es + m.events, m.next)
  }

  lemma FollowingFollowing(a: seq<Event>, b: seq<Event>, m: Move)
    ensures Following(a, Following(b, m)) == Following(a + b, m)
  {
    assert a + (b + m.events) == (a + b) + m.events;
  }

  lemma {:induction false} FeedConcat(rules: Rules, limit: nat, p: Pda, a: seq<Token>, b: seq<Token>)
    ensures var m := Feed(rules, limit, p, a);
            Feed(rules, limit, p, a + b)
            == if m.next.Broken? then m else Following(m.events, Feed(rules, limit, m.next.pda, b))
    decreases |a|
  {
    if a == [] {
      assert a + b == b;
    } else {
      assert (a + b)[1..] == a[1..] + b;
      var m := Advance(rules, limit, p, a[0]);
      if m.next.Ready? {
        FeedConcat(rules, limit, m.next.pda, a[1..], b);
        var n := Feed(rules, limit, m.next.pda, a[1..]);
        if n.next.Ready? {
          FollowingFollowing(m.events, n.events, Feed(rules, limit, n.next.pda, b));
        }
      }
    }
  }

  lemma FeedOne(rules: Rules, limit: nat, p: Pda, t: Token)
    ensures Feed(rules, limit, p, [t]) == Advance(rules, limit, p, t)
  {
    var m := Advance(rules, limit, p, t);
    if m.next.Ready? {
      assert m.events + [] == m.events;
    }
  }

  // ---- What every step keeps ----

  /** The state tells what is on top of the stack, and whether anything is. */
  predicate Coupled(p: Pda) {
    match p.state
    case ExpectValue => p.stack == []
    case Done => p.stack == []
    case MaybeArrayValue => p.stack != [] && Top(p.stack) == SQUARE
    case ExpectArrayValue => p.stack != [] && Top(p.stack) == SQUARE
    case MaybeArrayComma => p.stack != [] && Top(p.stack) == SQUARE
    case Invalid => false
    case _ => p.stack != [] && Top(p.stack) == CURLY
  }

  /** Inside a string (`inString`) the parser is still in a state that lets strings begin. */
  predicate Sound(limit: nat, p: Pda, inString: bool) {
    Coupled(p) && |p.stack| <= limit && (inString ==> TakesString(p.state))
  }

  /** Do the string tokens of `ts` open and close properly, starting inside a string or not? */
  predicate Shaped(inString: bool, ts: seq<Token>)
    decreases |ts|
  {
    ts == []
    || (OpensOrCloses(inString, ts[0]) && Shaped(InStringAfter(inString, ts[0]), ts[1..]))
  }

  predicate OpensOrCloses(inString: bool, t: Token) {
    (t.StringByte? || t.StringEnd?) == inString
  }

  function InStringAfter(inString: bool, t: Token): bool {
    t.StringBegin? || (inString && t.StringByte?)
  }

  function InStringAtEnd(inString: bool, ts: seq<Token>): bool
    decreases |ts|
  {
    if ts == [] then inString else InStringAtEnd(InStringAfter(inString, ts[0]), ts[1..])
  }

  lemma {:induction false} ShapedConcat(inString: bool, a: seq<Token>, b: seq<Token>)
    ensures Shaped(inString, a + b) <==> Shaped(inString, a) && Shaped(InStringAtEnd(inString, a), b)
    ensures InStringAtEnd(inString, a + b) == InStringAtEnd(InStringAtEnd(inString, a), b)
    decreases |a|
  {
    if a == [] {
      assert a + b == b;
    } else {
      assert (a + b)[1..] == a[1..] + b;
      ShapedConcat(InStringAfter(inString, a[0]), a[1..], b);
    }
  }

  /**
   * One step from a sound state: never an internal error, and a success keeps state and stack
   * coupled, the depth within the limit, and reports exactly the token's own callbacks.
   */
  lemma AdvanceKeepsSound(rules: Rules, limit: nat, p: Pda, t: Token, inString: bool)
    requires Sound(limit, p, inString) && OpensOrCloses(inString, t)
    ensures var m := Advance(rules, limit, p, t);
            match m.next
            case Broken(e) => e != InternalError
            case Ready(p') => Sound(limit, p', InStringAfter(inString, t)) && m.events == EventsOf(t)
  {
  }

  lemma {:induction false} FeedKeepsSound(rules: Rules, limit: nat, p: Pda, ts: seq<Token>, inString: bool)
    requires Sound(limit, p, inString) && Shaped(inString, ts)
    ensures var m := Feed(rules, limit, p, ts);
            match m.next
            case Broken(e) => e != InternalError
            case Ready(p') => Sound(limit, p', InStringAtEnd(inString, ts)) && m.events == AllEvents(ts)
    decreases |ts|
  {
    if ts != [] {
      AdvanceKeepsSound(rules, limit, p, ts[0], inString);
      var m := Advance(rules, limit, p, ts[0]);
      if m.next.Ready? {
        FeedKeepsSound(rules, limit, m.next.pda, ts[1..], InStringAfter(inString, ts[0]));
      }
    }
  }

  // ---- Nesting ----

  /** The containers still open after the callbacks `es`, innermost last, when each end matches. */
  function Unclosed(open: seq<bool>, es: seq<Event>): (r: seq<bool>)
    decreases |es|
  {
    if es == [] then open
    else
      match es[0]
      case BeginObject => Unclosed(open + [CURLY], es[1..])
      case BeginArray => Unclosed(open + [SQUARE], es[1..])
      case EndObject => if open != [] then Unclosed(Pop(open), es[1..]) else []
      case EndArray => if open != [] then Unclosed(Pop(open), es[1..]) else []
      case _ => Unclosed(open, es[1..])
  }

  /** Every end callback closes the innermost open container, of its own kind. */
  predicate Matched(open: seq<bool>, es: seq<Event>)
    decreases |es|
  {
    es == [] ||
    match es[0]
    case BeginObject => Matched(open + [CURLY], es[1..])
    case BeginArray => Matched(open + [SQUARE], es[1..])
    case EndObject => open != [] && Top(open) == CURLY && Matched(Pop(open), es[1..])
    case EndArray => open != [] && Top(open) == SQUARE && Matched(Pop(open), es[1..])
    case _ => Matched(open, es[1..])
  }

  lemma AdvanceUnclosed(rules: Rules, limit: nat, p: Pda, t: Token, inString: bool, rest: seq<Event>)
    requires Sound(limit, p, inString) && OpensOrCloses(inString, t)
    requires Advance(rules, limit, p, t).next.Ready?
    ensures var m := Advance(rules, limit, p, t);
            && Unclosed(p.stack, m.events + rest) == Unclosed(m.next.pda.stack, rest)
            && Matched(p.stack, m.events + rest) == Matched(m.next.pda.stack, rest)
  {
    var m := Advance(rules, limit, p, t);
    AdvanceKeepsSound(rules, limit, p, t, inString);
    if EventsOf(t) == [] {
      assert m.events + rest == rest;
    } else {
      assert (m.events + rest)[0] == EventsOf(t)[0] && (m.events + rest)[1..] == rest;
    }
  }

  /** The stack is, bit by bit, the sequence of begin callbacks that no end callback has closed. */
  lemma {:induction false} StackIsUnclosed(rules: Rules, limit: nat, p: Pda, ts: seq<Token>, inString: bool)
    requires Sound(limit, p, inString) && Shaped(inString, ts)
    requires Feed(rules, limit, p, ts).next.Ready?
    ensures var m := Feed(rules, limit, p, ts);
            Matched(p.stack, m.events) && m.next.pda.stack == Unclosed(p.stack, m.events)
    decreases |ts|
  {
    if ts != [] {
      AdvanceKeepsSound(rules, limit, p, ts[0], inString);
      var q := Advance(rules, limit, p, ts[0]).next.pda;
      StackIsUnclosed(rules, limit, q, ts[1..], InStringAfter(inString, ts[0]));
      AdvanceUnclosed(rules, limit, p, ts[0], inString, Feed(rules, limit, q, ts[1..]).events);
    }
  }
}
