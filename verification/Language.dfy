/**
 * The token language of the pushdown parser: it accepts exactly the spellings of the values whose
 * depth is within the limit, and stops at the first token that no such spelling can have.
 */
module Language {
  import opened Bytes
  import opened Tokens
  import opened Pushdown
  import opened Documents

  /** Accepted as a whole: no error, and the parser is done. */
  predicate Accepts(rules: Rules, limit: nat, ts: seq<Token>) {
    var m := Feed(rules, limit, START, ts);
    m.next.Ready? && m.next.pda.state == Done
  }

  // ---- Every spelling is accepted ----

  lemma FeedThen(rules: Rules, limit: nat, p: Pda, a: seq<Token>, q: Pda, b: seq<Token>)
    requires Feed(rules, limit, p, a).next == Ready(q)
    ensures Feed(rules, limit, p, a + b).next == Feed(rules, limit, q, b).next
  {
    FeedConcat(rules, limit, p, a, b);
  }

  /** The state after a value: a member that is an empty array is where the two rules part. */
  function ValueEnd(rules: Rules, s: State, v: Value): State {
    if rules == Shipped && s == ExpectObjectValue && v == EMPTY_ARRAY then MaybeObjectKey else AfterValue(s)
  }

  function ItemsEnd(items: Items): State {
    if items.NoItems? then MaybeArrayValue else MaybeArrayComma
  }

  function MembersEnd(rules: Rules, ms: Members): State {
    if ms.NoMembers? then MaybeObjectKey else ValueEnd(rules, ExpectObjectValue, ms.value)
  }

  lemma {:induction false} FeedBytes(rules: Rules, limit: nat, p: Pda, s: bytes)
    requires !p.state.Invalid?
    ensures Feed(rules, limit, p, StringBytes(s)).next == Ready(p)
    decreases |s|
  {
    if s != [] {
      StringBytesTail(s);
      FeedBytes(rules, limit, p, s[1..]);
    }
  }

  lemma FeedString(rules: Rules, limit: nat, p: Pda, s: bytes)
    requires TakesString(p.state)
    ensures Feed(rules, limit, p, StringTokens(s)).next == Ready(Pda(AfterString(p.state), p.stack))
  {
    FeedOne(rules, limit, p, StringBegin);
    FeedOne(rules, limit, p, StringEnd);
    FeedBytes(rules, limit, p, s);
    FeedThen(rules, limit, p, [StringBegin], p, StringBytes(s));
    FeedThen(rules, limit, p, [StringBegin] + StringBytes(s), p, [StringEnd]);
  }

  /** From one state to the next, through the three parts of a bracketed value. */
  lemma FeedBracketed(rules: Rules, limit: nat, p: Pda, o: Token, q: Pda, body: seq<Token>, r: Pda, c: Token)
    requires Advance(rules, limit, p, o).next == Ready(q)
    requires Feed(rules, limit, q, body).next == Ready(r)
    ensures Feed(rules, limit, p, [o] + body + [c]).next == Advance(rules, limit, r, c).next
  {
    FeedOne(rules, limit, p, o);
    FeedThen(rules, limit, p, [o], q, body);
    FeedThen(rules, limit, p, [o] + body, r, [c]);
    FeedOne(rules, limit, r, c);
  }

  lemma FeedArray(rules: Rules, limit: nat, p: Pda, items: Items)
    requires Coupled(p) && TakesValue(p.state) && |p.stack| < limit
    requires Feed(rules, limit, Pda(MaybeArrayValue, p.stack + [SQUARE]), ItemTokens(rules, items)).next
             == Ready(Pda(ItemsEnd(items), p.stack + [SQUARE]))
    ensures Feed(rules, limit, p, TokensOf(rules, ArrayValue(items))).next
            == Ready(Pda(ValueEnd(rules, p.state, ArrayValue(items)), p.stack))
  {
    var inner := p.stack + [SQUARE];
    FeedBracketed(rules, limit, p, OpenBracket, Pda(MaybeArrayValue, inner), ItemTokens(rules, items),
                  Pda(ItemsEnd(items), inner), CloseBracket);
    assert Pop(inner) == p.stack;
  }

  lemma FeedObject(rules: Rules, limit: nat, p: Pda, ms: Members)
    requires Coupled(p) && TakesValue(p.state) && |p.stack| < limit
    requires Feed(rules, limit, Pda(MaybeObjectKey, p.stack + [CURLY]), MemberTokens(rules, ms)).next
             == Ready(Pda(MembersEnd(rules, ms), p.stack + [CURLY]))
    ensures Feed(rules, limit, p, TokensOf(rules, ObjectValue(ms))).next
            == Ready(Pda(ValueEnd(rules, p.state, ObjectValue(ms)), p.stack))
  {
    var inner := p.stack + [CURLY];
    FeedBracketed(rules, limit, p, OpenCurly, Pda(MaybeObjectKey, inner), MemberTokens(rules, ms),
                  Pda(MembersEnd(rules, ms), inner), CloseCurly);
    assert Pop(inner) == p.stack;
  }

  lemma {:induction false} FeedValue(rules: Rules, limit: nat, p: Pda, v: Value)
    requires Coupled(p) && TakesValue(p.state) && |p.stack| + Depth(v) <= limit
    ensures Feed(rules, limit, p, TokensOf(rules, v)).next
            == Ready(Pda(ValueEnd(rules, p.state, v), p.stack))
    decreases v
  {
    match v
    case StringValue(s) => FeedString(rules, limit, p, s);
    case ArrayValue(items) =>
      FeedItems(rules, limit, p.stack + [SQUARE], items);
      FeedArray(rules, limit, p, items);
    case ObjectValue(members) =>
      FeedMembers(rules, limit, p.stack + [CURLY], members);
      FeedObject(rules, limit, p, members);
    case _ => FeedOne(rules, limit, p, TokensOf(rules, v)[0]);
  }

  lemma {:induction false} FeedItems(rules: Rules, limit: nat, stack: seq<bool>, items: Items)
    requires stack != [] && Top(stack) == SQUARE && |stack| + ItemsDepth(items) <= limit
    ensures Feed(rules, limit, Pda(MaybeArrayValue, stack), ItemTokens(rules, items)).next
            == Ready(Pda(ItemsEnd(items), stack))
    decreases items
  {
    if items.Items? {
      var p, q := Pda(MaybeArrayValue, stack), Pda(ItemsEnd(items.init), stack);
      var sep := ItemSeparator(items.init);
      var r := Pda(if sep == [] then MaybeArrayValue else ExpectArrayValue, stack);
      FeedItems(rules, limit, stack, items.init);
      if sep != [] {
        FeedOne(rules, limit, q, Comma);
      }
      FeedThen(rules, limit, p, ItemTokens(rules, items.init), q, sep);
      FeedValue(rules, limit, r, items.last);
      FeedThen(rules, limit, p, ItemTokens(rules, items.init) + sep, r, TokensOf(rules, items.last));
    }
  }

  lemma {:induction false} FeedMembers(rules: Rules, limit: nat, stack: seq<bool>, ms: Members)
    requires stack != [] && Top(stack) == CURLY && |stack| + MembersDepth(ms) <= limit
    ensures Feed(rules, limit, Pda(MaybeObjectKey, stack), MemberTokens(rules, ms)).next
            == Ready(Pda(MembersEnd(rules, ms), stack))
    decreases ms
  {
    if ms.Members? {
      FeedMembers(rules, limit, stack, ms.init);
      var r := FeedSeparator(rules, limit, stack, ms.init);
      FeedValue(rules, limit, Pda(ExpectObjectValue, stack), ms.value);
      FeedMember(rules, limit, stack, MemberTokens(rules, ms.init) + Separator(rules, ms.init), r, ms.key, ms.value);
    }
  }

  lemma FeedSeparator(rules: Rules, limit: nat, stack: seq<bool>, ms: Members) returns (r: Pda)
    requires Feed(rules, limit, Pda(MaybeObjectKey, stack), MemberTokens(rules, ms)).next
             == Ready(Pda(MembersEnd(rules, ms), stack))
    ensures r.stack == stack && (r.state.MaybeObjectKey? || r.state.ExpectObjectKey?)
    ensures Feed(rules, limit, Pda(MaybeObjectKey, stack), MemberTokens(rules, ms) + Separator(rules, ms)).next
            == Ready(r)
  {
    var q, sep := Pda(MembersEnd(rules, ms), stack), Separator(rules, ms);
    r := Pda(if sep == [] then MaybeObjectKey else ExpectObjectKey, stack);
    if sep != [] {
      FeedOne(rules, limit, q, Comma);
    }
    FeedThen(rules, limit, Pda(MaybeObjectKey, stack), MemberTokens(rules, ms), q, sep);
  }

  /** One more member, after the tokens `a`. */
  lemma FeedMember(
      rules: Rules, limit: nat, stack: seq<bool>, a: seq<Token>, r: Pda, key: bytes, v: Value)
    requires Feed(rules, limit, Pda(MaybeObjectKey, stack), a).next == Ready(r)
    requires r.stack == stack && (r.state.MaybeObjectKey? || r.state.ExpectObjectKey?)
    requires Feed(rules, limit, Pda(ExpectObjectValue, stack), TokensOf(rules, v)).next
             == Ready(Pda(ValueEnd(rules, ExpectObjectValue, v), stack))
    ensures Feed(rules, limit, Pda(MaybeObjectKey, stack), a + StringTokens(key) + [Colon] + TokensOf(rules, v)).next
            == Ready(Pda(ValueEnd(rules, ExpectObjectValue, v), stack))
  {
    var p, c, w := Pda(MaybeObjectKey, stack), Pda(ExpectColon, stack), Pda(ExpectObjectValue, stack);
    FeedString(rules, limit, r, key);
    FeedThen(rules, limit, p, a, r, StringTokens(key));
    FeedOne(rules, limit, c, Colon);
    FeedThen(rules, limit, p, a + StringTokens(key), c, [Colon]);
    FeedThen(rules, limit, p, a + StringTokens(key) + [Colon], w, TokensOf(rules, v));
  }

  lemma EverySpellingAccepted(rules: Rules, limit: nat, v: Value)
    requires Depth(v) <= limit
    ensures Accepts(rules, limit, TokensOf(rules, v))
  {
    FeedValue(rules, limit, START, v);
  }

  // ---- Every accepted sequence is a spelling ----
  //
  // The proof runs the consumer of `Documents` beside the parser: what it has built so far, with
  // the parser's state, determines the tokens read so far.

  function Nesting(d: Dom): seq<bool> {
    match d
    case InArray(up, _) => Nesting(up) + [SQUARE]
    case InObject(up, _, _) => Nesting(up) + [CURLY]
    case _ => []
  }

  /** Every container around the innermost one waits for the value that one will become. */
  predicate Chained(d: Dom) {
    (d.InArray? || d.InObject?) ==> Awaits(d.up) && Chained(d.up)
  }

  /** The tokens up to where the innermost container has got. */
  function Body(rules: Rules, d: Dom): seq<Token>
    decreases d, 0
  {
    match d
    case Empty => []
    case Whole(v) => TokensOf(rules, v)
    case InArray(up, items) => Hole(rules, up) + [OpenBracket] + ItemTokens(rules, items)
    case InObject(up, ms, _) => Hole(rules, up) + [OpenCurly] + MemberTokens(rules, ms)
  }

  /** The tokens up to where the next value goes. */
  function Hole(rules: Rules, d: Dom): seq<Token>
    decreases d, 1
  {
    match d
    case InArray(up, items) => Body(rules, d) + ItemSeparator(items)
    case InObject(up, ms, Some(k)) => Body(rules, d) + Separator(rules, ms) + StringTokens(k) + [Colon]
    case _ => Body(rules, d)
  }

  /** The tokens read so far, by state. */
  function ReadBy(rules: Rules, s: State, d: Dom): seq<Token> {
    match d
    case InArray(_, _) => Body(rules, d) + if s.ExpectArrayValue? then [Comma] else []
    case InObject(_, ms, None) => Body(rules, d) + if s.ExpectObjectKey? then [Comma] else []
    case InObject(_, ms, Some(k)) =>
      Body(rules, d) + Separator(rules, ms) + StringTokens(k) + if s.ExpectObjectValue? then [Colon] else []
    case _ => Body(rules, d)
  }

  function Pending(text: Option<bytes>): seq<Token> {
    if text.None? then [] else [StringBegin] + StringBytes(text.value)
  }

  predicate InStep(rules: Rules, p: Pda, d: Dom) {
    && p.stack == Nesting(d) && Chained(d)
    && match d
       case Empty => p.state == ExpectValue
       case Whole(_) => p.state == Done
       case InArray(_, NoItems) => p.state == MaybeArrayValue
       case InArray(_, Items(_, _)) => p.state == MaybeArrayComma || p.state == ExpectArrayValue
       case InObject(_, ms, None) =>
         p.state == MembersEnd(rules, ms) || (p.state == ExpectObjectKey && Separator(rules, ms) == [Comma])
       case InObject(_, _, Some(_)) => p.state == ExpectColon || p.state == ExpectObjectValue
  }

  predicate WithinLimit(limit: nat, d: Dom) {
    match d
    case Empty => true
    case Whole(v) => Depth(v) <= limit
    case InArray(up, items) => |Nesting(d)| + ItemsDepth(items) <= limit && WithinLimit(limit, up)
    case InObject(up, ms, _) => |Nesting(d)| + MembersDepth(ms) <= limit && WithinLimit(limit, up)
  }

  /** Parser, consumer and the tokens read belong together. */
  predicate Related(rules: Rules, limit: nat, p: Pda, b: Builder, read: seq<Token>) {
    && InStep(rules, p, b.dom) && WithinLimit(limit, b.dom)
    && (b.text.Some? ==> TakesString(p.state))
    && read == ReadBy(rules, p.state, b.dom) + Pending(b.text)
  }

  /** The state after the value that `d` awaits. */
  function PutState(rules: Rules, d: Dom, v: Value): State {
    match d
    case InArray(_, _) => MaybeArrayComma
    case InObject(_, _, _) => ValueEnd(rules, ExpectObjectValue, v)
    case _ => Done
  }

  lemma PutBody(rules: Rules, d: Dom, v: Value)
    requires Awaits(d)
    ensures Body(rules, Put(d, v)) == Hole(rules, d) + TokensOf(rules, v)
  {
    match d
    case Empty =>
    case InArray(up, items) =>
      Regroup(Hole(rules, up) + [OpenBracket], ItemTokens(rules, items), ItemSeparator(items), TokensOf(rules, v));
    case InObject(up, ms, key) =>
      var k, sep := StringTokens(key.value), Separator(rules, ms);
      var open, members := Hole(rules, up) + [OpenCurly], MemberTokens(rules, ms);
      assert (members + sep + k) + [Colon] == members + (sep + k + [Colon]);
      assert (open + members + sep + k) + [Colon] == open + members + (sep + k + [Colon]);
      Regroup(open, members, sep + k + [Colon], TokensOf(rules, v));
  }

  lemma Regroup(a: seq<Token>, b: seq<Token>, c: seq<Token>, d: seq<Token>)
    ensures a + (b + c + d) == a + b + c + d
  {
  }

  lemma PlusNothing(a: seq<Token>)
    ensures a + [] == a
  {
  }

  lemma Regroup3(a: seq<Token>, b: seq<Token>, c: seq<Token>)
    ensures a + b + c == a + (b + c)
  {
  }

  lemma PutRelated(rules: Rules, limit: nat, d: Dom, v: Value)
    requires Awaits(d) && Chained(d) && WithinLimit(limit, d) && |Nesting(d)| + Depth(v) <= limit
    ensures Related(rules, limit, Pda(PutState(rules, d, v), Nesting(d)), Builder(Put(d, v), None),
                    Hole(rules, d) + TokensOf(rules, v))
  {
    PutBody(rules, d, v);
    var s := PutState(rules, d, v);
    assert ReadBy(rules, s, Put(d, v)) == Body(rules, Put(d, v));
    assert Pending(None) == [];
  }

  lemma WrittenAtHole(rules: Rules, p: Pda, d: Dom)
    requires InStep(rules, p, d) && TakesValue(p.state)
    ensures Awaits(d) && ReadBy(rules, p.state, d) == Hole(rules, d)
  {
  }

  predicate Keeps(rules: Rules, limit: nat, p: Pda, b: Builder, read: seq<Token>, t: Token) {
    var m := Advance(rules, limit, p, t);
    m.next.Ready? ==> Related(rules, limit, m.next.pda, AbsorbAll(b, EventsOf(t)), read + [t])
  }

  predicate Primitive(v: Value) {
    v.NullValue? || v.BoolValue? || v.IntValue? || v.RealValue?
  }

  lemma PrimitiveRelated(rules: Rules, limit: nat, p: Pda, d: Dom, read: seq<Token>, v: Value)
    requires Related(rules, limit, p, Builder(d, None), read) && TakesValue(p.state) && Primitive(v)
    ensures Related(rules, limit, Pda(AfterValue(p.state), p.stack), Builder(Put(d, v), None),
                    read + TokensOf(rules, v))
  {
    WrittenAtHole(rules, p, d);
    FitsNesting(limit, d);
    PutRelated(rules, limit, d, v);
    assert read == Hole(rules, d);
    assert AfterValue(p.state) == PutState(rules, d, v);
  }

  lemma PrimitiveAbsorbed(rules: Rules, b: Builder, v: Value)
    requires Primitive(v) && b.text.None?
    ensures AbsorbAll(b, EventsOf(TokensOf(rules, v)[0])) == Builder(Put(b.dom, v), None)
  {
    AbsorbOne(b, EventsOf(TokensOf(rules, v)[0])[0]);
  }

  lemma PrimitiveAdvance(rules: Rules, limit: nat, p: Pda, v: Value)
    requires Primitive(v) && !p.state.Invalid?
    ensures var n := Advance(rules, limit, p, TokensOf(rules, v)[0]).next;
            if TakesValue(p.state) then n == Ready(Pda(AfterValue(p.state), p.stack)) else n.Broken?
  {
  }

  lemma PrimitiveKeeps(rules: Rules, limit: nat, p: Pda, b: Builder, read: seq<Token>, t: Token, v: Value)
    requires Related(rules, limit, p, b, read) && b.text.None?
    requires Primitive(v) && TokensOf(rules, v) == [t]
    ensures Keeps(rules, limit, p, b, read, t)
  {
    PrimitiveAdvance(rules, limit, p, v);
    if TakesValue(p.state) {
      PrimitiveRelated(rules, limit, p, b.dom, read, v);
      PrimitiveAbsorbed(rules, b, v);
      assert read + TokensOf(rules, v) == read + [t];
    }
  }

  lemma FitsNesting(limit: nat, d: Dom)
    requires WithinLimit(limit, d)
    ensures |Nesting(d)| <= limit
  {
  }

  lemma OpenArrayRelated(rules: Rules, limit: nat, p: Pda, d: Dom, read: seq<Token>)
    requires Related(rules, limit, p, Builder(d, None), read) && TakesValue(p.state) && |p.stack| < limit
    ensures Related(rules, limit, Pda(MaybeArrayValue, p.stack + [SQUARE]), Builder(InArray(d, NoItems), None),
                    read + [OpenBracket])
  {
    WrittenAtHole(rules, p, d);
    PlusNothing(Hole(rules, d));
    PlusNothing(Hole(rules, d) + [OpenBracket]);
  }

  lemma OpenObjectRelated(rules: Rules, limit: nat, p: Pda, d: Dom, read: seq<Token>)
    requires Related(rules, limit, p, Builder(d, None), read) && TakesValue(p.state) && |p.stack| < limit
    ensures Related(rules, limit, Pda(MaybeObjectKey, p.stack + [CURLY]), Builder(InObject(d, NoMembers, None), None),
                    read + [OpenCurly])
  {
    WrittenAtHole(rules, p, d);
    PlusNothing(Hole(rules, d));
    PlusNothing(Hole(rules, d) + [OpenCurly]);
  }

  lemma OpenArrayKeeps(rules: Rules, limit: nat, p: Pda, b: Builder, read: seq<Token>)
    requires Related(rules, limit, p, b, read) && b.text.None?
    ensures Keeps(rules, limit, p, b, read, OpenBracket)
  {
    FitsNesting(limit, b.dom);
    if TakesValue(p.state) && |p.stack| < limit {
      AbsorbOne(b, BeginArray);
      OpenArrayRelated(rules, limit, p, b.dom, read);
    }
  }

  lemma OpenObjectKeeps(rules: Rules, limit: nat, p: Pda, b: Builder, read: seq<Token>)
    requires Related(rules, limit, p, b, read) && b.text.None?
    ensures Keeps(rules, limit, p, b, read, OpenCurly)
  {
    FitsNesting(limit, b.dom);
    if TakesValue(p.state) && |p.stack| < limit {
      AbsorbOne(b, BeginObject);
      OpenObjectRelated(rules, limit, p, b.dom, read);
    }
  }

  lemma CloseArrayRelated(rules: Rules, limit: nat, p: Pda, d: Dom, read: seq<Token>)
    requires Related(rules, limit, p, Builder(d, None), read) && d.InArray? && !p.state.ExpectArrayValue?
    ensures Related(rules, limit, Pda(PutState(rules, d.up, ArrayValue(d.items)), Nesting(d.up)),
                    Builder(Put(d.up, ArrayValue(d.items)), None), read + [CloseBracket])
  {
    var v := ArrayValue(d.items);
    assert read == Body(rules, d);
    Regroup(Hole(rules, d.up), [OpenBracket], ItemTokens(rules, d.items), [CloseBracket]);
    assert read + [CloseBracket] == Hole(rules, d.up) + TokensOf(rules, v);
    PutRelated(rules, limit, d.up, v);
  }

  lemma CloseArrayState(rules: Rules, p: Pda, d: Dom)
    requires InStep(rules, p, d) && (p.state.MaybeArrayValue? || p.state.MaybeArrayComma?)
    ensures d.InArray? && p.stack != [] && Pop(p.stack) == Nesting(d.up)
    ensures (if p.state.MaybeArrayValue? then AfterEmptyArray(rules, Nesting(d.up)) else AfterClose(Nesting(d.up)))
            == PutState(rules, d.up, ArrayValue(d.items))
  {
    assert Pop(Nesting(d)) == Nesting(d.up);
  }

  lemma AdvanceCloseArray(rules: Rules, limit: nat, p: Pda)
    requires p.stack != [] && (p.state.MaybeArrayValue? || p.state.MaybeArrayComma?)
    ensures var rest := Pop(p.stack);
            Advance(rules, limit, p, CloseBracket).next
            == Ready(Pda(if p.state.MaybeArrayValue? then AfterEmptyArray(rules, rest) else AfterClose(rest), rest))
  {
  }

  lemma ArrayAbsorbed(b: Builder)
    requires b.text.None? && b.dom.InArray?
    ensures AbsorbAll(b, EventsOf(CloseBracket)) == Builder(Put(b.dom.up, ArrayValue(b.dom.items)), None)
  {
    AbsorbOne(b, EndArray);
  }

  /** What has been shown of the three parts is what there is to show. */
  lemma KeepsBy(
      rules: Rules, limit: nat, p: Pda, b: Builder, read: seq<Token>, t: Token, q: Pda, b': Builder)
    requires Advance(rules, limit, p, t).next == Ready(q) && AbsorbAll(b, EventsOf(t)) == b'
    requires Related(rules, limit, q, b', read + [t])
    ensures Keeps(rules, limit, p, b, read, t)
  {
  }

  lemma CloseSomeArrayKeeps(rules: Rules, limit: nat, p: Pda, b: Builder, read: seq<Token>)
    requires Related(rules, limit, p, b, read) && b.text.None?
    requires p.state.MaybeArrayValue? || p.state.MaybeArrayComma?
    ensures Keeps(rules, limit, p, b, read, CloseBracket)
  {
    var d := b.dom;
    CloseArrayState(rules, p, d);
    AdvanceCloseArray(rules, limit, p);
    ArrayAbsorbed(b);
    CloseArrayRelated(rules, limit, p, d, read);
    KeepsBy(rules, limit, p, b, read, CloseBracket, Pda(PutState(rules, d.up, ArrayValue(d.items)), Nesting(d.up)),
            Builder(Put(d.up, ArrayValue(d.items)), None));
  }

  lemma CloseArrayKeeps(rules: Rules, limit: nat, p: Pda, b: Builder, read: seq<Token>)
    requires Related(rules, limit, p, b, read) && b.text.None?
    ensures Keeps(rules, limit, p, b, read, CloseBracket)
  {
    if p.state.MaybeArrayValue? || p.state.MaybeArrayComma? {
      CloseSomeArrayKeeps(rules, limit, p, b, read);
    }
  }

  lemma CloseObjectRelated(rules: Rules, limit: nat, p: Pda, d: Dom, read: seq<Token>)
    requires Related(rules, limit, p, Builder(d, None), read)
    requires d.InObject? && (p.state.MaybeObjectKey? || p.state.MaybeObjectComma?)
    ensures Related(rules, limit, Pda(PutState(rules, d.up, ObjectValue(d.members)), Nesting(d.up)),
                    Builder(Put(d.up, ObjectValue(d.members)), None), read + [CloseCurly])
  {
    var v := ObjectValue(d.members);
    assert read == Body(rules, d);
    Regroup(Hole(rules, d.up), [OpenCurly], MemberTokens(rules, d.members), [CloseCurly]);
    assert read + [CloseCurly] == Hole(rules, d.up) + TokensOf(rules, v);
    PutRelated(rules, limit, d.up, v);
  }

  lemma CloseObjectState(rules: Rules, p: Pda, d: Dom)
    requires InStep(rules, p, d) && (p.state.MaybeObjectKey? || p.state.MaybeObjectComma?)
    ensures d.InObject? && p.stack != [] && Pop(p.stack) == Nesting(d.up)
    ensures AfterClose(Nesting(d.up)) == PutState(rules, d.up, ObjectValue(d.members))
  {
    assert Pop(Nesting(d)) == Nesting(d.up);
  }

  lemma AdvanceCloseObject(rules: Rules, limit: nat, p: Pda)
    requires p.stack != [] && (p.state.MaybeObjectKey? || p.state.MaybeObjectComma?)
    ensures Advance(rules, limit, p, CloseCurly).next == Ready(Pda(AfterClose(Pop(p.stack)), Pop(p.stack)))
  {
  }

  lemma ObjectAbsorbed(b: Builder)
    requires b.text.None? && b.dom.InObject?
    ensures AbsorbAll(b, EventsOf(CloseCurly)) == Builder(Put(b.dom.up, ObjectValue(b.dom.members)), None)
  {
    AbsorbOne(b, EndObject);
  }

  lemma CloseSomeObjectKeeps(rules: Rules, limit: nat, p: Pda, b: Builder, read: seq<Token>)
    requires Related(rules, limit, p, b, read) && b.text.None?
    requires p.state.MaybeObjectKey? || p.state.MaybeObjectComma?
    ensures Keeps(rules, limit, p, b, read, CloseCurly)
  {
    var d := b.dom;
    CloseObjectState(rules, p, d);
    AdvanceCloseObject(rules, limit, p);
    ObjectAbsorbed(b);
    CloseObjectRelated(rules, limit, p, d, read);
    KeepsBy(rules, limit, p, b, read, CloseCurly, Pda(PutState(rules, d.up, ObjectValue(d.members)), Nesting(d.up)),
            Builder(Put(d.up, ObjectValue(d.members)), None));
  }

  lemma CloseObjectKeeps(rules: Rules, limit: nat, p: Pda, b: Builder, read: seq<Token>)
    requires Related(rules, limit, p, b, read) && b.text.None?
    ensures Keeps(rules, limit, p, b, read, CloseCurly)
  {
    if p.state.MaybeObjectKey? || p.state.MaybeObjectComma? {
      CloseSomeObjectKeeps(rules, limit, p, b, read);
    }
  }

  lemma CommaRelated(rules: Rules, limit: nat, p: Pda, b: Builder, read: seq<Token>, s: State)
    requires Related(rules, limit, p, b, read) && b.text.None?
    requires (p.state.MaybeObjectComma? && s.ExpectObjectKey?) || (p.state.MaybeArrayComma? && s.ExpectArrayValue?)
    ensures Related(rules, limit, Pda(s, p.stack), b, read + [Comma])
  {
  }

  lemma CommaKeeps(rules: Rules, limit: nat, p: Pda, b: Builder, read: seq<Token>)
    requires Related(rules, limit, p, b, read) && b.text.None?
    ensures Keeps(rules, limit, p, b, read, Comma)
  {
    if p.state.MaybeObjectComma? {
      CommaRelated(rules, limit, p, b, read, ExpectObjectKey);
    } else if p.state.MaybeArrayComma? {
      CommaRelated(rules, limit, p, b, read, ExpectArrayValue);
    }
  }

  lemma ColonRelated(rules: Rules, limit: nat, p: Pda, b: Builder, read: seq<Token>)
    requires Related(rules, limit, p, b, read) && b.text.None? && p.state.ExpectColon?
    ensures Related(rules, limit, Pda(ExpectObjectValue, p.stack), b, read + [Colon])
  {
  }

  lemma ColonKeeps(rules: Rules, limit: nat, p: Pda, b: Builder, read: seq<Token>)
    requires Related(rules, limit, p, b, read) && b.text.None?
    ensures Keeps(rules, limit, p, b, read, Colon)
  {
    if p.state.ExpectColon? {
      ColonRelated(rules, limit, p, b, read);
    }
  }

  lemma StringBeginKeeps(rules: Rules, limit: nat, p: Pda, b: Builder, read: seq<Token>)
    requires Related(rules, limit, p, b, read) && b.text.None?
    ensures Keeps(rules, limit, p, b, read, StringBegin)
  {
    AbsorbOne(b, BeginString);
    assert Pending(Some([])) == [StringBegin];
    PlusNothing(ReadBy(rules, p.state, b.dom));
  }

  lemma PendingGrows(s: bytes, c: byte)
    ensures Pending(Some(s + [c])) == Pending(Some(s)) + [StringByte(c)]
  {
    StringBytesSnoc(s, c);
  }

  lemma StringByteKeeps(rules: Rules, limit: nat, p: Pda, b: Builder, read: seq<Token>, c: byte)
    requires Related(rules, limit, p, b, read) && b.text.Some?
    ensures Keeps(rules, limit, p, b, read, StringByte(c))
  {
    AbsorbOne(b, Chunk([c]));
    PendingGrows(b.text.value, c);
    Regroup3(ReadBy(rules, p.state, b.dom), Pending(b.text), [StringByte(c)]);
  }

  lemma StringTextEnds(rules: Rules, p: Pda, b: Builder, read: seq<Token>)
    requires b.text.Some? && read == ReadBy(rules, p.state, b.dom) + Pending(b.text)
    ensures read + [StringEnd] == ReadBy(rules, p.state, b.dom) + StringTokens(b.text.value)
  {
  }

  /** A string that ends where a key is expected. */
  lemma KeyRelated(rules: Rules, limit: nat, p: Pda, d: Dom, s: bytes)
    requires InStep(rules, p, d) && WithinLimit(limit, d) && TakesString(p.state) && d.InObject? && d.key.None?
    ensures Related(rules, limit, Pda(ExpectColon, p.stack), Builder(PutString(d, s), None),
                    ReadBy(rules, p.state, d) + StringTokens(s))
  {
    assert ReadBy(rules, p.state, d) == Body(rules, d) + Separator(rules, d.members);
  }

  /** A string that ends where a value is expected. */
  lemma StringValueRelated(rules: Rules, limit: nat, p: Pda, d: Dom, s: bytes)
    requires InStep(rules, p, d) && WithinLimit(limit, d) && TakesString(p.state) && !(d.InObject? && d.key.None?)
    ensures Related(rules, limit, Pda(AfterString(p.state), p.stack), Builder(PutString(d, s), None),
                    ReadBy(rules, p.state, d) + StringTokens(s))
  {
    var v := StringValue(s);
    WrittenAtHole(rules, p, d);
    FitsNesting(limit, d);
    PutRelated(rules, limit, d, v);
    assert AfterString(p.state) == PutState(rules, d, v);
  }

  lemma StringEndKeeps(rules: Rules, limit: nat, p: Pda, b: Builder, read: seq<Token>)
    requires Related(rules, limit, p, b, read) && b.text.Some?
    ensures Keeps(rules, limit, p, b, read, StringEnd)
  {
    AbsorbOne(b, EndString);
    StringTextEnds(rules, p, b, read);
    if b.dom.InObject? && b.dom.key.None? {
      KeyRelated(rules, limit, p, b.dom, b.text.value);
      assert AfterString(p.state) == ExpectColon;
    } else {
      StringValueRelated(rules, limit, p, b.dom, b.text.value);
    }
  }

  lemma AdvanceKeepsRelated(rules: Rules, limit: nat, p: Pda, b: Builder, read: seq<Token>, t: Token)
    requires Related(rules, limit, p, b, read) && OpensOrCloses(b.text.Some?, t)
    ensures Keeps(rules, limit, p, b, read, t)
  {
    match t
    case OpenCurly => OpenObjectKeeps(rules, limit, p, b, read);
    case OpenBracket => OpenArrayKeeps(rules, limit, p, b, read);
    case CloseCurly => CloseObjectKeeps(rules, limit, p, b, read);
    case CloseBracket => CloseArrayKeeps(rules, limit, p, b, read);
    case Comma => CommaKeeps(rules, limit, p, b, read);
    case Colon => ColonKeeps(rules, limit, p, b, read);
    case True => PrimitiveKeeps(rules, limit, p, b, read, t, BoolValue(true));
    case False => PrimitiveKeeps(rules, limit, p, b, read, t, BoolValue(false));
    case Null => PrimitiveKeeps(rules, limit, p, b, read, t, NullValue);
    case Int(i) => PrimitiveKeeps(rules, limit, p, b, read, t, IntValue(i));
    case Double(r) => PrimitiveKeeps(rules, limit, p, b, read, t, RealValue(r));
    case StringBegin => StringBeginKeeps(rules, limit, p, b, read);
    case StringByte(c) => StringByteKeeps(rules, limit, p, b, read, c);
    case StringEnd => StringEndKeeps(rules, limit, p, b, read);
  }

  lemma TextFollowsShape(b: Builder, t: Token)
    requires OpensOrCloses(b.text.Some?, t)
    ensures AbsorbAll(b, EventsOf(t)).text.Some? == InStringAfter(b.text.Some?, t)
  {
    if EventsOf(t) != [] {
      AbsorbOne(b, EventsOf(t)[0]);
    }
  }

  lemma RelatedStep(rules: Rules, limit: nat, p: Pda, b: Builder, read: seq<Token>, t: Token)
    returns (q: Pda, b': Builder)
    requires Related(rules, limit, p, b, read) && OpensOrCloses(b.text.Some?, t)
    requires Advance(rules, limit, p, t).next.Ready?
    ensures Advance(rules, limit, p, t).next == Ready(q) && b' == AbsorbAll(b, EventsOf(t))
    ensures Related(rules, limit, q, b', read + [t]) && b'.text.Some? == InStringAfter(b.text.Some?, t)
  {
    AdvanceKeepsRelated(rules, limit, p, b, read, t);
    TextFollowsShape(b, t);
    q, b' := Advance(rules, limit, p, t).next.pda, AbsorbAll(b, EventsOf(t));
  }

  lemma ReadOn(read: seq<Token>, ts: seq<Token>)
    requires ts != []
    ensures read + [ts[0]] + ts[1..] == read + ts
  {
  }

  lemma AbsorbTokens(b: Builder, ts: seq<Token>)
    requires ts != []
    ensures AbsorbAll(b, AllEvents(ts)) == AbsorbAll(AbsorbAll(b, EventsOf(ts[0])), AllEvents(ts[1..]))
  {
    AbsorbConcat(b, EventsOf(ts[0]), AllEvents(ts[1..]));
  }

  lemma {:induction false} FeedKeepsRelated(
      rules: Rules, limit: nat, p: Pda, b: Builder, read: seq<Token>, ts: seq<Token>)
    requires Related(rules, limit, p, b, read) && Shaped(b.text.Some?, ts)
    requires Feed(rules, limit, p, ts).next.Ready?
    ensures Related(rules, limit, Feed(rules, limit, p, ts).next.pda, AbsorbAll(b, AllEvents(ts)), read + ts)
    decreases |ts|
  {
    if ts == [] {
      assert read + ts == read;
    } else {
      var q, b' := RelatedStep(rules, limit, p, b, read, ts[0]);
      FeedKeepsRelated(rules, limit, q, b', read + [ts[0]], ts[1..]);
      AbsorbTokens(b, ts);
      ReadOn(read, ts);
    }
  }

  const NOTHING := Builder(Empty, None)

  lemma DoneIsWhole(rules: Rules, limit: nat, p: Pda, b: Builder, read: seq<Token>)
    requires Related(rules, limit, p, b, read) && p.state == Done
    ensures b.dom.Whole? && b.text.None?
    ensures TokensOf(rules, b.dom.v) == read && Depth(b.dom.v) <= limit
  {
  }

  lemma BuiltBy(rules: Rules, limit: nat, ts: seq<Token>) returns (b: Builder)
    requires Shaped(false, ts) && Accepts(rules, limit, ts)
    ensures b == AbsorbAll(NOTHING, AllEvents(ts)) && b.dom.Whole? && b.text.None?
    ensures TokensOf(rules, b.dom.v) == ts && Depth(b.dom.v) <= limit
  {
    assert [] + ts == ts;
    NothingRelated(rules, limit);
    FeedKeepsRelated(rules, limit, START, NOTHING, [], ts);
    b := AbsorbAll(NOTHING, AllEvents(ts));
    DoneIsWhole(rules, limit, Feed(rules, limit, START, ts).next.pda, b, ts);
  }

  lemma NothingRelated(rules: Rules, limit: nat)
    ensures Related(rules, limit, START, NOTHING, [])
  {
  }

  /** An accepted sequence spells a value within the depth limit: the one the consumer has built. */
  lemma AcceptedIsSpelling(rules: Rules, limit: nat, ts: seq<Token>) returns (v: Value)
    requires Shaped(false, ts) && Accepts(rules, limit, ts)
    ensures TokensOf(rules, v) == ts && Depth(v) <= limit
    ensures AbsorbAll(NOTHING, AllEvents(ts)) == Builder(Whole(v), None)
    ensures Feed(rules, limit, START, ts).events == Traversal(v)
  {
    var b := BuiltBy(rules, limit, ts);
    v := b.dom.v;
    FeedKeepsSound(rules, limit, START, ts, false);
    TokensReportTraversal(rules, v);
  }

  /**
   * The language theorem, for the drawn automaton and for the shipped machine alike: a token
   * sequence is accepted exactly when it is the spelling of a value within the depth limit.
   */
  lemma AcceptsExactlySpellings(rules: Rules, limit: nat, ts: seq<Token>)
    requires Shaped(false, ts)
    ensures Accepts(rules, limit, ts) <==> exists v :: Depth(v) <= limit && TokensOf(rules, v) == ts
  {
    if Accepts(rules, limit, ts) {
      var v := AcceptedIsSpelling(rules, limit, ts);
    }
    forall v | Depth(v) <= limit && TokensOf(rules, v) == ts
      ensures Accepts(rules, limit, ts)
    {
      EverySpellingAccepted(rules, limit, v);
    }
  }

  /**
   * The callbacks of an accepted sequence are the traversal of one value and of no other, by the
   * shipped rules too: what they lose or tolerate is only a comma, and commas report nothing.
   */
  lemma AcceptedReportsOneValue(rules: Rules, limit: nat, ts: seq<Token>)
    requires Shaped(false, ts) && Accepts(rules, limit, ts)
    ensures exists v :: Feed(rules, limit, START, ts).events == Traversal(v)
    ensures forall v, w | Feed(rules, limit, START, ts).events == Traversal(v)
                          && Feed(rules, limit, START, ts).events == Traversal(w) :: v == w
  {
    var v := AcceptedIsSpelling(rules, limit, ts);
    forall v, w | Feed(rules, limit, START, ts).events == Traversal(v)
               && Feed(rules, limit, START, ts).events == Traversal(w)
      ensures v == w
    {
      TraversalInjective(v, w);
    }
  }

  // ---- Where the shipped machine leaves the grammar ----

  /** No member but the last of its object has the empty array as its value. */
  predicate Regular(v: Value) {
    match v
    case ArrayValue(items) => RegularItems(items)
    case ObjectValue(members) => RegularMembers(members)
    case _ => true
  }

  predicate RegularItems(items: Items) {
    items.Items? ==> RegularItems(items.init) && Regular(items.last)
  }

  predicate RegularMembers(ms: Members) {
    ms.Members? ==>
      && RegularMembers(ms.init) && Regular(ms.value)
      && (ms.init.Members? ==> ms.init.value != EMPTY_ARRAY)
  }

  /** The shipped spelling is the shorter one, by the commas it leaves out. */
  lemma {:induction false} CommasLeftOut(v: Value)
    ensures |TokensOf(Shipped, v)| <= |TokensOf(Drawn, v)|
    ensures |TokensOf(Shipped, v)| == |TokensOf(Drawn, v)| <==> Regular(v)
    ensures Regular(v) ==> TokensOf(Shipped, v) == TokensOf(Drawn, v)
    decreases v
  {
    match v
    case ArrayValue(items) => CommasLeftOutOfItems(items);
    case ObjectValue(members) => CommasLeftOutOfMembers(members);
    case _ =>
  }

  lemma {:induction false} CommasLeftOutOfItems(items: Items)
    ensures |ItemTokens(Shipped, items)| <= |ItemTokens(Drawn, items)|
    ensures |ItemTokens(Shipped, items)| == |ItemTokens(Drawn, items)| <==> RegularItems(items)
    ensures RegularItems(items) ==> ItemTokens(Shipped, items) == ItemTokens(Drawn, items)
    decreases items
  {
    if items.Items? {
      CommasLeftOutOfItems(items.init);
      CommasLeftOut(items.last);
    }
  }

  lemma {:induction false} CommasLeftOutOfMembers(ms: Members)
    ensures |MemberTokens(Shipped, ms)| <= |MemberTokens(Drawn, ms)|
    ensures |MemberTokens(Shipped, ms)| == |MemberTokens(Drawn, ms)| <==> RegularMembers(ms)
    ensures RegularMembers(ms) ==> MemberTokens(Shipped, ms) == MemberTokens(Drawn, ms)
    decreases ms
  {
    if ms.Members? {
      CommasLeftOutOfMembers(ms.init);
      CommasLeftOut(ms.value);
      assert |Separator(Shipped, ms.init)| <= |Separator(Drawn, ms.init)|;
    }
  }

  /**
   * The code accepts the standard spelling of a value exactly when the value is regular. For
   * every other value, the object after the empty array makes it fail.
   */
  lemma ShippedAcceptsStandardSpelling(limit: nat, v: Value)
    requires Depth(v) <= limit
    ensures Accepts(Shipped, limit, TokensOf(Drawn, v)) <==> Regular(v)
  {
    CommasLeftOut(v);
    if Regular(v) {
      EverySpellingAccepted(Shipped, limit, v);
    }
    if Accepts(Shipped, limit, TokensOf(Drawn, v)) {
      SpellingsShaped(Drawn, v);
      var w := AcceptedIsSpelling(Shipped, limit, TokensOf(Drawn, v));
      TokensReportTraversal(Shipped, w);
      TokensReportTraversal(Drawn, v);
      TraversalInjective(v, w);
    }
  }

  // ---- Spellings are shaped ----

  predicate Closed(ts: seq<Token>) {
    Shaped(false, ts) && !InStringAtEnd(false, ts)
  }

  lemma ClosedConcat(a: seq<Token>, b: seq<Token>)
    requires Closed(a) && Closed(b)
    ensures Closed(a + b)
  {
    ShapedConcat(false, a, b);
  }

  lemma {:induction false} BytesShaped(s: bytes)
    ensures Shaped(true, StringBytes(s)) && InStringAtEnd(true, StringBytes(s))
    decreases |s|
  {
    if s != [] {
      StringBytesTail(s);
      BytesShaped(s[1..]);
    }
  }

  lemma StringClosed(s: bytes)
    ensures Closed(StringTokens(s))
  {
    BytesShaped(s);
    ShapedConcat(false, [StringBegin], StringBytes(s));
    ShapedConcat(false, [StringBegin] + StringBytes(s), [StringEnd]);
  }

  lemma {:induction false} SpellingsShaped(rules: Rules, v: Value)
    ensures Closed(TokensOf(rules, v))
    decreases v
  {
    match v
    case StringValue(s) => StringClosed(s);
    case ArrayValue(items) =>
      ItemsShaped(rules, items);
      ClosedConcat([OpenBracket], ItemTokens(rules, items));
      ClosedConcat([OpenBracket] + ItemTokens(rules, items), [CloseBracket]);
    case ObjectValue(members) =>
      MembersShaped(rules, members);
      ClosedConcat([OpenCurly], MemberTokens(rules, members));
      ClosedConcat([OpenCurly] + MemberTokens(rules, members), [CloseCurly]);
    case _ =>
  }

  lemma {:induction false} ItemsShaped(rules: Rules, items: Items)
    ensures Closed(ItemTokens(rules, items))
    decreases items
  {
    if items.Items? {
      ItemsShaped(rules, items.init);
      SpellingsShaped(rules, items.last);
      ClosedConcat(ItemTokens(rules, items.init), ItemSeparator(items.init));
      ClosedConcat(ItemTokens(rules, items.init) + ItemSeparator(items.init), TokensOf(rules, items.last));
    }
  }

  lemma {:induction false} MembersShaped(rules: Rules, ms: Members)
    ensures Closed(MemberTokens(rules, ms))
    decreases ms
  {
    if ms.Members? {
      var a, sep, k := MemberTokens(rules, ms.init), Separator(rules, ms.init), StringTokens(ms.key);
      MembersShaped(rules, ms.init);
      StringClosed(ms.key);
      SpellingsShaped(rules, ms.value);
      assert Closed(sep);
      ClosedConcat(a, sep);
      ClosedConcat(a + sep, k);
      ClosedConcat(a + sep + k, [Colon]);
      ClosedConcat(a + sep + k + [Colon], TokensOf(rules, ms.value));
    }
  }

  // ---- Viable prefixes ----

  /** Tokens that bring `s` to a state where its container, if any, can be closed. A key may be needed. */
  function Settle(s: State, key: bytes): seq<Token>
    decreases if s.ExpectObjectKey? then 2 else if s.ExpectColon? then 1 else 0
  {
    match s
    case ExpectValue => [Null]
    case ExpectObjectKey => StringTokens(key) + Settle(ExpectColon, key)
    case ExpectColon => [Colon] + Settle(ExpectObjectValue, key)
    case ExpectObjectValue => [Null]
    case ExpectArrayValue => [Null]
    case _ => []
  }

  function Closers(stack: seq<bool>): seq<Token> {
    if stack == [] then []
    else [if Top(stack) == CURLY then CloseCurly else CloseBracket] + Closers(Pop(stack))
  }

  /** A way to finish the document from any state, without opening anything. */
  function Completion(p: Pda, inString: bool, key: bytes): seq<Token> {
    if inString then [StringEnd] + Settle(AfterString(p.state), key) + Closers(p.stack)
    else Settle(p.state, key) + Closers(p.stack)
  }

  predicate Settled(p: Pda) {
    Coupled(p) && (p.state.Done? || p.state.MaybeObjectKey? || p.state.MaybeObjectComma?
                   || p.state.MaybeArrayValue? || p.state.MaybeArrayComma?)
  }

  lemma {:induction false} ClosersFinish(rules: Rules, limit: nat, p: Pda)
    requires Settled(p)
    ensures Feed(rules, limit, p, Closers(p.stack)).next == Ready(Pda(Done, []))
    ensures Shaped(false, Closers(p.stack))
    decreases |p.stack|
  {
    if p.stack != [] {
      var t := Closers(p.stack)[0];
      var m := Advance(rules, limit, p, t);
      FeedOne(rules, limit, p, t);
      ClosersFinish(rules, limit, m.next.pda);
      FeedThen(rules, limit, p, [t], m.next.pda, Closers(Pop(p.stack)));
    }
  }

  lemma {:induction false} SettleSettles(rules: Rules, limit: nat, p: Pda, key: bytes) returns (q: Pda)
    requires Coupled(p)
    ensures Feed(rules, limit, p, Settle(p.state, key)).next == Ready(q)
    ensures Settled(q) && q.stack == p.stack
    ensures Closed(Settle(p.state, key))
    decreases if p.state.ExpectObjectKey? then 2 else if p.state.ExpectColon? then 1 else 0
  {
    if p.state.ExpectObjectKey? {
      var r := Pda(ExpectColon, p.stack);
      q := SettleSettles(rules, limit, r, key);
      FeedString(rules, limit, p, key);
      FeedThen(rules, limit, p, StringTokens(key), r, Settle(ExpectColon, key));
      StringClosed(key);
      ClosedConcat(StringTokens(key), Settle(ExpectColon, key));
    } else if p.state.ExpectColon? {
      var r := Pda(ExpectObjectValue, p.stack);
      q := SettleSettles(rules, limit, r, key);
      FeedOne(rules, limit, p, Colon);
      FeedThen(rules, limit, p, [Colon], r, Settle(ExpectObjectValue, key));
      ClosedConcat([Colon], Settle(ExpectObjectValue, key));
    } else if TakesValue(p.state) && !p.state.MaybeArrayValue? {
      FeedOne(rules, limit, p, Null);
      q := Advance(rules, limit, p, Null).next.pda;
    } else {
      q := p;
    }
  }

  lemma SettledCompletion(rules: Rules, limit: nat, p: Pda, key: bytes)
    requires Coupled(p)
    ensures Feed(rules, limit, p, Settle(p.state, key) + Closers(p.stack)).next == Ready(Pda(Done, []))
    ensures Shaped(false, Settle(p.state, key) + Closers(p.stack))
  {
    var q := SettleSettles(rules, limit, p, key);
    ClosersFinish(rules, limit, q);
    FeedThen(rules, limit, p, Settle(p.state, key), q, Closers(q.stack));
    ShapedConcat(false, Settle(p.state, key), Closers(q.stack));
  }

  /** From every sound state the completion is accepted, whatever the key. */
  lemma CompletionFinishes(rules: Rules, limit: nat, p: Pda, inString: bool, key: bytes)
    requires Sound(limit, p, inString)
    ensures Feed(rules, limit, p, Completion(p, inString, key)).next == Ready(Pda(Done, []))
    ensures Shaped(inString, Completion(p, inString, key))
  {
    if inString {
      var r := Pda(AfterString(p.state), p.stack);
      SettledCompletion(rules, limit, r, key);
      var rest := Settle(r.state, key) + Closers(p.stack);
      assert Completion(p, true, key) == [StringEnd] + rest;
      FeedOne(rules, limit, p, StringEnd);
      FeedThen(rules, limit, p, [StringEnd], r, rest);
      ShapedConcat(true, [StringEnd], rest);
    } else {
      SettledCompletion(rules, limit, p, key);
    }
  }

  /**
   * The parser goes on exactly as long as what it has read begins the spelling of some value: it
   * fails at the first token after which no accepted document is left.
   */
  lemma ViablePrefix(rules: Rules, limit: nat, ts: seq<Token>)
    requires Shaped(false, ts)
    ensures Feed(rules, limit, START, ts).next.Ready?
            <==> exists v :: Depth(v) <= limit && ts <= TokensOf(rules, v)
  {
    var m := Feed(rules, limit, START, ts);
    if m.next.Ready? {
      var inString := InStringAtEnd(false, ts);
      FeedKeepsSound(rules, limit, START, ts, false);
      var rest := Completion(m.next.pda, inString, []);
      CompletionFinishes(rules, limit, m.next.pda, inString, []);
      FeedThen(rules, limit, START, ts, m.next.pda, rest);
      ShapedConcat(false, ts, rest);
      var v := AcceptedIsSpelling(rules, limit, ts + rest);
    }
    forall v | Depth(v) <= limit && ts <= TokensOf(rules, v)
      ensures m.next.Ready?
    {
      EverySpellingAccepted(rules, limit, v);
      var all := TokensOf(rules, v);
      FeedConcat(rules, limit, START, ts, all[|ts|..]);
      assert ts + all[|ts|..] == all;
    }
  }

  // ---- The depth limit ----

  /**
   * Under a larger limit the machine makes the same moves, except that the smaller limit stops it
   * where the stack would grow beyond it.
   */
  lemma AdvanceWithLimits(rules: Rules, limit: nat, big: nat, p: Pda, t: Token)
    requires limit <= big && |p.stack| <= limit && Coupled(p)
    ensures var a, b := Advance(rules, limit, p, t), Advance(rules, big, p, t);
            if b.next.Ready? && |b.next.pda.stack| > limit then a == Fail(StackOverflow) else a == b
  {
  }

  /** After some prefix of `ts`, with room up to `big`, the stack holds more than `limit` brackets. */
  predicate Outgrows(rules: Rules, limit: nat, big: nat, p: Pda, ts: seq<Token>) {
    exists k | 0 <= k <= |ts| :: Exceeds(limit, Feed(rules, big, p, ts[..k]))
  }

  predicate Exceeds(limit: nat, m: Move) {
    m.next.Ready? && |m.next.pda.stack| > limit
  }

  lemma OutgrowsTail(rules: Rules, limit: nat, big: nat, p: Pda, ts: seq<Token>)
    requires ts != [] && |p.stack| <= limit && Advance(rules, big, p, ts[0]).next.Ready?
    ensures Outgrows(rules, limit, big, p, ts)
            <==> Outgrows(rules, limit, big, Advance(rules, big, p, ts[0]).next.pda, ts[1..])
  {
    var q := Advance(rules, big, p, ts[0]).next.pda;
    forall k | 0 < k <= |ts|
      ensures Feed(rules, big, p, ts[..k]).next == Feed(rules, big, q, ts[1..][..k - 1]).next
    {
      assert ts[..k][1..] == ts[1..][..k - 1];
    }
    if Outgrows(rules, limit, big, p, ts) {
      var k :| 0 <= k <= |ts| && Exceeds(limit, Feed(rules, big, p, ts[..k]));
      assert Exceeds(limit, Feed(rules, big, q, ts[1..][..k - 1]));
    }
    if Outgrows(rules, limit, big, q, ts[1..]) {
      var k :| 0 <= k <= |ts[1..]| && Exceeds(limit, Feed(rules, big, q, ts[1..][..k]));
      assert Exceeds(limit, Feed(rules, big, p, ts[..k + 1]));
    }
  }

  lemma {:induction false} FeedWithLimits(
      rules: Rules, limit: nat, big: nat, p: Pda, ts: seq<Token>, inString: bool)
    requires limit <= big && Sound(limit, p, inString) && Shaped(inString, ts)
    ensures if Outgrows(rules, limit, big, p, ts) then Feed(rules, limit, p, ts).next == Broken(StackOverflow)
            else Feed(rules, limit, p, ts) == Feed(rules, big, p, ts)
    decreases |ts|
  {
    if ts == [] {
      assert forall k | 0 <= k <= |ts| :: ts[..k] == ts;
    } else {
      AdvanceWithLimits(rules, limit, big, p, ts[0]);
      AdvanceKeepsSound(rules, limit, p, ts[0], inString);
      var a, b := Advance(rules, limit, p, ts[0]), Advance(rules, big, p, ts[0]);
      if b.next.Ready? {
        OutgrowsTail(rules, limit, big, p, ts);
        if Exceeds(limit, b) {
          assert Exceeds(limit, Feed(rules, big, b.next.pda, ts[1..][..0]));
        } else {
          FeedWithLimits(rules, limit, big, b.next.pda, ts[1..], InStringAfter(inString, ts[0]));
        }
      } else {
        forall k | 0 <= k <= |ts|
          ensures !Exceeds(limit, Feed(rules, big, p, ts[..k]))
        {
          assert k > 0 ==> ts[..k][0] == ts[0];
        }
      }
    }
  }

  lemma {:induction false} RoomSuffices(rules: Rules, limit: nat, p: Pda, ts: seq<Token>)
    requires |p.stack| + |ts| <= limit
    ensures Feed(rules, limit, p, ts).next != Broken(StackOverflow)
    decreases |ts|
  {
    if ts != [] {
      var m := Advance(rules, limit, p, ts[0]);
      if m.next.Ready? {
        RoomSuffices(rules, limit, m.next.pda, ts[1..]);
      }
    }
  }

  /**
   * The depth limit is exact: a run overflows if and only if the same run, with all the room it
   * could need, nests deeper than the limit somewhere; otherwise the limit changes nothing.
   */
  lemma DepthLimitExact(rules: Rules, limit: nat, big: nat, ts: seq<Token>)
    requires limit <= big && |ts| <= big && Shaped(false, ts)
    ensures Feed(rules, limit, START, ts).next == Broken(StackOverflow)
            <==> Outgrows(rules, limit, big, START, ts)
    ensures !Outgrows(rules, limit, big, START, ts) ==> Feed(rules, limit, START, ts) == Feed(rules, big, START, ts)
  {
    FeedWithLimits(rules, limit, big, START, ts, false);
    RoomSuffices(rules, big, START, ts);
  }

  /** For whole values: accepted up to the depth limit, a stack overflow beyond it. */
  lemma DepthDecides(rules: Rules, limit: nat, v: Value)
    ensures var m := Feed(rules, limit, START, TokensOf(rules, v));
            if Depth(v) <= limit then Accepts(rules, limit, TokensOf(rules, v))
            else m.next == Broken(StackOverflow)
  {
    if Depth(v) <= limit {
      EverySpellingAccepted(rules, limit, v);
    } else {
      var ts := TokensOf(rules, v);
      SpellingsShaped(rules, v);
      EverySpellingAccepted(rules, Depth(v), v);
      FeedWithLimits(rules, limit, Depth(v), START, ts, false);
      if Accepts(rules, limit, ts) {
        var w := AcceptedIsSpelling(rules, limit, ts);
        TokensReportTraversal(rules, v);
        TokensReportTraversal(rules, w);
        TraversalInjective(v, w);
      }
    }
  }
}
