/**
 The token machine of the stream decoder: what one call of Token or Decode does to the stream, and what
 any mix of such calls returns on a text.
 */
module JsonTokens {
  import opened Options
  import opened Bytes
  import opened JsonScanner
  import opened JsonLexemes
  import opened JsonGrammar
  import opened JsonFront
  import opened JsonMeaning
  import opened JsonNextValue
  import JsonParse
  import JsonUnique

  // ---- Results ----

  /** How the reader ends. */
  datatype ReadError = EOF | Failure

  datatype StreamError = Eof | UnexpectedEof | ReaderFailed | Syntax

  datatype Token = Delim(c: byte) | Value(v: Json)

  datatype Result<T> = Got(value: T) | Err(e: StreamError)

  datatype TokenState =
    | AtTop
    | AtArrayStart | AtArrayValue | AtArrayComma
    | AtObjectStart | AtObjectKey | AtObjectColon | AtObjectValue | AtObjectComma

  /** The stream decoder: the bytes that it has not consumed, how they end, and its fields. */
  datatype Stream = Stream(unread: bytes, last: ReadError, err: Option<StreamError>, state: TokenState, stack: seq<TokenState>)

  /** tokenValueAllowed */
  predicate ValueAllowed(q: TokenState) {
    q == AtTop || q == AtArrayStart || q == AtArrayValue || q == AtObjectValue
  }

  /** tokenValueEnd */
  function ValueEnd(q: TokenState): TokenState {
    if q == AtArrayStart || q == AtArrayValue then AtArrayComma
    else if q == AtObjectValue then AtObjectComma
    else q
  }

  /** Each open array or object has set aside the state in which its value was allowed. */
  predicate Balanced(q: TokenState, stack: seq<TokenState>) {
    && (q == AtTop <==> stack == [])
    && forall i :: 0 <= i < |stack| ==> ValueAllowed(stack[i]) && (stack[i] == AtTop <==> i == 0)
  }

  // ---- Reading ----

  /** `u` without the white space in front. */
  function SkipSpaces(u: bytes): (w: bytes)
    ensures |w| <= |u| && (w != [] ==> !IsSpace(w[0]))
  {
    if u != [] && IsSpace(u[0]) then SkipSpaces(u[1..]) else u
  }

  /** readValue on an unread stream. */
  function ReadResult(u: bytes, last: ReadError): Result<nat> {
    match FirstValue(u, last == EOF)
    case Found(n) => Got(n)
    case Broken => Err(Syntax)
    case Cut => Err(if last == Failure then ReaderFailed else if SkipSpaces(u) == [] then Eof else UnexpectedEof)
  }

  /** peek when there is nothing but white space. */
  function PeekError(last: ReadError): StreamError {
    if last == EOF then Eof else ReaderFailed
  }

  /** The value of a text. */
  ghost function ValueOf(data: bytes): Json {
    if exists lead, v, trail :: IsText(data, lead, v, trail)
    then var lead, v, trail :| IsText(data, lead, v, trail); Denote(v)
    else Null
  }

  lemma ValueOfText(data: bytes, lead: bytes, v: Val, trail: bytes)
    requires IsText(data, lead, v, trail)
    ensures ValueOf(data) == Denote(v)
  {
    hide IsText, Denote;
    var lead', v', trail' :| IsText(data, lead', v', trail') && ValueOf(data) == Denote(v');
    JsonUnique.Unambiguous(data, lead, v, trail, lead', v', trail');
  }

  /** Decode once a value may come: the value, and the stream after it. */
  ghost function ReadAt(s: Stream): (Result<Json>, Stream) {
    if s.err.Some? then (Err(s.err.value), s)
    else
      match ReadResult(s.unread, s.last)
      case Err(e) => (Err(e), s.(err := Some(e)))
      case Got(n) =>
        if n <= |s.unread|
        then (Got(ValueOf(s.unread[..n])), s.(unread := s.unread[n..], state := ValueEnd(s.state)))
        else (Err(Syntax), s)
  }

  /** A comma or colon that is due. */
  function Separator(q: TokenState): Option<byte> {
    if q == AtArrayComma || q == AtObjectComma then Some(COMMA)
    else if q == AtObjectColon then Some(COLON)
    else None
  }

  function AfterSeparator(q: TokenState): TokenState {
    if q == AtArrayComma then AtArrayValue
    else if q == AtObjectComma then AtObjectKey
    else if q == AtObjectColon then AtObjectValue
    else q
  }

  /** Decode. */
  ghost function DecodeAt(s: Stream): (Result<Json>, Stream) {
    if s.err.Some? then (Err(s.err.value), s)
    else if s.state == AtArrayComma || s.state == AtObjectColon then
      var w := SkipSpaces(s.unread);
      if w == [] then (Err(PeekError(s.last)), s)
      else if Separator(s.state) != Some(w[0]) then (Err(Syntax), s.(unread := w))
      else ReadAt(s.(unread := w[1..], state := AfterSeparator(s.state)))
    else if !ValueAllowed(s.state) then (Err(Syntax), s)
    else ReadAt(s)
  }

  // ---- Token ----

  predicate IsOpening(c: byte) {
    c == LBRACK || c == LBRACE
  }

  predicate IsClosing(c: byte) {
    c == RBRACK || c == RBRACE
  }

  /** The bracket may come now. */
  predicate MayClose(q: TokenState, c: byte) {
    if c == RBRACK then q == AtArrayStart || q == AtArrayComma else q == AtObjectStart || q == AtObjectComma
  }

  ghost function TokenAt(s: Stream): (r: (Result<Token>, Stream))
    requires Balanced(s.state, s.stack)
    ensures Balanced(r.1.state, r.1.stack)
    decreases |s.unread|
  {
    var w := SkipSpaces(s.unread);
    if w == [] then (Err(PeekError(s.last)), s)
    else
      var c, s1 := w[0], s.(unread := w);
      if IsOpening(c) then
        if ValueAllowed(s.state)
        then (Got(Delim(c)), s.(unread := w[1..], state := if c == LBRACK then AtArrayStart else AtObjectStart, stack := s.stack + [s.state]))
        else (Err(Syntax), s1)
      else if IsClosing(c) then
        if MayClose(s.state, c)
        then (Got(Delim(c)), s.(unread := w[1..], state := ValueEnd(s.stack[|s.stack| - 1]), stack := s.stack[..|s.stack| - 1]))
        else (Err(Syntax), s1)
      else if c == COLON || c == COMMA then
        if Separator(s.state) == Some(c)
        then TokenAt(s.(unread := w[1..], state := AfterSeparator(s.state)))
        else (Err(Syntax), s1)
      else if c == QUOTE && (s.state == AtObjectStart || s.state == AtObjectKey) then
        match ReadAt(s1)
        case (Got(v), s2) => (Got(Value(v)), s2.(state := AtObjectColon))
        case (Err(e), s2) => (Err(e), s2)
      else if !ValueAllowed(s.state) then (Err(Syntax), s1)
      else
        match ReadAt(s1)
        case (Got(v), s2) => (Got(Value(v)), s2)
        case (Err(e), s2) => (Err(e), s2)
  }

  // ---- Nesting ----

  /** The bracket of the innermost open array or object. */
  function Kind(q: TokenState): byte {
    if q == AtArrayStart || q == AtArrayValue || q == AtArrayComma then LBRACK else LBRACE
  }

  /** The open brackets, outermost first. */
  function Opens(q: TokenState, stack: seq<TokenState>): seq<byte>
    decreases |stack|
  {
    if stack == [] then [] else Opens(stack[|stack| - 1], stack[..|stack| - 1]) + [Kind(q)]
  }

  /** The open brackets after one more token; None if a closing bracket does not match the innermost one. */
  function Nest(open: seq<byte>, t: Token): Option<seq<byte>> {
    if t.Value? then Some(open)
    else if IsOpening(t.c) then Some(open + [t.c])
    else if open != [] && open[|open| - 1] == (if t.c == RBRACK then LBRACK else LBRACE) then Some(open[..|open| - 1])
    else None
  }

  function Nesting(ts: seq<Token>): Option<seq<byte>> {
    if ts == [] then Some([])
    else
      match Nesting(ts[..|ts| - 1])
      case None => None
      case Some(open) => Nest(open, ts[|ts| - 1])
  }

  /** States of the same array or object have the same brackets open. */
  lemma OpensSame(q: TokenState, q': TokenState, stack: seq<TokenState>)
    requires stack == [] || Kind(q) == Kind(q')
    ensures Opens(q, stack) == Opens(q', stack)
  {
  }

  /** A token changes the open brackets as it should; an error does not change them. */
  lemma {:induction false} TokenNests(s: Stream)
    requires Balanced(s.state, s.stack)
    ensures var (r, s') := TokenAt(s);
            match r
            case Got(t) => Nest(Opens(s.state, s.stack), t) == Some(Opens(s'.state, s'.stack))
            case Err(_) => Opens(s'.state, s'.stack) == Opens(s.state, s.stack)
    decreases |s.unread|
  {
    var w := SkipSpaces(s.unread);
    if w != [] {
      var c := w[0];
      hide ReadAt, Opens, Nest;
      if IsOpening(c) {
        OpenNests(s.state, s.stack, c);
      } else if IsClosing(c) {
        if MayClose(s.state, c) { CloseNests(s.state, s.stack, c); }
      } else if c == COLON || c == COMMA {
        if Separator(s.state) == Some(c) {
          OpensSame(s.state, AfterSeparator(s.state), s.stack);
          TokenNests(s.(unread := w[1..], state := AfterSeparator(s.state)));
        }
      } else {
        LiteralNests(s, w);
      }
    }
  }

  lemma OpenNests(q: TokenState, stack: seq<TokenState>, c: byte)
    requires IsOpening(c)
    ensures Nest(Opens(q, stack), Delim(c)) == Some(Opens(if c == LBRACK then AtArrayStart else AtObjectStart, stack + [q]))
  {
    assert (stack + [q])[..|stack|] == stack;
  }

  lemma CloseNests(q: TokenState, stack: seq<TokenState>, c: byte)
    requires Balanced(q, stack) && IsClosing(c) && MayClose(q, c)
    ensures stack != []
    ensures var n := |stack| - 1; Nest(Opens(q, stack), Delim(c)) == Some(Opens(ValueEnd(stack[n]), stack[..n]))
  {
    hide Opens;
    ClosesKind(q, stack, c);
    var n := |stack| - 1;
    OpensPop(q, stack);
    OpensSame(stack[n], ValueEnd(stack[n]), stack[..n]);
    hide *;
    NestCloses(Opens(ValueEnd(stack[n]), stack[..n]), Kind(q), c);
  }

  lemma OpensPop(q: TokenState, stack: seq<TokenState>)
    requires stack != []
    ensures Opens(q, stack) == Opens(stack[|stack| - 1], stack[..|stack| - 1]) + [Kind(q)]
  {
  }

  /** A bracket that may close the innermost array or object matches the one that opened it. */
  lemma ClosesKind(q: TokenState, stack: seq<TokenState>, c: byte)
    requires Balanced(q, stack) && IsClosing(c) && MayClose(q, c)
    ensures stack != [] && Kind(q) == if c == RBRACK then LBRACK else LBRACE
    ensures var n := |stack| - 1; stack[..n] == [] || Kind(stack[n]) == Kind(ValueEnd(stack[n]))
  {
  }

  lemma NestCloses(open: seq<byte>, k: byte, c: byte)
    requires IsClosing(c) && k == if c == RBRACK then LBRACK else LBRACE
    ensures Nest(open + [k], Delim(c)) == Some(open)
  {
    assert (open + [k])[..|open|] == open;
  }

  lemma LiteralNests(s: Stream, w: bytes)
    requires Balanced(s.state, s.stack)
    ensures Opens(ReadAt(s.(unread := w)).1.state, ReadAt(s.(unread := w)).1.stack) == Opens(s.state, s.stack)
    ensures ReadAt(s.(unread := w)).1.stack == s.stack
    ensures forall v :: Nest(Opens(s.state, s.stack), Value(v)) == Some(Opens(s.state, s.stack))
    ensures s.state == AtObjectStart || s.state == AtObjectKey ==> Opens(AtObjectColon, s.stack) == Opens(s.state, s.stack)
  {
    hide ReadResult, ValueOf, Opens;
    OpensSame(s.state, ValueEnd(s.state), s.stack);
    if s.state == AtObjectStart || s.state == AtObjectKey { OpensSame(s.state, AtObjectColon, s.stack); }
  }

  lemma DecodeNests(s: Stream)
    requires Balanced(s.state, s.stack)
    ensures var s' := DecodeAt(s).1;
            Balanced(s'.state, s'.stack) && Opens(s'.state, s'.stack) == Opens(s.state, s.stack)
  {
    hide ReadResult, ValueOf;
    OpensSame(s.state, AfterSeparator(s.state), s.stack);
    OpensSame(s.state, ValueEnd(s.state), s.stack);
    OpensSame(s.state, ValueEnd(AfterSeparator(s.state)), s.stack);
  }

  // ---- The tokens of a text ----

  /** The values and delimiters of a text in order; commas and colons are left out. */
  function Flatten(v: Val): seq<Token>
    decreases v, 0
  {
    match v
    case Lit(_) => [Value(Denote(v))]
    case Arr(_, elems) => [Delim(LBRACK)] + FlattenElems(elems) + [Delim(RBRACK)]
    case Obj(_, members) => [Delim(LBRACE)] + FlattenMembers(members) + [Delim(RBRACE)]
  }

  function FlattenElems(es: seq<Elem>): seq<Token>
    decreases es, 1
  {
    if es == [] then [] else Flatten(es[0].val) + FlattenElems(es[1..])
  }

  function FlattenMembers(ms: seq<Member>): seq<Token>
    decreases ms, 1
  {
    if ms == [] then [] else [Value(Str(StringOf(ms[0].key)))] + Flatten(ms[0].val) + FlattenMembers(ms[1..])
  }

  /** One call and what it returns. */
  datatype Call = ByToken(t: Token) | ByDecode(v: Json)

  /** Which of the values are read whole by Decode: this one, or some of the values inside it, which have the plans
      `parts` and, beyond those, are read by Token. */
  datatype Plan = Whole | Parts(parts: seq<Plan>)

  const TOKENS := Parts([])

  function First(ps: seq<Plan>): Plan {
    if ps == [] then TOKENS else ps[0]
  }

  function Rest(ps: seq<Plan>): seq<Plan> {
    if ps == [] then [] else ps[1..]
  }

  /** The flattening in which a call of Decode stands for the flattening of a value. */
  function Mixed(v: Val, plan: Plan): seq<Call>
    decreases v, 0
  {
    match plan
    case Whole => [ByDecode(Denote(v))]
    case Parts(ps) =>
      match v
      case Lit(_) => [ByToken(Value(Denote(v)))]
      case Arr(_, elems) => [ByToken(Delim(LBRACK))] + MixedElems(elems, ps) + [ByToken(Delim(RBRACK))]
      case Obj(_, members) => [ByToken(Delim(LBRACE))] + MixedMembers(members, ps) + [ByToken(Delim(RBRACE))]
  }

  function MixedElems(es: seq<Elem>, ps: seq<Plan>): seq<Call>
    decreases es, 1
  {
    if es == [] then [] else Mixed(es[0].val, First(ps)) + MixedElems(es[1..], Rest(ps))
  }

  function MixedMembers(ms: seq<Member>, ps: seq<Plan>): seq<Call>
    decreases ms, 1
  {
    if ms == [] then []
    else [KeyCall(ms[0])] + Mixed(ms[0].val, First(ps)) + MixedMembers(ms[1..], Rest(ps))
  }

  function KeyCall(m: Member): Call {
    ByToken(Value(Str(StringOf(m.key))))
  }

  ghost predicate Returned(s: Stream, c: Call)
    requires Balanced(s.state, s.stack)
  {
    match c
    case ByToken(t) => TokenAt(s).0 == Got(t)
    case ByDecode(v) => DecodeAt(s).0 == Got(v)
  }

  ghost function AfterCall(s: Stream, c: Call): Stream
    requires Balanced(s.state, s.stack)
  {
    if c.ByToken? then TokenAt(s).1 else DecodeAt(s).1
  }

  /** The calls `cs` from `s` return what they say, and leave the stream at `s'`. */
  ghost predicate Yields(s: Stream, cs: seq<Call>, s': Stream)
    decreases |cs|
  {
    && Balanced(s.state, s.stack)
    && if cs == [] then s == s'
       else Returned(s, cs[0]) && Yields(AfterCall(s, cs[0]), cs[1..], s')
  }

  lemma {:induction false} YieldsThen(s: Stream, a: seq<Call>, s1: Stream, b: seq<Call>, s2: Stream)
    requires Yields(s, a, s1) && Yields(s1, b, s2)
    ensures Yields(s, a + b, s2)
    decreases |a|
  {
    hide Returned, AfterCall;
    if a == [] {
      assert a + b == b;
    } else {
      YieldsThen(AfterCall(s, a[0]), a[1..], s1, b, s2);
      assert (a + b)[1..] == a[1..] + b;
    }
  }

  lemma YieldsOne(s: Stream, t: Token, s': Stream)
    requires Balanced(s.state, s.stack) && TokenAt(s) == (Got(t), s')
    ensures Yields(s, [ByToken(t)], s')
  {
    hide TokenAt;
    assert [ByToken(t)][1..] == [];
  }

  lemma YieldsWhole(s: Stream, v: Json, s': Stream)
    requires Balanced(s.state, s.stack) && DecodeAt(s) == (Got(v), s') && Balanced(s'.state, s'.stack)
    ensures Yields(s, [ByDecode(v)], s')
  {
    hide DecodeAt;
    assert [ByDecode(v)][1..] == [];
  }

  lemma {:induction false} SpacesSkipped(ws: bytes, w: bytes)
    requires AllSpace(ws) && (w != [] ==> !IsSpace(w[0]))
    ensures SkipSpaces(ws + w) == w
  {
    if ws == [] {
      assert ws + w == w;
    } else {
      SpacesSkipped(ws[1..], w);
      assert (ws + w)[1..] == ws[1..] + w;
    }
  }

  /** A separator that is due is passed over. */
  lemma SeparatorPassed(s: Stream, ws: bytes, c: byte, rest: bytes)
    requires Balanced(s.state, s.stack) && AllSpace(ws) && s.unread == ws + ([c] + rest) && Separator(s.state) == Some(c)
    ensures Balanced(AfterSeparator(s.state), s.stack)
    ensures TokenAt(s) == TokenAt(s.(unread := rest, state := AfterSeparator(s.state)))
  {
    SpacesSkipped(ws, [c] + rest);
    assert ([c] + rest)[1..] == rest;
  }

  /** Decode passes over a comma in an array and a colon. */
  lemma SeparatorDecoded(s: Stream, ws: bytes, c: byte, rest: bytes)
    requires Balanced(s.state, s.stack) && AllSpace(ws) && s.unread == ws + ([c] + rest) && Separator(s.state) == Some(c)
    requires s.state != AtObjectComma && s.err == None
    ensures DecodeAt(s) == DecodeAt(s.(unread := rest, state := AfterSeparator(s.state)))
  {
    SpacesSkipped(ws, [c] + rest);
    assert ([c] + rest)[1..] == rest;
    hide ReadResult;
  }

  lemma DecodedOk(s: Stream, v: Json)
    requires DecodeAt(s).0 == Got(v)
    ensures s.err == None
  {
    hide ReadAt;
  }

  lemma YieldsAfterSeparator(s: Stream, ws: bytes, c: byte, rest: bytes, cs: seq<Call>, s': Stream)
    requires Balanced(s.state, s.stack) && AllSpace(ws) && s.unread == ws + ([c] + rest) && Separator(s.state) == Some(c)
    requires cs != [] && Yields(s.(unread := rest, state := AfterSeparator(s.state)), cs, s')
    requires cs[0].ByDecode? ==> s.state != AtObjectComma
    ensures Yields(s, cs, s')
  {
    SeparatorPassed(s, ws, c, rest);
    if cs[0].ByDecode? {
      DecodedOk(s.(unread := rest, state := AfterSeparator(s.state)), cs[0].v);
      SeparatorDecoded(s, ws, c, rest);
    }
    hide TokenAt, DecodeAt;
  }

  /** A string, number or name, where the next byte does not go on with it. */
  lemma LiteralRead(s: Stream, v: Val, rest: bytes)
    requires v.Lit? && WfVal(v) && s.unread == v.text + rest && s.err == None
    requires if rest != [] then LexState(v.text + [rest[0]]) == None else s.last == EOF
    ensures ReadAt(s) == (Got(Denote(v)), s.(unread := rest, state := ValueEnd(s.state)))
  {
    hide Walk, WfVal, Denote;
    var n := |v.text|;
    assert s.unread[..n] == v.text == [] + Text(v) + [];
    assert IsFirst(s.unread, n, [], v, s.last == EOF) by { assert rest != [] ==> s.unread[n] == rest[0]; }
    FirstFound(s.unread, n, [], v, s.last == EOF);
    assert IsText(v.text, [], v, []);
    ValueOfText(v.text, [], v, []);
  }

  lemma LiteralFirst(v: Val)
    requires v.Lit? && WfVal(v)
    ensures v.text != [] && !IsSpace(v.text[0]) && !IsOpening(v.text[0]) && !IsClosing(v.text[0])
    ensures v.text[0] != COMMA && v.text[0] != COLON
  {
    ScalarIff(v.text);
    LexFirst(v.text);
    LexBegins(v.text);
  }

  lemma LiteralYields(s: Stream, lead: bytes, v: Val, rest: bytes)
    requires v.Lit? && WfVal(v) && AllSpace(lead) && s.unread == lead + (v.text + rest) && s.err == None
    requires if rest != [] then LexState(v.text + [rest[0]]) == None else s.last == EOF
    requires Balanced(s.state, s.stack) && ValueAllowed(s.state)
    ensures Yields(s, [ByToken(Value(Denote(v)))], s.(unread := rest, state := ValueEnd(s.state)))
  {
    LiteralFirst(v);
    var w := v.text + rest;
    assert w[0] == v.text[0];
    SpacesSkipped(lead, w);
    LiteralRead(s.(unread := w), v, rest);
    hide ReadAt, Denote, WfVal;
    YieldsOne(s, Value(Denote(v)), s.(unread := rest, state := ValueEnd(s.state)));
  }

  // ---- Arrays and objects ----

  lemma OpenYields(s: Stream, lead: bytes, c: byte, rest: bytes)
    requires IsOpening(c) && AllSpace(lead) && s.unread == lead + ([c] + rest)
    requires Balanced(s.state, s.stack) && ValueAllowed(s.state)
    ensures Yields(s, [ByToken(Delim(c))], s.(unread := rest, state := if c == LBRACK then AtArrayStart else AtObjectStart, stack := s.stack + [s.state]))
  {
    SpacesSkipped(lead, [c] + rest);
    assert ([c] + rest)[1..] == rest;
    var s' := s.(unread := rest, state := if c == LBRACK then AtArrayStart else AtObjectStart, stack := s.stack + [s.state]);
    assert TokenAt(s) == (Got(Delim(c)), s');
    assert Balanced(s'.state, s'.stack);
    hide TokenAt;
    YieldsOne(s, Delim(c), s');
  }

  /** The closing bracket returns to the state that was set aside. */
  lemma CloseYields(s: Stream, lead: bytes, c: byte, rest: bytes, q: TokenState, stack: seq<TokenState>)
    requires IsClosing(c) && AllSpace(lead) && s.unread == lead + ([c] + rest)
    requires Balanced(s.state, s.stack) && MayClose(s.state, c) && s.stack == stack + [q]
    ensures Yields(s, [ByToken(Delim(c))], s.(unread := rest, state := ValueEnd(q), stack := stack))
  {
    SpacesSkipped(lead, [c] + rest);
    assert ([c] + rest)[1..] == rest && s.stack[..|stack|] == stack;
    var s' := s.(unread := rest, state := ValueEnd(q), stack := stack);
    assert TokenAt(s) == (Got(Delim(c)), s');
    assert Balanced(s'.state, s'.stack);
    hide TokenAt;
    YieldsOne(s, Delim(c), s');
  }

  /** A value read whole. */
  lemma WholeYields(s: Stream, lead: bytes, v: Val, rest: bytes)
    requires AllSpace(lead) && WfVal(v) && s.unread == lead + (Text(v) + rest) && s.err == None
    requires v.Lit? ==> if rest != [] then LexState(v.text + [rest[0]]) == None else s.last == EOF
    requires Balanced(s.state, s.stack) && ValueAllowed(s.state)
    ensures Yields(s, [ByDecode(Denote(v))], s.(unread := rest, state := ValueEnd(s.state)))
  {
    var s' := s.(unread := rest, state := ValueEnd(s.state));
    DoneBalanced(s, rest);
    ReadWhole(s, lead, v, rest);
    DecodeReads(s);
    hide *;
    YieldsWhole(s, Denote(v), s');
  }

  lemma DoneBalanced(s: Stream, rest: bytes)
    requires Balanced(s.state, s.stack) && ValueAllowed(s.state)
    ensures Balanced(ValueEnd(s.state), s.stack)
  {
  }

  lemma DecodeReads(s: Stream)
    requires s.err == None && ValueAllowed(s.state)
    ensures DecodeAt(s) == ReadAt(s)
  {
    hide ReadAt;
  }

  lemma ReadWhole(s: Stream, lead: bytes, v: Val, rest: bytes)
    requires AllSpace(lead) && WfVal(v) && s.unread == lead + (Text(v) + rest) && s.err == None
    requires v.Lit? ==> if rest != [] then LexState(v.text + [rest[0]]) == None else s.last == EOF
    ensures ReadAt(s) == (Got(Denote(v)), s.(unread := rest, state := ValueEnd(s.state)))
  {
    hide Walk, WfVal, Denote, Text;
    var front := lead + Text(v);
    var n := |front|;
    assert s.unread[..n] == front && s.unread[n..] == rest;
    assert IsFirst(s.unread, n, lead, v, s.last == EOF) by { assert rest != [] ==> s.unread[n] == rest[0]; }
    FirstFound(s.unread, n, lead, v, s.last == EOF);
    assert front == lead + Text(v) + [];
    assert IsText(front, lead, v, []);
    ValueOfText(front, lead, v, []);
    hide IsFirst, IsText, FirstValue, ValueOf, LexState;
  }

  /** A value, where one is allowed, yields what its plan says. */
  lemma {:induction false} ValYields(s: Stream, lead: bytes, v: Val, plan: Plan, rest: bytes)
    requires AllSpace(lead) && WfVal(v) && s.unread == lead + (Text(v) + rest) && s.err == None
    requires v.Lit? ==> if rest != [] then LexState(v.text + [rest[0]]) == None else s.last == EOF
    requires Balanced(s.state, s.stack) && ValueAllowed(s.state)
    ensures Yields(s, Mixed(v, plan), s.(unread := rest, state := ValueEnd(s.state)))
    decreases v, 0
  {
    hide Yields, TokenAt;
    match plan
    case Whole => WholeYields(s, lead, v, rest);
    case Parts(ps) =>
      match v
      case Lit(_) => LiteralYields(s, lead, v, rest);
      case Arr(_, _) => ArrYields(s, lead, v, ps, rest);
      case Obj(_, _) => ObjYields(s, lead, v, ps, rest);
  }

  /** What comes after a scalar in an array or object does not go on with it. */
  lemma ScalarStops(v: Val, after: bytes, c: byte, tail: bytes)
    requires v.Lit? && WfVal(v) && AllSpace(after) && IsSeparator(c)
    ensures var rest := after + ([c] + tail); rest != [] && LexState(v.text + [rest[0]]) == None
  {
    var rest := after + ([c] + tail);
    ScalarIff(v.text);
    assert rest[0] == if after == [] then c else after[0];
    LexAppend(v.text, rest[0]);
    hide LexState, WfVal;
  }

  /** A value in an array or object, up to the separator after it. */
  lemma {:induction false} SlotYields(s: Stream, lead: bytes, v: Val, plan: Plan, after: bytes, c: byte, tail: bytes)
    requires AllSpace(lead) && WfVal(v) && AllSpace(after) && IsSeparator(c)
    requires s.unread == lead + (Text(v) + (after + ([c] + tail))) && s.err == None
    requires Balanced(s.state, s.stack) && ValueAllowed(s.state)
    ensures Yields(s, Mixed(v, plan), s.(unread := after + ([c] + tail), state := ValueEnd(s.state)))
    decreases v, 1
  {
    hide *;
    if v.Lit? { ScalarStops(v, after, c, tail); }
    ValYields(s, lead, v, plan, after + ([c] + tail));
  }

  lemma MixedArr(v: Val, ps: seq<Plan>)
    requires v.Arr?
    ensures Mixed(v, Parts(ps)) == [ByToken(Delim(LBRACK))] + (MixedElems(v.elems, ps) + [ByToken(Delim(RBRACK))])
  {
    hide MixedElems;
  }

  lemma MixedObj(v: Val, ps: seq<Plan>)
    requires v.Obj?
    ensures Mixed(v, Parts(ps)) == [ByToken(Delim(LBRACE))] + (MixedMembers(v.members, ps) + [ByToken(Delim(RBRACE))])
  {
    hide MixedMembers;
  }

  /** The state inside a new array or object. */
  function Inside(s: Stream, c: byte, rest: bytes): Stream {
    s.(unread := rest, state := if c == LBRACK then AtArrayStart else AtObjectStart, stack := s.stack + [s.state])
  }

  /** The state after the value that `s` allowed. */
  function Done(s: Stream, rest: bytes): Stream {
    s.(unread := rest, state := ValueEnd(s.state))
  }

  /** `t` is inside the array or object whose value was allowed at `s`. */
  predicate Within(s: Stream, t: Stream) {
    && Balanced(s.state, s.stack) && ValueAllowed(s.state) && s.err == None
    && Balanced(t.state, t.stack) && t.stack == s.stack + [s.state] && t.last == s.last && t.err == None
  }

  lemma InsideWithin(s: Stream, c: byte, rest: bytes)
    requires Balanced(s.state, s.stack) && ValueAllowed(s.state) && s.err == None && IsOpening(c)
    ensures Within(s, Inside(s, c, rest))
  {
  }

  lemma ArrOpens(v: Val, lead: bytes, rest: bytes)
    requires v.Arr? && WfVal(v)
    ensures lead + (Text(v) + rest) == lead + ([LBRACK] + (ArrayRest(v.gap, v.elems) + rest))
    ensures AllSpace(v.gap) && forall i :: 0 <= i < |v.elems| ==> WfElem(v.elems[i])
  {
    ArrayText(v);
    hide Text, ArrayRest;
  }

  lemma {:induction false} ArrYields(s: Stream, lead: bytes, v: Val, ps: seq<Plan>, rest: bytes)
    requires v.Arr? && AllSpace(lead) && WfVal(v) && s.unread == lead + (Text(v) + rest) && s.err == None
    requires Balanced(s.state, s.stack) && ValueAllowed(s.state)
    ensures Yields(s, Mixed(v, Parts(ps)), s.(unread := rest, state := ValueEnd(s.state)))
    decreases v, 0, 0
  {
    DoneIs(s, rest);
    ByteKinds();
    InsideIs(s, LBRACK, ArrayRest(v.gap, v.elems) + rest);
    hide *;
    var inside := Inside(s, LBRACK, ArrayRest(v.gap, v.elems) + rest);
    ArrOpens(v, lead, rest);
    InsideWithin(s, LBRACK, ArrayRest(v.gap, v.elems) + rest);
    OpenYields(s, lead, LBRACK, ArrayRest(v.gap, v.elems) + rest);
    ElemsYield(s, inside, v.gap, v.elems, ps, rest);
    MixedArr(v, ps);
    YieldsThen(s, [ByToken(Delim(LBRACK))], inside, MixedElems(v.elems, ps) + [ByToken(Delim(RBRACK))], Done(s, rest));
  }

  lemma ByteKinds()
    ensures IsOpening(LBRACK) && IsOpening(LBRACE) && IsClosing(RBRACK) && IsClosing(RBRACE)
    ensures IsSeparator(COMMA) && IsSeparator(RBRACK) && IsSeparator(RBRACE)
  {
  }

  lemma DoneIs(s: Stream, rest: bytes)
    ensures Done(s, rest) == s.(unread := rest, state := ValueEnd(s.state))
  {
  }

  lemma InsideIs(s: Stream, c: byte, rest: bytes)
    ensures Inside(s, c, rest).unread == rest && Inside(s, c, rest).err == s.err
    ensures Inside(s, c, rest).state == if c == LBRACK then AtArrayStart else AtObjectStart
    ensures Inside(s, c, rest) ==
      s.(unread := rest, state := if c == LBRACK then AtArrayStart else AtObjectStart, stack := s.stack + [s.state])
  {
  }

  /** The closing bracket of the value that was allowed at `s`. */
  lemma ClosesWithin(s: Stream, t: Stream, lead: bytes, c: byte, rest: bytes)
    requires Within(s, t) && IsClosing(c) && AllSpace(lead) && t.unread == lead + ([c] + rest) && MayClose(t.state, c)
    ensures Yields(t, [ByToken(Delim(c))], Done(s, rest))
  {
    CloseYields(t, lead, c, rest, s.state, s.stack);
    hide Yields;
  }

  /** After a value in an array or object. */
  lemma ValueDone(s: Stream, t: Stream, rest: bytes)
    requires Within(s, t) && ValueAllowed(t.state) && t.state != AtTop
    ensures Within(s, Done(t, rest)) && Done(t, rest).unread == rest
    ensures MayClose(Done(t, rest).state, if Kind(t.state) == LBRACK then RBRACK else RBRACE)
    ensures Separator(Done(t, rest).state) == Some(COMMA)
    ensures AfterSeparator(Done(t, rest).state) == if Kind(t.state) == LBRACK then AtArrayValue else AtObjectKey
  {
  }

  /** Past the separator. */
  function Past(t: Stream, rest: bytes): Stream {
    t.(unread := rest, state := AfterSeparator(t.state))
  }

  lemma PastWithin(s: Stream, t: Stream, rest: bytes)
    requires Within(s, t) && Separator(t.state).Some?
    ensures Within(s, Past(t, rest)) && Past(t, rest).unread == rest && Past(t, rest).state == AfterSeparator(t.state)
  {
  }

  lemma YieldsPast(t: Stream, ws: bytes, c: byte, rest: bytes, cs: seq<Call>, s': Stream)
    requires Balanced(t.state, t.stack) && AllSpace(ws) && t.unread == ws + ([c] + rest) && Separator(t.state) == Some(c)
    requires cs != [] && Yields(Past(t, rest), cs, s')
    requires cs[0].ByDecode? ==> AfterSeparator(t.state) != AtObjectKey
    ensures Yields(t, cs, s')
  {
    hide Yields;
    YieldsAfterSeparator(t, ws, c, rest, cs, s');
  }

  lemma WithinParts(s: Stream, t: Stream)
    requires Within(s, t)
    ensures Balanced(t.state, t.stack) && t.err == None
  {
  }

  /** The elements that are left, and the closing bracket. */
  lemma {:induction false} ElemsYield(s: Stream, t: Stream, gap: bytes, es: seq<Elem>, ps: seq<Plan>, rest: bytes)
    requires Within(s, t) && (t.state == AtArrayStart || (t.state == AtArrayValue && es != []))
    requires AllSpace(gap) && (forall i :: 0 <= i < |es| ==> WfElem(es[i])) && t.unread == ArrayRest(gap, es) + rest
    ensures Yields(t, MixedElems(es, ps) + [ByToken(Delim(RBRACK))], Done(s, rest))
    decreases es, 2
  {
    ByteKinds();
    StartStates(t.state);
    hide *;
    if es == [] {
      NoElems(gap, ps, rest);
      ClosesWithin(s, t, gap, RBRACK, rest);
    } else {
      var e, c, tail := es[0], AfterElem(es), ArrayTail(gap, es, rest);
      ArraySplit(gap, es, rest);
      ElemIs(es, ps, gap, rest);
      WithinParts(s, t);
      SlotYields(t, e.before, e.val, First(ps), e.after, c, tail);
      var t1 := Done(t, e.after + ([c] + tail));
      DoneIs(t, e.after + ([c] + tail));
      ValueDone(s, t, e.after + ([c] + tail));
      WithinParts(s, t1);
      if |es| == 1 {
        ClosesWithin(s, t1, e.after, RBRACK, rest);
        YieldsThen(t, Mixed(e.val, First(ps)), t1, [ByToken(Delim(RBRACK))], Done(s, rest));
      } else {
        PastWithin(s, t1, tail);
        ElemsYield(s, Past(t1, tail), gap, es[1..], Rest(ps), rest);
        var more := MixedElems(es[1..], Rest(ps)) + [ByToken(Delim(RBRACK))];
        InArray(t.state, t1.state);
        YieldsPast(t1, e.after, COMMA, tail, more, Done(s, rest));
        YieldsThen(t, Mixed(e.val, First(ps)), t1, more, Done(s, rest));
        assert Mixed(e.val, First(ps)) + more == MixedElems(es, ps) + [ByToken(Delim(RBRACK))];
      }
    }
  }

  lemma StartStates(q: TokenState)
    ensures q == AtArrayStart || q == AtArrayValue ==> ValueAllowed(q) && Kind(q) == LBRACK
    ensures q == AtArrayStart ==> MayClose(q, RBRACK)
    ensures q == AtObjectStart ==> MayClose(q, RBRACE)
    ensures q == AtObjectValue ==> ValueAllowed(q) && Kind(q) != LBRACK
  {
  }

  /** After the comma of an array comes no key. */
  lemma InArray(q: TokenState, q1: TokenState)
    requires q == AtArrayStart || q == AtArrayValue
    requires AfterSeparator(q1) == if Kind(q) == LBRACK then AtArrayValue else AtObjectKey
    ensures AfterSeparator(q1) != AtObjectKey
  {
  }

  lemma NoElems(gap: bytes, ps: seq<Plan>, rest: bytes)
    ensures ArrayRest(gap, []) + rest == gap + ([RBRACK] + rest)
    ensures MixedElems([], ps) + [ByToken(Delim(RBRACK))] == [ByToken(Delim(RBRACK))]
  {
  }

  lemma ElemIs(es: seq<Elem>, ps: seq<Plan>, gap: bytes, rest: bytes)
    requires es != [] && WfElem(es[0])
    ensures AllSpace(es[0].before) && WfVal(es[0].val) && AllSpace(es[0].after)
    ensures AfterElem(es) == (if |es| == 1 then RBRACK else COMMA)
    ensures ArrayTail(gap, es, rest) == if |es| == 1 then rest else ArrayRest(gap, es[1..]) + rest
    ensures MixedElems(es, ps) == Mixed(es[0].val, First(ps)) + MixedElems(es[1..], Rest(ps))
    ensures |es| == 1 ==> MixedElems(es, ps) == Mixed(es[0].val, First(ps))
  {
    hide Mixed, WfVal;
  }

  lemma {:induction false} ObjYields(s: Stream, lead: bytes, v: Val, ps: seq<Plan>, rest: bytes)
    requires v.Obj? && AllSpace(lead) && WfVal(v) && s.unread == lead + (Text(v) + rest) && s.err == None
    requires Balanced(s.state, s.stack) && ValueAllowed(s.state)
    ensures Yields(s, Mixed(v, Parts(ps)), s.(unread := rest, state := ValueEnd(s.state)))
    decreases v, 0, 0
  {
    DoneIs(s, rest);
    ByteKinds();
    InsideIs(s, LBRACE, ObjectRest(v.gap, v.members) + rest);
    hide *;
    var inside := Inside(s, LBRACE, ObjectRest(v.gap, v.members) + rest);
    ObjOpens(v, lead, rest);
    InsideWithin(s, LBRACE, ObjectRest(v.gap, v.members) + rest);
    OpenYields(s, lead, LBRACE, ObjectRest(v.gap, v.members) + rest);
    MembersYield(s, inside, v.gap, v.members, ps, rest);
    MixedObj(v, ps);
    YieldsThen(s, [ByToken(Delim(LBRACE))], inside, MixedMembers(v.members, ps) + [ByToken(Delim(RBRACE))], Done(s, rest));
  }

  lemma ObjOpens(v: Val, lead: bytes, rest: bytes)
    requires v.Obj? && WfVal(v)
    ensures lead + (Text(v) + rest) == lead + ([LBRACE] + (ObjectRest(v.gap, v.members) + rest))
    ensures AllSpace(v.gap) && forall i :: 0 <= i < |v.members| ==> WfMember(v.members[i])
  {
    ObjectText(v);
    hide Text, ObjectRest;
  }

  lemma NoMembers(gap: bytes, ps: seq<Plan>, rest: bytes)
    ensures ObjectRest(gap, []) + rest == gap + ([RBRACE] + rest)
    ensures MixedMembers([], ps) + [ByToken(Delim(RBRACE))] == [ByToken(Delim(RBRACE))]
  {
  }

  lemma MemberIs(ms: seq<Member>, ps: seq<Plan>, gap: bytes, rest: bytes)
    requires ms != [] && WfMember(ms[0])
    ensures AllSpace(ms[0].mid) && AllSpace(ms[0].gap) && WfVal(ms[0].val) && AllSpace(ms[0].after)
    ensures AfterMember(ms) == (if |ms| == 1 then RBRACE else COMMA)
    ensures ObjectTail(gap, ms, rest) == if |ms| == 1 then rest else ObjectRest(gap, ms[1..]) + rest
    ensures ValuePart(gap, ms, rest)
         == ms[0].gap + (Text(ms[0].val) + (ms[0].after + ([AfterMember(ms)] + ObjectTail(gap, ms, rest))))
    ensures MixedMembers(ms, ps) == [KeyCall(ms[0])] + Mixed(ms[0].val, First(ps)) + MixedMembers(ms[1..], Rest(ps))
    ensures |ms| == 1 ==> MixedMembers(ms, ps) == [KeyCall(ms[0])] + Mixed(ms[0].val, First(ps))
    ensures MixedMembers(ms, ps)[0] == KeyCall(ms[0]) && KeyCall(ms[0]).ByToken?
  {
    hide Mixed, WfVal, StringOf;
  }

  lemma KeyDenotes(key: bytes)
    requires IsString(key)
    ensures key != [] && key[0] == QUOTE && WfVal(Lit(key)) && Denote(Lit(key)) == Str(StringOf(key))
  {
  }

  /** A key, and the colon that is then due. */
  lemma KeyYields(t: Stream, m: Member, valuePart: bytes) returns (t1: Stream)
    requires WfMember(m) && t.unread == m.before + KeyPart(m, valuePart) && t.err == None
    requires Balanced(t.state, t.stack) && (t.state == AtObjectStart || t.state == AtObjectKey)
    ensures t1 == t.(unread := m.mid + ([COLON] + valuePart), state := AtObjectColon)
    ensures Yields(t, [KeyCall(m)], t1)
  {
    hide *;
    var rest := m.mid + ([COLON] + valuePart);
    KeyFront(m, valuePart);
    KeyDenotes(m.key);
    KeyStops(m, valuePart);
    var w := m.key + rest;
    SpacesSkipped(m.before, w);
    LiteralRead(t.(unread := w), Lit(m.key), rest);
    t1 := t.(unread := rest, state := AtObjectColon);
    KeyRead(t, w, Denote(Lit(m.key)), rest);
    YieldsOne(t, KeyCall(m).t, t1);
  }

  lemma KeyFront(m: Member, valuePart: bytes)
    requires WfMember(m)
    ensures IsString(m.key) && AllSpace(m.before) && KeyPart(m, valuePart) == m.key + (m.mid + ([COLON] + valuePart))
    ensures KeyCall(m) == ByToken(Value(Str(StringOf(m.key)))) && !IsSpace(QUOTE)
  {
    hide IsString, StringOf, WfVal;
  }

  /** Token where a key may come and a string does. */
  lemma KeyRead(t: Stream, w: bytes, v: Json, rest: bytes)
    requires SkipSpaces(t.unread) == w && w != [] && w[0] == QUOTE
    requires Balanced(t.state, t.stack) && (t.state == AtObjectStart || t.state == AtObjectKey)
    requires ReadAt(t.(unread := w)) == (Got(v), t.(unread := rest, state := ValueEnd(t.state)))
    ensures TokenAt(t) == (Got(Value(v)), t.(unread := rest, state := AtObjectColon))
  {
    hide ReadAt;
  }

  lemma KeyStops(m: Member, valuePart: bytes)
    requires WfMember(m)
    ensures var rest := m.mid + ([COLON] + valuePart); rest != [] && LexState(m.key + [rest[0]]) == None
  {
    StringRuns(m.key);
    LexAppend(m.key, (m.mid + ([COLON] + valuePart))[0]);
    hide LexState;
  }

  lemma ColonWithin(s: Stream, t: Stream, t1: Stream, rest: bytes)
    requires Within(s, t) && t.state != AtTop && t1 == t.(unread := rest, state := AtObjectColon)
    ensures Within(s, t1) && t1.unread == rest && Separator(t1.state) == Some(COLON) && AfterSeparator(t1.state) == AtObjectValue
  {
  }

  /** The members that are left, and the closing brace. */
  lemma {:induction false} MembersYield(s: Stream, t: Stream, gap: bytes, ms: seq<Member>, ps: seq<Plan>, rest: bytes)
    requires Within(s, t) && (t.state == AtObjectStart || (t.state == AtObjectKey && ms != []))
    requires AllSpace(gap) && (forall i :: 0 <= i < |ms| ==> WfMember(ms[i])) && t.unread == ObjectRest(gap, ms) + rest
    ensures Yields(t, MixedMembers(ms, ps) + [ByToken(Delim(RBRACE))], Done(s, rest))
    decreases ms, 2
  {
    ByteKinds();
    StartStates(t.state);
    hide *;
    if ms == [] {
      NoMembers(gap, ps, rest);
      ClosesWithin(s, t, gap, RBRACE, rest);
    } else {
      var t3 := MemberYields(s, t, gap, ms, ps, rest);
      var m, c, tail := ms[0], AfterMember(ms), ObjectTail(gap, ms, rest);
      MemberIs(ms, ps, gap, rest);
      WithinParts(s, t3);
      var part := [KeyCall(m)] + Mixed(m.val, First(ps));
      if |ms| == 1 {
        ClosesWithin(s, t3, m.after, RBRACE, rest);
        YieldsThen(t, part, t3, [ByToken(Delim(RBRACE))], Done(s, rest));
      } else {
        PastWithin(s, t3, tail);
        MembersYield(s, Past(t3, tail), gap, ms[1..], Rest(ps), rest);
        MoreMembers(ms[1..], Rest(ps));
        var more := MixedMembers(ms[1..], Rest(ps)) + [ByToken(Delim(RBRACE))];
        YieldsPast(t3, m.after, COMMA, tail, more, Done(s, rest));
        YieldsThen(t, part, t3, more, Done(s, rest));
        assert part + more == MixedMembers(ms, ps) + [ByToken(Delim(RBRACE))];
      }
    }
  }

  /** One member, up to the separator after it. */
  lemma {:induction false} MemberYields(s: Stream, t: Stream, gap: bytes, ms: seq<Member>, ps: seq<Plan>, rest: bytes) returns (t3: Stream)
    requires ms != [] && WfMember(ms[0])
    requires Within(s, t) && (t.state == AtObjectStart || t.state == AtObjectKey) && t.unread == ObjectRest(gap, ms) + rest
    ensures Yields(t, [KeyCall(ms[0])] + Mixed(ms[0].val, First(ps)), t3)
    ensures Within(s, t3) && t3.unread == ms[0].after + ([AfterMember(ms)] + ObjectTail(gap, ms, rest))
    ensures MayClose(t3.state, RBRACE) && Separator(t3.state) == Some(COMMA) && AfterSeparator(t3.state) == AtObjectKey
    decreases ms, 1
  {
    ByteKinds();
    StartStates(AtObjectValue);
    hide *;
    var m, c, tail := ms[0], AfterMember(ms), ObjectTail(gap, ms, rest);
    var vp := ValuePart(gap, ms, rest);
    ObjectSplit(gap, ms, rest);
    MemberIs(ms, ps, gap, rest);
    WithinParts(s, t);
    var t1 := KeyYields(t, m, vp);
    ColonWithin(s, t, t1, m.mid + ([COLON] + vp));
    WithinParts(s, t1);
    PastWithin(s, t1, vp);
    var t2 := Past(t1, vp);
    WithinParts(s, t2);
    SlotYields(t2, m.gap, m.val, First(ps), m.after, c, tail);
    t3 := Done(t2, m.after + ([c] + tail));
    DoneIs(t2, m.after + ([c] + tail));
    ValueDone(s, t2, m.after + ([c] + tail));
    MixedSome(m.val, First(ps));
    YieldsPast(t1, m.mid, COLON, vp, Mixed(m.val, First(ps)), t3);
    YieldsThen(t, [KeyCall(m)], t1, Mixed(m.val, First(ps)), t3);
  }

  lemma MixedSome(v: Val, plan: Plan)
    ensures Mixed(v, plan) != []
  {
  }

  lemma MoreMembers(ms: seq<Member>, ps: seq<Plan>)
    requires ms != []
    ensures MixedMembers(ms, ps) != [] && MixedMembers(ms, ps)[0].ByToken?
  {
    hide Mixed, StringOf;
  }

  /** On a text any mix of calls, with Decode called where a value comes next, returns the values and delimiters in
      order, each Decode its whole value; and then comes the end of the stream. */
  lemma CallsOfText(data: bytes, lead: bytes, v: Val, plan: Plan, trail: bytes)
    requires IsText(data, lead, v, trail)
    ensures var s := Stream(data, EOF, None, AtTop, []);
            var s' := s.(unread := trail);
            Yields(s, Mixed(v, plan), s') && Balanced(s'.state, s'.stack) && TokenAt(s') == (Err(Eof), s')
  {
    var s := Stream(data, EOF, None, AtTop, []);
    var s' := s.(unread := trail);
    assert AllSpace(trail) && data == lead + (Text(v) + trail);
    hide Yields, Mixed, Text, WfVal;
    if v.Lit? && trail != [] { TrailStops(v, trail[0]); }
    ValYields(s, lead, v, plan, trail);
    SpacesSkipped(trail, []);
    assert trail + [] == trail;
  }

  lemma TrailStops(v: Val, c: byte)
    requires v.Lit? && WfVal(v) && IsSpace(c)
    ensures LexState(v.text + [c]) == None
  {
    ScalarStops(v, [c], COMMA, []);
    assert ([c] + ([COMMA] + []))[0] == c;
  }

  // ---- Token alone ----

  function ByTokens(ts: seq<Token>): seq<Call> {
    seq(|ts|, i requires 0 <= i < |ts| => ByToken(ts[i]))
  }

  lemma {:induction false} TokensMixed(v: Val)
    ensures Mixed(v, TOKENS) == ByTokens(Flatten(v))
    decreases v, 0
  {
    match v
    case Lit(_) =>
    case Arr(_, elems) => ElemsMixed(elems);
    case Obj(_, members) => MembersMixed(members);
  }

  lemma {:induction false} ElemsMixed(es: seq<Elem>)
    ensures MixedElems(es, []) == ByTokens(FlattenElems(es))
    decreases es, 1
  {
    if es != [] {
      TokensMixed(es[0].val);
      ElemsMixed(es[1..]);
    }
  }

  lemma {:induction false} MembersMixed(ms: seq<Member>)
    ensures MixedMembers(ms, []) == ByTokens(FlattenMembers(ms))
    decreases ms, 1
  {
    hide StringOf;
    if ms != [] {
      TokensMixed(ms[0].val);
      MembersMixed(ms[1..]);
    }
  }

  /** On a text the calls of Token alone return the values and delimiters in order, and then the end of the stream. */
  lemma TokensOfText(data: bytes, lead: bytes, v: Val, trail: bytes)
    requires IsText(data, lead, v, trail)
    ensures var s := Stream(data, EOF, None, AtTop, []);
            var s' := s.(unread := trail);
            Yields(s, ByTokens(Flatten(v)), s') && Balanced(s'.state, s'.stack) && TokenAt(s') == (Err(Eof), s')
  {
    CallsOfText(data, lead, v, TOKENS, trail);
    TokensMixed(v);
  }
}
