/**
 Errors come no earlier and no later than they must: the scanner fails at the first byte after which nothing makes
 the data a JSON text, and the stream decoder reports a syntax error exactly if no value can come any more.
 */
module JsonViable {
  import opened Options
  import opened Bytes
  import opened JsonScanner
  import opened JsonLexemes
  import opened JsonGrammar
  import opened JsonParse
  import opened JsonNextValue
  import opened JsonTokens
  import opened JsonTokenTexts

  // ---- Completing what the scanner has accepted ----

  const ZERO: byte := 0x30

  /** Bytes that end the lexeme, or that are a value or key where one is due. */
  function Finish(q: Step): bytes {
    match q
    case BeginValue | BeginValueOrEmpty => [ZERO]
    case BeginString | BeginStringOrEmpty => [QUOTE, QUOTE]
    case InString => [QUOTE]
    case InStringEsc => [QUOTE, QUOTE]
    case EscU(n) => Zeros(if n < 3 then 4 - n else 1) + [QUOTE]
    case Neg | Dot | Exp | ExpSign => [ZERO]
    case InName(rest) => rest
    case _ => []
  }

  function Zeros(n: nat): (s: bytes)
    ensures |s| == n
  {
    seq(n, i => ZERO)
  }

  lemma RunTwo(s: Scan, c: byte, d: byte)
    requires Wf(s)
    ensures Run(s, [c, d]) == Next(Next(s, c).0, d).0
  {
    hide *;
    assert [c, d] == [c] + [d];
    RunFirst(s, c, [d]);
    RunOne(Next(s, c).0, d);
  }

  lemma {:induction false} DigitsFinish(s: Scan, n: nat, k: nat)
    requires Wf(s) && !s.err && s.step == EscU(n) && k == if n < 3 then 4 - n else 1
    ensures Run(s, Zeros(k)) == s.(step := InString)
    decreases k
  {
    DigitNext(s, n);
    ZerosSplit(k);
    hide *;
    RunFirst(s, ZERO, Zeros(k - 1));
    if k > 1 {
      DigitsFinish(Next(s, ZERO).0, n + 1, k - 1);
    } else {
      RunNone(Next(s, ZERO).0, []);
    }
  }

  lemma DigitNext(s: Scan, n: nat)
    requires Wf(s) && !s.err && s.step == EscU(n)
    ensures Next(s, ZERO).0 == s.(step := if n < 3 then EscU(n + 1) else InString)
  {
  }

  lemma ZerosSplit(k: nat)
    requires k > 0
    ensures Zeros(k) == [ZERO] + Zeros(k - 1) && Zeros(0) == []
  {
  }

  lemma {:induction false} NameFinishes(s: Scan, rest: bytes)
    requires Wf(s) && !s.err && s.step == InName(rest)
    ensures Run(s, rest) == s.(step := EndValue)
    decreases |rest|
  {
    NameNext(s, rest);
    hide *;
    assert rest == [rest[0]] + rest[1..];
    RunFirst(s, rest[0], rest[1..]);
    if |rest| > 1 {
      NameFinishes(Next(s, rest[0]).0, rest[1..]);
    } else {
      RunNone(Next(s, rest[0]).0, []);
    }
  }

  lemma NameNext(s: Scan, rest: bytes)
    requires Wf(s) && !s.err && s.step == InName(rest)
    ensures rest != [] && Next(s, rest[0]).0 == s.(step := if |rest| == 1 then EndValue else InName(rest[1..]))
  {
  }

  /** The scanner's state after data without an error. */
  predicate Alive(s: Scan) {
    Wf(s) && !s.err && (s.endTop ==> s.step == EndTop) && (s.step == EndTop ==> s.endTop && s.stack == [])
  }

  lemma Finishes(s: Scan)
    requires Alive(s)
    ensures Ended(Run(s, Finish(s.step)), s.stack)
  {
    hide *;
    AliveWf(s);
    if s.step.EscU? {
      EscapeFinishes(s);
    } else if s.step.InName? {
      NameFinishes(s, s.step.rest);
      LexemeEnded(s);
    } else if |Finish(s.step)| == 2 {
      PairFinishes(s);
    } else if |Finish(s.step)| == 1 {
      ByteFinishes(s);
    } else {
      NothingFinishes(s);
    }
  }

  lemma NothingFinishes(s: Scan)
    requires Alive(s) && |Finish(s.step)| != 1 && |Finish(s.step)| != 2 && !s.step.EscU? && !s.step.InName?
    ensures Wf(s) && Ended(Run(s, Finish(s.step)), s.stack)
  {
    RunNone(s, []);
    assert Finish(s.step) == [];
    hide Run, Next;
  }

  lemma AliveWf(s: Scan)
    ensures Alive(s) ==> Wf(s)
    ensures s.err && Wf(s) ==> s.step == Failed && AtEof(s).1 == Error
  {
  }

  lemma LexemeEnded(s: Scan)
    requires Alive(s) && s.step.InName?
    ensures Ended(s.(step := EndValue), s.stack) && !s.err && Finish(s.step) == s.step.rest
  {
  }

  lemma EscapeFinishes(s: Scan)
    requires Alive(s) && s.step.EscU?
    ensures Wf(s) && Ended(Run(s, Finish(s.step)), s.stack)
  {
    AliveWf(s);
    var n := s.step.n;
    var k := if n < 3 then 4 - n else 1;
    assert Finish(s.step) == Zeros(k) + [QUOTE];
    hide Zeros, Run;
    DigitsFinish(s, n, k);
    RunConcat(s, Zeros(k), [QUOTE]);
    RunOne(s.(step := InString), QUOTE);
  }

  lemma PairFinishes(s: Scan)
    requires Alive(s) && |Finish(s.step)| == 2 && !s.step.InName? && !s.step.EscU?
    ensures Wf(s) && Ended(Run(s, Finish(s.step)), s.stack)
  {
    RunTwo(s, QUOTE, QUOTE);
    hide Run;
  }

  lemma ByteFinishes(s: Scan)
    requires Alive(s) && |Finish(s.step)| == 1 && !s.step.InName? && !s.step.EscU?
    ensures Wf(s) && Ended(Run(s, Finish(s.step)), s.stack)
  {
    RunOne(s, Finish(s.step)[0]);
    assert Finish(s.step) == [Finish(s.step)[0]];
    hide Run;
  }

  /** A key that is waiting for its colon gets one and a value. */
  lemma KeyFinishes(s: Scan, stack: seq<Parse>)
    requires Ended(s, stack + [ObjectKey])
    ensures Wf(s) && Ended(Run(s, [COLON, ZERO]), stack + [ObjectValue])
  {
    EndedNext(s, stack + [ObjectKey], COLON);
    RunTwo(s, COLON, ZERO);
    assert (stack + [ObjectKey])[|stack| := ObjectValue] == stack + [ObjectValue];
    assert Next(s, COLON).0 == Scan(BeginValue, stack + [ObjectValue], false, false);
  }

  lemma ClosedEnded(stack: seq<Parse>)
    ensures Ended(Closed(stack), stack) && RBRACK != RBRACE
  {
  }

  /** After a value or key, the open arrays and objects can be closed. */
  lemma {:induction false} Closable(s: Scan, stack: seq<Parse>) returns (more: bytes)
    requires Wf(s) && Ended(s, stack)
    ensures Ended(Run(s, more), [])
    decreases |stack|, if stack != [] && stack[|stack| - 1] == ObjectKey then 1 else 0
  {
    RunNone(s, []);
    more := [];
    if stack != [] {
      hide *;
      var outer, p := stack[..|stack| - 1], stack[|stack| - 1];
      assert stack == outer + [p];
      if p == ObjectKey {
        KeyFinishes(s, outer);
        more := Closable(Run(s, [COLON, ZERO]), outer + [ObjectValue]);
        RunConcat(s, [COLON, ZERO], more);
        more := [COLON, ZERO] + more;
      } else {
        var c := if p == ArrayValue then RBRACK else RBRACE;
        ClosedEnded(outer);
        CloseNext(s, outer, c, if p == ArrayValue then EndArray else EndObject);
        more := Closable(Closed(outer), outer);
        RunFirst(s, c, more);
        more := [c] + more;
      }
    }
  }

  lemma RunAlive(data: bytes)
    requires !Run(Fresh, data).err
    ensures Alive(Run(Fresh, data))
  {
    var fs, fo := RunFollows(data);
    hide WfFrames, WfFocus, Spelled, LexState;
  }

  lemma EndedValid(data: bytes)
    requires Ended(Run(Fresh, data), [])
    ensures Valid(data)
  {
    EofEnded(Run(Fresh, data));
  }

  lemma Hopeful(data: bytes) returns (more: bytes)
    requires !Run(Fresh, data).err
    ensures Valid(data + more)
  {
    hide *;
    FreshWf();
    RunAlive(data);
    var s := Run(Fresh, data);
    AliveWf(s);
    Finishes(s);
    more := Closable(Run(s, Finish(s.step)), s.stack);
    RunConcat(s, Finish(s.step), more);
    RunConcat(Fresh, data, Finish(s.step) + more);
    more := Finish(s.step) + more;
    EndedValid(data + more);
  }

  /** The scanner reports an error as soon as no continuation is a JSON text, and not before. */
  lemma ErrorIffHopeless(data: bytes)
    ensures Run(Fresh, data).err <==> forall more :: !Valid(data + more)
  {
    hide Run, AtEof;
    if Run(Fresh, data).err {
      forall more ensures !Valid(data + more) {
        RunConcat(Fresh, data, more);
        AliveWf(Run(Fresh, data));
        ErrorIsFinal(Run(Fresh, data), more);
        AliveWf(Run(Fresh, data + more));
      }
    } else {
      var more := Hopeful(data);
    }
  }

  // ---- Reading from a stream ----

  lemma {:induction false} BrokenStays(s: Scan, rest: bytes, more: bytes, eof: bool)
    requires Wf(s) && Walk(s, rest, eof) == Broken
    ensures Walk(s, rest + more, true) == Broken
    decreases |rest|
  {
    hide Next, Probes, AtEof;
    assert (rest + more)[0] == rest[0] && (rest + more)[1..] == rest[1..] + more;
    if Next(s, rest[0]).1 != Error {
      BrokenStays(Next(s, rest[0]).0, rest[1..], more, eof);
    }
  }

  lemma {:induction false} CutRuns(s: Scan, rest: bytes, eof: bool)
    requires Running(s) && Walk(s, rest, eof) == Cut
    ensures Running(Run(s, rest))
    decreases |rest|
  {
    hide Next, Probes, AtEof;
    if rest == [] {
      RunNone(s, []);
    } else {
      StepRuns(s, rest[0]);
      CutRuns(Next(s, rest[0]).0, rest[1..], eof);
      assert rest == [rest[0]] + rest[1..];
      RunFirst(s, rest[0], rest[1..]);
    }
    hide Run;
  }

  /** A JSON text begins with a value. */
  lemma TextFound(data: bytes) returns (n: nat, lead: bytes, v: Val)
    requires Valid(data)
    ensures IsFirst(data, n, lead, v, true)
  {
    ValidIffText(data);
    hide Valid, Text, WfVal, LexState;
    var trail;
    lead, v, trail :| IsText(data, lead, v, trail);
    n := |lead + Text(v)|;
    assert data[..n] == lead + Text(v);
    if v.Lit? && trail != [] {
      assert data[n] == trail[0];
      LitState(v);
      SpaceEnds(v.text, trail[0]);
    }
  }

  /** `u` begins with a value, after white space, that ends at `n`. */
  ghost predicate Begins(u: bytes, n: nat, eof: bool) {
    exists lead, v :: IsFirst(u, n, lead, v, eof)
  }

  /** Some continuation of `u` begins with a value. */
  ghost predicate CanBegin(u: bytes) {
    exists more, n: nat :: Begins(u + more, n, true)
  }

  lemma BrokenIff(u: bytes, eof: bool)
    ensures FirstValue(u, eof) == Broken <==> !CanBegin(u)
  {
    hide *;
    if FirstValue(u, eof) == Broken {
      Hopeless(u, eof);
    } else {
      Promising(u, eof);
    }
  }

  lemma Hopeless(u: bytes, eof: bool)
    requires FirstValue(u, eof) == Broken
    ensures !CanBegin(u)
  {
    forall more, n: nat ensures !Begins(u + more, n, true) {
      BrokenStays(Fresh, u, more, eof);
      hide *;
      BeginsIff(u + more, n, true);
      FirstIs(u + more);
    }
  }

  lemma FirstIs(u: bytes)
    ensures Wf(Fresh) && FirstValue(u, true) == Walk(Fresh, u, true)
  {
  }

  lemma Promising(u: bytes, eof: bool)
    requires FirstValue(u, eof) != Broken
    ensures CanBegin(u)
  {
    if FirstValue(u, eof).Found? {
      var lead, v := FoundIsFirst(u, eof);
      hide Walk, Text, WfVal, LexState;
      assert u + [] == u;
      assert IsFirst(u + [], FirstValue(u, eof).n, lead, v, true);
      assert Begins(u + [], FirstValue(u, eof).n, true);
    } else {
      CutRuns(Fresh, u, eof);
      hide Walk, IsFirst, Run;
      var more := Hopeful(u);
      var n, lead, v := TextFound(u + more);
      assert Begins(u + more, n, true);
    }
  }

  lemma {:induction false} BlankIff(u: bytes)
    ensures SkipSpaces(u) == [] <==> AllSpace(u)
  {
    if u != [] && IsSpace(u[0]) {
      BlankIff(u[1..]);
      assert u == [u[0]] + u[1..];
    }
  }

  /** What reading a value from the unread bytes `u` comes to: the length of the first value if `u` begins with one, a
      syntax error exactly if nothing that begins with `u` does, and otherwise what the end of the stream says: the
      reader's failure, the end if there was only white space, or an unexpected end. */
  lemma ReadOutcome(u: bytes, last: ReadError)
    ensures forall n: nat :: ReadResult(u, last) == Got(n) <==> Begins(u, n, last == EOF)
    ensures ReadResult(u, last) == Err(Syntax) <==> !CanBegin(u)
    ensures ReadResult(u, last) == Err(ReaderFailed) ==> last == Failure
    ensures ReadResult(u, last) == Err(Eof) <==> last == EOF && AllSpace(u)
    ensures ReadResult(u, last) == Err(UnexpectedEof) ==> last == EOF
  {
    var eof := last == EOF;
    hide *;
    BrokenIff(u, eof);
    BlankIff(u);
    BlankCut(u, eof);
    ReadCases(u, last);
    forall n: nat ensures ReadResult(u, last) == Got(n) <==> Begins(u, n, eof) {
      BeginsIff(u, n, eof);
    }
  }

  lemma ReadCases(u: bytes, last: ReadError)
    ensures forall n: nat :: ReadResult(u, last) == Got(n) <==> FirstValue(u, last == EOF) == Found(n)
    ensures ReadResult(u, last) == Err(Syntax) <==> FirstValue(u, last == EOF) == Broken
    ensures FirstValue(u, last == EOF) == Cut ==>
      ReadResult(u, last) == Err(if last == Failure then ReaderFailed else if SkipSpaces(u) == [] then Eof else UnexpectedEof)
  {
    hide FirstValue, SkipSpaces;
  }

  lemma BeginsIff(u: bytes, n: nat, eof: bool)
    ensures FirstValue(u, eof) == Found(n) <==> Begins(u, n, eof)
  {
    hide FirstValue, IsFirst;
    FirstIff(u, n, eof);
  }

  /** Where only white space is left, Token returns the reader's error and leaves the stream as it is. */
  lemma BlankToken(s: Stream)
    requires Balanced(s.state, s.stack) && AllSpace(s.unread)
    ensures TokenAt(s) == (Err(if s.last == EOF then Eof else ReaderFailed), s)
  {
    BlankIff(s.unread);
  }

  /** No closing bracket is let pass after a separator. */
  lemma {:induction false} NoClosing(s: Stream)
    requires Balanced(s.state, s.stack) && TokenAt(s).0.Got?
    requires var w := SkipSpaces(s.unread); w == [] || !IsClosing(w[0])
    ensures TokenAt(s).0.value != Delim(RBRACK) && TokenAt(s).0.value != Delim(RBRACE)
    decreases |s.unread|
  {
    var w := SkipSpaces(s.unread);
    hide ReadAt;
    if w != [] && (w[0] == COLON || w[0] == COMMA) {
      NoClosing(s.(unread := w[1..], state := AfterSeparator(s.state)));
    }
  }

  /** Where Token returns a token, what More says is whether the token will be something other than a closing bracket:
      another element or member, or an opening bracket. */
  lemma MoreMeans(s: Stream)
    requires Balanced(s.state, s.stack) && TokenAt(s).0.Got?
    ensures SkipSpaces(s.unread) != [] && SkipSpaces(s.unread)[0] != RBRACK && SkipSpaces(s.unread)[0] != RBRACE
       <==> TokenAt(s).0.value != Delim(RBRACK) && TokenAt(s).0.value != Delim(RBRACE)
  {
    var w := SkipSpaces(s.unread);
    hide *;
    ClosingIs(w);
    TokenFound(s, w);
    if !IsClosing(w[0]) { NoClosing(s); }
  }

  lemma ClosingIs(w: bytes)
    ensures w != [] ==> (IsClosing(w[0]) <==> w[0] == RBRACK || w[0] == RBRACE)
  {
  }

  lemma {:induction false} SkipTwice(u: bytes)
    ensures SkipSpaces(SkipSpaces(u)) == SkipSpaces(u)
  {
    if u != [] && IsSpace(u[0]) { SkipTwice(u[1..]); }
  }

  /** A Decode that has failed fails in the same way when it is called again. */
  lemma DecodeFailsAgain(s: Stream)
    requires DecodeAt(s).0.Err?
    ensures DecodeAt(DecodeAt(s).1) == DecodeAt(s)
  {
    SkipTwice(s.unread);
    hide SkipSpaces, ReadResult, ValueOf;
  }

  /** So does Token. */
  lemma {:induction false} TokenFailsAgain(s: Stream)
    requires Balanced(s.state, s.stack) && TokenAt(s).0.Err?
    ensures TokenAt(TokenAt(s).1) == TokenAt(s)
    decreases |s.unread|
  {
    SkipTwice(s.unread);
    var w := SkipSpaces(s.unread);
    if w != [] && (w[0] == COLON || w[0] == COMMA) && Separator(s.state) == Some(w[0]) {
      TokenFailsAgain(s.(unread := w[1..], state := AfterSeparator(s.state)));
    }
    hide SkipSpaces, ReadResult, ValueOf;
  }

  lemma BlankCut(u: bytes, eof: bool)
    ensures AllSpace(u) ==> FirstValue(u, eof) == Cut
  {
    if AllSpace(u) {
      SpacesPlay(Fresh, u);
      PlayRuns(Fresh, All(u, SkipSpace));
      UnmarkAll(u, SkipSpace);
      assert Run(Fresh, u) == Fresh;
      WalkPast(Fresh, u, [], eof);
      assert u + [] == u;
    }
  }

  // ---- Syntax errors of Token and Decode ----

  /** The same stream if `more` came next, and then its end. */
  function Extended(s: Stream, more: bytes): Stream {
    s.(unread := s.unread + more, last := EOF)
  }

  lemma {:induction false} SkipMore(u: bytes, more: bytes)
    requires SkipSpaces(u) != []
    ensures SkipSpaces(u + more) == SkipSpaces(u) + more
  {
    if IsSpace(u[0]) {
      SkipMore(u[1..], more);
      assert (u + more)[1..] == u[1..] + more;
    }
  }

  lemma BrokenRead(s: Stream, more: bytes)
    requires s.err == None && ReadAt(s).0 == Err(Syntax) && ReadResult(s.unread, s.last) == Err(Syntax)
    ensures ReadAt(Extended(s, more)).0 == Err(Syntax)
  {
    BrokenStays(Fresh, s.unread, more, s.last == EOF);
    hide Walk, ValueOf;
  }

  lemma ReadSyntax(s: Stream)
    requires s.err == None
    ensures ReadAt(s).0 == Err(Syntax) <==> ReadResult(s.unread, s.last) == Err(Syntax)
    ensures ReadAt(s).0.Got? <==> ReadResult(s.unread, s.last).Got?
  {
    if FirstValue(s.unread, s.last == EOF).Found? { FoundValid(s.unread, s.last == EOF); }
    hide Walk, ValueOf, SkipSpaces;
  }

  /** A reading that is no syntax error succeeds with some continuation. */
  lemma ReadPromising(s: Stream) returns (more: bytes)
    requires s.err == None && ReadAt(s).0 != Err(Syntax)
    ensures ReadAt(Extended(s, more)).0.Got?
  {
    hide *;
    ReadSyntax(s);
    ReadCases(s.unread, s.last);
    BrokenIff(s.unread, s.last == EOF);
    more := SomeBegins(s.unread);
    ExtendedIs(s, more);
    ReadSyntax(Extended(s, more));
  }

  lemma ExtendedIs(s: Stream, more: bytes)
    ensures Extended(s, more) == s.(unread := s.unread + more, last := EOF)
  {
  }

  lemma SomeBegins(u: bytes) returns (more: bytes)
    requires CanBegin(u)
    ensures ReadResult(u + more, EOF).Got?
  {
    hide Begins, ReadResult;
    var m, n: nat :| Begins(u + m, n, true);
    more := m;
    BeginsIff(u + m, n, true);
    ReadCases(u + m, EOF);
    assert ReadResult(u + m, EOF) == Got(n);
  }

  lemma {:induction false} SyntaxStays(s: Stream, more: bytes)
    requires Balanced(s.state, s.stack) && s.err == None && TokenAt(s).0 == Err(Syntax)
    ensures TokenAt(Extended(s, more)).0 == Err(Syntax)
    decreases |s.unread|
  {
    var w := SkipSpaces(s.unread);
    hide ReadAt;
    SkipMore(s.unread, more);
    assert (w + more)[0] == w[0] && (w + more)[1..] == w[1..] + more;
    if IsOpening(w[0]) || IsClosing(w[0]) {
    } else if w[0] == COLON || w[0] == COMMA {
      if Separator(s.state) == Some(w[0]) {
        SyntaxStays(s.(unread := w[1..], state := AfterSeparator(s.state)), more);
      }
    } else if ReadAt(s.(unread := w)).0 == Err(Syntax) {
      ReadSyntax(s.(unread := w));
      BrokenRead(s.(unread := w), more);
    }
  }

  /** Bytes that make the next token, when nothing but white space is left. */
  function NextToken(q: TokenState): bytes {
    match q
    case AtArrayComma => [RBRACK]
    case AtObjectStart | AtObjectComma => [RBRACE]
    case AtObjectColon => [COLON, LBRACK]
    case AtObjectKey => [QUOTE, QUOTE]
    case _ => [LBRACK]
  }

  lemma BracketComes(s: Stream, ws: bytes, c: byte)
    requires Balanced(s.state, s.stack) && AllSpace(ws) && s.unread == ws + [c]
    requires (IsOpening(c) && ValueAllowed(s.state)) || (IsClosing(c) && MayClose(s.state, c))
    ensures TokenAt(s).0.Got?
  {
    SpacesSkipped(ws, [c]);
    hide SkipSpaces, ReadAt;
  }

  lemma ColonComes(s: Stream, ws: bytes)
    requires Balanced(s.state, s.stack) && AllSpace(ws) && s.unread == ws + [COLON, LBRACK] && s.state == AtObjectColon
    ensures TokenAt(s).0.Got?
  {
    hide TokenAt;
    assert [COLON, LBRACK] == [COLON] + [LBRACK];
    SeparatorPassed(s, ws, COLON, [LBRACK]);
    BracketComes(s.(unread := [LBRACK], state := AtObjectValue), [], LBRACK);
  }

  lemma KeyComes(s: Stream, ws: bytes)
    requires Balanced(s.state, s.stack) && AllSpace(ws) && s.unread == ws + [QUOTE, QUOTE] && s.state == AtObjectKey
    requires s.err == None && s.last == EOF
    ensures TokenAt(s).0.Got?
  {
    var w := [QUOTE, QUOTE];
    SpacesSkipped(ws, w);
    EmptyString();
    hide ReadAt, SkipSpaces, IsString;
    assert w == w + [];
    LiteralRead(s.(unread := w), Lit(w), []);
  }

  lemma EmptyString()
    ensures IsString([QUOTE, QUOTE])
  {
    assert [QUOTE, QUOTE][1..1] == [];
  }

  lemma NextTokenIs(q: TokenState, w: bytes)
    requires w == NextToken(q)
    ensures q == AtObjectKey ==> w == [QUOTE, QUOTE]
    ensures q == AtObjectColon ==> w == [COLON, LBRACK]
    ensures q != AtObjectKey && q != AtObjectColon ==>
      |w| == 1 && ((IsOpening(w[0]) && ValueAllowed(q)) || (IsClosing(w[0]) && MayClose(q, w[0])))
  {
  }

  lemma NextTokenComes(s: Stream)
    requires Balanced(s.state, s.stack) && s.err == None && AllSpace(s.unread)
    ensures TokenAt(Extended(s, NextToken(s.state))).0.Got?
  {
    hide *;
    var w := NextToken(s.state);
    var t := Extended(s, w);
    ExtendedIs(s, w);
    NextTokenIs(s.state, w);
    if s.state == AtObjectKey {
      KeyComes(t, s.unread);
    } else if s.state == AtObjectColon {
      ColonComes(t, s.unread);
    } else {
      assert w == [w[0]];
      BracketComes(t, s.unread, w[0]);
    }
  }

  lemma {:induction false} TokenPromising(s: Stream) returns (more: bytes)
    requires Balanced(s.state, s.stack) && s.err == None && TokenAt(s).0 != Err(Syntax)
    ensures TokenAt(Extended(s, more)).0.Got?
    decreases |s.unread|
  {
    var w := SkipSpaces(s.unread);
    if w == [] {
      hide *;
      BlankIff(s.unread);
      more := NextToken(s.state);
      NextTokenComes(s);
    } else {
      var c, s1 := w[0], s.(unread := w);
      if c == COLON || c == COMMA {
        PassesOn(s, w);
        hide *;
        more := TokenPromising(s.(unread := w[1..], state := AfterSeparator(s.state)));
        PassedOn(s, w, more);
      } else if IsOpening(c) || IsClosing(c) {
        more := [];
        hide ReadAt;
        assert s.unread + [] == s.unread;
      } else {
        ReadsOn(s, w);
        hide *;
        more := ReadPromising(s1);
        ReadOn(s, w, more);
      }
    }
  }

  lemma PassesOn(s: Stream, w: bytes)
    requires Balanced(s.state, s.stack) && TokenAt(s).0 != Err(Syntax) && w == SkipSpaces(s.unread)
    requires w != [] && (w[0] == COLON || w[0] == COMMA)
    ensures Separator(s.state) == Some(w[0]) && Balanced(AfterSeparator(s.state), s.stack)
    ensures TokenAt(s) == TokenAt(s.(unread := w[1..], state := AfterSeparator(s.state)))
    ensures |w| <= |s.unread|
  {
    hide *;
    var ws := SkipSplit(s.unread);
    SeparatorDue(s, w);
    assert w == [w[0]] + w[1..];
    SeparatorPassed(s, ws, w[0], w[1..]);
  }

  lemma SeparatorDue(s: Stream, w: bytes)
    requires Balanced(s.state, s.stack) && TokenAt(s).0 != Err(Syntax) && w == SkipSpaces(s.unread)
    requires w != [] && (w[0] == COLON || w[0] == COMMA)
    ensures Separator(s.state) == Some(w[0])
  {
    hide ReadAt, SkipSpaces, MayClose, ValueAllowed, Separator, AfterSeparator, Balanced;
  }

  lemma PassedOn(s: Stream, w: bytes, more: bytes)
    requires Balanced(s.state, s.stack) && w == SkipSpaces(s.unread)
    requires w != [] && (w[0] == COLON || w[0] == COMMA) && Separator(s.state) == Some(w[0])
    ensures Balanced(AfterSeparator(s.state), s.stack)
    ensures TokenAt(Extended(s, more)) == TokenAt(Extended(s.(unread := w[1..], state := AfterSeparator(s.state)), more))
  {
    SkipMore(s.unread, more);
    assert (w + more)[1..] == w[1..] + more;
    hide ReadAt;
  }

  lemma ReadsOn(s: Stream, w: bytes)
    requires Balanced(s.state, s.stack) && TokenAt(s).0 != Err(Syntax) && w == SkipSpaces(s.unread)
    requires w != [] && !IsOpening(w[0]) && !IsClosing(w[0]) && w[0] != COLON && w[0] != COMMA
    ensures ReadAt(s.(unread := w)).0 != Err(Syntax) && (KeyNext(s.state, w[0]) || ValueAllowed(s.state))
  {
    hide ReadAt;
  }

  lemma ReadOn(s: Stream, w: bytes, more: bytes)
    requires Balanced(s.state, s.stack) && w == SkipSpaces(s.unread)
    requires w != [] && !IsOpening(w[0]) && !IsClosing(w[0]) && w[0] != COLON && w[0] != COMMA
    requires ReadAt(Extended(s.(unread := w), more)).0.Got? && (KeyNext(s.state, w[0]) || ValueAllowed(s.state))
    ensures TokenAt(Extended(s, more)).0.Got?
  {
    SkipMore(s.unread, more);
    assert (w + more)[0] == w[0];
    hide ReadAt;
  }

  /** Token reports a syntax error exactly if, whatever bytes came next, it would return no token. */
  lemma TokenSyntaxIff(s: Stream)
    requires Balanced(s.state, s.stack) && s.err == None
    ensures TokenAt(s).0 == Err(Syntax) <==> forall more :: TokenAt(Extended(s, more)).0.Err?
  {
    hide TokenAt;
    if TokenAt(s).0 == Err(Syntax) {
      forall more ensures TokenAt(Extended(s, more)).0.Err? {
        SyntaxStays(s, more);
      }
    } else {
      var more := TokenPromising(s);
    }
  }

  /** Decode passes over a comma in an array and a colon. */
  predicate PassesSeparator(q: TokenState) {
    q == AtArrayComma || q == AtObjectColon
  }

  lemma DecodeDue(s: Stream, w: bytes)
    requires s.err == None && w == SkipSpaces(s.unread) && PassesSeparator(s.state) && w != []
    ensures Separator(s.state) != Some(w[0]) ==> DecodeAt(s).0 == Err(Syntax)
    ensures Separator(s.state) == Some(w[0]) ==>
      DecodeAt(s) == ReadAt(s.(unread := w[1..], state := AfterSeparator(s.state)))
  {
    hide ReadAt, SkipSpaces;
  }

  lemma DecodePlain(s: Stream)
    requires s.err == None && !PassesSeparator(s.state)
    ensures DecodeAt(s) == if ValueAllowed(s.state) then ReadAt(s) else (Err(Syntax), s)
  {
    hide ReadAt, SkipSpaces;
  }

  lemma DecodeBlank(s: Stream) returns (more: bytes)
    requires s.err == None && PassesSeparator(s.state) && AllSpace(s.unread)
    ensures DecodeAt(s).0 == Err(PeekError(s.last)) && PeekError(s.last) != Syntax
    ensures DecodeAt(Extended(s, more)).0.Got?
  {
    BlankIff(s.unread);
    var c := if s.state == AtArrayComma then COMMA else COLON;
    var value := [QUOTE, QUOTE];
    more := [c] + value;
    SpacesSkipped(s.unread, more);
    EmptyString();
    DecodeDue(Extended(s, more), more);
    hide ReadAt, SkipSpaces, IsString;
    assert more[1..] == value == value + [];
    LiteralRead(Extended(s, more).(unread := value, state := AfterSeparator(s.state)), Lit(value), []);
  }

  lemma DecodeSyntaxStays(s: Stream, more: bytes)
    requires s.err == None && DecodeAt(s).0 == Err(Syntax)
    ensures DecodeAt(Extended(s, more)).0 == Err(Syntax)
  {
    var w := SkipSpaces(s.unread);
    hide ReadAt, SkipSpaces;
    if PassesSeparator(s.state) {
      SkipMore(s.unread, more);
      assert (w + more)[0] == w[0] && (w + more)[1..] == w[1..] + more;
      if Separator(s.state) == Some(w[0]) {
        var t := s.(unread := w[1..], state := AfterSeparator(s.state));
        ReadSyntax(t);
        BrokenRead(t, more);
      }
    } else if ValueAllowed(s.state) {
      ReadSyntax(s);
      BrokenRead(s, more);
    }
  }

  lemma DecodePromising(s: Stream) returns (more: bytes)
    requires s.err == None && DecodeAt(s).0 != Err(Syntax)
    ensures DecodeAt(Extended(s, more)).0.Got?
  {
    hide *;
    var w := SkipSpaces(s.unread);
    BlankIff(s.unread);
    if !PassesSeparator(s.state) {
      DecodePlain(s);
      more := ReadPromising(s);
      ExtendedIs(s, more);
      DecodePlain(Extended(s, more));
    } else if w == [] {
      more := DecodeBlank(s);
    } else {
      DecodeDue(s, w);
      var t := s.(unread := w[1..], state := AfterSeparator(s.state));
      more := ReadPromising(t);
      SkipMore(s.unread, more);
      ExtendedIs(s, more);
      ExtendedIs(t, more);
      assert (w + more)[0] == w[0] && (w + more)[1..] == w[1..] + more;
      DecodeDue(Extended(s, more), w + more);
    }
  }

  /** Decode reports a syntax error exactly if, whatever bytes came next, it would return no value. */
  lemma DecodeSyntaxIff(s: Stream)
    requires s.err == None
    ensures DecodeAt(s).0 == Err(Syntax) <==> forall more :: DecodeAt(Extended(s, more)).0.Err?
  {
    hide DecodeAt;
    if DecodeAt(s).0 == Err(Syntax) {
      forall more ensures DecodeAt(Extended(s, more)).0.Err? {
        DecodeSyntaxStays(s, more);
      }
    } else {
      var more := DecodePromising(s);
    }
  }
}
