/**
 JSON texts as RFC 7159 defines them, kept as concrete syntax trees with their white space, and what
 the scanner says about each byte of a text.
 */
module JsonGrammar {
  import opened Options
  import opened Bytes
  import opened JsonScanner
  import opened JsonLexemes

  /** A value as it is written.  `gap` is the white space inside an empty array or object. */
  datatype Val =
    | Lit(text: bytes)
    | Arr(gap: bytes, elems: seq<Elem>)
    | Obj(gap: bytes, members: seq<Member>)

  datatype Elem = Elem(before: bytes, val: Val, after: bytes)

  datatype Member = Member(before: bytes, key: bytes, mid: bytes, gap: bytes, val: Val, after: bytes)

  // ---- The grammar ----

  /** value = false / null / true / object / array / number / string (sections 3 to 7) */
  function Text(v: Val): bytes {
    match v
    case Lit(text) => text
    case Arr(gap, elems) => [LBRACK] + (if elems == [] then gap else ElemsText(elems)) + [RBRACK]
    case Obj(gap, members) => [LBRACE] + (if members == [] then gap else MembersText(members)) + [RBRACE]
  }

  /** value *( value-separator value ) */
  function ElemsText(es: seq<Elem>): bytes
    requires es != []
  {
    (if |es| == 1 then [] else ElemsText(es[..|es| - 1]) + [COMMA]) + ElemText(es[|es| - 1])
  }

  function ElemText(e: Elem): bytes {
    e.before + Text(e.val) + e.after
  }

  /** member *( value-separator member ) */
  function MembersText(ms: seq<Member>): bytes
    requires ms != []
  {
    (if |ms| == 1 then [] else MembersText(ms[..|ms| - 1]) + [COMMA]) + MemberText(ms[|ms| - 1])
  }

  /** member = string name-separator value */
  function MemberText(m: Member): bytes {
    m.before + m.key + m.mid + [COLON] + m.gap + Text(m.val) + m.after
  }

  lemma BareElem(v: Val)
    ensures ElemText(Elem([], v, [])) == Text(v)
  {
  }

  lemma BareMember(key: bytes, v: Val)
    ensures MemberText(Member([], key, [], [], v, [])) == key + [COLON] + Text(v)
  {
  }

  ghost predicate WfVal(v: Val) {
    match v
    case Lit(text) => IsScalar(text)
    case Arr(gap, elems) =>
      AllSpace(gap) && (elems != [] ==> gap == []) && forall i :: 0 <= i < |elems| ==> WfElem(elems[i])
    case Obj(gap, members) =>
      AllSpace(gap) && (members != [] ==> gap == []) && forall i :: 0 <= i < |members| ==> WfMember(members[i])
  }

  ghost predicate WfElem(e: Elem) {
    AllSpace(e.before) && WfVal(e.val) && AllSpace(e.after)
  }

  ghost predicate WfMember(m: Member) {
    AllSpace(m.before) && IsString(m.key) && AllSpace(m.mid) && AllSpace(m.gap) && WfVal(m.val) && AllSpace(m.after)
  }

  /** JSON-text = ws value ws (section 2) */
  ghost predicate IsText(data: bytes, lead: bytes, v: Val, trail: bytes) {
    AllSpace(lead) && WfVal(v) && AllSpace(trail) && data == lead + Text(v) + trail
  }

  // ---- Bytes with their scan codes ----

  datatype Mark = Mark(c: byte, code: Code)

  function Unmark(m: seq<Mark>): (s: bytes)
    ensures |s| == |m| && forall i :: 0 <= i < |m| ==> s[i] == m[i].c
  {
    seq(|m|, i requires 0 <= i < |m| => m[i].c)
  }

  function All(s: bytes, code: Code): (m: seq<Mark>)
    ensures |m| == |s| && forall i :: 0 <= i < |s| ==> m[i] == Mark(s[i], code)
  {
    seq(|s|, i requires 0 <= i < |s| => Mark(s[i], code))
  }

  function LexemeMarks(text: bytes): seq<Mark> {
    if text == [] then [] else [Mark(text[0], BeginLiteral)] + All(text[1..], Continue)
  }

  function Marks(v: Val): seq<Mark> {
    match v
    case Lit(text) => LexemeMarks(text)
    case Arr(gap, elems) =>
      [Mark(LBRACK, BeginArray)] + (if elems == [] then All(gap, SkipSpace) else ElemsMarks(elems)) + [Mark(RBRACK, EndArray)]
    case Obj(gap, members) =>
      [Mark(LBRACE, BeginObject)] + (if members == [] then All(gap, SkipSpace) else MembersMarks(members)) + [Mark(RBRACE, EndObject)]
  }

  function ElemsMarks(es: seq<Elem>): seq<Mark>
    requires es != []
  {
    (if |es| == 1 then [] else ElemsMarks(es[..|es| - 1]) + [Mark(COMMA, GotElement)]) + ElemMarks(es[|es| - 1])
  }

  function ElemMarks(e: Elem): seq<Mark> {
    All(e.before, SkipSpace) + Marks(e.val) + All(e.after, SkipSpace)
  }

  function MembersMarks(ms: seq<Member>): seq<Mark>
    requires ms != []
  {
    (if |ms| == 1 then [] else MembersMarks(ms[..|ms| - 1]) + [Mark(COMMA, GotValue)]) + MemberMarks(ms[|ms| - 1])
  }

  function KeyMarks(m: Member): seq<Mark> {
    All(m.before, SkipSpace) + LexemeMarks(m.key) + All(m.mid, SkipSpace) + [Mark(COLON, GotKey)]
  }

  function MemberMarks(m: Member): seq<Mark> {
    KeyMarks(m) + (All(m.gap, SkipSpace) + Marks(m.val) + All(m.after, SkipSpace))
  }

  lemma UnmarkConcat(a: seq<Mark>, b: seq<Mark>)
    ensures Unmark(a + b) == Unmark(a) + Unmark(b)
  {
  }

  lemma UnmarkLexeme(text: bytes)
    ensures Unmark(LexemeMarks(text)) == text
  {
  }

  lemma UnmarkAll(s: bytes, code: Code)
    ensures Unmark(All(s, code)) == s
  {
  }

  /** The marked bytes are the text. */
  lemma {:induction false} UnmarkVal(v: Val)
    ensures Unmark(Marks(v)) == Text(v)
  {
    match v
    case Lit(text) => UnmarkLexeme(text);
    case Arr(gap, elems) =>
      var inner := if elems == [] then All(gap, SkipSpace) else ElemsMarks(elems);
      if elems == [] { UnmarkAll(gap, SkipSpace); } else { UnmarkElems(elems); }
      UnmarkBracketed(Mark(LBRACK, BeginArray), inner, Mark(RBRACK, EndArray));
    case Obj(gap, members) =>
      var inner := if members == [] then All(gap, SkipSpace) else MembersMarks(members);
      if members == [] { UnmarkAll(gap, SkipSpace); } else { UnmarkMembers(members); }
      UnmarkBracketed(Mark(LBRACE, BeginObject), inner, Mark(RBRACE, EndObject));
  }

  lemma UnmarkBracketed(open: Mark, inner: seq<Mark>, close: Mark)
    ensures Unmark([open] + inner + [close]) == [open.c] + Unmark(inner) + [close.c]
  {
  }

  lemma {:induction false} UnmarkElems(es: seq<Elem>)
    requires es != []
    ensures Unmark(ElemsMarks(es)) == ElemsText(es)
  {
    var e := es[|es| - 1];
    UnmarkElem(e);
    if |es| > 1 {
      UnmarkElems(es[..|es| - 1]);
      UnmarkConcat(ElemsMarks(es[..|es| - 1]), [Mark(COMMA, GotElement)]);
      UnmarkConcat(ElemsMarks(es[..|es| - 1]) + [Mark(COMMA, GotElement)], ElemMarks(e));
    } else {
      assert ElemsMarks(es) == ElemMarks(e) && ElemsText(es) == ElemText(e);
    }
  }

  lemma {:induction false} UnmarkElem(e: Elem)
    ensures Unmark(ElemMarks(e)) == ElemText(e)
  {
    UnmarkVal(e.val);
    UnmarkAll(e.before, SkipSpace);
    UnmarkAll(e.after, SkipSpace);
    UnmarkConcat(All(e.before, SkipSpace), Marks(e.val));
    UnmarkConcat(All(e.before, SkipSpace) + Marks(e.val), All(e.after, SkipSpace));
  }

  lemma {:induction false} UnmarkMembers(ms: seq<Member>)
    requires ms != []
    ensures Unmark(MembersMarks(ms)) == MembersText(ms)
  {
    var m := ms[|ms| - 1];
    UnmarkMember(m);
    if |ms| > 1 {
      UnmarkMembers(ms[..|ms| - 1]);
      UnmarkConcat(MembersMarks(ms[..|ms| - 1]), [Mark(COMMA, GotValue)]);
      UnmarkConcat(MembersMarks(ms[..|ms| - 1]) + [Mark(COMMA, GotValue)], MemberMarks(m));
    } else {
      assert MembersMarks(ms) == MemberMarks(m) && MembersText(ms) == MemberText(m);
    }
  }

  lemma {:induction false} UnmarkMember(m: Member)
    ensures Unmark(MemberMarks(m)) == MemberText(m)
  {
    UnmarkVal(m.val);
    UnmarkAll(m.gap, SkipSpace);
    UnmarkAll(m.after, SkipSpace);
    UnmarkConcat(All(m.gap, SkipSpace), Marks(m.val));
    UnmarkConcat(All(m.gap, SkipSpace) + Marks(m.val), All(m.after, SkipSpace));
    UnmarkKey(m);
    UnmarkConcat(KeyMarks(m), All(m.gap, SkipSpace) + Marks(m.val) + All(m.after, SkipSpace));
    AssocMember(m.before + m.key + m.mid + [COLON], m.gap, Text(m.val), m.after);
  }

  lemma UnmarkKey(m: Member)
    ensures Unmark(KeyMarks(m)) == m.before + m.key + m.mid + [COLON]
  {
    UnmarkLexeme(m.key);
    UnmarkAll(m.before, SkipSpace);
    UnmarkAll(m.mid, SkipSpace);
    UnmarkConcat(All(m.before, SkipSpace), LexemeMarks(m.key));
    UnmarkConcat(All(m.before, SkipSpace) + LexemeMarks(m.key), All(m.mid, SkipSpace));
    UnmarkConcat(All(m.before, SkipSpace) + LexemeMarks(m.key) + All(m.mid, SkipSpace), [Mark(COLON, GotKey)]);
  }

  lemma AssocMember(a: bytes, b: bytes, c: bytes, d: bytes)
    ensures a + (b + c + d) == a + b + c + d
  {
  }

  // ---- The scanner over marked bytes ----

  /** The state after the marked bytes, and whether the scanner gave each its code. */
  function Play(s: Scan, m: seq<Mark>): (r: (Scan, bool))
    requires Wf(s)
    ensures Wf(r.0)
  {
    if m == [] then (s, true)
    else
      var (s0, ok) := Play(s, m[..|m| - 1]);
      var (s1, code) := Next(s0, m[|m| - 1].c);
      (s1, ok && code == m[|m| - 1].code)
  }

  predicate Plays(s: Scan, m: seq<Mark>, s': Scan) {
    Wf(s) && Play(s, m) == (s', true)
  }

  lemma {:induction false} PlayRuns(s: Scan, m: seq<Mark>)
    requires Wf(s)
    ensures Play(s, m).0 == Run(s, Unmark(m))
  {
    if m != [] {
      PlayRuns(s, m[..|m| - 1]);
      assert Unmark(m)[..|m| - 1] == Unmark(m[..|m| - 1]);
    }
  }

  lemma {:induction false} PlaysConcat(s: Scan, a: seq<Mark>, s1: Scan, b: seq<Mark>, s2: Scan)
    requires Plays(s, a, s1) && Plays(s1, b, s2)
    ensures Plays(s, a + b, s2)
  {
    if b == [] {
      assert a + b == a;
    } else {
      assert (a + b)[..|a + b| - 1] == a + b[..|b| - 1];
      PlaysConcat(s, a, s1, b[..|b| - 1], Play(s1, b[..|b| - 1]).0);
    }
  }

  lemma PlaysOne(s: Scan, c: byte)
    requires Wf(s)
    ensures Plays(s, [Mark(c, Next(s, c).1)], Next(s, c).0)
  {
    var m := [Mark(c, Next(s, c).1)];
    assert m[..0] == [];
  }

  lemma PlaysThen(s: Scan, a: seq<Mark>, s1: Scan, c: byte, code: Code, s2: Scan)
    requires Plays(s, a, s1) && Next(s1, c) == (s2, code)
    ensures Plays(s, a + [Mark(c, code)], s2)
  {
    PlaysOne(s1, c);
    PlaysConcat(s, a, s1, [Mark(c, code)], s2);
  }

  /** White space where the scanner stays put. */
  lemma {:induction false} SpacesPlay(s: Scan, ws: bytes)
    requires Wf(s) && AllSpace(ws)
    requires s.step in {BeginValue, BeginValueOrEmpty, BeginString, BeginStringOrEmpty} || (s.step == EndValue && s.stack != [])
    ensures Plays(s, All(ws, SkipSpace), s)
  {
    var m := All(ws, SkipSpace);
    if ws != [] {
      SpacesPlay(s, ws[..|ws| - 1]);
      assert m[..|m| - 1] == All(ws[..|ws| - 1], SkipSpace);
    }
  }

  predicate AtLexeme(s: Scan, c: byte) {
    || s.step == BeginValue || s.step == BeginValueOrEmpty
    || ((s.step == BeginString || s.step == BeginStringOrEmpty) && c == QUOTE)
  }

  lemma {:induction false} LexemePlays(s: Scan, text: bytes)
    requires Wf(s) && LexState(text).Some? && AtLexeme(s, text[0])
    ensures Plays(s, LexemeMarks(text), s.(step := LexState(text).value))
  {
    hide *;
    LexNonempty(text);
    if |text| == 1 {
      FirstPlays(s, text);
    } else {
      var t0, c := text[..|text| - 1], text[|text| - 1];
      assert text == t0 + [c] && t0[0] == text[0];
      LexInside(t0, c);
      LexemePlays(s, t0);
      LexemeMarksSnoc(t0, c);
      var s0 := s.(step := LexState(t0).value);
      LexicalWf(s, text[0], LexState(t0).value, c);
      NextInside(s0, c);
      PlaysThen(s, LexemeMarks(t0), s0, c, Continue, s.(step := LexState(text).value));
    }
  }

  lemma LexNonempty(text: bytes)
    requires LexState(text).Some?
    ensures text != []
  {
  }

  lemma LexicalWf(s: Scan, first: byte, q: Step, c: byte)
    requires Wf(s) && AtLexeme(s, first) && IsLexical(q) && NextLexeme(q, c).Some?
    ensures Wf(s.(step := q))
  {
  }

  lemma FirstPlays(s: Scan, text: bytes)
    requires Wf(s) && |text| == 1 && LexState(text).Some? && AtLexeme(s, text[0])
    ensures Plays(s, LexemeMarks(text), s.(step := LexState(text).value))
  {
    LexFirst(text);
    assert LexemeMarks(text) == [Mark(text[0], BeginLiteral)];
    PlaysOne(s, text[0]);
    hide Plays;
  }

  lemma LexemeMarksSnoc(t: bytes, c: byte)
    requires t != []
    ensures LexemeMarks(t + [c]) == LexemeMarks(t) + [Mark(c, Continue)]
  {
  }

  predicate IsLexical(q: Step) {
    !(q in {BeginValue, BeginValueOrEmpty, BeginString, BeginStringOrEmpty, EndValue, EndTop, Failed, Redo})
  }

  lemma NextInside(s: Scan, c: byte)
    requires Wf(s) && IsLexical(s.step) && NextLexeme(s.step, c).Some?
    ensures Next(s, c) == (s.(step := NextLexeme(s.step, c).value), Continue)
  {
    hide NextLexeme;
  }

  lemma {:induction false} LexFirst(text: bytes)
    requires LexState(text).Some?
    ensures text != [] && BeginLexeme(text[0]).Some?
    ensures !IsSpace(text[0]) && text[0] != LBRACE && text[0] != LBRACK && text[0] != RBRACK && text[0] != RBRACE
  {
    if |text| > 1 { LexFirst(text[..|text| - 1]); }
  }

  /** A lexeme that goes on is in a lexical state. */
  lemma LexInside(t: bytes, c: byte)
    requires LexState(t + [c]).Some? && t != []
    ensures LexState(t).Some?
    ensures var q := LexState(t).value;
            && NextLexeme(q, c) == LexState(t + [c])
            && IsLexical(q)
  {
    assert (t + [c])[..|t|] == t;
  }

  // ---- Every text is scanned as marked ----

  /** The scanner's state after a value begun under `stack`. */
  function EndOf(v: Val, stack: seq<Parse>): Scan {
    if v.Lit? then Scan(if LexState(v.text).Some? then LexState(v.text).value else Failed, stack, false, false)
    else Closed(stack)
  }

  function Closed(stack: seq<Parse>): Scan {
    if stack == [] then Scan(EndTop, [], true, false) else Scan(EndValue, stack, false, false)
  }

  /** States in which a value begun under `stack` is over, or is if the next byte does not go on with a number. */
  predicate Ended(s: Scan, stack: seq<Parse>) {
    && s.stack == stack && !s.err
    && ((IsFinal(s.step) && !s.endTop) || s == Closed(stack))
  }

  /** The bytes that can go on with a number. */
  predicate GoesOn(c: byte) {
    IsDigit(c) || c == 0x2E || IsE(c)
  }

  lemma EndedNext(s: Scan, stack: seq<Parse>, c: byte)
    requires Ended(s, stack) && !GoesOn(c)
    ensures Wf(s) && Next(s, c) == NextEndValue(Scan(EndValue, stack, false, false), c)
  {
    if EndsNumber(s.step) {
      assert NextLexeme(s.step, c) == None;
    }
  }

  lemma EndedSpace(s: Scan, c: byte)
    requires Ended(s, []) && IsSpace(c)
    ensures Wf(s) && Next(s, c).1 == End
  {
    EndedNext(s, [], c);
  }

  /** White space after a value in an array or object. */
  lemma AfterPlays(s: Scan, stack: seq<Parse>, ws: bytes)
    requires Ended(s, stack) && stack != [] && AllSpace(ws)
    ensures Plays(s, All(ws, SkipSpace), if ws == [] then s else Scan(EndValue, stack, false, false))
  {
    if ws != [] {
      var e := Scan(EndValue, stack, false, false);
      EndedNext(s, stack, ws[0]);
      PlaysOne(s, ws[0]);
      SpacesPlay(e, ws[1..]);
      PlaysConcat(s, [Mark(ws[0], SkipSpace)], e, All(ws[1..], SkipSpace), e);
      assert All(ws, SkipSpace) == [Mark(ws[0], SkipSpace)] + All(ws[1..], SkipSpace);
    }
  }

  predicate AtValue(s: Scan, stack: seq<Parse>) {
    Wf(s) && !s.err && !s.endTop && s.stack == stack && (s.step == BeginValue || s.step == BeginValueOrEmpty)
  }

  lemma {:induction false} ValPlays(s: Scan, stack: seq<Parse>, v: Val)
    requires AtValue(s, stack) && WfVal(v)
    ensures Plays(s, Marks(v), EndOf(v, stack)) && Ended(EndOf(v, stack), stack)
    decreases v, 1
  {
    match v
    case Lit(text) =>
      ScalarIff(text);
      LexemePlays(s, text);
    case Arr(gap, elems) => ArrPlays(s, stack, v);
    case Obj(gap, members) => ObjPlays(s, stack, v);
  }

  lemma {:induction false} ArrPlays(s: Scan, stack: seq<Parse>, v: Val)
    requires AtValue(s, stack) && WfVal(v) && v.Arr?
    ensures Plays(s, Marks(v), EndOf(v, stack)) && Ended(EndOf(v, stack), stack)
    decreases v, 0
  {
    hide *;
    var front, last := ArrBefore(s, stack, v);
    PlaysThen(s, front, last, RBRACK, EndArray, Closed(stack));
    ClosedEnds(v, stack);
  }

  lemma ClosedEnds(v: Val, stack: seq<Parse>)
    requires !v.Lit?
    ensures EndOf(v, stack) == Closed(stack) && Ended(Closed(stack), stack)
  {
  }

  /** Inside an array or object, or just after its opening bracket. */
  predicate StillOpen(s: Scan, stack: seq<Parse>) {
    || Ended(s, stack + [ArrayValue]) || s == Scan(BeginValueOrEmpty, stack + [ArrayValue], false, false)
    || Ended(s, stack + [ObjectValue]) || s == Scan(BeginStringOrEmpty, stack + [ObjectKey], false, false)
  }

  /** An array up to its closing bracket. */
  lemma {:induction false} ArrBefore(s: Scan, stack: seq<Parse>, v: Val) returns (front: seq<Mark>, last: Scan)
    requires AtValue(s, stack) && WfVal(v) && v.Arr?
    ensures Marks(v) == front + [Mark(RBRACK, EndArray)] && Plays(s, front, last)
    ensures Wf(last) && Next(last, RBRACK) == (Closed(stack), EndArray) && StillOpen(last, stack)
    decreases v, 0, 0
  {
    hide *;
    var open := Scan(BeginValueOrEmpty, stack + [ArrayValue], false, false);
    ArrayOpens(s, stack);
    PlaysOne(s, LBRACK);
    ArrayParts(v);
    var inner := if v.elems == [] then All(v.gap, SkipSpace) else ElemsMarks(v.elems);
    last := open;
    if v.elems == [] {
      SpacesPlay(open, v.gap);
    } else {
      last := ElemsPlay(open, stack + [ArrayValue], v.elems);
    }
    front := [Mark(LBRACK, BeginArray)] + inner;
    PlaysConcat(s, [Mark(LBRACK, BeginArray)], open, inner, last);
    CloseNext(last, stack, RBRACK, EndArray);
    IsOpen(last, stack);
  }

  lemma ArrayOpens(s: Scan, stack: seq<Parse>)
    requires AtValue(s, stack)
    ensures Wf(s) && Next(s, LBRACK) == (Scan(BeginValueOrEmpty, stack + [ArrayValue], false, false), BeginArray)
    ensures var open := Scan(BeginValueOrEmpty, stack + [ArrayValue], false, false); Wf(open) && Top(open) == ArrayValue
  {
  }

  lemma ArrayParts(v: Val)
    requires WfVal(v) && v.Arr?
    ensures AllSpace(v.gap) && forall i :: 0 <= i < |v.elems| ==> WfElem(v.elems[i])
    ensures Marks(v) == [Mark(LBRACK, BeginArray)]
      + (if v.elems == [] then All(v.gap, SkipSpace) else ElemsMarks(v.elems)) + [Mark(RBRACK, EndArray)]
  {
    hide ElemsMarks, All, WfElem;
  }

  lemma IsOpen(s: Scan, stack: seq<Parse>)
    requires Ended(s, stack + [ArrayValue]) || s == Scan(BeginValueOrEmpty, stack + [ArrayValue], false, false)
      || Ended(s, stack + [ObjectValue]) || s == Scan(BeginStringOrEmpty, stack + [ObjectKey], false, false)
    ensures StillOpen(s, stack)
  {
  }

  /** The closing bracket. */
  lemma CloseNext(last: Scan, stack: seq<Parse>, c: byte, code: Code)
    requires (c == RBRACK && code == EndArray) || (c == RBRACE && code == EndObject)
    requires var p := if c == RBRACK then ArrayValue else ObjectValue;
             || Ended(last, stack + [p])
             || (last == Scan(BeginValueOrEmpty, stack + [ArrayValue], false, false) && c == RBRACK)
             || (last == Scan(BeginStringOrEmpty, stack + [ObjectKey], false, false) && c == RBRACE)
    ensures Wf(last) && Next(last, c) == (Closed(stack), code)
  {
    var p := if c == RBRACK then ArrayValue else ObjectValue;
    if Ended(last, stack + [p]) {
      EndedNext(last, stack + [p], c);
    }
    assert (stack + [p])[..|stack|] == stack;
    assert (stack + [ObjectKey])[|stack| := ObjectValue] == stack + [ObjectValue];
  }

  lemma {:induction false} ElemsPlay(open: Scan, stack: seq<Parse>, es: seq<Elem>) returns (last: Scan)
    requires open == Scan(BeginValueOrEmpty, stack, false, false) && stack != [] && Top(open) == ArrayValue
    requires es != [] && forall i :: 0 <= i < |es| ==> WfElem(es[i])
    ensures Plays(open, ElemsMarks(es), last) && Ended(last, stack)
    decreases es, 0
  {
    hide *;
    ArrayStates(open, stack);
    var e := es[|es| - 1];
    ElemsMarksSnoc(es);
    if |es| == 1 {
      last := ElemPlays(open, stack, e);
    } else {
      var m0 := ElemsMarks(es[..|es| - 1]);
      var last0 := ElemsPlay(open, stack, es[..|es| - 1]);
      EndedNext(last0, stack, COMMA);
      var next := Scan(BeginValue, stack, false, false);
      PlaysThen(open, m0, last0, COMMA, GotElement, next);
      last := ElemPlays(next, stack, e);
      PlaysConcat(open, m0 + [Mark(COMMA, GotElement)], next, ElemMarks(e), last);
    }
  }

  lemma ArrayStates(open: Scan, stack: seq<Parse>)
    requires open.stack == stack && stack != [] && Top(open) == ArrayValue
    ensures AtValue(Scan(BeginValueOrEmpty, stack, false, false), stack) && AtValue(Scan(BeginValue, stack, false, false), stack)
    ensures NextEndValue(Scan(EndValue, stack, false, false), COMMA) == (Scan(BeginValue, stack, false, false), GotElement)
    ensures !GoesOn(COMMA)
  {
  }

  lemma ElemsMarksSnoc(es: seq<Elem>)
    requires es != []
    ensures ElemsMarks(es)
         == if |es| == 1 then ElemMarks(es[0]) else ElemsMarks(es[..|es| - 1]) + [Mark(COMMA, GotElement)] + ElemMarks(es[|es| - 1])
  {
    hide ElemMarks;
  }

  /** The text ends with the last element, after the comma if there is more than one. */
  lemma ElemsTextSnoc(es: seq<Elem>)
    requires es != []
    ensures var n := |es| - 1;
            ElemsText(es) == if n == 0 then ElemText(es[n]) else ElemsText(es[..n]) + [COMMA] + ElemText(es[n])
  {
    hide ElemText;
  }

  lemma MembersTextSnoc(ms: seq<Member>)
    requires ms != []
    ensures var n := |ms| - 1;
            MembersText(ms) == if n == 0 then MemberText(ms[n]) else MembersText(ms[..n]) + [COMMA] + MemberText(ms[n])
  {
    hide MemberText;
  }

  lemma ElemMarksAre(e: Elem)
    ensures ElemMarks(e) == All(e.before, SkipSpace) + Marks(e.val) + All(e.after, SkipSpace)
  {
    hide Marks;
  }

  lemma MemberMarksAre(m: Member)
    ensures KeyMarks(m) == All(m.before, SkipSpace) + LexemeMarks(m.key) + All(m.mid, SkipSpace) + [Mark(COLON, GotKey)]
    ensures MemberMarks(m) == KeyMarks(m) + (All(m.gap, SkipSpace) + Marks(m.val) + All(m.after, SkipSpace))
  {
    hide Marks;
  }

  lemma {:induction false} ElemPlays(s: Scan, stack: seq<Parse>, e: Elem) returns (last: Scan)
    requires AtValue(s, stack) && stack != [] && WfElem(e)
    ensures Plays(s, ElemMarks(e), last) && Ended(last, stack)
    decreases e, 0
  {
    last := ValuePlays(s, stack, e.before, e.val, e.after);
  }

  /** White space, a value, white space. */
  lemma {:induction false} ValuePlays(s: Scan, stack: seq<Parse>, before: bytes, v: Val, after: bytes) returns (last: Scan)
    requires AtValue(s, stack) && stack != [] && AllSpace(before) && WfVal(v) && AllSpace(after)
    ensures Plays(s, All(before, SkipSpace) + Marks(v) + All(after, SkipSpace), last) && Ended(last, stack)
    decreases v, 2
  {
    var end := EndOf(v, stack);
    last := if after == [] then end else Scan(EndValue, stack, false, false);
    SpacesPlay(s, before);
    ValPlays(s, stack, v);
    AfterPlays(end, stack, after);
    PlaysConcat(s, All(before, SkipSpace), s, Marks(v), end);
    PlaysConcat(s, All(before, SkipSpace) + Marks(v), end, All(after, SkipSpace), last);
  }

  lemma {:induction false} ObjPlays(s: Scan, stack: seq<Parse>, v: Val)
    requires AtValue(s, stack) && WfVal(v) && v.Obj?
    ensures Plays(s, Marks(v), EndOf(v, stack)) && Ended(EndOf(v, stack), stack)
    decreases v, 0
  {
    hide *;
    var front, last := ObjBefore(s, stack, v);
    PlaysThen(s, front, last, RBRACE, EndObject, Closed(stack));
    ClosedEnds(v, stack);
  }

  /** An object up to its closing brace. */
  lemma {:induction false} ObjBefore(s: Scan, stack: seq<Parse>, v: Val) returns (front: seq<Mark>, last: Scan)
    requires AtValue(s, stack) && WfVal(v) && v.Obj?
    ensures Marks(v) == front + [Mark(RBRACE, EndObject)] && Plays(s, front, last)
    ensures Wf(last) && Next(last, RBRACE) == (Closed(stack), EndObject) && StillOpen(last, stack)
    decreases v, 0, 0
  {
    hide *;
    var open := Scan(BeginStringOrEmpty, stack + [ObjectKey], false, false);
    ObjectOpens(s, stack);
    PlaysOne(s, LBRACE);
    ObjectParts(v);
    var inner := if v.members == [] then All(v.gap, SkipSpace) else MembersMarks(v.members);
    last := open;
    if v.members == [] {
      SpacesPlay(open, v.gap);
    } else {
      last := MembersPlay(open, stack, v.members);
    }
    front := [Mark(LBRACE, BeginObject)] + inner;
    PlaysConcat(s, [Mark(LBRACE, BeginObject)], open, inner, last);
    CloseNext(last, stack, RBRACE, EndObject);
    IsOpen(last, stack);
  }

  lemma ObjectOpens(s: Scan, stack: seq<Parse>)
    requires AtValue(s, stack)
    ensures Wf(s) && Next(s, LBRACE) == (Scan(BeginStringOrEmpty, stack + [ObjectKey], false, false), BeginObject)
    ensures Wf(Scan(BeginStringOrEmpty, stack + [ObjectKey], false, false)) && RBRACE != RBRACK
  {
  }

  lemma ObjectParts(v: Val)
    requires WfVal(v) && v.Obj?
    ensures AllSpace(v.gap) && forall i :: 0 <= i < |v.members| ==> WfMember(v.members[i])
    ensures Marks(v) == [Mark(LBRACE, BeginObject)]
      + (if v.members == [] then All(v.gap, SkipSpace) else MembersMarks(v.members)) + [Mark(RBRACE, EndObject)]
  {
    hide MembersMarks, All, WfMember;
  }

  lemma {:induction false} MembersPlay(open: Scan, stack: seq<Parse>, ms: seq<Member>) returns (last: Scan)
    requires open == Scan(BeginStringOrEmpty, stack + [ObjectKey], false, false)
    requires ms != [] && forall i :: 0 <= i < |ms| ==> WfMember(ms[i])
    ensures Plays(open, MembersMarks(ms), last) && Ended(last, stack + [ObjectValue])
    decreases ms, 0
  {
    hide *;
    ObjectStates(stack);
    var m := ms[|ms| - 1];
    MembersMarksSnoc(ms);
    if |ms| == 1 {
      last := MemberPlays(open, stack, m);
    } else {
      var m0 := MembersMarks(ms[..|ms| - 1]);
      var last0 := MembersPlay(open, stack, ms[..|ms| - 1]);
      EndedNext(last0, stack + [ObjectValue], COMMA);
      var next := Scan(BeginString, stack + [ObjectKey], false, false);
      PlaysThen(open, m0, last0, COMMA, GotValue, next);
      last := MemberPlays(next, stack, m);
      PlaysConcat(open, m0 + [Mark(COMMA, GotValue)], next, MemberMarks(m), last);
    }
  }

  lemma ObjectStates(stack: seq<Parse>)
    ensures AtKey(Scan(BeginStringOrEmpty, stack + [ObjectKey], false, false), stack)
    ensures AtKey(Scan(BeginString, stack + [ObjectKey], false, false), stack)
    ensures NextEndValue(Scan(EndValue, stack + [ObjectValue], false, false), COMMA)
         == (Scan(BeginString, stack + [ObjectKey], false, false), GotValue)
    ensures !GoesOn(COMMA)
  {
    assert (stack + [ObjectValue])[|stack| := ObjectKey] == stack + [ObjectKey];
  }

  lemma MembersMarksSnoc(ms: seq<Member>)
    requires ms != []
    ensures MembersMarks(ms)
         == if |ms| == 1 then MemberMarks(ms[0]) else MembersMarks(ms[..|ms| - 1]) + [Mark(COMMA, GotValue)] + MemberMarks(ms[|ms| - 1])
  {
    hide MemberMarks;
  }

  predicate AtKey(s: Scan, stack: seq<Parse>) {
    !s.err && !s.endTop && s.stack == stack + [ObjectKey] && (s.step == BeginString || s.step == BeginStringOrEmpty)
  }

  lemma {:induction false} MemberPlays(s: Scan, stack: seq<Parse>, m: Member) returns (last: Scan)
    requires AtKey(s, stack) && WfMember(m)
    ensures Plays(s, MemberMarks(m), last) && Ended(last, stack + [ObjectValue])
    decreases m, 0
  {
    var atValue := Scan(BeginValue, stack + [ObjectValue], false, false);
    KeyPlays(s, stack, m);
    last := ValuePlays(atValue, stack + [ObjectValue], m.gap, m.val, m.after);
    PlaysConcat(s, KeyMarks(m), atValue, All(m.gap, SkipSpace) + Marks(m.val) + All(m.after, SkipSpace), last);
  }

  lemma KeyPlays(s: Scan, stack: seq<Parse>, m: Member)
    requires AtKey(s, stack) && WfMember(m)
    ensures Plays(s, KeyMarks(m), Scan(BeginValue, stack + [ObjectValue], false, false))
  {
    var stack' := stack + [ObjectKey];
    var afterKey := Scan(EndValue, stack', false, false);
    StringRuns(m.key);
    SpacesPlay(s, m.before);
    LexemePlays(s, m.key);
    SpacesPlay(afterKey, m.mid);
    PlaysConcat(s, All(m.before, SkipSpace), s, LexemeMarks(m.key), afterKey);
    PlaysConcat(s, All(m.before, SkipSpace) + LexemeMarks(m.key), afterKey, All(m.mid, SkipSpace), afterKey);
    assert stack'[|stack| := ObjectValue] == stack + [ObjectValue];
    PlaysThen(s, All(m.before, SkipSpace) + LexemeMarks(m.key) + All(m.mid, SkipSpace), afterKey, COLON, GotKey,
              Scan(BeginValue, stack + [ObjectValue], false, false));
  }
}
