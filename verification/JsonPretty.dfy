/** Indentation keeps the meaning of a text: the tree that Indent's output spells. */
module JsonPretty {
  import opened Bytes
  import opened JsonScanner
  import opened JsonLexemes
  import opened JsonGrammar
  import opened JsonParse
  import opened JsonTrace
  import opened JsonIndent
  import opened JsonMeaning
  import JsonCompact

  // ---- The indented tree ----

  /** `v` laid out for nesting depth `d`: each part on a line of its own, unless there is none. */
  function Pretty(st: Style, v: Val, d: nat): Val {
    match v
    case Lit(_) => v
    case Arr(_, elems) => if elems == [] then Arr([], []) else Arr([], CloseElems(PrettyElems(st, elems, d + 1), NewLine(st, d)))
    case Obj(_, members) =>
      if members == [] then Obj([], []) else Obj([], CloseMembers(PrettyMembers(st, members, d + 1), NewLine(st, d)))
  }

  function PrettyElem(st: Style, e: Elem, d: nat): Elem {
    Elem(NewLine(st, d), Pretty(st, e.val, d), [])
  }

  function PrettyElems(st: Style, es: seq<Elem>, d: nat): (r: seq<Elem>)
    ensures |r| == |es| && forall i :: 0 <= i < |es| ==> r[i] == PrettyElem(st, es[i], d)
  {
    seq(|es|, i requires 0 <= i < |es| => PrettyElem(st, es[i], d))
  }

  function PrettyMember(st: Style, m: Member, d: nat): Member {
    Member(NewLine(st, d), m.key, [], [SPACE], Pretty(st, m.val, d), [])
  }

  function PrettyMembers(st: Style, ms: seq<Member>, d: nat): (r: seq<Member>)
    ensures |r| == |ms| && forall i :: 0 <= i < |ms| ==> r[i] == PrettyMember(st, ms[i], d)
  {
    seq(|ms|, i requires 0 <= i < |ms| => PrettyMember(st, ms[i], d))
  }

  /** The line break before the closing bracket. */
  function CloseElems(es: seq<Elem>, nl: bytes): seq<Elem>
    requires es != []
  {
    es[|es| - 1 := es[|es| - 1].(after := nl)]
  }

  function CloseMembers(ms: seq<Member>, nl: bytes): seq<Member>
    requires ms != []
  {
    ms[|ms| - 1 := ms[|ms| - 1].(after := nl)]
  }

  lemma CloseElemsAre(es: seq<Elem>, nl: bytes)
    requires es != []
    ensures var r, n := CloseElems(es, nl), |es| - 1; |r| == |es| && r[..n] == es[..n] && r[n] == es[n].(after := nl)
  {
  }

  lemma CloseMembersAre(ms: seq<Member>, nl: bytes)
    requires ms != []
    ensures var r, n := CloseMembers(ms, nl), |ms| - 1; |r| == |ms| && r[..n] == ms[..n] && r[n] == ms[n].(after := nl)
  {
  }

  lemma CloseElemsText(es: seq<Elem>, nl: bytes)
    requires es != [] && es[|es| - 1].after == []
    ensures ElemsText(CloseElems(es, nl)) == ElemsText(es) + nl
  {
    hide *;
    var r, n := CloseElems(es, nl), |es| - 1;
    CloseElemsAre(es, nl);
    ElemsTextSnoc(r);
    ElemsTextSnoc(es);
    AfterElemText(es[n], nl);
    if n > 0 { Reassoc(ElemsText(es[..n]) + [COMMA], ElemText(es[n]), nl); }
  }

  lemma Reassoc(a: bytes, b: bytes, c: bytes)
    ensures a + (b + c) == a + b + c
  {
  }

  lemma AfterElemText(e: Elem, nl: bytes)
    requires e.after == []
    ensures ElemText(e.(after := nl)) == ElemText(e) + nl
  {
    hide Text;
  }

  lemma AfterMemberText(m: Member, nl: bytes)
    requires m.after == []
    ensures MemberText(m.(after := nl)) == MemberText(m) + nl
  {
    hide Text;
  }

  lemma CloseMembersText(ms: seq<Member>, nl: bytes)
    requires ms != [] && ms[|ms| - 1].after == []
    ensures MembersText(CloseMembers(ms, nl)) == MembersText(ms) + nl
  {
    hide *;
    var r, n := CloseMembers(ms, nl), |ms| - 1;
    CloseMembersAre(ms, nl);
    MembersTextSnoc(r);
    MembersTextSnoc(ms);
    AfterMemberText(ms[n], nl);
    if n > 0 { Reassoc(MembersText(ms[..n]) + [COMMA], MemberText(ms[n]), nl); }
  }

  // ---- Running over marks ----

  lemma {:induction false} MarksConcat(st: Style, l: Layout, a: seq<Mark>, b: seq<Mark>)
    ensures var (x, l1) := IndentMarks(st, l, a);
            var (y, l2) := IndentMarks(st, l1, b);
            IndentMarks(st, l, a + b) == (x + y, l2)
  {
    hide IndentByte;
    var (x, l1) := IndentMarks(st, l, a);
    if b == [] {
      assert a + b == a && x + [] == x;
    } else {
      var n := |b| - 1;
      assert (a + b)[..|a + b| - 1] == a + b[..n];
      MarksConcat(st, l, a, b[..n]);
      assert (a + b)[|a + b| - 1] == b[n];
      var (y, l2) := IndentMarks(st, l1, b[..n]);
      assert x + (y + IndentByte(st, l2, b[n]).0) == x + y + IndentByte(st, l2, b[n]).0;
    }
  }

  /** IndentMarks goes from `l` over `m` to `l'` and writes `out`. */
  predicate Writes(st: Style, l: Layout, m: seq<Mark>, out: bytes, l': Layout) {
    IndentMarks(st, l, m) == (out, l')
  }

  lemma WritesThen(st: Style, l: Layout, a: seq<Mark>, x: bytes, l1: Layout, b: seq<Mark>, y: bytes, l2: Layout)
    requires Writes(st, l, a, x, l1) && Writes(st, l1, b, y, l2)
    ensures Writes(st, l, a + b, x + y, l2)
  {
    MarksConcat(st, l, a, b);
  }

  lemma WritesOne(st: Style, l: Layout, m: Mark)
    ensures Writes(st, l, [m], IndentByte(st, l, m).0, IndentByte(st, l, m).1)
  {
    hide IndentByte;
    var (out, l') := IndentByte(st, l, m);
    assert [m][..0] == [] && [] + out == out;
    assert IndentMarks(st, l, [m]).0 == out;
  }

  lemma {:induction false} WritesSpaces(st: Style, l: Layout, s: bytes)
    ensures Writes(st, l, All(s, SkipSpace), [], l)
  {
    if s != [] {
      WritesSpaces(st, l, s[..|s| - 1]);
      WritesOne(st, l, Mark(s[|s| - 1], SkipSpace));
      SkipIndents(st, l, s[|s| - 1]);
      hide IndentMarks, IndentByte;
      assert All(s, SkipSpace) == All(s[..|s| - 1], SkipSpace) + [Mark(s[|s| - 1], SkipSpace)];
      var none: bytes := [];
      WritesThen(st, l, All(s[..|s| - 1], SkipSpace), none, l, [Mark(s[|s| - 1], SkipSpace)], none, l);
      assert none + none == none;
    } else {
      assert All(s, SkipSpace) == [];
    }
  }

  lemma WritesNone(st: Style, l: Layout)
    ensures Writes(st, l, [], [], l)
  {
  }

  lemma CopiesByte(st: Style, d: int, c: byte, code: Code)
    requires code == Continue || (code == End && IsSpace(c))
    ensures IndentByte(st, Layout(false, d), Mark(c, code)) == ([c], Layout(false, d))
  {
    assert IndentByte(st, Layout(false, d), Mark(c, code)).0 == [c];
  }

  /** Bytes copied as they are. */
  lemma {:induction false} WritesCopies(st: Style, d: int, s: bytes, code: Code)
    requires code == Continue || (code == End && AllSpace(s))
    ensures Writes(st, Layout(false, d), All(s, code), s, Layout(false, d))
  {
    hide IndentMarks, IndentByte, Writes;
    var l := Layout(false, d);
    if s != [] {
      var n := |s| - 1;
      WritesCopies(st, d, s[..n], code);
      WritesOne(st, l, Mark(s[n], code));
      CopiesByte(st, d, s[n], code);
      assert All(s, code) == All(s[..n], code) + [Mark(s[n], code)];
      WritesThen(st, l, All(s[..n], code), s[..n], l, [Mark(s[n], code)], [s[n]], l);
      assert s == s[..n] + [s[n]];
    } else {
      WritesNone(st, l);
      assert All(s, code) == [];
    }
  }

  /** The line break that is due at a layout, before anything but a closing bracket. */
  function Due(st: Style, l: Layout): bytes {
    if l.needIndent then NewLine(st, l.depth + 1) else []
  }

  function Settled(l: Layout): Layout {
    if l.needIndent then Layout(false, l.depth + 1) else l
  }

  lemma WritesLexeme(st: Style, l: Layout, text: bytes)
    requires LexState(text).Some?
    ensures Writes(st, l, LexemeMarks(text), Due(st, l) + text, Settled(l))
  {
    hide LexState, IndentByte, NewLine, IndentMarks, Writes;
    LexFirst(text);
    LexBegins(text);
    var m := Mark(text[0], BeginLiteral);
    WritesOne(st, l, m);
    IndentsFirst(st, l, text[0]);
    WritesCopies(st, Settled(l).depth, text[1..], Continue);
    WritesThen(st, l, [m], Due(st, l) + [text[0]], Settled(l), All(text[1..], Continue), text[1..], Settled(l));
    assert Due(st, l) + [text[0]] + text[1..] == Due(st, l) + text;
  }

  lemma IndentsFirst(st: Style, l: Layout, c: byte)
    requires c != COMMA && c != COLON && c != LBRACE && c != LBRACK && c != RBRACE && c != RBRACK
    ensures IndentByte(st, l, Mark(c, BeginLiteral)) == (Due(st, l) + [c], Settled(l))
  {
    hide NewLine;
  }

  // ---- Values ----

  lemma {:induction false} WritesVal(st: Style, l: Layout, v: Val)
    requires WfVal(v) && Settled(l).depth >= 0
    ensures Writes(st, l, Marks(v), Due(st, l) + Text(Pretty(st, v, Settled(l).depth)), Settled(l))
    decreases v, 0
  {
    match v
    case Lit(text) =>
      ScalarIff(text);
      hide Writes;
      WritesLexeme(st, l, text);
    case Arr(gap, elems) => WritesArr(st, l, v);
    case Obj(gap, members) => WritesObj(st, l, v);
  }

  /** White space around a value. */
  lemma {:induction false} WritesSlot(st: Style, l: Layout, before: bytes, v: Val, after: bytes)
    requires WfVal(v) && Settled(l).depth >= 0
    ensures Writes(st, l, All(before, SkipSpace) + Marks(v) + All(after, SkipSpace),
                   Due(st, l) + Text(Pretty(st, v, Settled(l).depth)), Settled(l))
    decreases v, 1
  {
    var out := Due(st, l) + Text(Pretty(st, v, Settled(l).depth));
    WritesVal(st, l, v);
    hide *;
    WritesSpaces(st, l, before);
    WritesSpaces(st, Settled(l), after);
    WritesThen(st, l, All(before, SkipSpace), [], l, Marks(v), out, Settled(l));
    WritesThen(st, l, All(before, SkipSpace) + Marks(v), [] + out, Settled(l), All(after, SkipSpace), [], Settled(l));
    assert [] + out + [] == out;
  }

  lemma WritesOpen(st: Style, l: Layout, c: byte, code: Code)
    requires (c == LBRACK && code == BeginArray) || (c == LBRACE && code == BeginObject)
    ensures Writes(st, l, [Mark(c, code)], Due(st, l) + [c], Layout(true, Settled(l).depth))
  {
    hide Writes, NewLine;
    WritesOne(st, l, Mark(c, code));
  }

  lemma WritesClose(st: Style, d: int, empty: bool, c: byte, code: Code)
    requires (c == RBRACK && code == EndArray) || (c == RBRACE && code == EndObject)
    ensures Writes(st, if empty then Layout(true, d) else Layout(false, d + 1), [Mark(c, code)],
                   (if empty then [] else NewLine(st, d)) + [c], Layout(false, d))
  {
    hide Writes, NewLine;
    var l := if empty then Layout(true, d) else Layout(false, d + 1);
    WritesOne(st, l, Mark(c, code));
    assert IndentByte(st, l, Mark(c, code)).0 == (if empty then [] else NewLine(st, d)) + [c];
  }

  lemma WritesComma(st: Style, d: int, code: Code)
    requires code == GotElement || code == GotValue
    ensures Writes(st, Layout(false, d), [Mark(COMMA, code)], [COMMA] + NewLine(st, d), Layout(false, d))
  {
    hide Writes, NewLine;
    WritesOne(st, Layout(false, d), Mark(COMMA, code));
    assert IndentByte(st, Layout(false, d), Mark(COMMA, code)).0 == [COMMA] + NewLine(st, d);
  }

  /** An opening bracket, what is inside, and the closing bracket. */
  lemma WritesBracketed(st: Style, l: Layout, open: Mark, inner: seq<Mark>, out: bytes, empty: bool, close: Mark)
    requires (open == Mark(LBRACK, BeginArray) && close == Mark(RBRACK, EndArray))
          || (open == Mark(LBRACE, BeginObject) && close == Mark(RBRACE, EndObject))
    requires var d := Settled(l).depth;
             Writes(st, Layout(true, d), inner, out, if empty then Layout(true, d) else Layout(false, d + 1))
    ensures Writes(st, l, [open] + inner + [close],
                   Due(st, l) + ([open.c] + (out + if empty then [] else NewLine(st, Settled(l).depth)) + [close.c]), Settled(l))
  {
    SettledIs(l);
    hide *;
    var d := Settled(l).depth;
    var inside := if empty then Layout(true, d) else Layout(false, d + 1);
    var nl := if empty then [] else NewLine(st, d);
    WritesOpen(st, l, open.c, open.code);
    WritesClose(st, d, empty, close.c, close.code);
    WritesThen(st, l, [open], Due(st, l) + [open.c], Layout(true, d), inner, out, inside);
    WritesThen(st, l, [open] + inner, Due(st, l) + [open.c] + out, inside, [close], nl + [close.c], Layout(false, d));
    assert Due(st, l) + [open.c] + out + (nl + [close.c]) == Due(st, l) + ([open.c] + (out + nl) + [close.c]);
  }

  lemma SettledIs(l: Layout)
    ensures Settled(l) == Layout(false, Settled(l).depth)
  {
  }

  lemma {:induction false} WritesArr(st: Style, l: Layout, v: Val)
    requires WfVal(v) && v.Arr? && Settled(l).depth >= 0
    ensures Writes(st, l, Marks(v), Due(st, l) + Text(Pretty(st, v, Settled(l).depth)), Settled(l))
    decreases v, 0, 0
  {
    hide *;
    var d: nat := Settled(l).depth;
    var inner := if v.elems == [] then All(v.gap, SkipSpace) else ElemsMarks(v.elems);
    var out := if v.elems == [] then [] else ElemsText(PrettyElems(st, v.elems, d + 1));
    ArrParts(v);
    if v.elems == [] {
      WritesSpaces(st, Layout(true, d), v.gap);
    } else {
      WritesElems(st, d, v.elems);
    }
    PrettyArrText(st, v, d);
    WritesBracketed(st, l, Mark(LBRACK, BeginArray), inner, out, v.elems == [], Mark(RBRACK, EndArray));
  }

  lemma ArrParts(v: Val)
    requires v.Arr? && WfVal(v)
    ensures forall i :: 0 <= i < |v.elems| ==> WfElem(v.elems[i])
    ensures Marks(v) == [Mark(LBRACK, BeginArray)] + (if v.elems == [] then All(v.gap, SkipSpace) else ElemsMarks(v.elems)) + [Mark(RBRACK, EndArray)]
  {
  }

  lemma PrettyArrText(st: Style, v: Val, d: nat)
    requires v.Arr?
    ensures Text(Pretty(st, v, d)) == [LBRACK] + ((if v.elems == [] then [] else ElemsText(PrettyElems(st, v.elems, d + 1)))
                                              + (if v.elems == [] then [] else NewLine(st, d))) + [RBRACK]
  {
    hide NewLine, ElemsText;
    if v.elems != [] { CloseElemsText(PrettyElems(st, v.elems, d + 1), NewLine(st, d)); }
  }

  lemma {:induction false} WritesElems(st: Style, d: nat, es: seq<Elem>)
    requires es != [] && forall i :: 0 <= i < |es| ==> WfElem(es[i])
    ensures Writes(st, Layout(true, d), ElemsMarks(es), ElemsText(PrettyElems(st, es, d + 1)), Layout(false, d + 1))
    decreases es, 0
  {
    hide *;
    var n := |es| - 1;
    var e := es[n];
    ElemParts(e);
    var l := if n == 0 then Layout(true, d) else Layout(false, d + 1);
    DueIs(st, d);
    WritesSlot(st, l, e.before, e.val, e.after);
    PrettyElemsText(st, es, d + 1);
    ElemsMarksSnoc(es);
    ElemMarksAre(es[|es| - 1]);
    if n > 0 {
      WritesElems(st, d, es[..n]);
      var text := ElemsText(PrettyElems(st, es[..n], d + 1));
      var val := Text(Pretty(st, e.val, d + 1));
      WritesComma(st, d + 1, GotElement);
      WritesThen(st, Layout(true, d), ElemsMarks(es[..n]), text, l, [Mark(COMMA, GotElement)], [COMMA] + NewLine(st, d + 1), l);
      WritesThen(st, Layout(true, d), ElemsMarks(es[..n]) + [Mark(COMMA, GotElement)], text + ([COMMA] + NewLine(st, d + 1)), l,
                 ElemMarks(e), [] + val, l);
      assert text + ([COMMA] + NewLine(st, d + 1)) + ([] + val) == text + [COMMA] + (NewLine(st, d + 1) + val);
    }
  }

  lemma ElemParts(e: Elem)
    requires WfElem(e)
    ensures WfVal(e.val)
  {
  }

  lemma MemberParts(m: Member)
    requires WfMember(m)
    ensures WfVal(m.val) && IsString(m.key)
  {
  }

  lemma DueIs(st: Style, d: nat)
    ensures Due(st, Layout(true, d)) == NewLine(st, d + 1) && Settled(Layout(true, d)) == Layout(false, d + 1)
    ensures Due(st, Layout(false, d + 1)) == [] && Settled(Layout(false, d + 1)) == Layout(false, d + 1)
  {
  }

  lemma PrettyElemsText(st: Style, es: seq<Elem>, d: nat)
    requires es != []
    ensures var n := |es| - 1;
            var part := NewLine(st, d) + Text(Pretty(st, es[n].val, d));
            ElemsText(PrettyElems(st, es, d))
            == if n == 0 then part else ElemsText(PrettyElems(st, es[..n], d)) + [COMMA] + part
  {
    hide *;
    var n := |es| - 1;
    var r := PrettyElems(st, es, d);
    assert r[..n] == PrettyElems(st, es[..n], d);
    ElemsTextSnoc(r);
    PrettyElemText(st, es[n], d);
  }

  lemma PrettyElemText(st: Style, e: Elem, d: nat)
    ensures ElemText(PrettyElem(st, e, d)) == NewLine(st, d) + Text(Pretty(st, e.val, d))
  {
    hide Text, Pretty, NewLine;
  }

  // ---- Objects ----

  lemma {:induction false} WritesObj(st: Style, l: Layout, v: Val)
    requires WfVal(v) && v.Obj? && Settled(l).depth >= 0
    ensures Writes(st, l, Marks(v), Due(st, l) + Text(Pretty(st, v, Settled(l).depth)), Settled(l))
    decreases v, 0, 0
  {
    hide *;
    var d: nat := Settled(l).depth;
    var inner := if v.members == [] then All(v.gap, SkipSpace) else MembersMarks(v.members);
    var out := if v.members == [] then [] else MembersText(PrettyMembers(st, v.members, d + 1));
    ObjParts(v);
    if v.members == [] {
      WritesSpaces(st, Layout(true, d), v.gap);
    } else {
      WritesMembers(st, d, v.members);
    }
    PrettyObjText(st, v, d);
    WritesBracketed(st, l, Mark(LBRACE, BeginObject), inner, out, v.members == [], Mark(RBRACE, EndObject));
  }

  lemma ObjParts(v: Val)
    requires v.Obj? && WfVal(v)
    ensures forall i :: 0 <= i < |v.members| ==> WfMember(v.members[i])
    ensures Marks(v) == [Mark(LBRACE, BeginObject)] + (if v.members == [] then All(v.gap, SkipSpace) else MembersMarks(v.members)) + [Mark(RBRACE, EndObject)]
  {
  }

  lemma PrettyObjText(st: Style, v: Val, d: nat)
    requires v.Obj?
    ensures Text(Pretty(st, v, d)) == [LBRACE] + ((if v.members == [] then [] else MembersText(PrettyMembers(st, v.members, d + 1)))
                                              + (if v.members == [] then [] else NewLine(st, d))) + [RBRACE]
  {
    hide NewLine, MembersText;
    if v.members != [] { CloseMembersText(PrettyMembers(st, v.members, d + 1), NewLine(st, d)); }
  }

  lemma WritesColon(st: Style, d: int)
    ensures Writes(st, Layout(false, d), [Mark(COLON, GotKey)], [COLON, SPACE], Layout(false, d))
  {
    hide Writes, NewLine;
    WritesOne(st, Layout(false, d), Mark(COLON, GotKey));
    assert IndentByte(st, Layout(false, d), Mark(COLON, GotKey)).0 == [COLON, SPACE];
  }

  lemma WritesKey(st: Style, l: Layout, m: Member)
    requires WfMember(m)
    ensures Writes(st, l, KeyMarks(m), Due(st, l) + m.key + [COLON, SPACE], Settled(l))
  {
    StringRuns(m.key);
    SettledIs(l);
    assert KeyMarks(m) == All(m.before, SkipSpace) + LexemeMarks(m.key) + All(m.mid, SkipSpace) + [Mark(COLON, GotKey)];
    hide *;
    var s := Settled(l);
    var key := Due(st, l) + m.key;
    WritesSpaces(st, l, m.before);
    WritesLexeme(st, l, m.key);
    WritesSpaces(st, s, m.mid);
    WritesColon(st, s.depth);
    WritesThen(st, l, All(m.before, SkipSpace), [], l, LexemeMarks(m.key), key, s);
    WritesThen(st, l, All(m.before, SkipSpace) + LexemeMarks(m.key), [] + key, s, All(m.mid, SkipSpace), [], s);
    WritesThen(st, l, All(m.before, SkipSpace) + LexemeMarks(m.key) + All(m.mid, SkipSpace), [] + key + [], s,
               [Mark(COLON, GotKey)], [COLON, SPACE], s);
    assert [] + key + [] == key;
  }

  lemma NothingDue(st: Style, l: Layout)
    ensures Due(st, Settled(l)) == [] && Settled(Settled(l)) == Settled(l)
  {
  }

  lemma {:induction false} WritesMember(st: Style, l: Layout, m: Member)
    requires WfMember(m) && Settled(l).depth >= 0
    ensures Writes(st, l, MemberMarks(m),
                   Due(st, l) + (m.key + [COLON, SPACE] + Text(Pretty(st, m.val, Settled(l).depth))), Settled(l))
    decreases m, 0
  {
    hide *;
    MemberParts(m);
    NothingDue(st, l);
    MemberMarksAre(m);
    WritesKey(st, l, m);
    WritesSlot(st, Settled(l), m.gap, m.val, m.after);
    var key, val := Due(st, l) + m.key + [COLON, SPACE], Text(Pretty(st, m.val, Settled(l).depth));
    WritesThen(st, l, KeyMarks(m), key, Settled(l), All(m.gap, SkipSpace) + Marks(m.val) + All(m.after, SkipSpace), [] + val, Settled(l));
    assert key + ([] + val) == Due(st, l) + (m.key + [COLON, SPACE] + val);
  }

  lemma {:induction false} WritesMembers(st: Style, d: nat, ms: seq<Member>)
    requires ms != [] && forall i :: 0 <= i < |ms| ==> WfMember(ms[i])
    ensures Writes(st, Layout(true, d), MembersMarks(ms), MembersText(PrettyMembers(st, ms, d + 1)), Layout(false, d + 1))
    decreases ms, 0
  {
    hide *;
    var n := |ms| - 1;
    var m := ms[n];
    var l := if n == 0 then Layout(true, d) else Layout(false, d + 1);
    DueIs(st, d);
    WritesMember(st, l, m);
    PrettyMembersText(st, ms, d + 1);
    MembersMarksSnoc(ms);
    if n > 0 {
      WritesMembers(st, d, ms[..n]);
      var text := MembersText(PrettyMembers(st, ms[..n], d + 1));
      var val := m.key + [COLON, SPACE] + Text(Pretty(st, m.val, d + 1));
      WritesComma(st, d + 1, GotValue);
      WritesThen(st, Layout(true, d), MembersMarks(ms[..n]), text, l, [Mark(COMMA, GotValue)], [COMMA] + NewLine(st, d + 1), l);
      WritesThen(st, Layout(true, d), MembersMarks(ms[..n]) + [Mark(COMMA, GotValue)], text + ([COMMA] + NewLine(st, d + 1)), l,
                 MemberMarks(m), [] + val, l);
      assert text + ([COMMA] + NewLine(st, d + 1)) + ([] + val) == text + [COMMA] + (NewLine(st, d + 1) + val);
    }
  }

  lemma PrettyMembersText(st: Style, ms: seq<Member>, d: nat)
    requires ms != []
    ensures var n := |ms| - 1;
            var part := NewLine(st, d) + (ms[n].key + [COLON, SPACE] + Text(Pretty(st, ms[n].val, d)));
            MembersText(PrettyMembers(st, ms, d))
            == if n == 0 then part else MembersText(PrettyMembers(st, ms[..n], d)) + [COMMA] + part
  {
    hide *;
    var n := |ms| - 1;
    var r := PrettyMembers(st, ms, d);
    assert r[..n] == PrettyMembers(st, ms[..n], d);
    MembersTextSnoc(r);
    PrettyMemberText(st, ms[n], d);
  }

  lemma PrettyMemberText(st: Style, m: Member, d: nat)
    ensures MemberText(PrettyMember(st, m, d)) == NewLine(st, d) + (m.key + [COLON, SPACE] + Text(Pretty(st, m.val, d)))
  {
    hide Text, Pretty, NewLine;
    assert [COLON, SPACE] == [COLON] + [SPACE];
  }

  // ---- What the indented tree keeps ----

  lemma {:induction false} PrettyStrip(st: Style, v: Val, d: nat)
    ensures Strip(Pretty(st, v, d)) == Strip(v)
  {
    hide NewLine;
    match v
    case Lit(_) =>
    case Arr(_, elems) =>
      if elems != [] {
        var es := CloseElems(PrettyElems(st, elems, d + 1), NewLine(st, d));
        forall i | 0 <= i < |es| ensures StripElem(es[i]) == StripElem(elems[i]) {
          PrettyStrip(st, elems[i].val, d + 1);
          assert es[i].val == PrettyElem(st, elems[i], d + 1).val;
        }
        assert StripElems(es) == StripElems(elems);
      }
    case Obj(_, members) =>
      if members != [] {
        var ms := CloseMembers(PrettyMembers(st, members, d + 1), NewLine(st, d));
        forall i | 0 <= i < |ms| ensures StripMember(ms[i]) == StripMember(members[i]) {
          PrettyStrip(st, members[i].val, d + 1);
          assert ms[i].val == PrettyMember(st, members[i], d + 1).val && ms[i].key == members[i].key;
        }
        assert StripMembers(ms) == StripMembers(members);
      }
  }

  /** White space is all that the layout looks at, and it does not look at white space. */
  lemma {:induction false} PrettyOfStrip(st: Style, v: Val, d: nat)
    ensures Pretty(st, Strip(v), d) == Pretty(st, v, d)
  {
    hide NewLine;
    match v
    case Lit(_) =>
    case Arr(_, elems) =>
      forall i | 0 <= i < |elems| ensures PrettyElem(st, StripElems(elems)[i], d + 1) == PrettyElem(st, elems[i], d + 1) {
        PrettyOfStrip(st, elems[i].val, d + 1);
      }
      assert PrettyElems(st, StripElems(elems), d + 1) == PrettyElems(st, elems, d + 1);
    case Obj(_, members) =>
      forall i | 0 <= i < |members| ensures PrettyMember(st, StripMembers(members)[i], d + 1) == PrettyMember(st, members[i], d + 1) {
        PrettyOfStrip(st, members[i].val, d + 1);
      }
      assert PrettyMembers(st, StripMembers(members), d + 1) == PrettyMembers(st, members, d + 1);
  }

  lemma PrettyTwice(st: Style, v: Val, d: nat)
    ensures Pretty(st, Pretty(st, v, d), d) == Pretty(st, v, d)
  {
    hide *;
    PrettyStrip(st, v, d);
    PrettyOfStrip(st, v, d);
    PrettyOfStrip(st, Pretty(st, v, d), d);
  }

  lemma {:induction false} RepeatSpace(s: bytes, n: int)
    requires AllSpace(s)
    ensures AllSpace(Repeat(s, n))
    decreases if n > 0 then n else 0
  {
    if n > 0 { RepeatSpace(s, n - 1); }
  }

  lemma NewLineSpace(st: Style, d: int)
    requires AllSpace(st.prefix) && AllSpace(st.indent)
    ensures AllSpace(NewLine(st, d))
  {
    RepeatSpace(st.indent, d);
  }

  lemma {:induction false} PrettyWf(st: Style, v: Val, d: nat)
    requires WfVal(v) && AllSpace(st.prefix) && AllSpace(st.indent)
    ensures WfVal(Pretty(st, v, d))
  {
    NewLineSpace(st, d);
    NewLineSpace(st, d + 1);
    hide NewLine, IsScalar, IsString, AllSpace;
    match v
    case Lit(_) =>
    case Arr(_, elems) =>
      NoSpace();
      forall i | 0 <= i < |elems| ensures WfElem(PrettyElem(st, elems[i], d + 1)) {
        assert WfElem(elems[i]);
        PrettyWf(st, elems[i].val, d + 1);
      }
      if elems != [] { CloseElemsWf(PrettyElems(st, elems, d + 1), NewLine(st, d)); }
      hide WfElem;
    case Obj(_, members) =>
      NoSpace();
      forall i | 0 <= i < |members| ensures WfMember(PrettyMember(st, members[i], d + 1)) {
        assert WfMember(members[i]);
        PrettyWf(st, members[i].val, d + 1);
      }
      if members != [] { CloseMembersWf(PrettyMembers(st, members, d + 1), NewLine(st, d)); }
      hide WfMember;
  }

  lemma NoSpace()
    ensures AllSpace([]) && AllSpace([SPACE])
  {
  }

  lemma CloseElemsWf(es: seq<Elem>, nl: bytes)
    requires es != [] && AllSpace(nl) && forall i :: 0 <= i < |es| ==> WfElem(es[i])
    ensures forall i :: 0 <= i < |es| ==> WfElem(CloseElems(es, nl)[i])
  {
    assert WfElem(es[|es| - 1]);
  }

  lemma CloseMembersWf(ms: seq<Member>, nl: bytes)
    requires ms != [] && AllSpace(nl) && forall i :: 0 <= i < |ms| ==> WfMember(ms[i])
    ensures forall i :: 0 <= i < |ms| ==> WfMember(CloseMembers(ms, nl)[i])
  {
    assert WfMember(ms[|ms| - 1]);
  }

  /** White space carries no meaning. */
  lemma {:induction false} StripDenotes(v: Val)
    ensures Denote(Strip(v)) == Denote(v)
  {
    match v
    case Lit(_) =>
    case Arr(_, elems) =>
      forall i | 0 <= i < |elems| ensures Denote(StripElems(elems)[i].val) == Denote(elems[i].val) {
        StripDenotes(elems[i].val);
      }
      assert Denote(Strip(v)).items == Denote(v).items;
    case Obj(_, members) =>
      forall i | 0 <= i < |members| ensures Denote(StripMembers(members)[i].val) == Denote(members[i].val) {
        StripDenotes(members[i].val);
      }
      StripEntries(members);
  }

  lemma {:induction false} StripEntries(ms: seq<Member>)
    requires forall i :: 0 <= i < |ms| ==> Denote(Strip(ms[i].val)) == Denote(ms[i].val)
    ensures Entries(StripMembers(ms)) == Entries(ms)
  {
    if ms != [] {
      var n := |ms| - 1;
      StripEntries(ms[..n]);
      assert StripMembers(ms)[..n] == StripMembers(ms[..n]);
    }
  }

  // ---- Main results ----

  /** Indent writes the indented tree, and then the white space that ended the input. */
  lemma IndentText(src: bytes, lead: bytes, v: Val, trail: bytes, st: Style)
    requires IsText(src, lead, v, trail)
    ensures Indented(src, st) == Text(Pretty(st, v, 0)) + trail
  {
    IndentAll(src, st);
    TextSpaces(src, lead, v, trail);
    NothingYet(st);
    hide *;
    TextTrace(src, lead, v, trail);
    var out := Due(st, START) + Text(Pretty(st, v, 0));
    WritesSpaces(st, START, lead);
    WritesVal(st, START, v);
    WritesCopies(st, 0, trail, End);
    WritesThen(st, START, All(lead, SkipSpace), [], START, Marks(v), out, START);
    WritesThen(st, START, All(lead, SkipSpace) + Marks(v), [] + out, START, All(trail, End), trail, START);
    WritesIs(st, START, All(lead, SkipSpace) + Marks(v) + All(trail, End), [] + out + trail, START);
    assert [] + out == out && out == Text(Pretty(st, v, 0));
  }

  lemma NothingYet(st: Style)
    ensures START == Layout(false, 0) && Settled(START) == START && Due(st, START) == []
  {
  }

  lemma WritesIs(st: Style, l: Layout, m: seq<Mark>, out: bytes, l': Layout)
    requires Writes(st, l, m, out, l')
    ensures IndentMarks(st, l, m).0 == out
  {
  }

  /** With a prefix and an indent of white space the output is a text of the same meaning, it indents to itself,
      and it compacts to what the input compacts to. */
  lemma IndentMeaning(src: bytes, lead: bytes, v: Val, trail: bytes, st: Style, escape: bool)
    requires IsText(src, lead, v, trail) && AllSpace(st.prefix) && AllSpace(st.indent)
    ensures var out := Indented(src, st);
            && IsText(out, [], Pretty(st, v, 0), trail) && Valid(out) && Denote(Pretty(st, v, 0)) == Denote(v)
            && Indented(out, st) == out
            && JsonCompact.Compacted(out, escape) == JsonCompact.Compacted(src, escape)
  {
    hide *;
    var out, p := Indented(src, st), Pretty(st, v, 0);
    IndentText(src, lead, v, trail, st);
    TextSpaces(src, lead, v, trail);
    PrettyWf(st, v, 0);
    TextOf(out, p, trail);
    ValidIffText(out);
    IndentText(out, [], p, trail, st);
    PrettyTwice(st, v, 0);
    PrettyStrip(st, v, 0);
    StripDenotes(v);
    StripDenotes(p);
    SignificantText(src, lead, v, trail);
    SignificantText(out, [], p, trail);
    SameCompacted(src, out, escape);
  }

  lemma TextOf(out: bytes, p: Val, trail: bytes)
    requires WfVal(p) && AllSpace(trail) && out == Text(p) + trail
    ensures IsText(out, [], p, trail)
  {
    hide WfVal, Text;
    assert out == [] + Text(p) + trail;
  }

  lemma SameCompacted(a: bytes, b: bytes, escape: bool)
    requires Significant(a) == Significant(b)
    ensures JsonCompact.Compacted(a, escape) == JsonCompact.Compacted(b, escape)
  {
  }
}
