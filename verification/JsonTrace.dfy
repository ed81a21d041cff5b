/** The scan codes of whole inputs, and the bytes that are not white space between tokens. */
module JsonTrace {
  import opened Bytes
  import opened JsonScanner
  import opened JsonLexemes
  import opened JsonGrammar
  import opened JsonParse
  import JsonUnique

  /** Each byte of `data` with the code that the scanner gives it. */
  function Trace(s: Scan, data: bytes): (m: seq<Mark>)
    requires Wf(s)
    ensures |m| == |data|
  {
    if data == [] then []
    else
      var d, c := data[..|data| - 1], data[|data| - 1];
      Trace(s, d) + [Mark(c, Next(Run(s, d), c).1)]
  }

  lemma {:induction false} TraceConcat(s: Scan, a: bytes, b: bytes)
    requires Wf(s)
    ensures Trace(s, a + b) == Trace(s, a) + Trace(Run(s, a), b)
  {
    hide Next;
    if b == [] {
      assert a + b == a;
    } else {
      var n := |b| - 1;
      assert (a + b)[..|a + b| - 1] == a + b[..n];
      TraceConcat(s, a, b[..n]);
      RunConcat(s, a, b[..n]);
    }
  }

  lemma {:induction false} TraceAt(s: Scan, data: bytes, i: nat)
    requires Wf(s) && i < |data|
    ensures Trace(s, data)[..i] == Trace(s, data[..i])
    ensures Trace(s, data)[i] == Mark(data[i], Next(Run(s, data[..i]), data[i]).1)
    decreases |data|
  {
    hide Next;
    var n := |data| - 1;
    if i < n {
      TraceAt(s, data[..n], i);
      assert data[..n][..i] == data[..i];
    }
  }

  lemma {:induction false} PlaysTrace(s: Scan, m: seq<Mark>, s': Scan)
    requires Plays(s, m, s')
    ensures Trace(s, Unmark(m)) == m && Run(s, Unmark(m)) == s'
  {
    hide Next;
    if m != [] {
      var n := |m| - 1;
      PlaysTrace(s, m[..n], Play(s, m[..n]).0);
      assert Unmark(m)[..n] == Unmark(m[..n]);
      assert m == m[..n] + [m[n]];
    }
  }

  /** White space after the top-level value. */
  lemma {:induction false} TrailTrace(s: Scan, trail: bytes)
    requires Ended(s, []) && AllSpace(trail)
    ensures Wf(s) && Trace(s, trail) == All(trail, End)
  {
    EndedNext(s, [], SPACE);
    if trail != [] {
      hide *;
      var n := |trail| - 1;
      SpaceSnoc(trail);
      TrailTrace(s, trail[..n]);
      TrailRuns(s, trail[..n]);
      EndedSpace(Run(s, trail[..n]), trail[n]);
      TraceSnoc(s, trail[..n], trail[n]);
      AllSnoc(trail, End);
    }
  }

  lemma SpaceSnoc(s: bytes)
    requires s != [] && AllSpace(s)
    ensures AllSpace(s[..|s| - 1]) && IsSpace(s[|s| - 1]) && s == s[..|s| - 1] + [s[|s| - 1]]
  {
  }

  lemma AllSnoc(s: bytes, code: Code)
    requires s != []
    ensures All(s, code) == All(s[..|s| - 1], code) + [Mark(s[|s| - 1], code)]
  {
  }

  lemma TraceSnoc(s: Scan, d: bytes, c: byte)
    requires Wf(s)
    ensures Trace(s, d + [c]) == Trace(s, d) + [Mark(c, Next(Run(s, d), c).1)]
  {
    hide Next;
    assert (d + [c])[..|d|] == d;
  }

  /** The codes of a whole text. */
  lemma TextTrace(data: bytes, lead: bytes, v: Val, trail: bytes)
    requires IsText(data, lead, v, trail)
    ensures Trace(Fresh, data) == All(lead, SkipSpace) + Marks(v) + All(trail, End)
  {
    JsonUnique.TextPlays(data, lead, v, trail);
    hide *;
    PlaysTrace(Fresh, All(lead, SkipSpace) + Marks(v), EndOf(v, []));
    TextSpaces(data, lead, v, trail);
    TrailTrace(EndOf(v, []), trail);
    TraceConcat(Fresh, lead + Text(v), trail);
  }

  lemma TextSpaces(data: bytes, lead: bytes, v: Val, trail: bytes)
    requires IsText(data, lead, v, trail)
    ensures AllSpace(lead) && WfVal(v) && AllSpace(trail) && data == lead + Text(v) + trail
  {
  }

  // ---- The significant bytes ----

  /** v >= scanSkipSpace */
  predicate IsDropped(code: Code) {
    code == SkipSpace || code == End || code == Error
  }

  /** The bytes whose codes are not dropped. */
  function Kept(m: seq<Mark>): bytes {
    if m == [] then [] else (if IsDropped(m[0].code) then [] else [m[0].c]) + Kept(m[1..])
  }

  function Significant(data: bytes): bytes {
    Kept(Trace(Fresh, data))
  }

  lemma KeptNone()
    ensures Kept([]) == []
  {
  }

  lemma KeptUnfold(m: seq<Mark>)
    requires m != []
    ensures Kept(m) == (if IsDropped(m[0].code) then [] else [m[0].c]) + Kept(m[1..])
  {
  }

  lemma {:induction false} KeptConcat(a: seq<Mark>, b: seq<Mark>)
    ensures Kept(a + b) == Kept(a) + Kept(b)
  {
    hide *;
    KeptNone();
    if a == [] {
      assert a + b == b;
    } else {
      KeptConcat(a[1..], b);
      assert (a + b)[1..] == a[1..] + b && (a + b)[0] == a[0];
      KeptUnfold(a);
      KeptUnfold(a + b);
    }
  }

  lemma {:induction false} KeptAll(s: bytes, code: Code)
    ensures Kept(All(s, code)) == if IsDropped(code) then [] else s
  {
    if s != [] {
      hide Kept;
      KeptAll(s[1..], code);
      KeptOne(s[0], code);
      assert All(s, code) == [Mark(s[0], code)] + All(s[1..], code);
      KeptConcat([Mark(s[0], code)], All(s[1..], code));
      assert s == [s[0]] + s[1..];
    } else {
      assert All(s, code) == [];
    }
  }

  lemma KeptLexeme(text: bytes)
    ensures Kept(LexemeMarks(text)) == text
  {
    if text != [] {
      KeptAll(text[1..], Continue);
      KeptOne(text[0], BeginLiteral);
      KeptConcat([Mark(text[0], BeginLiteral)], All(text[1..], Continue));
      assert text == [text[0]] + text[1..];
    }
  }

  lemma KeptOne(c: byte, code: Code)
    ensures Kept([Mark(c, code)]) == if IsDropped(code) then [] else [c]
  {
    assert [Mark(c, code)][1..] == [];
  }

  // ---- The tree without white space ----

  function Strip(v: Val): Val {
    match v
    case Lit(_) => v
    case Arr(_, elems) => Arr([], StripElems(elems))
    case Obj(_, members) => Obj([], StripMembers(members))
  }

  function StripElem(e: Elem): Elem {
    Elem([], Strip(e.val), [])
  }

  function StripElems(es: seq<Elem>): (r: seq<Elem>)
    ensures |r| == |es| && forall i :: 0 <= i < |es| ==> r[i] == StripElem(es[i])
  {
    seq(|es|, i requires 0 <= i < |es| => StripElem(es[i]))
  }

  function StripMember(m: Member): Member {
    Member([], m.key, [], [], Strip(m.val), [])
  }

  function StripMembers(ms: seq<Member>): (r: seq<Member>)
    ensures |r| == |ms| && forall i :: 0 <= i < |ms| ==> r[i] == StripMember(ms[i])
  {
    seq(|ms|, i requires 0 <= i < |ms| => StripMember(ms[i]))
  }

  lemma {:induction false} KeptVal(v: Val)
    ensures Kept(Marks(v)) == Text(Strip(v))
  {
    match v
    case Lit(text) => KeptLexeme(text);
    case Arr(gap, elems) =>
      var inner := if elems == [] then All(gap, SkipSpace) else ElemsMarks(elems);
      if elems == [] { KeptAll(gap, SkipSpace); } else { KeptElems(elems); }
      KeptBracketed(LBRACK, BeginArray, inner, RBRACK, EndArray);
    case Obj(gap, members) =>
      var inner := if members == [] then All(gap, SkipSpace) else MembersMarks(members);
      if members == [] { KeptAll(gap, SkipSpace); } else { KeptMembers(members); }
      KeptBracketed(LBRACE, BeginObject, inner, RBRACE, EndObject);
  }

  lemma KeptBracketed(open: byte, opens: Code, inner: seq<Mark>, close: byte, closes: Code)
    requires !IsDropped(opens) && !IsDropped(closes)
    ensures Kept([Mark(open, opens)] + inner + [Mark(close, closes)]) == [open] + Kept(inner) + [close]
  {
    KeptOne(open, opens);
    KeptOne(close, closes);
    KeptConcat([Mark(open, opens)], inner);
    KeptConcat([Mark(open, opens)] + inner, [Mark(close, closes)]);
  }

  lemma KeptThree(a: seq<Mark>, comma: Mark, b: seq<Mark>)
    requires !IsDropped(comma.code)
    ensures Kept(a + [comma] + b) == Kept(a) + [comma.c] + Kept(b)
  {
    KeptOne(comma.c, comma.code);
    KeptConcat(a, [comma]);
    KeptConcat(a + [comma], b);
  }

  lemma {:induction false} KeptElems(es: seq<Elem>)
    requires es != []
    ensures Kept(ElemsMarks(es)) == ElemsText(StripElems(es))
  {
    var n := |es| - 1;
    KeptElem(es[n]);
    hide Kept, ElemMarks, ElemText, StripElem;
    if n > 0 {
      assert StripElems(es)[..n] == StripElems(es[..n]);
      assert ElemsText(StripElems(es)) == ElemsText(StripElems(es[..n])) + [COMMA] + ElemText(StripElem(es[n]));
      assert ElemsMarks(es) == ElemsMarks(es[..n]) + [Mark(COMMA, GotElement)] + ElemMarks(es[n]);
      hide *;
      KeptElems(es[..n]);
      KeptThree(ElemsMarks(es[..n]), Mark(COMMA, GotElement), ElemMarks(es[n]));
    } else {
      assert ElemsMarks(es) == ElemMarks(es[0]) && ElemsText(StripElems(es)) == ElemText(StripElem(es[0]));
    }
  }

  lemma {:induction false} KeptElem(e: Elem)
    ensures Kept(ElemMarks(e)) == ElemText(StripElem(e))
  {
    KeptVal(e.val);
    KeptSlot(e.before, Marks(e.val), e.after);
  }

  lemma KeptSlot(before: bytes, m: seq<Mark>, after: bytes)
    ensures Kept(All(before, SkipSpace) + m + All(after, SkipSpace)) == Kept(m)
  {
    KeptAll(before, SkipSpace);
    KeptAll(after, SkipSpace);
    KeptConcat(All(before, SkipSpace), m);
    KeptConcat(All(before, SkipSpace) + m, All(after, SkipSpace));
  }

  lemma {:induction false} KeptMembers(ms: seq<Member>)
    requires ms != []
    ensures Kept(MembersMarks(ms)) == MembersText(StripMembers(ms))
  {
    assert !IsDropped(GotValue);
    hide *;
    var n := |ms| - 1;
    KeptMember(ms[n]);
    StripMembersSnoc(ms);
    MembersMarksSnoc(ms);
    MembersTextSnoc(StripMembers(ms));
    if n > 0 {
      KeptMembers(ms[..n]);
      KeptThree(MembersMarks(ms[..n]), Mark(COMMA, GotValue), MemberMarks(ms[n]));
    }
  }

  lemma StripMembersSnoc(ms: seq<Member>)
    requires ms != []
    ensures |StripMembers(ms)| == |ms| && StripMembers(ms)[|ms| - 1] == StripMember(ms[|ms| - 1])
    ensures StripMembers(ms)[..|ms| - 1] == StripMembers(ms[..|ms| - 1])
  {
    hide StripMember;
  }

  lemma {:induction false} KeptMember(m: Member)
    ensures Kept(MemberMarks(m)) == MemberText(StripMember(m))
  {
    hide *;
    KeptVal(m.val);
    KeptLexeme(m.key);
    KeptSlot(m.gap, Marks(m.val), m.after);
    KeptSlot(m.before, LexemeMarks(m.key), m.mid);
    KeptColon();
    MemberMarksAre(m);
    StripMemberIs(m);
    KeptConcat(All(m.before, SkipSpace) + LexemeMarks(m.key) + All(m.mid, SkipSpace), [Mark(COLON, GotKey)]);
    KeptConcat(KeyMarks(m), All(m.gap, SkipSpace) + Marks(m.val) + All(m.after, SkipSpace));
    BareMember(m.key, Strip(m.val));
  }

  lemma KeptColon()
    ensures Kept([Mark(COLON, GotKey)]) == [COLON]
  {
    KeptOne(COLON, GotKey);
  }

  lemma StripMemberIs(m: Member)
    ensures StripMember(m) == Member([], m.key, [], [], Strip(m.val), [])
  {
  }

  /** The significant bytes of a text are the text without white space. */
  lemma SignificantText(data: bytes, lead: bytes, v: Val, trail: bytes)
    requires IsText(data, lead, v, trail)
    ensures Significant(data) == Text(Strip(v))
  {
    TextTrace(data, lead, v, trail);
    hide Trace, Text, Marks, Kept;
    KeptVal(v);
    KeptAll(lead, SkipSpace);
    KeptAll(trail, End);
    KeptConcat(All(lead, SkipSpace), Marks(v));
    KeptConcat(All(lead, SkipSpace) + Marks(v), All(trail, End));
  }
}
