/** No text has two parses: the scan codes of its bytes, which depend on the bytes alone, determine the tree. */
module JsonUnique {
  import opened Bytes
  import opened JsonScanner
  import opened JsonLexemes
  import opened JsonGrammar
  import opened JsonParse

  /** `m` does not go on with the code. */
  predicate Stops(m: seq<Mark>, code: Code) {
    m == [] || m[0].code != code
  }

  lemma RunCodes(code: Code, s: bytes, m: seq<Mark>)
    ensures forall i :: 0 <= i < |s| ==> (All(s, code) + m)[i] == Mark(s[i], code)
  {
  }

  lemma ShorterRun(code: Code, s: bytes, m: seq<Mark>, s': bytes, m': seq<Mark>)
    requires Stops(m, code) && |s| <= |s'|
    requires All(s, code) + m == All(s', code) + m'
    ensures s == s' && m == m'
  {
    var all := All(s, code) + m;
    assert forall i :: 0 <= i < |s| ==> all[i] == Mark(s[i], code) == Mark(s'[i], code);
    assert m != [] ==> all[|s|] == m[0];
    RunCodes(code, s', m');
    assert m == all[|s|..] && m' == all[|s'|..];
  }

  /** A longest run of one code can be cut off in one way only. */
  lemma RunUnique(code: Code, s: bytes, m: seq<Mark>, s': bytes, m': seq<Mark>)
    requires Stops(m, code) && Stops(m', code)
    requires All(s, code) + m == All(s', code) + m'
    ensures s == s' && m == m'
  {
    if |s| <= |s'| {
      ShorterRun(code, s, m, s', m');
    } else {
      ShorterRun(code, s', m', s, m);
    }
  }

  lemma Assoc4(a: seq<Mark>, b: seq<Mark>, c: seq<Mark>, d: seq<Mark>)
    ensures a + b + c + d == a + (b + (c + d))
  {
  }

  lemma SameHead(a: Mark, m: seq<Mark>, a': Mark, m': seq<Mark>)
    requires [a] + m == [a'] + m'
    ensures a == a' && m == m'
  {
    assert m == ([a] + m)[1..] && m' == ([a'] + m')[1..];
    assert ([a] + m)[0] == a && ([a'] + m')[0] == a';
  }

  lemma LexemeHead(s: bytes, m: seq<Mark>)
    requires s != []
    ensures LexemeMarks(s) + m == [Mark(s[0], BeginLiteral)] + (All(s[1..], Continue) + m)
  {
  }

  lemma LexemeUnique(s: bytes, m: seq<Mark>, s': bytes, m': seq<Mark>)
    requires s != [] && s' != [] && Stops(m, Continue) && Stops(m', Continue)
    requires LexemeMarks(s) + m == LexemeMarks(s') + m'
    ensures s == s' && m == m'
  {
    hide *;
    LexemeHead(s, m);
    LexemeHead(s', m');
    SameHead(Mark(s[0], BeginLiteral), All(s[1..], Continue) + m, Mark(s'[0], BeginLiteral), All(s'[1..], Continue) + m');
    RunUnique(Continue, s[1..], m, s'[1..], m');
    assert s == [s[0]] + s[1..] && s' == [s'[0]] + s'[1..];
  }

  function Kind(v: Val): Code {
    if v.Lit? then BeginLiteral else if v.Arr? then BeginArray else BeginObject
  }

  /** The first mark of a value tells its kind. */
  lemma FirstMark(v: Val, m: seq<Mark>)
    requires WfVal(v)
    ensures Marks(v) != [] && (Marks(v) + m) != [] && (Marks(v) + m)[0].code == Kind(v)
  {
    if v.Lit? {
      ScalarIff(v.text);
      LexFirst(v.text);
    }
  }

  // ---- Lists from the front ----

  lemma {:induction false} ElemsCons(es: seq<Elem>)
    requires |es| > 1
    ensures ElemsMarks(es) == ElemMarks(es[0]) + [Mark(COMMA, GotElement)] + ElemsMarks(es[1..])
  {
    hide ElemMarks;
    var n := |es| - 1;
    if n == 1 {
      assert es[..1] == [es[0]] && es[1..] == [es[1]];
    } else {
      ElemsCons(es[..n]);
      assert es[..n][1..] == es[1..][..n - 1];
    }
  }

  lemma {:induction false} MembersCons(ms: seq<Member>)
    requires |ms| > 1
    ensures MembersMarks(ms) == MemberMarks(ms[0]) + [Mark(COMMA, GotValue)] + MembersMarks(ms[1..])
  {
    hide MemberMarks;
    var n := |ms| - 1;
    if n == 1 {
      assert ms[..1] == [ms[0]] && ms[1..] == [ms[1]];
    } else {
      MembersCons(ms[..n]);
      assert ms[..n][1..] == ms[1..][..n - 1];
    }
  }

  // ---- Values ----

  /** A mark that separates or closes. */
  predicate EndsPart(m: seq<Mark>) {
    m != [] && m[0].code in {GotElement, GotValue, EndArray, EndObject}
  }

  function Slot(before: bytes, v: Val, after: bytes, m: seq<Mark>): seq<Mark> {
    All(before, SkipSpace) + (Marks(v) + (All(after, SkipSpace) + m))
  }

  lemma {:induction false} SlotUnique(b: bytes, v: Val, a: bytes, m: seq<Mark>, b': bytes, v': Val, a': bytes, m': seq<Mark>)
    requires WfVal(v) && WfVal(v') && EndsPart(m) && EndsPart(m')
    requires Slot(b, v, a, m) == Slot(b', v', a', m')
    ensures b == b' && v == v' && a == a' && m == m'
    decreases v, 1
  {
    var r, r' := All(a, SkipSpace) + m, All(a', SkipSpace) + m';
    FirstMark(v, r);
    FirstMark(v', r');
    hide Marks, WfVal;
    RunUnique(SkipSpace, b, Marks(v) + r, b', Marks(v') + r');
    assert r[0] == (if a == [] then m[0] else Mark(a[0], SkipSpace));
    assert r'[0] == (if a' == [] then m'[0] else Mark(a'[0], SkipSpace));
    ValUnique(v, r, v', r');
    RunUnique(SkipSpace, a, m, a', m');
  }

  lemma {:induction false} ValUnique(v: Val, m: seq<Mark>, v': Val, m': seq<Mark>)
    requires WfVal(v) && WfVal(v') && Stops(m, Continue) && Stops(m', Continue)
    requires Marks(v) + m == Marks(v') + m'
    ensures v == v' && m == m'
    decreases v, 0
  {
    FirstMark(v, m);
    FirstMark(v', m');
    if v.Lit? {
      LexemeNonempty(v);
      LexemeNonempty(v');
      LexemeUnique(v.text, m, v'.text, m');
    } else if v.Arr? {
      ArrUnique(v, m, v', m');
    } else {
      ObjUnique(v, m, v', m');
    }
  }

  lemma LexemeNonempty(v: Val)
    requires v.Lit? && WfVal(v)
    ensures v.text != []
  {
    FirstMark(v, []);
  }

  /** What follows the opening bracket or brace. */
  function ArrInner(v: Val, m: seq<Mark>): seq<Mark>
    requires v.Arr?
  {
    (if v.elems == [] then All(v.gap, SkipSpace) else ElemsMarks(v.elems)) + ([Mark(RBRACK, EndArray)] + m)
  }

  function ObjInner(v: Val, m: seq<Mark>): seq<Mark>
    requires v.Obj?
  {
    (if v.members == [] then All(v.gap, SkipSpace) else MembersMarks(v.members)) + ([Mark(RBRACE, EndObject)] + m)
  }

  lemma {:induction false} ArrUnique(v: Val, m: seq<Mark>, v': Val, m': seq<Mark>)
    requires v.Arr? && v'.Arr? && WfVal(v) && WfVal(v')
    requires Marks(v) + m == Marks(v') + m'
    ensures v == v' && m == m'
    decreases v, 0, 0
  {
    var e, e' := [Mark(RBRACK, EndArray)] + m, [Mark(RBRACK, EndArray)] + m';
    assert Marks(v) + m == [Mark(LBRACK, BeginArray)] + ArrInner(v, m);
    assert Marks(v') + m' == [Mark(LBRACK, BeginArray)] + ArrInner(v', m');
    SameHead(Mark(LBRACK, BeginArray), ArrInner(v, m), Mark(LBRACK, BeginArray), ArrInner(v', m'));
    hide Marks;
    if v.elems == [] && v'.elems == [] {
      RunUnique(SkipSpace, v.gap, e, v'.gap, e');
    } else if v.elems == [] {
      EmptyOrNot(v.gap, e, v'.elems, e');
    } else if v'.elems == [] {
      EmptyOrNot(v'.gap, e', v.elems, e);
    } else {
      ElemsUnique(v.elems, e, v'.elems, e');
    }
    SameHead(Mark(RBRACK, EndArray), m, Mark(RBRACK, EndArray), m');
  }

  /** The first element, and what follows it. */
  lemma ElemsSlot(es: seq<Elem>, m: seq<Mark>) returns (next: seq<Mark>)
    requires es != [] && m != [] && m[0] == Mark(RBRACK, EndArray)
    ensures next == if |es| == 1 then m else [Mark(COMMA, GotElement)] + (ElemsMarks(es[1..]) + m)
    ensures ElemsMarks(es) + m == Slot(es[0].before, es[0].val, es[0].after, next) && EndsPart(next)
  {
    next := if |es| == 1 then m else [Mark(COMMA, GotElement)] + (ElemsMarks(es[1..]) + m);
    ElemMarksSlot(es[0], next);
    if |es| == 1 {
      assert ElemsMarks(es) == ElemMarks(es[0]);
    } else {
      hide *;
      ElemsCons(es);
      Assoc4(ElemMarks(es[0]), [Mark(COMMA, GotElement)], ElemsMarks(es[1..]), m);
    }
    hide ElemMarks, ElemsMarks, Slot;
  }

  lemma ElemMarksSlot(e: Elem, next: seq<Mark>)
    ensures ElemMarks(e) + next == Slot(e.before, e.val, e.after, next)
  {
    hide Marks;
  }

  lemma {:induction false} ElemsUnique(es: seq<Elem>, m: seq<Mark>, es': seq<Elem>, m': seq<Mark>)
    requires es != [] && es' != [] && (forall i :: 0 <= i < |es| ==> WfElem(es[i])) && (forall i :: 0 <= i < |es'| ==> WfElem(es'[i]))
    requires m != [] && m[0] == Mark(RBRACK, EndArray) && m' != [] && m'[0] == Mark(RBRACK, EndArray)
    requires ElemsMarks(es) + m == ElemsMarks(es') + m'
    ensures es == es' && m == m'
    decreases es, 0
  {
    var next := ElemsSlot(es, m);
    var next' := ElemsSlot(es', m');
    assert WfElem(es[0]) && WfElem(es'[0]);
    SlotUnique(es[0].before, es[0].val, es[0].after, next, es'[0].before, es'[0].val, es'[0].after, next');
    hide *;
    if |es| > 1 && |es'| > 1 {
      SameHead(Mark(COMMA, GotElement), ElemsMarks(es[1..]) + m, Mark(COMMA, GotElement), ElemsMarks(es'[1..]) + m');
      ElemsUnique(es[1..], m, es'[1..], m');
    }
    assert es == [es[0]] + es[1..] && es' == [es'[0]] + es'[1..];
  }

  lemma EmptyOrNot(gap: bytes, m: seq<Mark>, es: seq<Elem>, m': seq<Mark>)
    requires es != [] && forall i :: 0 <= i < |es| ==> WfElem(es[i])
    requires m != [] && m[0] == Mark(RBRACK, EndArray) && m' != [] && m'[0] == Mark(RBRACK, EndArray)
    ensures All(gap, SkipSpace) + m != ElemsMarks(es) + m'
  {
    var next := ElemsSlot(es, m');
    var e := es[0];
    assert WfElem(e);
    FirstMark(e.val, All(e.after, SkipSpace) + next);
    hide Marks, ElemsMarks;
    if All(gap, SkipSpace) + m == ElemsMarks(es) + m' {
      RunUnique(SkipSpace, gap, m, e.before, Marks(e.val) + (All(e.after, SkipSpace) + next));
    }
  }

  // ---- Objects ----

  /** A member's marks, and what follows them. */
  function MemberSlot(x: Member, m: seq<Mark>): seq<Mark> {
    All(x.before, SkipSpace) + (LexemeMarks(x.key) + (All(x.mid, SkipSpace) + ([Mark(COLON, GotKey)] + Slot(x.gap, x.val, x.after, m))))
  }

  lemma {:induction false} MemberUnique(x: Member, m: seq<Mark>, x': Member, m': seq<Mark>)
    requires WfMember(x) && WfMember(x') && EndsPart(m) && EndsPart(m')
    requires MemberSlot(x, m) == MemberSlot(x', m')
    ensures x == x' && m == m'
    decreases x, 0
  {
    var s, s' := Slot(x.gap, x.val, x.after, m), Slot(x'.gap, x'.val, x'.after, m');
    var c, c' := [Mark(COLON, GotKey)] + s, [Mark(COLON, GotKey)] + s';
    var k, k' := All(x.mid, SkipSpace) + c, All(x'.mid, SkipSpace) + c';
    KeyStops(x, c);
    KeyStops(x', c');
    hide Slot, WfVal, LexemeMarks;
    RunUnique(SkipSpace, x.before, LexemeMarks(x.key) + k, x'.before, LexemeMarks(x'.key) + k');
    LexemeUnique(x.key, k, x'.key, k');
    RunUnique(SkipSpace, x.mid, c, x'.mid, c');
    SameHead(Mark(COLON, GotKey), s, Mark(COLON, GotKey), s');
    SlotUnique(x.gap, x.val, x.after, m, x'.gap, x'.val, x'.after, m');
  }

  lemma KeyStops(x: Member, c: seq<Mark>)
    requires WfMember(x) && c != [] && c[0] == Mark(COLON, GotKey)
    ensures var k := All(x.mid, SkipSpace) + c;
            x.key != [] && Stops(k, Continue) && Stops(LexemeMarks(x.key) + k, SkipSpace)
  {
    var k := All(x.mid, SkipSpace) + c;
    assert k[0] == if x.mid == [] then c[0] else Mark(x.mid[0], SkipSpace);
  }

  lemma MembersSlot(ms: seq<Member>, m: seq<Mark>) returns (next: seq<Mark>)
    requires ms != [] && m != [] && m[0] == Mark(RBRACE, EndObject)
    ensures next == if |ms| == 1 then m else [Mark(COMMA, GotValue)] + (MembersMarks(ms[1..]) + m)
    ensures MembersMarks(ms) + m == MemberSlot(ms[0], next) && EndsPart(next)
  {
    next := if |ms| == 1 then m else [Mark(COMMA, GotValue)] + (MembersMarks(ms[1..]) + m);
    MemberMarksSlot(ms[0], next);
    if |ms| == 1 {
      assert MembersMarks(ms) == MemberMarks(ms[0]);
    } else {
      hide *;
      MembersCons(ms);
      Assoc4(MemberMarks(ms[0]), [Mark(COMMA, GotValue)], MembersMarks(ms[1..]), m);
    }
    hide MemberMarks, MembersMarks, MemberSlot;
  }

  lemma MemberMarksSlot(x: Member, next: seq<Mark>)
    ensures MemberMarks(x) + next == MemberSlot(x, next)
  {
    hide Marks, LexemeMarks;
  }

  lemma {:induction false} MembersUnique(ms: seq<Member>, m: seq<Mark>, ms': seq<Member>, m': seq<Mark>)
    requires ms != [] && ms' != []
    requires (forall i :: 0 <= i < |ms| ==> WfMember(ms[i])) && (forall i :: 0 <= i < |ms'| ==> WfMember(ms'[i]))
    requires m != [] && m[0] == Mark(RBRACE, EndObject) && m' != [] && m'[0] == Mark(RBRACE, EndObject)
    requires MembersMarks(ms) + m == MembersMarks(ms') + m'
    ensures ms == ms' && m == m'
    decreases ms, 0
  {
    hide *;
    var next := MembersSlot(ms, m);
    var next' := MembersSlot(ms', m');
    MemberUnique(ms[0], next, ms'[0], next');
    if |ms| > 1 && |ms'| > 1 {
      SameHead(Mark(COMMA, GotValue), MembersMarks(ms[1..]) + m, Mark(COMMA, GotValue), MembersMarks(ms'[1..]) + m');
      MembersUnique(ms[1..], m, ms'[1..], m');
    }
    assert ms == [ms[0]] + ms[1..] && ms' == [ms'[0]] + ms'[1..];
  }

  lemma EmptyObjectOrNot(gap: bytes, m: seq<Mark>, ms: seq<Member>, m': seq<Mark>)
    requires ms != [] && forall i :: 0 <= i < |ms| ==> WfMember(ms[i])
    requires m != [] && m[0] == Mark(RBRACE, EndObject) && m' != [] && m'[0] == Mark(RBRACE, EndObject)
    ensures All(gap, SkipSpace) + m != MembersMarks(ms) + m'
  {
    var next := MembersSlot(ms, m');
    var x := ms[0];
    assert WfMember(x);
    var c := [Mark(COLON, GotKey)] + Slot(x.gap, x.val, x.after, next);
    KeyStops(x, c);
    hide Slot, MembersMarks;
    if All(gap, SkipSpace) + m == MembersMarks(ms) + m' {
      RunUnique(SkipSpace, gap, m, x.before, LexemeMarks(x.key) + (All(x.mid, SkipSpace) + c));
    }
  }

  lemma {:induction false} ObjUnique(v: Val, m: seq<Mark>, v': Val, m': seq<Mark>)
    requires v.Obj? && v'.Obj? && WfVal(v) && WfVal(v')
    requires Marks(v) + m == Marks(v') + m'
    ensures v == v' && m == m'
    decreases v, 0, 0
  {
    var e, e' := [Mark(RBRACE, EndObject)] + m, [Mark(RBRACE, EndObject)] + m';
    assert Marks(v) + m == [Mark(LBRACE, BeginObject)] + ObjInner(v, m);
    assert Marks(v') + m' == [Mark(LBRACE, BeginObject)] + ObjInner(v', m');
    SameHead(Mark(LBRACE, BeginObject), ObjInner(v, m), Mark(LBRACE, BeginObject), ObjInner(v', m'));
    hide Marks;
    if v.members == [] && v'.members == [] {
      RunUnique(SkipSpace, v.gap, e, v'.gap, e');
    } else if v.members == [] {
      EmptyObjectOrNot(v.gap, e, v'.members, e');
    } else if v'.members == [] {
      EmptyObjectOrNot(v'.gap, e', v.members, e);
    } else {
      MembersUnique(v.members, e, v'.members, e');
    }
    SameHead(Mark(RBRACE, EndObject), m, Mark(RBRACE, EndObject), m');
  }

  // ---- Whole texts ----

  /** Two plays from one state over the same bytes carry the same codes. */
  lemma {:induction false} CodesAgree(s: Scan, a: seq<Mark>, sa: Scan, b: seq<Mark>, sb: Scan)
    requires Plays(s, a, sa) && Plays(s, b, sb) && |a| <= |b| && Unmark(a) == Unmark(b)[..|a|]
    ensures a == b[..|a|]
    decreases |b|
  {
    hide Next;
    if |a| < |b| {
      var n := |b| - 1;
      assert Unmark(b[..n]) == Unmark(b)[..n];
      CodesAgree(s, a, sa, b[..n], Play(s, b[..n]).0);
      assert b[..n][..|a|] == b[..|a|];
    } else if a != [] {
      var n := |a| - 1;
      assert Unmark(a)[n] == Unmark(b)[n];
      assert Unmark(a[..n]) == Unmark(b[..n]) == Unmark(b[..n])[..n];
      CodesAgree(s, a[..n], Play(s, a[..n]).0, b[..n], Play(s, b[..n]).0);
      assert a == a[..n] + [a[n]] && b == b[..n] + [b[n]] && b[..n][..n] == b[..n];
    }
  }

  lemma TextPlays(data: bytes, lead: bytes, v: Val, trail: bytes)
    requires IsText(data, lead, v, trail)
    ensures Plays(Fresh, All(lead, SkipSpace) + Marks(v), EndOf(v, [])) && Ended(EndOf(v, []), [])
    ensures Unmark(All(lead, SkipSpace) + Marks(v)) == lead + Text(v)
  {
    SpacesPlay(Fresh, lead);
    ValPlays(Fresh, [], v);
    PlaysConcat(Fresh, All(lead, SkipSpace), Fresh, Marks(v), EndOf(v, []));
    hide Play, Plays, WfVal;
    UnmarkVal(v);
    UnmarkAll(lead, SkipSpace);
    UnmarkConcat(All(lead, SkipSpace), Marks(v));
  }

  lemma {:induction false} PlaysAt(s: Scan, m: seq<Mark>, s': Scan, i: nat)
    requires Plays(s, m, s') && i < |m|
    ensures m[i].code == Next(Play(s, m[..i]).0, m[i].c).1
    decreases |m|
  {
    hide Next;
    var n := |m| - 1;
    if i < n {
      PlaysAt(s, m[..n], Play(s, m[..n]).0, i);
      assert m[..n][..i] == m[..i];
    }
  }

  function FrontMarks(lead: bytes, v: Val): seq<Mark> {
    All(lead, SkipSpace) + Marks(v)
  }

  /** The marks up to the end of the value are the first marks of a parse that ends no earlier. */
  lemma MarksExtend(data: bytes, lead: bytes, v: Val, trail: bytes, lead': bytes, v': Val, trail': bytes) returns (more: seq<Mark>)
    requires IsText(data, lead, v, trail) && IsText(data, lead', v', trail')
    requires |lead + Text(v)| <= |lead' + Text(v')|
    ensures FrontMarks(lead', v') == FrontMarks(lead, v) + more && Stops(more, Continue)
  {
    hide Plays, Play, Next, Marks, WfVal, Text;
    TextPlays(data, lead, v, trail);
    TextPlays(data, lead', v', trail');
    var a, b := FrontMarks(lead, v), FrontMarks(lead', v');
    assert Unmark(b)[..|a|] == data[..|a|] == Unmark(a);
    CodesAgree(Fresh, a, EndOf(v, []), b, EndOf(v', []));
    more := b[|a|..];
    if more != [] {
      PlaysAt(Fresh, b, EndOf(v', []), |a|);
      assert more[0] == b[|a|] && Unmark(b)[|a|] == data[|a|] == trail[0];
      PlaysTo(Fresh, a, EndOf(v, []));
      EndedSpace(EndOf(v, []), trail[0]);
    }
  }

  lemma PlaysTo(s: Scan, a: seq<Mark>, s': Scan)
    requires Plays(s, a, s')
    ensures Play(s, a).0 == s'
  {
  }

  lemma ShorterParse(data: bytes, lead: bytes, v: Val, trail: bytes, lead': bytes, v': Val, trail': bytes)
    requires IsText(data, lead, v, trail) && IsText(data, lead', v', trail')
    requires |lead + Text(v)| <= |lead' + Text(v')|
    ensures lead == lead' && v == v' && trail == trail'
  {
    var more := MarksExtend(data, lead, v, trail, lead', v', trail');
    FirstMark(v, more);
    FirstMark(v', []);
    hide Marks, WfVal, Text;
    assert All(lead, SkipSpace) + (Marks(v) + more) == FrontMarks(lead, v) + more;
    assert All(lead', SkipSpace) + (Marks(v') + []) == FrontMarks(lead', v');
    RunUnique(SkipSpace, lead, Marks(v) + more, lead', Marks(v') + []);
    ValUnique(v, more, v', []);
    assert trail == data[|lead + Text(v)|..] && trail' == data[|lead' + Text(v')|..];
  }

  /** A text has one parse. */
  lemma Unambiguous(data: bytes, lead: bytes, v: Val, trail: bytes, lead': bytes, v': Val, trail': bytes)
    requires IsText(data, lead, v, trail) && IsText(data, lead', v', trail')
    ensures lead == lead' && v == v' && trail == trail'
  {
    if |lead + Text(v)| <= |lead' + Text(v')| {
      ShorterParse(data, lead, v, trail, lead', v', trail');
    } else {
      ShorterParse(data, lead', v', trail', lead, v, trail);
    }
  }
}
