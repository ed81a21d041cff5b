/** Compaction keeps the meaning of a text: literal by literal, then over the whole tree. */
module JsonSqueeze {
  import opened Options
  import opened Bytes
  import opened JsonScanner
  import opened JsonLexemes
  import opened JsonGrammar
  import opened JsonParse
  import opened JsonStrings
  import opened JsonEscape
  import opened JsonTrace
  import opened JsonCompact
  import opened JsonMeaning
  import opened JsonUtf16
  import opened Utf8

  // ---- Escaping the body of a string ----

  lemma EscapedIsChar(s: bytes, html: bool)
    requires s != [] && s[0] != BACKSLASH && EscapeUnit(s, html).Some?
    ensures IsChar(EscapeUnit(s, html).value.0)
  {
    var u := EscapeUnit(s, html).value.0;
    assert u[2..] == [u[2], u[3], u[4], u[5]];
  }

  /** Bytes that are no escapes are chars of their own. */
  lemma {:induction false} PlainRun(s: bytes, n: nat)
    requires n <= |s| && IsChars(s) && forall i :: 0 <= i < n ==> s[i] != BACKSLASH
    ensures IsChars(s[n..])
  {
    if n == 0 {
      assert s[0..] == s;
    } else {
      PlainRun(s[1..], n - 1);
      assert s[1..][n - 1..] == s[n..];
    }
  }

  lemma {:induction false} EscapeChars(s: bytes, html: bool)
    requires IsChars(s)
    ensures IsChars(Escape(s, html))
  {
    if s != [] {
      if s[0] == BACKSLASH {
        var n := CharLength(s);
        EscapeChars(s[n..], html);
        EscapeOfEscape(s[..n], s[n..], html);
        CharThen(s[..n], Escape(s[n..], html));
        assert s == s[..n] + s[n..];
      } else if EscapeUnit(s, html).Some? {
        var (u, n) := EscapeUnit(s, html).value;
        PlainRun(s, n);
        EscapeChars(s[n..], html);
        EscapedIsChar(s, html);
        CharThen(u, Escape(s[n..], html));
      } else {
        EscapeChars(s[1..], html);
        CharThen([s[0]], Escape(s[1..], html));
      }
    }
  }

  /** An escape of the grammar is left as it is. */
  lemma EscapeOfEscape(u: bytes, rest: bytes, html: bool)
    requires IsChar(u) && u[0] == BACKSLASH
    ensures Escape(u + rest, html) == u + Escape(rest, html)
  {
    if |u| == 6 { assert forall i :: 2 <= i < 6 ==> u[2..][i - 2] == u[i]; }
    InertThen(u, rest, html);
  }

  /** Escaping leaves or makes no bytes above ASCII in front but those that were there. */
  lemma HighFront(s: bytes, html: bool)
    ensures var t := Escape(s, html);
            || (t != [] && s != [] && t[0] == s[0] && t == [s[0]] + Escape(s[1..], html))
            || ((t == [] || t[0] < 0x80) && (s == [] || s[0] < 0x80 || s[0] == 0xE2))
  {
    if s != [] && EscapeUnit(s, html).Some? {
      UnitFirst(s, html);
    }
  }

  /** A lead byte has the same character before it as after. */
  lemma CharSizeKept(s: bytes, html: bool)
    requires s != [] && s[0] >= 0x80 && EscapeUnit(s, html) == None
    ensures CharSize([s[0]] + Escape(s[1..], html)) == CharSize(s)
    ensures CharSize(s) > 0 ==> [s[0]] + Escape(s[1..], html) == s[..CharSize(s)] + Escape(s[CharSize(s)..], html)
  {
    if LeadLength(s[0]) == 2 { CharSizeKept2(s, html); }
    if LeadLength(s[0]) == 3 { CharSizeKept3(s, html); }
    if LeadLength(s[0]) == 4 { CharSizeKept4(s, html); }
  }

  lemma CharSizeKept2(s: bytes, html: bool)
    requires s != [] && LeadLength(s[0]) == 2
    ensures var x := [s[0]] + Escape(s[1..], html);
            CharSize(x) == CharSize(s) && (CharSize(s) > 0 ==> x == s[..2] + Escape(s[2..], html))
  {
    HighFront(s[1..], html);
    hide Escape;
  }

  lemma CharSizeKept3(s: bytes, html: bool)
    requires s != [] && LeadLength(s[0]) == 3
    ensures var x := [s[0]] + Escape(s[1..], html);
            CharSize(x) == CharSize(s) && (CharSize(s) > 0 ==> x == s[..3] + Escape(s[3..], html))
  {
    HighFront(s[1..], html);
    if |s| > 1 { HighFront(s[2..], html); }
    hide Escape;
  }

  lemma CharSizeKept4(s: bytes, html: bool)
    requires s != [] && LeadLength(s[0]) == 4
    ensures var x := [s[0]] + Escape(s[1..], html);
            CharSize(x) == CharSize(s) && (CharSize(s) > 0 ==> x == s[..4] + Escape(s[4..], html))
  {
    HighFront(s[1..], html);
    if |s| > 1 { HighFront(s[2..], html); }
    if |s| > 2 { HighFront(s[3..], html); }
    hide Escape;
  }

  /** An escaped character spells the code unit that it spelled before. */
  lemma EscapedSpells(s: bytes, html: bool, t: bytes)
    requires s != [] && s[0] != BACKSLASH && EscapeUnit(s, html).Some?
    ensures var (u, n) := EscapeUnit(s, html).value;
            && DecodeRune(s).1 == n && DecodeRune(s).0 < 0x10000
            && Spells(u + t) == Before([DecodeRune(s).0], Spells(t))
  {
    hide *;
    UnitDecodes(s, html);
    SpellsU4(DecodeRune(s).0, t);
  }

  lemma UnitDecodes(s: bytes, html: bool)
    requires s != [] && EscapeUnit(s, html).Some?
    ensures var (u, n) := EscapeUnit(s, html).value;
            DecodeRune(s).1 == n && DecodeRune(s).0 < 0x10000 && u == U4(DecodeRune(s).0)
  {
  }

  lemma SpellsU4(r: nat, t: bytes)
    requires r < 0x10000
    ensures Spells(U4(r) + t) == Before([r], Spells(t))
  {
    GetU4Inverts(r, t);
    assert (U4(r) + t)[6..] == t;
    hide GetU4;
  }

  /** A character that is copied spells the same before the escaped rest. */
  lemma CopiedSpells(s: bytes, html: bool)
    requires s != [] && s[0] != BACKSLASH && s[0] != QUOTE && s[0] >= 0x20 && EscapeUnit(s, html) == None
    ensures var n := DecodeRune(s).1;
            Spells(Escape(s, html)) == Before(ToUtf16(DecodeRune(s).0), Spells(Escape(s[n..], html)))
  {
    var t := Escape(s, html);
    assert t == [s[0]] + Escape(s[1..], html);
    if s[0] < 0x80 {
      assert t[1..] == Escape(s[1..], html);
    } else {
      CharSizeKept(s, html);
      if CharSize(s) == 0 {
        assert t[1..] == Escape(s[1..], html);
      } else {
        CharSizePrefix(s, Escape(s[CharSize(s)..], html));
        assert t[CharSize(s)..] == Escape(s[CharSize(s)..], html);
      }
    }
  }

  lemma EscapeSpells(s: bytes, n: nat, html: bool)
    requires n <= |s| && (n == 2 || n == 6) && IsChar(s[..n]) && s[0] == BACKSLASH
    ensures Escape(s, html) == s[..n] + Escape(s[n..], html)
  {
    EscapeOfEscape(s[..n], s[n..], html);
    assert s == s[..n] + s[n..];
  }

  /** Escaping does not change the code units that a literal spells. */
  lemma {:induction false} SpellsKept(s: bytes, html: bool)
    requires IsChars(s)
    ensures Spells(Escape(s, html)) == Spells(s)
  {
    if s != [] {
      if s[0] == BACKSLASH {
        var n := CharLength(s);
        EscapeSpells(s, n, html);
        SpellsKept(s[n..], html);
        EscapeSpellsFirst(s, n, s[n..]);
        EscapeSpellsFirst(s, n, Escape(s[n..], html));
        assert s == s[..n] + s[n..];
      } else {
        var n := DecodeRune(s).1;
        PlainChar(s);
        if EscapeUnit(s, html).Some? {
          EscapedSpells(s, html, Escape(s[n..], html));
        } else {
          CopiedSpells(s, html);
        }
        hide EscapeUnit, DecodeRune;
        SpellsKept(s[n..], html);
      }
    }
  }

  /** A character that is no escape is followed by chars. */
  lemma PlainChar(s: bytes)
    requires s != [] && IsChars(s) && s[0] != BACKSLASH
    ensures s[0] != QUOTE && s[0] >= 0x20
    ensures IsChars(s[DecodeRune(s).1..])
  {
    FirstRunePlain(s);
    hide *;
    PlainRun(s, DecodeRune(s).1);
    PlainFirst(s);
  }

  lemma FirstRunePlain(s: bytes)
    requires s != [] && s[0] != BACKSLASH
    ensures DecodeRune(s).1 <= |s| && forall i :: 0 <= i < DecodeRune(s).1 ==> s[i] != BACKSLASH
  {
  }

  lemma PlainFirst(s: bytes)
    requires s != [] && IsChars(s) && s[0] != BACKSLASH
    ensures s[0] != QUOTE && s[0] >= 0x20
  {
    assert s[..1][0] == s[0];
  }

  /** What an escape of the grammar spells does not depend on what follows. */
  lemma EscapeSpellsFirst(s: bytes, n: nat, t: bytes)
    requires s != [] && s[0] == BACKSLASH && n == CharLength(s) && n <= |s| && IsChar(s[..n])
    ensures Spells(s[..n] + t) ==
      if n == 2 then Before([SimpleEscape(s[1]).value as int], Spells(t)) else Before([GetU4(s).value], Spells(t))
    ensures if n == 2 then SimpleEscape(s[1]).Some? else GetU4(s).Some?
  {
    var x := s[..n] + t;
    assert x[n..] == t && x[1] == s[1];
    if n == 6 {
      assert s[..6][2..] == s[2..6] == x[2..6];
    }
  }

  // ---- Literals ----

  lemma EscapeQuoted(body: bytes, html: bool)
    ensures Escape([QUOTE] + body + [QUOTE], html) == [QUOTE] + Escape(body, html) + [QUOTE]
  {
    EscapeConcat([QUOTE] + body, [QUOTE], html);
    InertThen([QUOTE], body, html);
    InertThen([QUOTE], [], html);
    assert [QUOTE] + [] == [QUOTE];
  }

  /** A string stays a string of the same meaning. */
  lemma EscapeString(s: bytes, html: bool)
    requires IsString(s)
    ensures IsString(Escape(s, html)) && StringOf(Escape(s, html)) == StringOf(s)
  {
    var body := s[1..|s| - 1];
    assert s == [QUOTE] + body + [QUOTE];
    EscapeQuoted(body, html);
    EscapeChars(body, html);
    var t := Escape(s, html);
    assert t[1..|t| - 1] == Escape(body, html);
    SpellsKept(body, html);
    hide Escape, Spells, IsChars;
    UnquoteMeans(s);
    UnquoteMeans(t);
  }

  /** Names and numbers have nothing to escape. */
  lemma {:induction false} LexInert(s: bytes)
    requires LexState(s).Some? && s[0] != QUOTE
    ensures IsInert(s) && !InText(LexState(s).value)
    ensures LexState(s).value.InName? ==> IsInert(LexState(s).value.rest)
  {
    if |s| > 1 {
      LexInert(s[..|s| - 1]);
    }
  }

  lemma EscapeOther(s: bytes, html: bool)
    requires IsScalar(s) && s[0] != QUOTE
    ensures Escape(s, html) == s
  {
    hide IsScalar;
    ScalarIff(s);
    LexInert(s);
    InertThen(s, [], html);
    assert s + [] == s;
  }

  lemma ScalarFirst(s: bytes)
    requires IsScalar(s)
    ensures s != [] && s[0] < 0x80 && (IsString(s) <==> s[0] == QUOTE)
  {
    hide IsScalar, IsString;
    ScalarIff(s);
    LexFirst(s);
    if s[0] == QUOTE {
      QuoteStays(s);
      LexEndSound(s);
      hide LexState;
      NotName(s);
    } else {
      StringQuoted(s);
      LexInert(s);
    }
  }

  lemma StringQuoted(s: bytes)
    ensures IsString(s) ==> s[0] == QUOTE
  {
  }

  lemma NotName(s: bytes)
    requires s != [] && s[0] == QUOTE
    ensures !IsName(s)
  {
  }

  // ---- Trees ----

  /** The tree without white space, its literals escaped. */
  function Squeeze(v: Val, html: bool): Val {
    match v
    case Lit(text) => Lit(Escape(text, html))
    case Arr(_, elems) => Arr([], SqueezeElems(elems, html))
    case Obj(_, members) => Obj([], SqueezeMembers(members, html))
  }

  function SqueezeElem(e: Elem, html: bool): Elem {
    Elem([], Squeeze(e.val, html), [])
  }

  function SqueezeElems(es: seq<Elem>, html: bool): (r: seq<Elem>)
    ensures |r| == |es| && forall i :: 0 <= i < |es| ==> r[i] == SqueezeElem(es[i], html)
  {
    seq(|es|, i requires 0 <= i < |es| => SqueezeElem(es[i], html))
  }

  function SqueezeMembers(ms: seq<Member>, html: bool): (r: seq<Member>)
    ensures |r| == |ms| && forall i :: 0 <= i < |ms| ==> r[i] == SqueezeMember(ms[i], html)
  {
    seq(|ms|, i requires 0 <= i < |ms| => SqueezeMember(ms[i], html))
  }

  function SqueezeMember(m: Member, html: bool): Member {
    Member([], Escape(m.key, html), [], [], Squeeze(m.val, html), [])
  }

  lemma {:induction false} SqueezeWf(v: Val, html: bool)
    requires WfVal(v)
    ensures WfVal(Squeeze(v, html))
  {
    match v
    case Lit(text) =>
      ScalarFirst(text);
      hide IsScalar, Escape;
      if text[0] == QUOTE {
        EscapeString(text, html);
        StringIsScalar(Escape(text, html));
      } else {
        EscapeOther(text, html);
      }
    case Arr(_, elems) =>
      forall i | 0 <= i < |elems| ensures WfElem(SqueezeElem(elems[i], html)) {
        assert WfElem(elems[i]);
        SqueezeWf(elems[i].val, html);
      }
      hide WfElem;
    case Obj(_, members) =>
      forall i | 0 <= i < |members| ensures WfMember(SqueezeMember(members[i], html)) {
        assert WfMember(members[i]);
        SqueezeWf(members[i].val, html);
        EscapeString(members[i].key, html);
      }
      hide WfMember;
  }

  lemma StringIsScalar(s: bytes)
    requires IsString(s)
    ensures IsScalar(s)
  {
  }

  /** Stripping a squeezed tree changes nothing. */
  lemma {:induction false} StripSqueezed(v: Val, html: bool)
    ensures Strip(Squeeze(v, html)) == Squeeze(v, html)
  {
    match v
    case Lit(_) =>
    case Arr(_, elems) =>
      var es := SqueezeElems(elems, html);
      forall i | 0 <= i < |es| ensures StripElem(es[i]) == es[i] {
        StripSqueezed(elems[i].val, html);
      }
      assert StripElems(es) == es;
    case Obj(_, members) =>
      var ms := SqueezeMembers(members, html);
      forall i | 0 <= i < |ms| ensures StripMember(ms[i]) == ms[i] {
        StripSqueezed(members[i].val, html);
      }
      assert StripMembers(ms) == ms;
  }

  lemma {:induction false} SqueezeDenotes(v: Val, html: bool)
    requires WfVal(v)
    ensures Denote(Squeeze(v, html)) == Denote(v)
  {
    match v
    case Lit(text) =>
      LitDenotes(text, html);
    case Arr(_, elems) =>
      forall i | 0 <= i < |elems| ensures Denote(Squeeze(elems[i].val, html)) == Denote(elems[i].val) {
        assert WfElem(elems[i]);
        SqueezeDenotes(elems[i].val, html);
      }
      assert Denote(Squeeze(v, html)).items == Denote(v).items;
    case Obj(_, members) =>
      forall i | 0 <= i < |members|
        ensures Denote(Squeeze(members[i].val, html)) == Denote(members[i].val)
             && StringOf(Escape(members[i].key, html)) == StringOf(members[i].key)
      {
        assert WfMember(members[i]);
        SqueezeDenotes(members[i].val, html);
        EscapeString(members[i].key, html);
      }
      SameEntries(members, Squeeze(v, html).members);
  }

  lemma LitDenotes(text: bytes, html: bool)
    requires IsScalar(text)
    ensures Denote(Lit(Escape(text, html))) == Denote(Lit(text))
  {
    ScalarFirst(text);
    hide IsScalar, Escape;
    if text[0] == QUOTE {
      EscapeString(text, html);
      StringQuoted(Escape(text, html));
      hide IsString, StringOf;
    } else {
      EscapeOther(text, html);
    }
  }

  lemma {:induction false} SameEntries(ms: seq<Member>, ms': seq<Member>)
    requires |ms| == |ms'|
    requires forall i :: 0 <= i < |ms| ==> StringOf(ms[i].key) == StringOf(ms'[i].key) && Denote(ms[i].val) == Denote(ms'[i].val)
    ensures Entries(ms) == Entries(ms')
  {
    if ms != [] {
      var n := |ms| - 1;
      SameEntries(ms[..n], ms'[..n]);
      assert StringOf(ms[n].key) == StringOf(ms'[n].key) && Denote(ms[n].val) == Denote(ms'[n].val);
    }
  }

  // ---- The bytes of the squeezed tree ----

  lemma EscapeAround(a: bytes, c: byte, b: bytes, html: bool)
    requires c == COMMA || c == COLON
    ensures Escape(a + [c] + b, html) == Escape(a, html) + [c] + Escape(b, html)
  {
    EscapeConcat(a, [c] + b, html);
    InertThen([c], b, html);
    hide Escape;
    assert a + [c] + b == a + ([c] + b);
  }

  lemma EscapeBracketed(open: byte, inner: bytes, close: byte, html: bool)
    requires open < 0x80 && !IsHtml(open) && close < 0x80 && !IsHtml(close)
    ensures Escape([open] + inner + [close], html) == [open] + Escape(inner, html) + [close]
  {
    EscapeConcat([open] + inner, [close], html);
    InertThen([open], inner, html);
    InertThen([close], [], html);
    assert [close] + [] == [close];
  }

  lemma {:induction false} SqueezeText(v: Val, html: bool)
    ensures Escape(Text(Strip(v)), html) == Text(Squeeze(v, html))
  {
    match v
    case Lit(_) =>
    case Arr(_, elems) =>
      if elems != [] { SqueezeElemsText(elems, html); }
      EscapeBracketed(LBRACK, if elems == [] then [] else ElemsText(StripElems(elems)), RBRACK, html);
    case Obj(_, members) =>
      if members != [] { SqueezeMembersText(members, html); }
      EscapeBracketed(LBRACE, if members == [] then [] else MembersText(StripMembers(members)), RBRACE, html);
  }

  lemma {:induction false} SqueezeElemsText(es: seq<Elem>, html: bool)
    requires es != []
    ensures Escape(ElemsText(StripElems(es)), html) == ElemsText(SqueezeElems(es, html))
  {
    var n := |es| - 1;
    SqueezeText(es[n].val, html);
    BareElem(Strip(es[n].val));
    BareElem(Squeeze(es[n].val, html));
    hide Escape, ElemText, Text;
    if n > 0 {
      assert StripElems(es)[..n] == StripElems(es[..n]);
      assert SqueezeElems(es, html)[..n] == SqueezeElems(es[..n], html);
      SqueezeElemsText(es[..n], html);
      EscapeAround(ElemsText(StripElems(es[..n])), COMMA, Text(Strip(es[n].val)), html);
    } else {
      assert ElemsText(StripElems(es)) == Text(Strip(es[0].val));
    }
  }

  lemma {:induction false} SqueezeMemberText(m: Member, html: bool)
    ensures Escape(MemberText(StripMember(m)), html) == MemberText(SqueezeMember(m, html))
  {
    SqueezeText(m.val, html);
    BareMember(m.key, Strip(m.val));
    BareMember(Escape(m.key, html), Squeeze(m.val, html));
    hide Escape, MemberText, Text;
    EscapeAround(m.key, COLON, Text(Strip(m.val)), html);
  }

  lemma {:induction false} SqueezeMembersText(ms: seq<Member>, html: bool)
    requires ms != []
    ensures Escape(MembersText(StripMembers(ms)), html) == MembersText(SqueezeMembers(ms, html))
  {
    hide *;
    var n := |ms| - 1;
    SqueezeMemberText(ms[n], html);
    MembersTextSnoc(StripMembers(ms));
    MembersTextSnoc(SqueezeMembers(ms, html));
    if n > 0 {
      assert StripMembers(ms)[..n] == StripMembers(ms[..n]);
      assert SqueezeMembers(ms, html)[..n] == SqueezeMembers(ms[..n], html);
      SqueezeMembersText(ms[..n], html);
      EscapeAround(MembersText(StripMembers(ms[..n])), COMMA, MemberText(StripMember(ms[n])), html);
    }
  }

  // ---- Main results ----

  /** Compacting a text in either mode gives a text without white space that denotes the same value. */
  lemma CompactMeaning(src: bytes, lead: bytes, v: Val, trail: bytes, escape: bool)
    requires IsText(src, lead, v, trail)
    ensures IsText(Compacted(src, escape), [], Squeeze(v, escape), [])
    ensures Valid(Compacted(src, escape)) && Denote(Squeeze(v, escape)) == Denote(v)
  {
    SignificantText(src, lead, v, trail);
    SqueezeText(v, escape);
    SqueezeWf(v, escape);
    SqueezeDenotes(v, escape);
    hide Escape, Text, Squeeze, WfVal, Denote, Valid, Significant, Strip;
    var d := Compacted(src, escape);
    assert d == [] + Text(Squeeze(v, escape)) + [];
    assert IsText(d, [], Squeeze(v, escape), []);
    ValidIffText(d);
  }

  /** Compacting twice is compacting once, in the stronger of the two modes. */
  lemma CompactTwice(src: bytes, escape: bool, escape': bool)
    requires Valid(src)
    ensures Compacted(Compacted(src, escape), escape') == Compacted(src, escape || escape')
  {
    hide Valid, Escape, Significant, Squeeze, Strip, IsText;
    ValidIffText(src);
    var lead, v, trail :| IsText(src, lead, v, trail);
    var d := Compacted(src, escape);
    CompactMeaning(src, lead, v, trail, escape);
    SignificantText(d, [], Squeeze(v, escape), []);
    StripSqueezed(v, escape);
    TextIs(d, Squeeze(v, escape));
    EscapeTwice(Significant(src), escape, escape');
  }

  lemma TextIs(d: bytes, v: Val)
    requires IsText(d, [], v, [])
    ensures d == Text(v)
  {
    hide Text, WfVal;
  }

  /** compact(src, true) is HTMLEscape after Compact. */
  lemma CompactThenEscape(src: bytes)
    ensures Compacted(src, true) == Escape(Compacted(src, false), true)
  {
    EscapeTwice(Significant(src), false, true);
  }
}
