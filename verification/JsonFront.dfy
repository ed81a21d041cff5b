/** Arrays and objects read from the front: what is left of one after some of its parts. */
module JsonFront {
  import opened Bytes
  import opened JsonScanner
  import opened JsonGrammar

  // ---- Lists of elements and members from the front ----

  function ElemsFrom(es: seq<Elem>): bytes
    requires es != []
  {
    ElemText(es[0]) + if |es| == 1 then [] else [COMMA] + ElemsFrom(es[1..])
  }

  function MembersFrom(ms: seq<Member>): bytes
    requires ms != []
  {
    MemberText(ms[0]) + if |ms| == 1 then [] else [COMMA] + MembersFrom(ms[1..])
  }

  lemma {:induction false} ElemsFromSnoc(es: seq<Elem>, e: Elem)
    requires es != []
    ensures ElemsFrom(es + [e]) == ElemsFrom(es) + [COMMA] + ElemText(e)
  {
    hide ElemText;
    var all := es + [e];
    if |es| == 1 {
      assert all[1..] == [e];
    } else {
      ElemsFromSnoc(es[1..], e);
      assert all[1..] == es[1..] + [e];
    }
  }

  lemma {:induction false} ElemsAgree(es: seq<Elem>)
    requires es != []
    ensures ElemsText(es) == ElemsFrom(es)
  {
    hide ElemText;
    if |es| > 1 {
      var n := |es| - 1;
      ElemsAgree(es[..n]);
      ElemsFromSnoc(es[..n], es[n]);
      assert es == es[..n] + [es[n]];
    }
  }

  lemma {:induction false} MembersFromSnoc(ms: seq<Member>, m: Member)
    requires ms != []
    ensures MembersFrom(ms + [m]) == MembersFrom(ms) + [COMMA] + MemberText(m)
  {
    hide MemberText;
    var all := ms + [m];
    if |ms| == 1 {
      assert all[1..] == [m];
    } else {
      MembersFromSnoc(ms[1..], m);
      assert all[1..] == ms[1..] + [m];
    }
  }

  lemma {:induction false} MembersAgree(ms: seq<Member>)
    requires ms != []
    ensures MembersText(ms) == MembersFrom(ms)
  {
    hide MemberText;
    if |ms| > 1 {
      var n := |ms| - 1;
      MembersAgree(ms[..n]);
      MembersFromSnoc(ms[..n], ms[n]);
      assert ms == ms[..n] + [ms[n]];
    }
  }

  // ---- What is left to read ----

  /** The byte after a value in an array or object. */
  predicate IsSeparator(c: byte) {
    c == COMMA || c == RBRACK || c == RBRACE
  }

  /** What is left of an array, when `es` are the elements still to come. */
  function ArrayRest(gap: bytes, es: seq<Elem>): bytes {
    (if es == [] then gap else ElemsFrom(es)) + [RBRACK]
  }

  lemma ArrayText(v: Val)
    requires v.Arr?
    ensures Text(v) == [LBRACK] + ArrayRest(v.gap, v.elems)
  {
    if v.elems != [] { ElemsAgree(v.elems); }
  }

  function AfterElem(es: seq<Elem>): byte
    requires es != []
  {
    if |es| == 1 then RBRACK else COMMA
  }

  /** What follows the separator after the first of `es`. */
  function ArrayTail(gap: bytes, es: seq<Elem>, rest: bytes): bytes
    requires es != []
  {
    if |es| == 1 then rest else ArrayRest(gap, es[1..]) + rest
  }

  lemma ArraySplit(gap: bytes, es: seq<Elem>, rest: bytes)
    requires es != []
    ensures ArrayRest(gap, es) + rest
         == es[0].before + (Text(es[0].val) + (es[0].after + ([AfterElem(es)] + ArrayTail(gap, es, rest))))
  {
    hide Text;
  }

  /** What is left of an object, when `ms` are the members still to come. */
  function ObjectRest(gap: bytes, ms: seq<Member>): bytes {
    (if ms == [] then gap else MembersFrom(ms)) + [RBRACE]
  }

  lemma ObjectText(v: Val)
    requires v.Obj?
    ensures Text(v) == [LBRACE] + ObjectRest(v.gap, v.members)
  {
    if v.members != [] { MembersAgree(v.members); }
  }

  function AfterMember(ms: seq<Member>): byte
    requires ms != []
  {
    if |ms| == 1 then RBRACE else COMMA
  }

  function ObjectTail(gap: bytes, ms: seq<Member>, rest: bytes): bytes
    requires ms != []
  {
    if |ms| == 1 then rest else ObjectRest(gap, ms[1..]) + rest
  }

  /** A member's value and what follows it. */
  function ValuePart(gap: bytes, ms: seq<Member>, rest: bytes): bytes
    requires ms != []
  {
    ms[0].gap + (Text(ms[0].val) + (ms[0].after + ([AfterMember(ms)] + ObjectTail(gap, ms, rest))))
  }

  /** A member from its key on. */
  function KeyPart(m: Member, valuePart: bytes): bytes {
    m.key + (m.mid + ([COLON] + valuePart))
  }

  lemma ObjectSplit(gap: bytes, ms: seq<Member>, rest: bytes)
    requires ms != []
    ensures ObjectRest(gap, ms) + rest == ms[0].before + KeyPart(ms[0], ValuePart(gap, ms, rest))
  {
    var m, tail := ms[0], [AfterMember(ms)] + ObjectTail(gap, ms, rest);
    assert ObjectRest(gap, ms) + rest == MemberText(m) + tail;
    hide ObjectRest, ObjectTail, Text;
    MemberSplit(m, tail);
  }

  lemma MemberSplit(m: Member, tail: bytes)
    ensures MemberText(m) + tail == m.before + (m.key + (m.mid + ([COLON] + (m.gap + (Text(m.val) + (m.after + tail))))))
  {
    hide Text;
  }
}
