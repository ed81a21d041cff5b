/**
 What the stream decoder accepts: calls of Token and Decode that return no error and come back to the top level
 have consumed a sequence of texts, and have returned the flattenings of these in order; no others have.
 */
module JsonTokenTexts {
  import opened Options
  import opened Bytes
  import opened JsonScanner
  import opened JsonLexemes
  import opened JsonGrammar
  import opened JsonParse
  import opened JsonMeaning
  import opened JsonNextValue
  import opened JsonTokens

  // ---- Sequences of texts ----

  /** A value of the stream, the white space before it, and how it is read. */
  datatype Part = Part(lead: bytes, v: Val, plan: Plan)

  /** `u` is the values `ps`, each the first one of what is left, and then `rest`. */
  ghost predicate Splits(u: bytes, ps: seq<Part>, rest: bytes, eof: bool)
    decreases |ps|
  {
    if ps == [] then u == rest
    else
      var n := |ps[0].lead + Text(ps[0].v)|;
      IsFirst(u, n, ps[0].lead, ps[0].v, eof) && Splits(u[n..], ps[1..], rest, eof)
  }

  function CallsOf(ps: seq<Part>): seq<Call> {
    if ps == [] then [] else Mixed(ps[0].v, ps[0].plan) + CallsOf(ps[1..])
  }

  lemma {:induction false} SplitsSnoc(u: bytes, ps: seq<Part>, base: bytes, p: Part, rest: bytes, eof: bool)
    requires Splits(u, ps, base, eof)
    requires IsFirst(base, |p.lead + Text(p.v)|, p.lead, p.v, eof) && rest == base[|p.lead + Text(p.v)|..]
    ensures Splits(u, ps + [p], rest, eof)
    decreases |ps|
  {
    hide WfVal, LexState, Text;
    if ps == [] {
      assert (ps + [p])[1..] == [];
    } else {
      SplitsSnoc(u[|ps[0].lead + Text(ps[0].v)|..], ps[1..], base, p, rest, eof);
      assert (ps + [p])[1..] == ps[1..] + [p];
    }
  }

  lemma {:induction false} CallsSnoc(ps: seq<Part>, p: Part)
    ensures CallsOf(ps + [p]) == CallsOf(ps) + Mixed(p.v, p.plan)
  {
    hide Mixed;
    if ps == [] {
      assert (ps + [p])[1..] == [];
    } else {
      CallsSnoc(ps[1..], p);
      assert (ps + [p])[1..] == ps[1..] + [p];
    }
  }

  // ---- The calls of an unfinished value ----

  function KeyOf(key: bytes): Call {
    ByToken(Value(Str(StringOf(key))))
  }

  /** How many elements or members are finished. */
  function Size(f: Frame): nat {
    if f.InArr? then |f.elems| else |f.members|
  }

  function FrameCalls(f: Frame, ps: seq<Plan>): seq<Call> {
    match f
    case InArr(_, elems) => [ByToken(Delim(LBRACK))] + MixedElems(elems, ps)
    case InKey(_, members) => [ByToken(Delim(LBRACE))] + MixedMembers(members, ps)
    case InVal(_, members, _, key, _) => [ByToken(Delim(LBRACE))] + MixedMembers(members, ps) + [KeyOf(key)]
  }

  /** The calls that have read the open arrays and objects so far; `plans` says how their parts were read. */
  function FramesCalls(fs: seq<Frame>, plans: seq<seq<Plan>>): seq<Call>
    requires |plans| == |fs|
  {
    if fs == [] then []
    else FramesCalls(fs[..|fs| - 1], plans[..|fs| - 1]) + FrameCalls(fs[|fs| - 1], plans[|fs| - 1])
  }

  function FocusCalls(fo: Focus, plan: Plan): seq<Call> {
    match fo
    case Whole(_, val, _) => Mixed(val, plan)
    case Keyed(_, key, _) => [KeyOf(key)]
    case _ => []
  }

  predicate Planned(fs: seq<Frame>, plans: seq<seq<Plan>>) {
    |plans| == |fs| && forall i :: 0 <= i < |fs| ==> |plans[i]| == Size(fs[i])
  }

  lemma {:induction false} MixedElemsSnoc(es: seq<Elem>, ps: seq<Plan>, e: Elem, p: Plan)
    requires |ps| == |es|
    ensures MixedElems(es + [e], ps + [p]) == MixedElems(es, ps) + Mixed(e.val, p)
  {
    hide Mixed;
    if es == [] {
      assert (es + [e])[1..] == [];
    } else {
      MixedElemsSnoc(es[1..], ps[1..], e, p);
      assert (es + [e])[1..] == es[1..] + [e] && (ps + [p])[1..] == ps[1..] + [p];
    }
  }

  lemma {:induction false} MixedMembersSnoc(ms: seq<Member>, ps: seq<Plan>, m: Member, p: Plan)
    requires |ps| == |ms|
    ensures MixedMembers(ms + [m], ps + [p]) == MixedMembers(ms, ps) + [KeyOf(m.key)] + Mixed(m.val, p)
  {
    hide Mixed, StringOf;
    if ms == [] {
      assert (ms + [m])[1..] == [];
    } else {
      MixedMembersSnoc(ms[1..], ps[1..], m, p);
      assert (ms + [m])[1..] == ms[1..] + [m] && (ps + [p])[1..] == ps[1..] + [p];
    }
  }

  lemma FramesCallsPush(fs: seq<Frame>, plans: seq<seq<Plan>>, f: Frame, ps: seq<Plan>)
    requires |plans| == |fs|
    ensures FramesCalls(fs + [f], plans + [ps]) == FramesCalls(fs, plans) + FrameCalls(f, ps)
  {
    hide FrameCalls;
    assert (fs + [f])[..|fs|] == fs && (plans + [ps])[..|fs|] == plans;
  }

  // ---- The states of the token machine ----

  /** The state in which a value, a key or an empty closing bracket is due inside the innermost frame. */
  function GapState(fs: seq<Frame>): TokenState {
    if fs == [] then AtTop
    else
      match fs[|fs| - 1]
      case InArr(_, elems) => if elems == [] then AtArrayStart else AtArrayValue
      case InKey(_, members) => if members == [] then AtObjectStart else AtObjectKey
      case InVal(_, _, _, _, _) => AtObjectValue
  }

  /** Each open array or object has set aside the state before it. */
  predicate Stacked(stack: seq<TokenState>, fs: seq<Frame>) {
    |stack| == |fs| && forall i :: 0 <= i < |fs| ==> stack[i] == GapState(fs[..i])
  }

  predicate Shaped(q: TokenState, fs: seq<Frame>, fo: Focus) {
    match fo
    case Gap(_) => q == GapState(fs)
    case Whole(_, _, _) => fs != [] && !ExpectsKey(fs) && q == ValueEnd(GapState(fs))
    case Keyed(_, _, _) => ExpectsKey(fs) && q == AtObjectColon
    case Lexing(_, _) => false
  }

  /** The values read to their end, the stream after them, and the partial derivation of the next one. */
  datatype Track = Track(ps: seq<Part>, base: bytes, fs: seq<Frame>, plans: seq<seq<Plan>>, fo: Focus, plan: Plan)

  /** The calls `cs` have come from `u` to `s`, and `t` is what they have read. */
  ghost predicate Tracks(u: bytes, eof: bool, s: Stream, cs: seq<Call>, t: Track) {
    && Splits(u, t.ps, t.base, eof)
    && t.base == Spelled(t.fs, t.fo) + s.unread
    && Planned(t.fs, t.plans)
    && cs == CallsOf(t.ps) + (FramesCalls(t.fs, t.plans) + FocusCalls(t.fo, t.plan))
    && Shaped(s.state, t.fs, t.fo) && Stacked(s.stack, t.fs)
    && WfFrames(t.fs) && WfFocus(t.fo)
  }

  /** No white space has been read at the top level that no value follows. */
  predicate Rested(t: Track) {
    t.fs == [] ==> t.fo == Gap([])
  }

  // ---- White space ----

  function Spaced(fo: Focus, ws: bytes): Focus {
    match fo
    case Gap(space) => Gap(space + ws)
    case Whole(_, _, after) => fo.(after := after + ws)
    case Keyed(_, _, mid) => fo.(mid := mid + ws)
    case Lexing(_, _) => fo
  }

  lemma SpacedIs(fo: Focus, plan: Plan, ws: bytes)
    requires WfFocus(fo) && AllSpace(ws) && !fo.Lexing?
    ensures WfFocus(Spaced(fo, ws)) && FocusText(Spaced(fo, ws)) == FocusText(fo) + ws
    ensures FocusCalls(Spaced(fo, ws), plan) == FocusCalls(fo, plan)
  {
    hide WfVal, IsString, Text, Mixed, StringOf;
    match fo
    case Gap(space) =>
    case Whole(before, val, after) => Assoc(before + Text(val), after, ws);
    case Keyed(before, key, mid) => Assoc(before + key, mid, ws);
    case Lexing(_, _) =>
  }

  lemma SpacesTracked(u: bytes, eof: bool, s: Stream, cs: seq<Call>, t: Track, ws: bytes, w: bytes)
    requires Tracks(u, eof, s, cs, t) && s.unread == ws + w && AllSpace(ws)
    ensures Tracks(u, eof, s.(unread := w), cs, t.(fo := Spaced(t.fo, ws)))
  {
    hide Splits, CallsOf, FramesCalls, FocusCalls, FramesText, FocusText, Stacked, WfFrames, WfFocus, Planned;
    SpacedIs(t.fo, t.plan, ws);
    Assoc(FramesText(t.fs), FocusText(t.fo), ws);
    Assoc(Spelled(t.fs, t.fo), ws, w);
  }

  // ---- Separators ----

  /** The innermost frame takes up the focus and a separator. */
  lemma Absorbed(u: bytes, eof: bool, s: Stream, cs: seq<Call>, t: Track, c: byte, w: bytes, f: Frame, ps: seq<Plan>)
    requires Tracks(u, eof, s, cs, t) && s.unread == [c] + w && t.fs != []
    requires var n := |t.fs| - 1;
             && FrameText(f) == FrameText(t.fs[n]) + FocusText(t.fo) + [c]
             && FrameCalls(f, ps) == FrameCalls(t.fs[n], t.plans[n]) + FocusCalls(t.fo, t.plan)
    requires WfFrame(f) && |ps| == Size(f) && GapState([f]) == AfterSeparator(s.state)
    ensures var n := |t.fs| - 1;
            Tracks(u, eof, s.(unread := w, state := AfterSeparator(s.state)), cs,
                   t.(fs := t.fs[..n] + [f], plans := t.plans[..n] + [ps], fo := Gap([])))
  {
    var n := |t.fs| - 1;
    AbsorbedText(s, t, c, w, f);
    AbsorbedCalls(t, f, ps);
    AbsorbedShape(s, t, f, ps);
    hide Splits, CallsOf, FramesCalls, FrameCalls, FocusCalls, FramesText, Spelled, Stacked, WfFrames, WfFrame, Planned;
  }

  lemma AbsorbedText(s: Stream, t: Track, c: byte, w: bytes, f: Frame)
    requires t.base == Spelled(t.fs, t.fo) + s.unread && s.unread == [c] + w && t.fs != []
    requires FrameText(f) == FrameText(t.fs[|t.fs| - 1]) + FocusText(t.fo) + [c]
    ensures t.base == Spelled(t.fs[..|t.fs| - 1] + [f], Gap([])) + w
  {
    hide *;
    Absorbs(t.fs, t.fo, f, c);
    Assoc(Spelled(t.fs, t.fo), [c], w);
  }

  lemma AbsorbedCalls(t: Track, f: Frame, ps: seq<Plan>)
    requires |t.plans| == |t.fs| && t.fs != []
    requires var n := |t.fs| - 1; FrameCalls(f, ps) == FrameCalls(t.fs[n], t.plans[n]) + FocusCalls(t.fo, t.plan)
    ensures var n := |t.fs| - 1;
            && FramesCalls(t.fs[..n] + [f], t.plans[..n] + [ps]) + FocusCalls(Gap([]), t.plan)
               == FramesCalls(t.fs, t.plans) + FocusCalls(t.fo, t.plan)
  {
    var n := |t.fs| - 1;
    hide FrameCalls;
    FramesCallsPush(t.fs[..n], t.plans[..n], f, ps);
  }

  lemma AbsorbedShape(s: Stream, t: Track, f: Frame, ps: seq<Plan>)
    requires t.fs != [] && Planned(t.fs, t.plans) && Stacked(s.stack, t.fs) && WfFrames(t.fs)
    requires WfFrame(f) && |ps| == Size(f)
    ensures var n := |t.fs| - 1;
            && Planned(t.fs[..n] + [f], t.plans[..n] + [ps]) && Stacked(s.stack, t.fs[..n] + [f]) && WfFrames(t.fs[..n] + [f])
            && GapState(t.fs[..n] + [f]) == GapState([f])
  {
    hide WfFrame;
    var n := |t.fs| - 1;
    forall i | 0 <= i < |t.fs| ensures s.stack[i] == GapState((t.fs[..n] + [f])[..i]) {
      assert (t.fs[..n] + [f])[..i] == t.fs[..i];
    }
  }

  lemma TrackParts(u: bytes, eof: bool, s: Stream, cs: seq<Call>, t: Track)
    requires Tracks(u, eof, s, cs, t)
    ensures Splits(u, t.ps, t.base, eof) && t.base == Spelled(t.fs, t.fo) + s.unread
    ensures Planned(t.fs, t.plans) && Shaped(s.state, t.fs, t.fo) && Stacked(s.stack, t.fs) && WfFrames(t.fs) && WfFocus(t.fo)
    ensures |t.plans| == |t.fs| == |s.stack|
    ensures cs == CallsOf(t.ps) + (FramesCalls(t.fs, t.plans) + FocusCalls(t.fo, t.plan))
    ensures t.fs != [] ==>
      var n := |t.fs| - 1;
      && |t.plans[n]| == Size(t.fs[n]) && WfFrame(t.fs[n]) && AllSpace(t.fs[n].before)
      && WfFrames(t.fs[..n]) && !ExpectsKey(t.fs[..n]) && Planned(t.fs[..n], t.plans[..n])
  {
    hide Splits, CallsOf, FramesCalls, FocusCalls, FramesText, FocusText, WfFocus, WfVal, WfElem, WfMember;
    assert t.fs != [] ==> WfFrame(t.fs[|t.fs| - 1]);
  }

  /** Where a comma is due, a value in an array or object has just ended. */
  lemma CommaShape(q: TokenState, fs: seq<Frame>, fo: Focus)
    requires Shaped(q, fs, fo) && Separator(q) == Some(COMMA)
    ensures fs != [] && fo.Whole? && (fs[|fs| - 1].InArr? || fs[|fs| - 1].InVal?)
    ensures AfterSeparator(q) == if fs[|fs| - 1].InArr? then AtArrayValue else AtObjectKey
  {
  }

  lemma ColonShape(q: TokenState, fs: seq<Frame>, fo: Focus)
    requires Shaped(q, fs, fo) && Separator(q) == Some(COLON)
    ensures fs != [] && fo.Keyed? && fs[|fs| - 1].InKey? && AfterSeparator(q) == AtObjectValue
  {
  }

  lemma ElemCalls(top: Frame, ps: seq<Plan>, fo: Focus, plan: Plan, f: Frame)
    requires top.InArr? && fo.Whole? && |ps| == Size(top)
    requires f == InArr(top.before, top.elems + [Elem(fo.before, fo.val, fo.after)])
    ensures FrameCalls(f, ps + [plan]) == FrameCalls(top, ps) + FocusCalls(fo, plan)
    ensures |ps + [plan]| == Size(f) && GapState([f]) == AtArrayValue
  {
    hide Mixed;
    MixedElemsSnoc(top.elems, ps, Elem(fo.before, fo.val, fo.after), plan);
  }

  lemma MemberCalls(top: Frame, ps: seq<Plan>, fo: Focus, plan: Plan, f: Frame)
    requires top.InVal? && fo.Whole? && |ps| == Size(top)
    requires f == InKey(top.before, top.members + [MemberOf(top, fo)])
    ensures FrameCalls(f, ps + [plan]) == FrameCalls(top, ps) + FocusCalls(fo, plan)
    ensures |ps + [plan]| == Size(f) && GapState([f]) == AtObjectKey
  {
    hide Mixed, StringOf;
    MixedMembersSnoc(top.members, ps, MemberOf(top, fo), plan);
  }

  lemma KeyCalls(top: Frame, ps: seq<Plan>, fo: Focus, plan: Plan, f: Frame)
    requires top.InKey? && fo.Keyed? && |ps| == Size(top)
    requires f == InVal(top.before, top.members, fo.before, fo.key, fo.mid)
    ensures FrameCalls(f, ps) == FrameCalls(top, ps) + FocusCalls(fo, plan)
    ensures |ps| == Size(f) && GapState([f]) == AtObjectValue
  {
    hide Mixed, StringOf;
  }

  /** A separator that is due leads to the gap after it. */
  lemma SeparatorTracked(u: bytes, eof: bool, s: Stream, cs: seq<Call>, t: Track, c: byte, w: bytes) returns (t': Track)
    requires Tracks(u, eof, s, cs, t) && s.unread == [c] + w && Separator(s.state) == Some(c)
    ensures Tracks(u, eof, s.(unread := w, state := AfterSeparator(s.state)), cs, t') && t'.fs != []
  {
    SeparatorBytes(s.state);
    hide *;
    TrackParts(u, eof, s, cs, t);
    if c == COMMA { CommaShape(s.state, t.fs, t.fo); } else { ColonShape(s.state, t.fs, t.fo); }
    var n := |t.fs| - 1;
    var top, ps := t.fs[n], t.plans[n];
    var f: Frame;
    if c == COLON {
      f := InVal(top.before, top.members, t.fo.before, t.fo.key, t.fo.mid);
      KeyAbsorbed(top, t.fo, f);
      KeyCalls(top, ps, t.fo, t.plan, f);
    } else if top.InArr? {
      f := InArr(top.before, top.elems + [Elem(t.fo.before, t.fo.val, t.fo.after)]);
      ElemAbsorbed(top, t.fo, f);
      ElemCalls(top, ps, t.fo, t.plan, f);
      ps := ps + [t.plan];
    } else {
      f := InKey(top.before, top.members + [MemberOf(top, t.fo)]);
      MemberAbsorbed(top, t.fo, f);
      MemberCalls(top, ps, t.fo, t.plan, f);
      ps := ps + [t.plan];
    }
    Absorbed(u, eof, s, cs, t, c, w, f, ps);
    t' := t.(fs := t.fs[..n] + [f], plans := t.plans[..n] + [ps], fo := Gap([]));
  }

  lemma SeparatorBytes(q: TokenState)
    ensures Separator(q) == None || Separator(q) == Some(COMMA) || Separator(q) == Some(COLON)
    ensures COMMA != COLON
  {
  }

  // ---- Values ----

  /** The bytes after a literal do not go on with it. */
  ghost predicate Stops(v: Val, rest: bytes, eof: bool) {
    v.Lit? ==> if rest != [] then LexState(v.text + [rest[0]]) == None else eof
  }

  /** The value `p` has just ended inside the frames of `t`. */
  ghost predicate Ends(u: bytes, eof: bool, s: Stream, cs: seq<Call>, t: Track, p: Part) {
    && Splits(u, t.ps, t.base, eof)
    && t.base == FramesText(t.fs) + (p.lead + Text(p.v)) + s.unread
    && Planned(t.fs, t.plans)
    && cs == CallsOf(t.ps) + (FramesCalls(t.fs, t.plans) + Mixed(p.v, p.plan))
    && s.state == ValueEnd(GapState(t.fs)) && Stacked(s.stack, t.fs)
    && WfFrames(t.fs) && !ExpectsKey(t.fs)
    && AllSpace(p.lead) && WfVal(p.v) && Stops(p.v, s.unread, eof)
  }

  /** A value that has ended is in focus, or at the top level it is one part more. */
  lemma ValueTracked(u: bytes, eof: bool, s: Stream, cs: seq<Call>, t: Track, p: Part) returns (t': Track)
    requires Ends(u, eof, s, cs, t, p)
    ensures Tracks(u, eof, s, cs, t') && Rested(t')
  {
    if t.fs == [] {
      t' := Track(t.ps + [p], s.unread, [], [], Gap([]), p.plan);
      TopEnds(u, eof, s, cs, t, p);
      TopTracked(u, eof, s, cs, t');
    } else {
      t' := t.(fo := Focus.Whole(p.lead, p.v, []), plan := p.plan);
      InnerEnds(u, eof, s, cs, t, p);
    }
    hide *;
  }

  lemma TopTracked(u: bytes, eof: bool, s: Stream, cs: seq<Call>, t: Track)
    requires Splits(u, t.ps, s.unread, eof) && cs == CallsOf(t.ps) && s.state == AtTop && s.stack == []
    requires t.base == s.unread && t.fs == [] && t.plans == [] && t.fo == Gap([])
    ensures Tracks(u, eof, s, cs, t) && Rested(t)
  {
    hide Splits, CallsOf;
  }

  lemma InnerEnds(u: bytes, eof: bool, s: Stream, cs: seq<Call>, t: Track, p: Part)
    requires Ends(u, eof, s, cs, t, p) && t.fs != []
    ensures var t' := t.(fo := Focus.Whole(p.lead, p.v, []), plan := p.plan);
            Tracks(u, eof, s, cs, t') && Rested(t')
  {
    hide Splits, CallsOf, Mixed, Text, WfVal, Stops, FramesText, FramesCalls, Planned, Stacked, WfFrames, GapState, ExpectsKey;
    assert FocusText(Focus.Whole(p.lead, p.v, [])) == p.lead + Text(p.v);
  }

  lemma TopEnds(u: bytes, eof: bool, s: Stream, cs: seq<Call>, t: Track, p: Part)
    requires Ends(u, eof, s, cs, t, p) && t.fs == []
    ensures Splits(u, t.ps + [p], s.unread, eof) && cs == CallsOf(t.ps + [p])
    ensures s.state == AtTop && s.stack == []
  {
    hide Splits, CallsOf, Mixed, Text, WfVal, LexState;
    CallsSnoc(t.ps, p);
    var n := |p.lead + Text(p.v)|;
    assert t.base == p.lead + Text(p.v) + s.unread;
    assert t.base[..n] == p.lead + Text(p.v) && t.base[n..] == s.unread;
    assert s.unread != [] ==> t.base[n] == s.unread[0];
    SplitsSnoc(u, t.ps, t.base, p, s.unread, eof);
  }

  lemma GapShape(q: TokenState, fs: seq<Frame>, fo: Focus)
    requires Shaped(q, fs, fo) && ValueAllowed(q)
    ensures fo.Gap? && !ExpectsKey(fs) && q == GapState(fs)
  {
  }

  /** An opening bracket. */
  lemma OpeningTracked(u: bytes, eof: bool, s: Stream, cs: seq<Call>, t: Track, c: byte, w: bytes) returns (t': Track)
    requires Tracks(u, eof, s, cs, t) && s.unread == [c] + w && IsOpening(c) && ValueAllowed(s.state)
    ensures Tracks(u, eof, Inside(s, c, w), cs + [ByToken(Delim(c))], t') && t'.fs != []
  {
    hide *;
    TrackParts(u, eof, s, cs, t);
    GapShape(s.state, t.fs, t.fo);
    var f := if c == LBRACE then InKey(t.fo.space, []) else InArr(t.fo.space, []);
    OpenFrame(t.fo, c, f);
    OpenSpells(t.fs, t.fo.space, c, f);
    Assoc(Spelled(t.fs, t.fo), [c], w);
    OpenWf(t.fs, f);
    OpenCalls(t, c, f);
    OpenShape(s, t, f);
    InsideIs(s, c, w);
    t' := t.(fs := t.fs + [f], plans := t.plans + [[]], fo := Gap([]));
    GapTracked(u, eof, Inside(s, c, w), cs + [ByToken(Delim(c))], t');
  }

  lemma OpenFrame(fo: Focus, c: byte, f: Frame)
    requires fo.Gap? && WfFocus(fo) && IsOpening(c)
    requires f == if c == LBRACE then InKey(fo.space, []) else InArr(fo.space, [])
    ensures (c == LBRACE || c == LBRACK) && LBRACE != LBRACK && WfFrame(f) && Size(f) == 0 && fo == Gap(fo.space)
    ensures GapState([f]) == if c == LBRACK then AtArrayStart else AtObjectStart
  {
  }

  lemma OpenCalls(t: Track, c: byte, f: Frame)
    requires |t.plans| == |t.fs| && t.fo.Gap? && IsOpening(c)
    requires f == if c == LBRACE then InKey(t.fo.space, []) else InArr(t.fo.space, [])
    ensures CallsOf(t.ps) + (FramesCalls(t.fs, t.plans) + FocusCalls(t.fo, t.plan)) + [ByToken(Delim(c))]
         == CallsOf(t.ps) + (FramesCalls(t.fs + [f], t.plans + [[]]) + FocusCalls(Gap([]), t.plan))
  {
    hide *;
    FramesCallsPush(t.fs, t.plans, f, []);
    OpenPieces(t, c, f);
    OneCallMore(CallsOf(t.ps), FramesCalls(t.fs, t.plans), ByToken(Delim(c)));
  }

  lemma OpenPieces(t: Track, c: byte, f: Frame)
    requires t.fo.Gap? && IsOpening(c)
    requires f == if c == LBRACE then InKey(t.fo.space, []) else InArr(t.fo.space, [])
    ensures FrameCalls(f, []) == [ByToken(Delim(c))]
    ensures FocusCalls(t.fo, t.plan) == [] == FocusCalls(Gap([]), t.plan)
  {
  }

  lemma OneCallMore(done: seq<Call>, open: seq<Call>, c: Call)
    ensures done + (open + []) + [c] == done + (open + [c] + [])
  {
  }

  lemma GapTracked(u: bytes, eof: bool, s: Stream, cs: seq<Call>, t: Track)
    requires Splits(u, t.ps, t.base, eof) && t.base == Spelled(t.fs, t.fo) + s.unread && Planned(t.fs, t.plans)
    requires cs == CallsOf(t.ps) + (FramesCalls(t.fs, t.plans) + FocusCalls(t.fo, t.plan))
    requires t.fo == Gap([]) && s.state == GapState(t.fs) && Stacked(s.stack, t.fs) && WfFrames(t.fs)
    ensures Tracks(u, eof, s, cs, t)
  {
    hide Splits, Spelled, Planned, CallsOf, FramesCalls, FocusCalls, Stacked, WfFrames;
  }

  lemma OpenShape(s: Stream, t: Track, f: Frame)
    requires Planned(t.fs, t.plans) && Stacked(s.stack, t.fs) && s.state == GapState(t.fs) && Size(f) == 0
    ensures Planned(t.fs + [f], t.plans + [[]]) && Stacked(s.stack + [s.state], t.fs + [f])
    ensures GapState(t.fs + [f]) == GapState([f])
  {
    forall i | 0 <= i <= |t.fs| ensures (s.stack + [s.state])[i] == GapState((t.fs + [f])[..i]) {
      assert (t.fs + [f])[..i] == t.fs[..i];
      assert t.fs[..|t.fs|] == t.fs;
    }
  }

  /** Where a closing bracket may come, the innermost frame is empty or a value in it has just ended. */
  lemma CloseShape(q: TokenState, fs: seq<Frame>, fo: Focus, c: byte)
    requires Shaped(q, fs, fo) && IsClosing(c) && MayClose(q, c)
    ensures fs != []
    ensures c == RBRACK ==> fs[|fs| - 1].InArr? && (fo.Whole? || (fo.Gap? && fs[|fs| - 1].elems == []))
    ensures c == RBRACE ==> (fs[|fs| - 1].InVal? && fo.Whole?) || (fs[|fs| - 1].InKey? && fo.Gap? && fs[|fs| - 1].members == [])
  {
  }

  /** The array or object that a closing bracket completes. */
  lemma ClosedValue(top: Frame, ps: seq<Plan>, fo: Focus, plan: Plan, c: byte) returns (v: Val, ps': seq<Plan>)
    requires WfFrame(top) && WfFocus(fo) && |ps| == Size(top) && IsClosing(c)
    requires c == RBRACK ==> top.InArr? && (fo.Whole? || (fo.Gap? && top.elems == []))
    requires c == RBRACE ==> (top.InVal? && fo.Whole?) || (top.InKey? && fo.Gap? && top.members == [])
    ensures WfVal(v) && !v.Lit? && top.before + Text(v) == FrameText(top) + FocusText(fo) + [c]
    ensures Mixed(v, Parts(ps')) == FrameCalls(top, ps) + FocusCalls(fo, plan) + [ByToken(Delim(c))]
  {
    ByteKinds();
    ClosingBytes(c);
    if fo.Gap? {
      ps' := ps;
      v := if c == RBRACK then Arr(fo.space, []) else Obj(fo.space, []);
      EmptyText(top, fo.space, c);
      hide Text, FrameText, StringOf;
    } else if c == RBRACK {
      ps' := ps + [plan];
      v := Arr([], top.elems + [Elem(fo.before, fo.val, fo.after)]);
      ElemClosed(top, fo, v);
      ArrCalls(top, ps, fo, plan, v);
      hide *;
    } else {
      ps' := ps + [plan];
      v := Obj([], top.members + [MemberOf(top, fo)]);
      MemberClosed(top, fo, v);
      ObjCalls(top, ps, fo, plan, v);
      hide *;
    }
  }

  lemma ClosingBytes(c: byte)
    requires IsClosing(c)
    ensures c == RBRACK || c == RBRACE
  {
  }

  lemma ArrCalls(top: Frame, ps: seq<Plan>, fo: Focus, plan: Plan, v: Val)
    requires top.InArr? && fo.Whole? && |ps| == Size(top)
    requires v == Arr([], top.elems + [Elem(fo.before, fo.val, fo.after)])
    ensures Mixed(v, Parts(ps + [plan])) == FrameCalls(top, ps) + FocusCalls(fo, plan) + [ByToken(Delim(RBRACK))]
  {
    MixedArr(v, ps + [plan]);
    MixedElemsSnoc(top.elems, ps, Elem(fo.before, fo.val, fo.after), plan);
    hide Mixed, MixedElems;
  }

  lemma ObjCalls(top: Frame, ps: seq<Plan>, fo: Focus, plan: Plan, v: Val)
    requires top.InVal? && fo.Whole? && |ps| == Size(top)
    requires v == Obj([], top.members + [MemberOf(top, fo)])
    ensures Mixed(v, Parts(ps + [plan])) == FrameCalls(top, ps) + FocusCalls(fo, plan) + [ByToken(Delim(RBRACE))]
  {
    hide *;
    ObjPieces(top, ps, fo, plan);
    MixedObj(v, ps + [plan]);
    MixedMembersSnoc(top.members, ps, MemberOf(top, fo), plan);
    CallsGroup(ByToken(Delim(LBRACE)), MixedMembers(top.members, ps), KeyOf(top.key), Mixed(fo.val, plan), ByToken(Delim(RBRACE)));
  }

  lemma ObjPieces(top: Frame, ps: seq<Plan>, fo: Focus, plan: Plan)
    requires top.InVal? && fo.Whole?
    ensures FrameCalls(top, ps) == [ByToken(Delim(LBRACE))] + MixedMembers(top.members, ps) + [KeyOf(top.key)]
    ensures FocusCalls(fo, plan) == Mixed(fo.val, plan) && MemberOf(top, fo).key == top.key && MemberOf(top, fo).val == fo.val
    ensures |ps| == Size(top) ==> |ps| == |top.members|
  {
    hide Mixed, MixedMembers, KeyOf;
  }

  lemma CallsGroup(open: Call, members: seq<Call>, key: Call, value: seq<Call>, close: Call)
    ensures [open] + (members + [key] + value + [close]) == [open] + members + [key] + value + [close]
  {
  }

  /** The stream after a closing bracket. */
  function Outside(s: Stream, w: bytes): Stream
    requires s.stack != []
  {
    s.(unread := w, state := ValueEnd(s.stack[|s.stack| - 1]), stack := s.stack[..|s.stack| - 1])
  }

  lemma ClosingTracked(u: bytes, eof: bool, s: Stream, cs: seq<Call>, t: Track, c: byte, w: bytes) returns (t': Track)
    requires Tracks(u, eof, s, cs, t) && s.unread == [c] + w && IsClosing(c) && MayClose(s.state, c)
    ensures s.stack != []
    ensures Tracks(u, eof, Outside(s, w), cs + [ByToken(Delim(c))], t') && Rested(t')
  {
    hide *;
    TrackParts(u, eof, s, cs, t);
    CloseShape(s.state, t.fs, t.fo, c);
    var n := |t.fs| - 1;
    var v, ps := ClosedValue(t.fs[n], t.plans[n], t.fo, t.plan, c);
    var t1, p := t.(fs := t.fs[..n], plans := t.plans[..n]), Part(t.fs[n].before, v, Parts(ps));
    CloseEndsPart(u, eof, s, cs, t, c, w, p);
    t' := ValueTracked(u, eof, Outside(s, w), cs + [ByToken(Delim(c))], t1, p);
  }

  lemma CloseEndsPart(u: bytes, eof: bool, s: Stream, cs: seq<Call>, t: Track, c: byte, w: bytes, p: Part)
    requires Tracks(u, eof, s, cs, t) && s.unread == [c] + w && t.fs != [] && |s.stack| == |t.fs| == |t.plans|
    requires var n := |t.fs| - 1;
             && p.lead == t.fs[n].before && WfVal(p.v) && !p.v.Lit?
             && p.lead + Text(p.v) == FrameText(t.fs[n]) + FocusText(t.fo) + [c]
             && Mixed(p.v, p.plan) == FrameCalls(t.fs[n], t.plans[n]) + FocusCalls(t.fo, t.plan) + [ByToken(Delim(c))]
    ensures var n := |t.fs| - 1;
            Ends(u, eof, Outside(s, w), cs + [ByToken(Delim(c))], t.(fs := t.fs[..n], plans := t.plans[..n]), p)
  {
    hide *;
    var n := |t.fs| - 1;
    TrackParts(u, eof, s, cs, t);
    PopShape(s.stack, t.fs);
    OutsideIs(s, w);
    ClosedSpells(t, c, w, p);
    ClosedCalls(t, c, p);
    StopsClosed(p.v, w, eof);
    PartEnds(u, eof, Outside(s, w), cs + [ByToken(Delim(c))], t.(fs := t.fs[..n], plans := t.plans[..n]), p);
  }

  lemma OutsideIs(s: Stream, w: bytes)
    requires s.stack != []
    ensures Outside(s, w) == s.(unread := w, state := ValueEnd(s.stack[|s.stack| - 1]), stack := s.stack[..|s.stack| - 1])
  {
  }

  lemma PartEnds(u: bytes, eof: bool, s: Stream, cs: seq<Call>, t: Track, p: Part)
    requires Splits(u, t.ps, t.base, eof) && t.base == FramesText(t.fs) + (p.lead + Text(p.v)) + s.unread
    requires Planned(t.fs, t.plans) && cs == CallsOf(t.ps) + (FramesCalls(t.fs, t.plans) + Mixed(p.v, p.plan))
    requires s.state == ValueEnd(GapState(t.fs)) && Stacked(s.stack, t.fs) && WfFrames(t.fs) && !ExpectsKey(t.fs)
    requires AllSpace(p.lead) && WfVal(p.v) && Stops(p.v, s.unread, eof)
    ensures Ends(u, eof, s, cs, t, p)
  {
    hide Splits, FramesText, Text, Planned, CallsOf, FramesCalls, Mixed, GapState, ValueEnd, Stacked, WfFrames, ExpectsKey, WfVal, Stops;
  }

  lemma StopsClosed(v: Val, rest: bytes, eof: bool)
    requires !v.Lit?
    ensures Stops(v, rest, eof)
  {
  }

  lemma ClosedCalls(t: Track, c: byte, p: Part)
    requires |t.plans| == |t.fs| && t.fs != []
    requires var n := |t.fs| - 1;
             Mixed(p.v, p.plan) == FrameCalls(t.fs[n], t.plans[n]) + FocusCalls(t.fo, t.plan) + [ByToken(Delim(c))]
    ensures var n := |t.fs| - 1;
            && CallsOf(t.ps) + (FramesCalls(t.fs, t.plans) + FocusCalls(t.fo, t.plan)) + [ByToken(Delim(c))]
               == CallsOf(t.ps) + (FramesCalls(t.fs[..n], t.plans[..n]) + Mixed(p.v, p.plan))
  {
    hide Mixed, FrameCalls, FocusCalls, CallsOf;
    var n := |t.fs| - 1;
    assert FramesCalls(t.fs, t.plans) == FramesCalls(t.fs[..n], t.plans[..n]) + FrameCalls(t.fs[n], t.plans[n]);
    hide FramesCalls;
  }

  lemma ClosedSpells(t: Track, c: byte, w: bytes, p: Part)
    requires t.fs != [] && t.base == Spelled(t.fs, t.fo) + ([c] + w)
    requires p.lead + Text(p.v) == FrameText(t.fs[|t.fs| - 1]) + FocusText(t.fo) + [c]
    ensures t.base == FramesText(t.fs[..|t.fs| - 1]) + (p.lead + Text(p.v)) + w
  {
    hide FramesText, FrameText, FocusText, Text;
    FramesSnoc(t.fs);
    CloseSpells(FramesText(t.fs[..|t.fs| - 1]), FrameText(t.fs[|t.fs| - 1]), FocusText(t.fo), c, p.lead + Text(p.v), w);
  }

  lemma CloseSpells(outer: bytes, frame: bytes, focus: bytes, c: byte, text: bytes, w: bytes)
    requires text == frame + focus + [c]
    ensures outer + frame + focus + ([c] + w) == outer + text + w
  {
    assert outer + frame + focus + ([c] + w) == outer + (frame + focus + [c]) + w;
  }

  lemma PopShape(stack: seq<TokenState>, fs: seq<Frame>)
    requires Stacked(stack, fs) && fs != []
    ensures var n := |fs| - 1; stack[n] == GapState(fs[..n]) && Stacked(stack[..n], fs[..n])
  {
    var n := |fs| - 1;
    forall i | 0 <= i < n ensures stack[..n][i] == GapState(fs[..n][..i]) {
      assert fs[..n][..i] == fs[..i];
    }
  }

  // ---- Reading ----

  lemma {:induction false} SkipSplit(u: bytes) returns (ws: bytes)
    ensures AllSpace(ws) && u == ws + SkipSpaces(u)
  {
    if u != [] && IsSpace(u[0]) {
      ws := SkipSplit(u[1..]);
      ws := [u[0]] + ws;
    } else {
      ws := [];
    }
  }

  /** What has been read is white space and a value that stops there. */
  lemma ReadGot(s: Stream) returns (lead: bytes, v: Val, rest: bytes)
    requires ReadAt(s).0.Got?
    ensures ReadAt(s) == (Got(Denote(v)), s.(unread := rest, state := ValueEnd(s.state)))
    ensures s.unread == lead + (Text(v) + rest) && AllSpace(lead) && WfVal(v) && Stops(v, rest, s.last == EOF)
  {
    hide Walk, Text, WfVal, Denote, LexState;
    var eof := s.last == EOF;
    lead, v := FoundIsFirst(s.unread, eof);
    var n := FirstValue(s.unread, eof).n;
    rest := s.unread[n..];
    assert s.unread[..n] == lead + Text(v) == lead + Text(v) + [];
    assert IsText(s.unread[..n], lead, v, []);
    ValueOfText(s.unread[..n], lead, v, []);
    assert rest != [] ==> rest[0] == s.unread[n];
    assert s.unread == lead + Text(v) + rest;
  }

  /** A value read where one is allowed. */
  lemma ReadTracked(u: bytes, s: Stream, cs: seq<Call>, t: Track, plan: Plan) returns (v: Val, t': Track)
    requires Tracks(u, s.last == EOF, s, cs, t) && ValueAllowed(s.state) && ReadAt(s).0.Got?
    ensures ReadAt(s).0 == Got(Denote(v)) && WfVal(v)
    ensures exists lead, rest :: AllSpace(lead) && s.unread == lead + (Text(v) + rest)
    ensures Tracks(u, s.last == EOF, ReadAt(s).1, cs + Mixed(v, plan), t') && Rested(t') && ReadAt(s).1.last == s.last
  {
    hide *;
    var lead, rest;
    lead, v, rest := ReadGot(s);
    TrackParts(u, s.last == EOF, s, cs, t);
    GapShape(s.state, t.fs, t.fo);
    var p := Part(t.fo.space + lead, v, plan);
    ReadSpells(t, lead, v, rest);
    ReadCalls(t, v, plan);
    ReadLead(t.fo, lead);
    PartEnds(u, s.last == EOF, ReadAt(s).1, cs + Mixed(v, plan), t, p);
    t' := ValueTracked(u, s.last == EOF, ReadAt(s).1, cs + Mixed(v, plan), t, p);
  }

  lemma ReadLead(fo: Focus, lead: bytes)
    requires fo.Gap? && WfFocus(fo) && AllSpace(lead)
    ensures AllSpace(fo.space + lead)
  {
  }

  lemma ReadSpells(t: Track, lead: bytes, v: Val, rest: bytes)
    requires t.fo.Gap? && t.base == Spelled(t.fs, t.fo) + (lead + (Text(v) + rest))
    ensures t.base == FramesText(t.fs) + (t.fo.space + lead + Text(v)) + rest
  {
    hide FramesText, Text;
    var a := FramesText(t.fs);
    assert a + t.fo.space + (lead + (Text(v) + rest)) == a + (t.fo.space + lead + Text(v)) + rest;
  }

  lemma ReadCalls(t: Track, v: Val, plan: Plan)
    requires |t.plans| == |t.fs| && t.fo.Gap?
    ensures CallsOf(t.ps) + (FramesCalls(t.fs, t.plans) + FocusCalls(t.fo, t.plan)) + Mixed(v, plan)
         == CallsOf(t.ps) + (FramesCalls(t.fs, t.plans) + Mixed(v, plan))
  {
    hide CallsOf, FramesCalls, Mixed;
  }

  lemma KeyShape(q: TokenState, fs: seq<Frame>, fo: Focus)
    requires Shaped(q, fs, fo) && (q == AtObjectStart || q == AtObjectKey)
    ensures fo.Gap? && ExpectsKey(fs)
  {
  }

  /** A string read where a key is due. */
  lemma KeyTracked(u: bytes, eof: bool, s: Stream, cs: seq<Call>, t: Track, key: bytes, rest: bytes) returns (t': Track)
    requires Tracks(u, eof, s, cs, t) && (s.state == AtObjectStart || s.state == AtObjectKey)
    requires s.unread == key + rest && IsString(key)
    ensures Tracks(u, eof, s.(unread := rest, state := AtObjectColon), cs + [KeyOf(key)], t') && t'.fs != []
  {
    KeyShape(s.state, t.fs, t.fo);
    t' := t.(fo := Keyed(t.fo.space, key, []));
    KeySpells(t, key, rest);
    KeysCalls(t, key);
    hide Splits, CallsOf, FramesCalls, FocusCalls, FramesText, FocusText, KeyOf, Stacked, WfFrames, Planned, IsString, GapState;
  }

  lemma KeySpells(t: Track, key: bytes, rest: bytes)
    requires t.fo.Gap? && t.base == Spelled(t.fs, t.fo) + (key + rest)
    ensures t.base == Spelled(t.fs, Keyed(t.fo.space, key, [])) + rest
  {
    hide FramesText;
    var a := FramesText(t.fs);
    assert a + t.fo.space + (key + rest) == a + (t.fo.space + key + []) + rest;
  }

  lemma KeysCalls(t: Track, key: bytes)
    requires |t.plans| == |t.fs| && t.fo.Gap?
    ensures CallsOf(t.ps) + (FramesCalls(t.fs, t.plans) + FocusCalls(t.fo, t.plan)) + [KeyOf(key)]
         == CallsOf(t.ps) + (FramesCalls(t.fs, t.plans) + FocusCalls(Keyed(t.fo.space, key, []), t.plan))
  {
    hide CallsOf, FramesCalls, KeyOf;
  }

  // ---- One call ----

  /** The call of Token returned; `w` is what it found after white space. */
  lemma TokenFound(s: Stream, w: bytes)
    requires Balanced(s.state, s.stack) && w == SkipSpaces(s.unread) && TokenAt(s).0.Got?
    ensures w != [] && !IsSpace(w[0]) && |w| <= |s.unread|
    ensures IsOpening(w[0]) ==>
      var s' := Inside(s.(unread := w), w[0], w[1..]);
      ValueAllowed(s.state) && TokenAt(s) == (Got(Delim(w[0])), s') && s'.last == s.last
    ensures IsClosing(w[0]) ==>
      && MayClose(s.state, w[0]) && s.stack != []
      && var s' := Outside(s.(unread := w), w[1..]); TokenAt(s) == (Got(Delim(w[0])), s') && s'.last == s.last
  {
    hide ReadAt;
  }

  lemma TokenSeparated(s: Stream, w: bytes)
    requires Balanced(s.state, s.stack) && w == SkipSpaces(s.unread) && TokenAt(s).0.Got?
    requires w != [] && (w[0] == COLON || w[0] == COMMA)
    ensures Separator(s.state) == Some(w[0]) && Balanced(AfterSeparator(s.state), s.stack)
    ensures TokenAt(s) == TokenAt(s.(unread := w[1..], state := AfterSeparator(s.state)))
  {
    hide ReadAt;
  }

  predicate KeyNext(q: TokenState, c: byte) {
    c == QUOTE && (q == AtObjectStart || q == AtObjectKey)
  }

  lemma TokenRead(s: Stream, w: bytes)
    requires Balanced(s.state, s.stack) && w == SkipSpaces(s.unread) && TokenAt(s).0.Got?
    requires w != [] && !IsOpening(w[0]) && !IsClosing(w[0]) && w[0] != COLON && w[0] != COMMA
    ensures var r := ReadAt(s.(unread := w));
            && r.0.Got?
            && TokenAt(s) == (Got(Value(r.0.value)), if KeyNext(s.state, w[0]) then r.1.(state := AtObjectColon) else r.1)
    ensures !KeyNext(s.state, w[0]) ==> ValueAllowed(s.state)
  {
    hide ReadAt;
  }

  /** What begins with no bracket and no white space is a literal, and a string if it begins with a quote. */
  lemma LiteralOnly(lead: bytes, v: Val, rest: bytes)
    requires AllSpace(lead) && WfVal(v)
    requires var w := lead + (Text(v) + rest); w != [] && !IsSpace(w[0]) && !IsOpening(w[0])
    ensures lead == [] && v.Lit? && lead + (Text(v) + rest) == v.text + rest && Mixed(v, TOKENS) == [ByToken(Value(Denote(v)))]
    ensures (lead + (Text(v) + rest))[0] == QUOTE ==> IsString(v.text) && Denote(v) == Str(StringOf(v.text))
  {
    hide Denote, Mixed, StringOf, IsString, WfVal;
    NoLead(lead, Text(v) + rest);
    TextOpens(v, rest);
    LiteralFirst(v);
    assert (lead + (Text(v) + rest))[0] == v.text[0];
    if v.text[0] == QUOTE {
      QuotedLiteral(v);
      KeyDenotes(v.text);
    }
    MixedLiteral(v);
  }

  lemma NoLead(lead: bytes, w: bytes)
    requires AllSpace(lead) && lead + w != [] && !IsSpace((lead + w)[0])
    ensures lead == [] && lead + w == w
  {
    FrontSpace(lead, w);
  }

  lemma FrontSpace(lead: bytes, w: bytes)
    requires AllSpace(lead)
    ensures lead != [] ==> IsSpace((lead + w)[0])
  {
    assert lead != [] ==> (lead + w)[0] == lead[0];
  }

  lemma TextOpens(v: Val, rest: bytes)
    ensures if v.Lit? then Text(v) == v.text else Text(v) + rest != [] && IsOpening((Text(v) + rest)[0])
  {
  }

  lemma MixedLiteral(v: Val)
    requires v.Lit?
    ensures Mixed(v, TOKENS) == [ByToken(Value(Denote(v)))]
  {
    hide Denote;
  }

  lemma QuotedLiteral(v: Val)
    requires v.Lit? && WfVal(v) && v.text != [] && v.text[0] == QUOTE
    ensures IsString(v.text) && v == Lit(v.text)
  {
    if IsNumber(v.text) {
      NumberIff(v.text);
      NumberNotQuoted(v.text);
    }
    hide IsNumber, LexState;
  }

  lemma InsideRests(t: Track)
    requires t.fs != []
    ensures Rested(t)
  {
  }

  /** A token that is a key or a value. */
  lemma LiteralTracked(u: bytes, s: Stream, cs: seq<Call>, t: Track) returns (t': Track)
    requires Tracks(u, s.last == EOF, s, cs, t) && ReadAt(s).0.Got?
    requires s.unread != [] && !IsSpace(s.unread[0]) && !IsOpening(s.unread[0])
    requires !KeyNext(s.state, s.unread[0]) ==> ValueAllowed(s.state)
    ensures var s' := if KeyNext(s.state, s.unread[0]) then ReadAt(s).1.(state := AtObjectColon) else ReadAt(s).1;
            && Tracks(u, s.last == EOF, s', cs + [ByToken(Value(ReadAt(s).0.value))], t') && Rested(t')
            && s'.last == s.last
  {
    hide *;
    if KeyNext(s.state, s.unread[0]) {
      t' := KeyReadTracked(u, s, cs, t);
    } else {
      var v: Val;
      v, t' := ReadTracked(u, s, cs, t, TOKENS);
      var lead, rest :| AllSpace(lead) && s.unread == lead + (Text(v) + rest);
      LiteralOnly(lead, v, rest);
    }
  }

  lemma KeyReadTracked(u: bytes, s: Stream, cs: seq<Call>, t: Track) returns (t': Track)
    requires Tracks(u, s.last == EOF, s, cs, t) && ReadAt(s).0.Got?
    requires s.unread != [] && !IsSpace(s.unread[0]) && !IsOpening(s.unread[0]) && KeyNext(s.state, s.unread[0])
    ensures var s' := ReadAt(s).1.(state := AtObjectColon);
            && Tracks(u, s.last == EOF, s', cs + [ByToken(Value(ReadAt(s).0.value))], t') && Rested(t')
            && s'.last == s.last
  {
    KeyNextIs(s.state, s.unread[0]);
    hide *;
    var lead, v, rest := ReadGot(s);
    LiteralOnly(lead, v, rest);
    AfterKey(s, rest);
    KeyOfIs(v);
    t' := KeyTracked(u, s.last == EOF, s, cs, t, v.text, rest);
    InsideRests(t');
  }

  lemma AfterKey(s: Stream, rest: bytes)
    ensures s.(unread := rest, state := ValueEnd(s.state)).(state := AtObjectColon) == s.(unread := rest, state := AtObjectColon)
    ensures s.(unread := rest, state := AtObjectColon).last == s.last
  {
  }

  lemma KeyNextIs(q: TokenState, c: byte)
    requires KeyNext(q, c)
    ensures c == QUOTE && (q == AtObjectStart || q == AtObjectKey)
  {
  }

  lemma KeyOfIs(v: Val)
    requires v.Lit? && Denote(v) == Str(StringOf(v.text))
    ensures KeyOf(v.text) == ByToken(Value(Denote(v)))
  {
    hide Denote, StringOf;
  }

  /** A token goes on from what has been read. */
  lemma {:induction false} TokenTracked(u: bytes, s: Stream, cs: seq<Call>, t: Track) returns (t': Track)
    requires Balanced(s.state, s.stack) && Tracks(u, s.last == EOF, s, cs, t) && TokenAt(s).0.Got?
    ensures Tracks(u, s.last == EOF, TokenAt(s).1, cs + [ByToken(TokenAt(s).0.value)], t') && Rested(t')
    ensures TokenAt(s).1.last == s.last
    decreases |s.unread|
  {
    hide *;
    var eof, w := s.last == EOF, SkipSpaces(s.unread);
    var ws := SkipSplit(s.unread);
    TokenFound(s, w);
    var c, rest, s1, t1 := w[0], w[1..], s.(unread := w), t.(fo := Spaced(t.fo, ws));
    assert w == [c] + rest;
    SpacesTracked(u, eof, s, cs, t, ws, w);
    if IsOpening(c) {
      t' := OpeningTracked(u, eof, s1, cs, t1, c, rest);
      InsideRests(t');
    } else if IsClosing(c) {
      t' := ClosingTracked(u, eof, s1, cs, t1, c, rest);
    } else if c == COLON || c == COMMA {
      TokenSeparated(s, w);
      var t2 := SeparatorTracked(u, eof, s1, cs, t1, c, rest);
      t' := TokenTracked(u, s.(unread := rest, state := AfterSeparator(s.state)), cs, t2);
    } else {
      TokenRead(s, w);
      t' := LiteralTracked(u, s1, cs, t1);
    }
  }

  lemma DecodeFound(s: Stream)
    requires Balanced(s.state, s.stack) && DecodeAt(s).0.Got?
    ensures s.state != AtArrayComma && s.state != AtObjectColon ==> ValueAllowed(s.state) && DecodeAt(s) == ReadAt(s)
    ensures s.state == AtArrayComma || s.state == AtObjectColon ==>
      var w, q := SkipSpaces(s.unread), AfterSeparator(s.state);
      && w != [] && Separator(s.state) == Some(w[0]) && ValueAllowed(q)
      && DecodeAt(s) == ReadAt(s.(unread := w[1..], state := q))
  {
    hide ReadAt;
  }

  lemma MixedWhole(v: Val)
    ensures Mixed(v, Plan.Whole) == [ByDecode(Denote(v))]
  {
    hide Denote;
  }

  /** A value read whole goes on from what has been read. */
  lemma DecodeTracked(u: bytes, s: Stream, cs: seq<Call>, t: Track) returns (t': Track)
    requires Balanced(s.state, s.stack) && Tracks(u, s.last == EOF, s, cs, t) && DecodeAt(s).0.Got?
    ensures Tracks(u, s.last == EOF, DecodeAt(s).1, cs + [ByDecode(DecodeAt(s).0.value)], t') && Rested(t')
    ensures DecodeAt(s).1.last == s.last
  {
    hide *;
    DecodeFound(s);
    var v: Val;
    if s.state == AtArrayComma || s.state == AtObjectColon {
      var ws := SkipSplit(s.unread);
      var w := SkipSpaces(s.unread);
      assert w == [w[0]] + w[1..];
      SpacesTracked(u, s.last == EOF, s, cs, t, ws, w);
      var t1 := SeparatorTracked(u, s.last == EOF, s.(unread := w), cs, t.(fo := Spaced(t.fo, ws)), w[0], w[1..]);
      v, t' := ReadTracked(u, s.(unread := w[1..], state := AfterSeparator(s.state)), cs, t1, Plan.Whole);
    } else {
      v, t' := ReadTracked(u, s, cs, t, Plan.Whole);
    }
    MixedWhole(v);
  }

  // ---- Runs ----

  lemma YieldsFirst(s: Stream, cs: seq<Call>, s': Stream)
    requires Yields(s, cs, s')
    ensures Balanced(s.state, s.stack) && (cs == [] ==> s == s')
    ensures cs != [] ==> Yields(AfterCall(s, cs[0]), cs[1..], s')
    ensures cs != [] && cs[0].ByToken? ==> TokenAt(s) == (Got(cs[0].t), AfterCall(s, cs[0]))
    ensures cs != [] && cs[0].ByDecode? ==> DecodeAt(s) == (Got(cs[0].v), AfterCall(s, cs[0]))
  {
    hide TokenAt, DecodeAt;
  }

  /** However the calls go on without an error, they read on in the grammar. */
  lemma {:induction false} CallsTracked(u: bytes, s: Stream, cs0: seq<Call>, t: Track, cs: seq<Call>, s': Stream) returns (t': Track)
    requires Tracks(u, s.last == EOF, s, cs0, t) && Rested(t) && Yields(s, cs, s')
    ensures Tracks(u, s.last == EOF, s', cs0 + cs, t') && Rested(t')
    decreases |cs|
  {
    hide *;
    YieldsFirst(s, cs, s');
    if cs == [] {
      t' := t;
      assert cs0 + cs == cs0;
    } else {
      var t1: Track;
      if cs[0].ByToken? { t1 := TokenTracked(u, s, cs0, t); } else { t1 := DecodeTracked(u, s, cs0, t); }
      t' := CallsTracked(u, AfterCall(s, cs[0]), cs0 + [cs[0]], t1, cs[1..], s');
      assert cs0 + [cs[0]] + cs[1..] == cs0 + cs;
    }
  }

  function Start(u: bytes, last: ReadError): Stream {
    Stream(u, last, None, AtTop, [])
  }

  lemma StartTracked(u: bytes, last: ReadError) returns (t: Track)
    ensures Tracks(u, last == EOF, Start(u, last), [], t) && Rested(t) && Start(u, last).last == last
  {
    t := Track([], u, [], [], Gap([]), TOKENS);
  }

  lemma TopTrack(u: bytes, eof: bool, s: Stream, cs: seq<Call>, t: Track)
    requires Tracks(u, eof, s, cs, t) && Rested(t) && s.state == AtTop
    ensures Splits(u, t.ps, s.unread, eof) && cs == CallsOf(t.ps)
  {
    hide Splits, CallsOf, Stacked, WfFrames, WfFocus, Planned;
    assert t.fs == [];
    assert t.base == s.unread;
  }

  /** The calls return on the texts what the plans say. */
  lemma {:induction false} SplitsYield(u: bytes, last: ReadError, ps: seq<Part>, rest: bytes)
    requires Splits(u, ps, rest, last == EOF)
    ensures Yields(Start(u, last), CallsOf(ps), Start(rest, last))
    decreases |ps|
  {
    if ps != [] {
      var p := ps[0];
      var n := |p.lead + Text(p.v)|;
      FirstYields(u, last, p, n);
      SplitsYield(u[n..], last, ps[1..], rest);
      hide *;
      CallsCons(ps);
      YieldsThen(Start(u, last), Mixed(p.v, p.plan), Start(u[n..], last), CallsOf(ps[1..]), Start(rest, last));
    }
  }

  lemma CallsCons(ps: seq<Part>)
    requires ps != []
    ensures CallsOf(ps) == Mixed(ps[0].v, ps[0].plan) + CallsOf(ps[1..])
  {
    hide Mixed;
  }

  lemma FirstYields(u: bytes, last: ReadError, p: Part, n: nat)
    requires IsFirst(u, n, p.lead, p.v, last == EOF)
    ensures Yields(Start(u, last), Mixed(p.v, p.plan), Start(u[n..], last))
  {
    hide Yields, Mixed, Text, WfVal, LexState;
    assert u == u[..n] + u[n..];
    Assoc(p.lead, Text(p.v), u[n..]);
    assert u[n..] != [] ==> u[n..][0] == u[n];
    ValYields(Start(u, last), p.lead, p.v, p.plan, u[n..]);
  }

  /** From the start of a stream, calls of Token and Decode return without an error and come back to the top level
      exactly if they have read a sequence of values, each the first of what was left, and then they return the
      flattenings of these in order. So a bracket that does not match, a comma or colon that is missing, doubled or
      before a closing bracket, and a key that is no string are refused. */
  lemma CallsAreTexts(u: bytes, last: ReadError, cs: seq<Call>, rest: bytes)
    ensures Yields(Start(u, last), cs, Start(rest, last))
       <==> exists ps :: Splits(u, ps, rest, last == EOF) && cs == CallsOf(ps)
  {
    hide *;
    if Yields(Start(u, last), cs, Start(rest, last)) {
      var t := StartTracked(u, last);
      t := CallsTracked(u, Start(u, last), [], t, cs, Start(rest, last));
      assert [] + cs == cs;
      StartIs(rest, last);
      TopTrack(u, last == EOF, Start(rest, last), cs, t);
    }
    if ps :| Splits(u, ps, rest, last == EOF) && cs == CallsOf(ps) {
      SplitsYield(u, last, ps, rest);
    }
  }

  lemma StartIs(u: bytes, last: ReadError)
    ensures Start(u, last).state == AtTop && Start(u, last).unread == u
  {
  }
}
