/**
 The scanner accepts exactly the texts of the grammar.  One direction plays the marks of a text; for
 the other, a partial derivation accompanies the scanner and always spells the bytes read so far.
 */
module JsonParse {
  import opened Options
  import opened Bytes
  import opened JsonScanner
  import opened JsonLexemes
  import opened JsonGrammar

  // ---- Partial derivations ----

  /** An array or object that is still open, the white space before it, and its finished parts. */
  datatype Frame =
    | InArr(before: bytes, elems: seq<Elem>)
    | InKey(before: bytes, members: seq<Member>)
    | InVal(before: bytes, members: seq<Member>, space: bytes, key: bytes, mid: bytes)

  /** The part being read. */
  datatype Focus =
    | Gap(space: bytes)                                   // white space before a value or key
    | Lexing(before: bytes, text: bytes)                  // inside a string, number or name
    | Whole(before: bytes, val: Val, after: bytes)        // after a value
    | Keyed(before: bytes, key: bytes, mid: bytes)        // after an object key

  function FrameText(f: Frame): bytes {
    match f
    case InArr(before, elems) => before + [LBRACK] + (if elems == [] then [] else ElemsText(elems) + [COMMA])
    case InKey(before, members) => before + [LBRACE] + (if members == [] then [] else MembersText(members) + [COMMA])
    case InVal(before, members, space, key, mid) =>
      before + [LBRACE] + (if members == [] then [] else MembersText(members) + [COMMA]) + (space + key + mid + [COLON])
  }

  function FramesText(fs: seq<Frame>): bytes {
    if fs == [] then [] else FramesText(fs[..|fs| - 1]) + FrameText(fs[|fs| - 1])
  }

  function FocusText(fo: Focus): bytes {
    match fo
    case Gap(space) => space
    case Lexing(before, text) => before + text
    case Whole(before, val, after) => before + Text(val) + after
    case Keyed(before, key, mid) => before + key + mid
  }

  function Spelled(fs: seq<Frame>, fo: Focus): bytes {
    FramesText(fs) + FocusText(fo)
  }

  ghost predicate WfFrame(f: Frame) {
    && AllSpace(f.before)
    && match f
       case InArr(_, elems) => forall i :: 0 <= i < |elems| ==> WfElem(elems[i])
       case InKey(_, members) => forall i :: 0 <= i < |members| ==> WfMember(members[i])
       case InVal(_, members, space, key, mid) =>
         && (forall i :: 0 <= i < |members| ==> WfMember(members[i]))
         && AllSpace(space) && IsString(key) && AllSpace(mid)
  }

  /** Only the innermost frame can be waiting for a key. */
  ghost predicate WfFrames(fs: seq<Frame>) {
    forall i :: 0 <= i < |fs| ==> WfFrame(fs[i]) && (i < |fs| - 1 ==> !fs[i].InKey?)
  }

  ghost predicate WfFocus(fo: Focus) {
    match fo
    case Gap(space) => AllSpace(space)
    case Lexing(before, text) => AllSpace(before)
    case Whole(before, val, after) => AllSpace(before) && WfVal(val) && AllSpace(after)
    case Keyed(before, key, mid) => AllSpace(before) && IsString(key) && AllSpace(mid)
  }

  function ParseOf(f: Frame): Parse {
    match f
    case InArr(_, _) => ArrayValue
    case InKey(_, _) => ObjectKey
    case InVal(_, _, _, _, _) => ObjectValue
  }

  predicate SameStack(stack: seq<Parse>, fs: seq<Frame>) {
    |stack| == |fs| && forall i :: 0 <= i < |fs| ==> stack[i] == ParseOf(fs[i])
  }

  /** What must be read next inside the innermost frame. */
  predicate ExpectsKey(fs: seq<Frame>) {
    fs != [] && fs[|fs| - 1].InKey?
  }

  predicate JustOpened(fs: seq<Frame>) {
    fs != [] && match fs[|fs| - 1]
                case InArr(_, elems) => elems == []
                case InKey(_, members) => members == []
                case InVal(_, _, _, _, _) => false
  }

  /** The derivation is the one the scanner's state speaks of. */
  predicate Matches(s: Scan, fs: seq<Frame>, fo: Focus) {
    && !s.err && SameStack(s.stack, fs)
    && (s.endTop ==> s.step == EndTop)
    && (if s.step == BeginValue then fo.Gap? && !ExpectsKey(fs) && !JustOpened(fs)
        else if s.step == BeginValueOrEmpty then fo.Gap? && !ExpectsKey(fs) && JustOpened(fs)
        else if s.step == BeginString then fo.Gap? && ExpectsKey(fs) && !JustOpened(fs)
        else if s.step == BeginStringOrEmpty then fo.Gap? && ExpectsKey(fs) && JustOpened(fs)
        else if s.step == EndValue then if ExpectsKey(fs) then fo.Keyed? else fo.Whole?
        else if s.step == EndTop then fs == [] && fo.Whole? && s.endTop
        else fo.Lexing? && LexState(fo.text) == Some(s.step) && (ExpectsKey(fs) ==> fo.text[0] == QUOTE))
  }

  ghost predicate Follows(s: Scan, fs: seq<Frame>, fo: Focus, read: bytes) {
    Matches(s, fs, fo) && WfFrames(fs) && WfFocus(fo) && Spelled(fs, fo) == read
  }

  // ---- One byte ----

  lemma FramesTextPush(fs: seq<Frame>, f: Frame)
    ensures FramesText(fs + [f]) == FramesText(fs) + FrameText(f)
  {
    assert (fs + [f])[..|fs|] == fs;
  }

  lemma Assoc(a: bytes, b: bytes, c: bytes)
    ensures a + (b + c) == a + b + c
  {
  }

  lemma GapSpace(s: Scan, fs: seq<Frame>, fo: Focus, read: bytes, c: byte)
    requires Wf(s) && Follows(s, fs, fo, read) && fo.Gap? && IsSpace(c)
    ensures Follows(Next(s, c).0, fs, Gap(fo.space + [c]), read + [c])
  {
    hide LexState, WfFrames, FramesText;
    Assoc(FramesText(fs), fo.space, [c]);
  }

  lemma GapOpens(s: Scan, fs: seq<Frame>, fo: Focus, read: bytes, c: byte)
    requires Wf(s) && Follows(s, fs, fo, read) && fo.Gap? && (s.step == BeginValue || s.step == BeginValueOrEmpty)
    requires c == LBRACE || c == LBRACK
    ensures var f := if c == LBRACE then InKey(fo.space, []) else InArr(fo.space, []);
            Follows(Next(s, c).0, fs + [f], Gap([]), read + [c])
  {
    hide LexState, Next, FramesText, WfVal;
    var f := if c == LBRACE then InKey(fo.space, []) else InArr(fo.space, []);
    OpenSpells(fs, fo.space, c, f);
    OpenMatches(s, fs, fo, c, f);
    OpenWf(fs, f);
    hide Matches, WfFrames, Spelled;
  }

  lemma OpenSpells(fs: seq<Frame>, space: bytes, c: byte, f: Frame)
    requires (c == LBRACE && f == InKey(space, [])) || (c == LBRACK && f == InArr(space, []))
    ensures Spelled(fs + [f], Gap([])) == Spelled(fs, Gap(space)) + [c]
  {
    FramesTextPush(fs, f);
    hide FramesText;
    assert FrameText(f) == space + [c];
    Assoc(FramesText(fs), space, [c]);
  }

  lemma OpenWf(fs: seq<Frame>, f: Frame)
    requires WfFrames(fs) && !ExpectsKey(fs) && WfFrame(f)
    ensures WfFrames(fs + [f])
  {
    hide WfFrame;
  }

  lemma OpenMatches(s: Scan, fs: seq<Frame>, fo: Focus, c: byte, f: Frame)
    requires Wf(s) && Matches(s, fs, fo) && (s.step == BeginValue || s.step == BeginValueOrEmpty)
    requires (c == LBRACE && f == InKey(fo.space, [])) || (c == LBRACK && f == InArr(fo.space, []))
    ensures Matches(Next(s, c).0, fs + [f], Gap([]))
  {
    hide LexState;
    assert SameStack(Next(s, c).0.stack, fs + [f]);
  }

  lemma GapLexes(s: Scan, fs: seq<Frame>, fo: Focus, read: bytes, c: byte)
    requires Wf(s) && Follows(s, fs, fo, read) && fo.Gap?
    requires Next(s, c).1 == BeginLiteral
    ensures Follows(Next(s, c).0, fs, Lexing(fo.space, [c]), read + [c])
  {
    hide WfFrames, FramesText;
    Assoc(FramesText(fs), fo.space, [c]);
  }

  /** From a gap, the scanner meets white space, an opening bracket, a lexeme, a closing bracket or an error. */
  lemma GapCases(s: Scan, fs: seq<Frame>, fo: Focus, c: byte)
    requires Wf(s) && Matches(s, fs, fo) && fo.Gap? && !Next(s, c).0.err
    ensures || IsSpace(c)
            || ((c == LBRACE || c == LBRACK) && (s.step == BeginValue || s.step == BeginValueOrEmpty))
            || Next(s, c).1 == BeginLiteral
            || (c == RBRACK && s.step == BeginValueOrEmpty) || (c == RBRACE && s.step == BeginStringOrEmpty)
  {
    hide LexState, BeginLexeme;
  }

  lemma CloseText(outer: bytes, frame: bytes, focus: bytes, c: byte, before: bytes, text: bytes)
    requires before + text == frame + focus + [c]
    ensures outer + (before + text + []) == outer + frame + focus + [c]
  {
    assert before + text + [] == frame + focus + [c];
    Assoc(outer, frame + focus, [c]);
    Assoc(outer, frame, focus);
  }

  lemma CloseMatches(fs: seq<Frame>, stack: seq<Parse>, before: bytes, v: Val)
    requires fs != [] && SameStack(stack, fs) && WfFrames(fs)
    ensures Matches(Closed(stack[..|stack| - 1]), fs[..|fs| - 1], Whole(before, v, []))
  {
    hide WfFrame;
    assert SameStack(stack[..|stack| - 1], fs[..|fs| - 1]);
  }

  /** A container closes: it becomes the value in focus. */
  lemma Closes(s: Scan, fs: seq<Frame>, fo: Focus, read: bytes, c: byte, v: Val)
    requires Wf(s) && Follows(s, fs, fo, read)
    requires fs != [] && Next(s, c).0 == Closed(s.stack[..|s.stack| - 1])
    requires WfVal(v) && fs[|fs| - 1].before + Text(v) == FrameText(fs[|fs| - 1]) + FocusText(fo) + [c]
    ensures Follows(Next(s, c).0, fs[..|fs| - 1], Whole(fs[|fs| - 1].before, v, []), read + [c])
  {
    hide *;
    var fs', f := fs[..|fs| - 1], fs[|fs| - 1];
    FollowsParts(s, fs, fo, read);
    FramesSnoc(fs);
    CloseText(FramesText(fs'), FrameText(f), FocusText(fo), c, f.before, Text(v));
    CloseMatches(fs, s.stack, f.before, v);
    WholeFollows(Next(s, c).0, fs', f.before, v, read + [c]);
  }

  lemma FollowsParts(s: Scan, fs: seq<Frame>, fo: Focus, read: bytes)
    requires Follows(s, fs, fo, read)
    ensures Matches(s, fs, fo) && SameStack(s.stack, fs) && WfFrames(fs) && WfFocus(fo)
    ensures Spelled(fs, fo) == FramesText(fs) + FocusText(fo) == read
    ensures fs != [] ==> WfFrame(fs[|fs| - 1]) && AllSpace(fs[|fs| - 1].before) && WfFrames(fs[..|fs| - 1])
    ensures !s.err && (s.endTop ==> s.step == EndTop)
  {
    hide FramesText, FocusText, LexState;
    assert fs != [] ==> WfFrame(fs[|fs| - 1]);
  }

  lemma FramesSnoc(fs: seq<Frame>)
    requires fs != []
    ensures FramesText(fs) == FramesText(fs[..|fs| - 1]) + FrameText(fs[|fs| - 1])
  {
    hide FrameText;
  }

  lemma WholeFollows(s: Scan, fs: seq<Frame>, before: bytes, v: Val, read: bytes)
    requires Matches(s, fs, Whole(before, v, [])) && WfFrames(fs) && AllSpace(before) && WfVal(v)
    requires FramesText(fs) + (before + Text(v) + []) == read
    ensures Follows(s, fs, Whole(before, v, []), read)
  {
    hide Matches, WfFrames, WfVal, Text, FramesText;
  }

  lemma EmptyCloses(s: Scan, fs: seq<Frame>, fo: Focus, read: bytes, c: byte) returns (v: Val)
    requires Wf(s) && Follows(s, fs, fo, read) && fo.Gap?
    requires (c == RBRACK && s.step == BeginValueOrEmpty) || (c == RBRACE && s.step == BeginStringOrEmpty)
    ensures fs != []
    ensures Follows(Next(s, c).0, fs[..|fs| - 1], Whole(fs[|fs| - 1].before, v, []), read + [c])
  {
    v := if c == RBRACK then Arr(fo.space, []) else Obj(fo.space, []);
    EmptyNext(s, fs, fo, c);
    EmptyText(fs[|fs| - 1], fo.space, c);
    hide Next, FramesText, LexState, Spelled, FrameText;
    Closes(s, fs, fo, read, c, v);
  }

  lemma EmptyNext(s: Scan, fs: seq<Frame>, fo: Focus, c: byte)
    requires Wf(s) && Matches(s, fs, fo)
    requires (c == RBRACK && s.step == BeginValueOrEmpty) || (c == RBRACE && s.step == BeginStringOrEmpty)
    ensures fs != [] && JustOpened(fs) && ParseOf(fs[|fs| - 1]) == (if c == RBRACK then ArrayValue else ObjectKey)
    ensures Next(s, c).0 == Closed(s.stack[..|s.stack| - 1])
  {
    var stack := s.stack[..|s.stack| - 1];
    assert s.stack == stack + [if c == RBRACK then ArrayValue else ObjectKey];
    hide LexState, Next;
    CloseNext(s, stack, c, if c == RBRACK then EndArray else EndObject);
  }

  lemma EmptyText(f: Frame, space: bytes, c: byte)
    requires (c == RBRACK && f.InArr? && f.elems == []) || (c == RBRACE && f.InKey? && f.members == [])
    ensures f.before + Text(if c == RBRACK then Arr(space, []) else Obj(space, [])) == FrameText(f) + space + [c]
  {
    var v := if c == RBRACK then Arr(space, []) else Obj(space, []);
    var open := [if c == RBRACK then LBRACK else LBRACE];
    assert Text(v) == open + space + [c];
    assert FrameText(f) == f.before + open;
    hide Text, FrameText;
    Assoc(f.before, open + space, [c]);
    Assoc(f.before, open, space);
  }

  // ---- Inside a lexeme ----

  lemma {:induction false} QuoteStays(text: bytes)
    requires LexState(text).Some? && text[0] == QUOTE
    ensures InText(LexState(text).value) || LexState(text).value == EndValue
  {
    if |text| > 1 {
      QuoteStays(text[..|text| - 1]);
    }
  }

  lemma {:induction false} NumberNotQuoted(text: bytes)
    requires LexState(text).Some? && InNumber(LexState(text).value)
    ensures text[0] != QUOTE
  {
    if |text| > 1 {
      NumberNotQuoted(text[..|text| - 1]);
    }
  }

  lemma LexGoesOn(s: Scan, fs: seq<Frame>, fo: Focus, read: bytes, c: byte)
    requires Wf(s) && Follows(s, fs, fo, read) && fo.Lexing?
    requires NextLexeme(s.step, c).Some? && NextLexeme(s.step, c).value != EndValue
    ensures Follows(Next(s, c).0, fs, Lexing(fo.before, fo.text + [c]), read + [c])
  {
    LexAppend(fo.text, c);
    LexemeGoesOn(s.step, c);
    hide LexState, FramesText, WfFrames, NextLexeme;
    NextInside(s, c);
    hide Next;
    Assoc(fo.before, fo.text, [c]);
    Assoc(FramesText(fs), fo.before + fo.text, [c]);
  }

  lemma LexemeGoesOn(q: Step, c: byte)
    requires NextLexeme(q, c).Some?
    ensures IsLexical(q)
    ensures NextLexeme(q, c).value != EndValue ==> IsLexical(NextLexeme(q, c).value)
  {
  }

  lemma LexEnds(s: Scan, fs: seq<Frame>, fo: Focus, read: bytes, c: byte) returns (fo': Focus)
    requires Wf(s) && Follows(s, fs, fo, read) && fo.Lexing? && NextLexeme(s.step, c) == Some(EndValue)
    ensures Follows(Next(s, c).0, fs, fo', read + [c])
  {
    var text := fo.text + [c];
    fo' := if ExpectsKey(fs) then Keyed(fo.before, text, []) else Whole(fo.before, Lit(text), []);
    hide *;
    FollowsParts(s, fs, fo, read);
    LexingParts(s, fs, fo);
    LexAppend(fo.text, c);
    LexEndSound(text);
    LexemeGoesOn(s.step, c);
    NextInside(s, c);
    QuotedIsString(text);
    Assoc(fo.before, fo.text, [c]);
    Assoc(FramesText(fs), fo.before + fo.text, [c]);
    LexedFollows(s, fs, fo.before, text, fo', read + [c]);
  }

  /** What is known in the middle of a lexeme. */
  lemma LexingParts(s: Scan, fs: seq<Frame>, fo: Focus)
    requires Matches(s, fs, fo) && WfFocus(fo) && fo.Lexing?
    ensures LexState(fo.text) == Some(s.step) && fo.text != [] && AllSpace(fo.before) && !s.endTop
    ensures FocusText(fo) == fo.before + fo.text
    ensures ExpectsKey(fs) ==> fo.text[0] == QUOTE
  {
  }

  lemma LexedFollows(s: Scan, fs: seq<Frame>, before: bytes, text: bytes, fo: Focus, read: bytes)
    requires !s.err && !s.endTop && SameStack(s.stack, fs) && WfFrames(fs)
    requires AllSpace(before) && text != [] && IsScalar(text) && (text[0] == QUOTE ==> IsString(text))
    requires ExpectsKey(fs) ==> text[0] == QUOTE
    requires fo == if ExpectsKey(fs) then Keyed(before, text, []) else Whole(before, Lit(text), [])
    requires FramesText(fs) + (before + text) == read
    ensures Follows(s.(step := EndValue), fs, fo, read)
  {
    hide LexState, WfFrames, IsString, IsName, IsNumber, FramesText;
    assert FocusText(fo) == before + text;
  }

  lemma QuotedIsString(text: bytes)
    requires IsString(text) || IsName(text)
    ensures text != [] && (text[0] == QUOTE ==> IsString(text)) && IsScalar(text)
  {
  }

  /** A number that the next byte does not go on with is over. */
  lemma NumberSettles(s: Scan, fs: seq<Frame>, fo: Focus, read: bytes, c: byte)
    requires Wf(s) && Follows(s, fs, fo, read) && fo.Lexing? && EndsNumber(s.step) && NextLexeme(s.step, c) == None
    ensures Follows(s.(step := EndValue), fs, Whole(fo.before, Lit(fo.text), []), read)
    ensures Next(s, c) == Next(s.(step := EndValue), c)
  {
    NumberIff(fo.text);
    NumberNotQuoted(fo.text);
    SettlesNext(s, c);
    hide LexState, FramesText, WfFrames, NextLexeme, IsNumber, Next;
    assert FocusText(Whole(fo.before, Lit(fo.text), [])) == fo.before + fo.text;
  }

  lemma SettlesNext(s: Scan, c: byte)
    requires Wf(s) && EndsNumber(s.step) && NextLexeme(s.step, c) == None
    ensures Next(s, c) == Next(s.(step := EndValue), c)
  {
    hide NextLexeme;
  }

  // ---- After a value or a key ----

  lemma WholeSpace(s: Scan, fs: seq<Frame>, fo: Focus, read: bytes, c: byte)
    requires Wf(s) && Follows(s, fs, fo, read) && fo.Whole? && IsSpace(c)
    requires s.step == EndValue || s.step == EndTop
    ensures Follows(Next(s, c).0, fs, Whole(fo.before, fo.val, fo.after + [c]), read + [c])
  {
    hide LexState, FramesText, WfFrames, WfVal, Text;
    Assoc(fo.before + Text(fo.val), fo.after, [c]);
    Assoc(FramesText(fs), fo.before + Text(fo.val) + fo.after, [c]);
  }

  lemma KeyedSpace(s: Scan, fs: seq<Frame>, fo: Focus, read: bytes, c: byte)
    requires Wf(s) && Follows(s, fs, fo, read) && fo.Keyed? && IsSpace(c) && s.step == EndValue
    ensures Follows(Next(s, c).0, fs, Keyed(fo.before, fo.key, fo.mid + [c]), read + [c])
  {
    hide LexState, FramesText, WfFrames, IsString;
    Assoc(fo.before + fo.key, fo.mid, [c]);
    Assoc(FramesText(fs), fo.before + fo.key + fo.mid, [c]);
  }

  /** The innermost frame takes up the focus and the byte. */
  lemma Absorbs(fs: seq<Frame>, fo: Focus, f: Frame, c: byte)
    requires fs != [] && FrameText(f) == FrameText(fs[|fs| - 1]) + FocusText(fo) + [c]
    ensures Spelled(fs[..|fs| - 1] + [f], Gap([])) == Spelled(fs, fo) + [c]
  {
    var fs' := fs[..|fs| - 1];
    FramesTextPush(fs', f);
    assert FramesText(fs) == FramesText(fs') + FrameText(fs[|fs| - 1]);
    hide FramesText, FrameText, FocusText;
    CloseText(FramesText(fs'), FrameText(fs[|fs| - 1]), FocusText(fo), c, [], FrameText(f));
    assert FrameText(f) == [] + FrameText(f) + [];
  }

  lemma AbsorbMatches(s: Scan, fs: seq<Frame>, f: Frame, p: Parse, step: Step)
    requires fs != [] && SameStack(s.stack, fs) && WfFrames(fs) && WfFrame(f) && ParseOf(f) == p && !s.err && !s.endTop
    requires !JustOpened([f])
    requires step == (if f.InKey? then BeginString else BeginValue)
    ensures Matches(SetTop(s, p).(step := step), fs[..|fs| - 1] + [f], Gap([]))
    ensures WfFrames(fs[..|fs| - 1] + [f])
  {
    hide WfFrame;
    var fs' := fs[..|fs| - 1] + [f];
    assert SameStack(SetTop(s, p).stack, fs');
    assert JustOpened(fs') == JustOpened([f]);
  }

  /** A separator: the innermost frame becomes `f`, and a new gap starts. */
  lemma TakesUp(s: Scan, fs: seq<Frame>, fo: Focus, read: bytes, c: byte, f: Frame, p: Parse, step: Step)
    requires Wf(s) && Follows(s, fs, fo, read) && s.step == EndValue
    requires fs != [] && s.stack != [] && Next(s, c).0 == SetTop(s, p).(step := step)
    requires WfFrame(f) && ParseOf(f) == p && !JustOpened([f]) && step == (if f.InKey? then BeginString else BeginValue)
    requires FrameText(f) == FrameText(fs[|fs| - 1]) + FocusText(fo) + [c]
    ensures Follows(Next(s, c).0, fs[..|fs| - 1] + [f], Gap([]), read + [c])
  {
    hide *;
    FollowsParts(s, fs, fo, read);
    Absorbs(fs, fo, f, c);
    AbsorbMatches(s, fs, f, p, step);
    GapFollows(Next(s, c).0, fs[..|fs| - 1] + [f], read + [c]);
  }

  lemma GapFollows(s: Scan, fs: seq<Frame>, read: bytes)
    requires Matches(s, fs, Gap([])) && WfFrames(fs) && Spelled(fs, Gap([])) == read
    ensures Follows(s, fs, Gap([]), read)
  {
    hide Matches, WfFrames, Spelled;
  }

  /** What a separator does to the scanner. */
  lemma SeparatorRead(s: Scan)
    requires Wf(s) && s.step == EndValue && s.stack != []
    ensures Top(s) == ArrayValue ==> Next(s, COMMA).0 == SetTop(s, ArrayValue).(step := BeginValue)
    ensures Top(s) == ObjectValue ==> Next(s, COMMA).0 == SetTop(s, ObjectKey).(step := BeginString)
    ensures Top(s) == ObjectKey ==> Next(s, COLON).0 == SetTop(s, ObjectValue).(step := BeginValue)
  {
  }

  lemma TopIs(s: Scan, fs: seq<Frame>)
    requires SameStack(s.stack, fs) && fs != []
    ensures s.stack != [] && Top(s) == ParseOf(fs[|fs| - 1])
  {
  }

  lemma ElemsTextPush(es: seq<Elem>, e: Elem)
    ensures ElemsText(es + [e]) == (if es == [] then [] else ElemsText(es) + [COMMA]) + ElemText(e)
  {
    assert (es + [e])[..|es|] == es;
  }

  lemma MembersTextPush(ms: seq<Member>, m: Member)
    ensures MembersText(ms + [m]) == (if ms == [] then [] else MembersText(ms) + [COMMA]) + MemberText(m)
  {
    assert (ms + [m])[..|ms|] == ms;
  }

  lemma ArrayComma(s: Scan, fs: seq<Frame>, fo: Focus, read: bytes) returns (f: Frame)
    requires Wf(s) && Follows(s, fs, fo, read) && fo.Whole? && s.step == EndValue
    requires fs != [] && fs[|fs| - 1].InArr?
    ensures Follows(Next(s, COMMA).0, fs[..|fs| - 1] + [f], Gap([]), read + [COMMA])
  {
    hide *;
    var top := fs[|fs| - 1];
    FollowsParts(s, fs, fo, read);
    TopIs(s, fs);
    SeparatorRead(s);
    f := InArr(top.before, top.elems + [Elem(fo.before, fo.val, fo.after)]);
    ElemAbsorbed(top, fo, f);
    TakesUp(s, fs, fo, read, COMMA, f, ArrayValue, BeginValue);
  }

  lemma ElemAbsorbed(top: Frame, fo: Focus, f: Frame)
    requires top.InArr? && WfFrame(top) && fo.Whole? && WfFocus(fo)
    requires f == InArr(top.before, top.elems + [Elem(fo.before, fo.val, fo.after)])
    ensures WfFrame(f) && ParseOf(top) == ParseOf(f) == ArrayValue && !JustOpened([f])
    ensures FrameText(f) == FrameText(top) + FocusText(fo) + [COMMA]
  {
    hide Text, WfVal, ElemsText;
    var e := Elem(fo.before, fo.val, fo.after);
    ElemsTextPush(top.elems, e);
    var done := if top.elems == [] then [] else ElemsText(top.elems) + [COMMA];
    AbsorbText(top.before + [LBRACK], done, FocusText(fo), COMMA);
  }

  lemma AbsorbText(open: bytes, done: bytes, part: bytes, c: byte)
    ensures open + (done + part + [c]) == open + done + part + [c]
  {
  }

  lemma ArrayCloses(s: Scan, fs: seq<Frame>, fo: Focus, read: bytes) returns (v: Val)
    requires Wf(s) && Follows(s, fs, fo, read) && fo.Whole? && s.step == EndValue
    requires fs != [] && fs[|fs| - 1].InArr?
    ensures Follows(Next(s, RBRACK).0, fs[..|fs| - 1], Whole(fs[|fs| - 1].before, v, []), read + [RBRACK])
  {
    hide *;
    var top := fs[|fs| - 1];
    FollowsParts(s, fs, fo, read);
    TopIs(s, fs);
    v := Arr([], top.elems + [Elem(fo.before, fo.val, fo.after)]);
    ElemClosed(top, fo, v);
    ClosingNext(s);
    Closes(s, fs, fo, read, RBRACK, v);
  }

  lemma ElemClosed(top: Frame, fo: Focus, v: Val)
    requires top.InArr? && WfFrame(top) && fo.Whole? && WfFocus(fo)
    requires v == Arr([], top.elems + [Elem(fo.before, fo.val, fo.after)])
    ensures WfVal(v) && ParseOf(top) == ArrayValue
    ensures top.before + Text(v) == FrameText(top) + FocusText(fo) + [RBRACK]
  {
    hide ElemsText;
    var e := Elem(fo.before, fo.val, fo.after);
    assert WfElem(e);
    ElemsTextPush(top.elems, e);
    var done := if top.elems == [] then [] else ElemsText(top.elems) + [COMMA];
    CloseParts(top.before, LBRACK, done, FocusText(fo), RBRACK);
  }

  /** What a closing bracket does to the scanner. */
  lemma ClosingNext(s: Scan)
    requires Wf(s) && s.step == EndValue && s.stack != [] && !s.err && !s.endTop
    ensures Top(s) == ArrayValue ==> Next(s, RBRACK).0 == Closed(s.stack[..|s.stack| - 1])
    ensures Top(s) == ObjectValue ==> Next(s, RBRACE).0 == Closed(s.stack[..|s.stack| - 1])
  {
  }

  lemma CloseParts(before: bytes, open: byte, done: bytes, part: bytes, close: byte)
    ensures before + ([open] + (done + part) + [close]) == before + [open] + done + part + [close]
  {
  }

  function MemberOf(f: Frame, fo: Focus): Member
    requires f.InVal? && fo.Whole?
  {
    Member(f.space, f.key, f.mid, fo.before, fo.val, fo.after)
  }

  lemma ObjectComma(s: Scan, fs: seq<Frame>, fo: Focus, read: bytes) returns (f: Frame)
    requires Wf(s) && Follows(s, fs, fo, read) && fo.Whole? && s.step == EndValue
    requires fs != [] && fs[|fs| - 1].InVal?
    ensures Follows(Next(s, COMMA).0, fs[..|fs| - 1] + [f], Gap([]), read + [COMMA])
  {
    hide *;
    var top := fs[|fs| - 1];
    FollowsParts(s, fs, fo, read);
    TopIs(s, fs);
    SeparatorRead(s);
    f := InKey(top.before, top.members + [MemberOf(top, fo)]);
    MemberAbsorbed(top, fo, f);
    TakesUp(s, fs, fo, read, COMMA, f, ObjectKey, BeginString);
  }

  lemma MemberAbsorbed(top: Frame, fo: Focus, f: Frame)
    requires top.InVal? && WfFrame(top) && fo.Whole? && WfFocus(fo)
    requires f == InKey(top.before, top.members + [MemberOf(top, fo)])
    ensures WfFrame(f) && ParseOf(top) == ObjectValue && ParseOf(f) == ObjectKey && !JustOpened([f])
    ensures FrameText(f) == FrameText(top) + FocusText(fo) + [COMMA]
  {
    hide Text, WfVal, IsString, MembersText, MemberText, FocusText;
    var m := MemberOf(top, fo);
    MembersTextPush(top.members, m);
    MemberSplits(top, fo);
    var done := if top.members == [] then [] else MembersText(top.members) + [COMMA];
    AbsorbText(top.before + [LBRACE], done, MemberText(m), COMMA);
    Assoc(top.before + [LBRACE] + done, top.space + top.key + top.mid + [COLON], FocusText(fo));
  }

  lemma MemberSplits(f: Frame, fo: Focus)
    requires f.InVal? && fo.Whole?
    ensures MemberText(MemberOf(f, fo)) == (f.space + f.key + f.mid + [COLON]) + FocusText(fo)
  {
    hide Text;
    AssocMember(f.space + f.key + f.mid + [COLON], fo.before, Text(fo.val), fo.after);
  }

  lemma ObjectCloses(s: Scan, fs: seq<Frame>, fo: Focus, read: bytes) returns (v: Val)
    requires Wf(s) && Follows(s, fs, fo, read) && fo.Whole? && s.step == EndValue
    requires fs != [] && fs[|fs| - 1].InVal?
    ensures Follows(Next(s, RBRACE).0, fs[..|fs| - 1], Whole(fs[|fs| - 1].before, v, []), read + [RBRACE])
  {
    hide *;
    var top := fs[|fs| - 1];
    FollowsParts(s, fs, fo, read);
    TopIs(s, fs);
    v := Obj([], top.members + [MemberOf(top, fo)]);
    MemberClosed(top, fo, v);
    ClosingNext(s);
    Closes(s, fs, fo, read, RBRACE, v);
  }

  lemma MemberClosed(top: Frame, fo: Focus, v: Val)
    requires top.InVal? && WfFrame(top) && fo.Whole? && WfFocus(fo)
    requires v == Obj([], top.members + [MemberOf(top, fo)])
    ensures WfVal(v) && ParseOf(top) == ObjectValue
    ensures top.before + Text(v) == FrameText(top) + FocusText(fo) + [RBRACE]
  {
    hide MembersText, MemberText, FocusText, IsString;
    var m := MemberOf(top, fo);
    assert WfMember(m);
    MembersTextPush(top.members, m);
    MemberSplits(top, fo);
    var done := if top.members == [] then [] else MembersText(top.members) + [COMMA];
    var keyText := top.space + top.key + top.mid + [COLON];
    CloseParts(top.before, LBRACE, done, keyText + FocusText(fo), RBRACE);
    Assoc(top.before + [LBRACE] + done, keyText, FocusText(fo));
  }

  lemma KeyColon(s: Scan, fs: seq<Frame>, fo: Focus, read: bytes) returns (f: Frame)
    requires Wf(s) && Follows(s, fs, fo, read) && fo.Keyed? && s.step == EndValue
    ensures fs != []
    ensures Follows(Next(s, COLON).0, fs[..|fs| - 1] + [f], Gap([]), read + [COLON])
  {
    hide *;
    KeyedExpected(s, fs, fo, read);
    var top := fs[|fs| - 1];
    FollowsParts(s, fs, fo, read);
    TopIs(s, fs);
    SeparatorRead(s);
    f := InVal(top.before, top.members, fo.before, fo.key, fo.mid);
    KeyAbsorbed(top, fo, f);
    TakesUp(s, fs, fo, read, COLON, f, ObjectValue, BeginValue);
  }

  lemma KeyedExpected(s: Scan, fs: seq<Frame>, fo: Focus, read: bytes)
    requires Follows(s, fs, fo, read) && fo.Keyed? && s.step == EndValue
    ensures fs != [] && fs[|fs| - 1].InKey?
  {
    hide WfFrames, WfFocus, Spelled;
  }

  lemma KeyAbsorbed(top: Frame, fo: Focus, f: Frame)
    requires top.InKey? && WfFrame(top) && fo.Keyed? && WfFocus(fo)
    requires f == InVal(top.before, top.members, fo.before, fo.key, fo.mid)
    ensures WfFrame(f) && ParseOf(top) == ObjectKey && ParseOf(f) == ObjectValue && !JustOpened([f])
    ensures FrameText(f) == FrameText(top) + FocusText(fo) + [COLON]
  {
    hide IsString, MembersText;
    Assoc(FrameText(top), fo.before + fo.key + fo.mid, [COLON]);
  }

  /** After a value or key, the scanner meets white space, the separator or bracket of the frame, or an error. */
  lemma EndValueCases(s: Scan, c: byte)
    requires Wf(s) && s.step == EndValue && !Next(s, c).0.err && !IsSpace(c)
    ensures s.stack != []
    ensures match Top(s)
            case ObjectKey => c == COLON
            case ObjectValue => c == COMMA || c == RBRACE
            case ArrayValue => c == COMMA || c == RBRACK
  {
  }

  lemma AfterStep(s: Scan, fs: seq<Frame>, fo: Focus, read: bytes, c: byte) returns (fs': seq<Frame>, fo': Focus)
    requires Wf(s) && Follows(s, fs, fo, read) && s.step == EndValue && !Next(s, c).0.err
    ensures Follows(Next(s, c).0, fs', fo', read + [c])
  {
    if IsSpace(c) {
      fs', fo' := fs, if fo.Whole? then fo.(after := fo.after + [c]) else fo.(mid := fo.mid + [c]);
      if fo.Whole? { WholeSpace(s, fs, fo, read, c); } else { KeyedSpace(s, fs, fo, read, c); }
    } else {
      EndValueCases(s, c);
      assert ParseOf(fs[|fs| - 1]) == Top(s);
      hide Next, Wf, WfFrames, WfFocus, Spelled;
      if c == COLON {
        var f := KeyColon(s, fs, fo, read);
        fs', fo' := fs[..|fs| - 1] + [f], Gap([]);
      } else if c == COMMA {
        var f: Frame;
        if fs[|fs| - 1].InArr? { f := ArrayComma(s, fs, fo, read); } else { f := ObjectComma(s, fs, fo, read); }
        fs', fo' := fs[..|fs| - 1] + [f], Gap([]);
      } else {
        var v: Val;
        if c == RBRACK { v := ArrayCloses(s, fs, fo, read); } else { v := ObjectCloses(s, fs, fo, read); }
        fs', fo' := fs[..|fs| - 1], Whole(fs[|fs| - 1].before, v, []);
      }
    }
  }

  lemma LexemeCases(s: Scan, c: byte)
    requires Wf(s) && IsLexical(s.step) && !Next(s, c).0.err
    ensures NextLexeme(s.step, c).Some? || EndsNumber(s.step)
  {
  }

  /** One byte more, one derivation step more. */
  lemma OneByte(s: Scan, fs: seq<Frame>, fo: Focus, read: bytes, c: byte) returns (fs': seq<Frame>, fo': Focus)
    requires Wf(s) && Follows(s, fs, fo, read) && !Next(s, c).0.err
    ensures Follows(Next(s, c).0, fs', fo', read + [c])
  {
    if fo.Gap? {
      GapCases(s, fs, fo, c);
      hide Next, Follows;
      fs' := fs;
      if IsSpace(c) {
        fo' := Gap(fo.space + [c]);
        GapSpace(s, fs, fo, read, c);
      } else if (c == RBRACK && s.step == BeginValueOrEmpty) || (c == RBRACE && s.step == BeginStringOrEmpty) {
        var v := EmptyCloses(s, fs, fo, read, c);
        fs', fo' := fs[..|fs| - 1], Whole(fs[|fs| - 1].before, v, []);
      } else if Next(s, c).1 == BeginLiteral {
        fo' := Lexing(fo.space, [c]);
        GapLexes(s, fs, fo, read, c);
      } else {
        fs', fo' := fs + [if c == LBRACE then InKey(fo.space, []) else InArr(fo.space, [])], Gap([]);
        GapOpens(s, fs, fo, read, c);
      }
    } else {
      fs', fo' := NonGapByte(s, fs, fo, read, c);
    }
  }

  lemma NonGapByte(s: Scan, fs: seq<Frame>, fo: Focus, read: bytes, c: byte) returns (fs': seq<Frame>, fo': Focus)
    requires Wf(s) && Follows(s, fs, fo, read) && !fo.Gap? && !Next(s, c).0.err
    ensures Follows(Next(s, c).0, fs', fo', read + [c])
  {
    fs' := fs;
    if fo.Lexing? {
      LexingIsLexical(s, fs, fo);
      LexemeCases(s, c);
      hide Next, Follows, NextLexeme;
      if NextLexeme(s.step, c) == Some(EndValue) {
        fo' := LexEnds(s, fs, fo, read, c);
      } else if NextLexeme(s.step, c).Some? {
        fo' := Lexing(fo.before, fo.text + [c]);
        LexGoesOn(s, fs, fo, read, c);
      } else {
        NumberSettles(s, fs, fo, read, c);
        fs', fo' := AfterStep(s.(step := EndValue), fs, Whole(fo.before, Lit(fo.text), []), read, c);
      }
    } else if s.step == EndTop {
      hide LexState, WfFrames, WfFocus, Spelled;
      fo' := fo.(after := fo.after + [c]);
      assert IsSpace(c);
      WholeSpace(s, fs, fo, read, c);
    } else {
      hide LexState, WfFrames, WfFocus, Spelled, Next;
      fs', fo' := AfterStep(s, fs, fo, read, c);
    }
  }

  lemma LexingIsLexical(s: Scan, fs: seq<Frame>, fo: Focus)
    requires Wf(s) && Matches(s, fs, fo) && fo.Lexing?
    ensures IsLexical(s.step)
  {
    hide LexState;
  }

  // ---- Whole inputs ----

  lemma {:induction false} RunFollows(data: bytes) returns (fs: seq<Frame>, fo: Focus)
    requires !Run(Fresh, data).err
    ensures Follows(Run(Fresh, data), fs, fo, data)
  {
    hide Follows, Next;
    if data == [] {
      fs, fo := [], Gap([]);
      FreshFollows();
    } else {
      var d0, c := data[..|data| - 1], data[|data| - 1];
      var s0 := Run(Fresh, d0);
      assert Run(Fresh, data) == Next(s0, c).0;
      hide Run;
      ErrorStays(s0, c);
      fs, fo := RunFollows(d0);
      fs, fo := OneByte(s0, fs, fo, d0, c);
      assert data == d0 + [c];
    }
  }

  lemma FreshFollows()
    ensures Follows(Fresh, [], Gap([]), [])
  {
  }

  lemma ErrorStays(s: Scan, c: byte)
    requires Wf(s)
    ensures s.err ==> Next(s, c).0.err
  {
  }

  /** At the end of the input the scanner is satisfied exactly after a whole top-level value. */
  lemma EofEnded(s: Scan)
    requires Wf(s) && (s.endTop ==> s.step == EndTop && s.stack == [])
    ensures AtEof(s).1 == End <==> Ended(s, [])
  {
    hide NextLexeme;
    if EndsNumber(s.step) && s.stack == [] { NumberMeetsSpace(s); }
  }

  lemma NumberMeetsSpace(s: Scan)
    requires Wf(s) && EndsNumber(s.step)
    ensures NextLexeme(s.step, SPACE) == None
  {
  }

  /** White space after the whole text. */
  lemma {:induction false} TrailRuns(s: Scan, trail: bytes)
    requires Ended(s, []) && AllSpace(trail)
    ensures Wf(s) && Ended(Run(s, trail), [])
  {
    if trail != [] {
      TrailRuns(s, trail[..|trail| - 1]);
      EndedNext(Run(s, trail[..|trail| - 1]), [], trail[|trail| - 1]);
    }
  }

  lemma TextRuns(data: bytes, lead: bytes, v: Val, trail: bytes)
    requires IsText(data, lead, v, trail)
    ensures Ended(Run(Fresh, data), [])
  {
    hide Text, Marks, WfVal;
    SpacesPlay(Fresh, lead);
    ValPlays(Fresh, [], v);
    PlaysConcat(Fresh, All(lead, SkipSpace), Fresh, Marks(v), EndOf(v, []));
    PlayRuns(Fresh, All(lead, SkipSpace) + Marks(v));
    UnmarkConcat(All(lead, SkipSpace), Marks(v));
    UnmarkAll(lead, SkipSpace);
    UnmarkVal(v);
    TrailRuns(EndOf(v, []), trail);
    RunConcat(Fresh, lead + Text(v), trail);
  }

  /** checkValid accepts data exactly when it is a JSON text of RFC 7159, sections 2 to 7. */
  lemma ValidIffText(data: bytes)
    ensures Valid(data) <==> exists lead, v, trail :: IsText(data, lead, v, trail)
  {
    var s := Run(Fresh, data);
    if Valid(data) {
      var fs, fo := RunFollows(data);
      hide FramesText, Text, LexState;
      EofEnded(s);
      if fo.Lexing? {
        LexingIsNumber(s, fo);
        assert IsText(data, fo.before, Lit(fo.text), []);
      } else {
        assert IsText(data, fo.before, fo.val, fo.after);
      }
    }
    if lead, v, trail :| IsText(data, lead, v, trail) {
      TextRuns(data, lead, v, trail);
      hide IsText;
      EofEnded(s);
    }
  }

  lemma LexingIsNumber(s: Scan, fo: Focus)
    requires fo.Lexing? && LexState(fo.text) == Some(s.step) && EndsNumber(s.step)
    ensures WfVal(Lit(fo.text)) && Text(Lit(fo.text)) == fo.text
  {
    NumberIff(fo.text);
  }
}
