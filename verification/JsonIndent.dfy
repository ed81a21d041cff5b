/** Indent: what it writes byte by byte, and the depth that it keeps. */
module JsonIndent {
  import opened Bytes
  import opened JsonScanner
  import opened JsonLexemes
  import opened JsonGrammar
  import opened JsonParse
  import opened JsonQuoting
  import opened JsonTrace
  import opened JsonMeaning
  import JsonCompact

  /** The two strings that Indent is given. */
  datatype Style = Style(prefix: bytes, indent: bytes)

  function Repeat(s: bytes, n: int): bytes {
    if n <= 0 then [] else Repeat(s, n - 1) + s
  }

  function NewLine(st: Style, depth: int): bytes {
    [NEWLINE] + st.prefix + Repeat(st.indent, depth)
  }

  method Newline(dst: Buffer, st: Style, depth: int)
    modifies dst
    ensures dst.buf == old(dst.buf) + NewLine(st, depth)
  {
    dst.WriteByte(NEWLINE);
    dst.Write(st.prefix);
    ghost var buf := dst.buf;
    var i := 0;
    assert buf + [] == buf;
    while i < depth
      invariant 0 <= i && (i == 0 || i <= depth)
      invariant dst.buf == buf + Repeat(st.indent, i)
    {
      dst.Write(st.indent);
      i := i + 1;
      assert Repeat(st.indent, i) == Repeat(st.indent, i - 1) + st.indent;
    }
    assert Repeat(st.indent, i) == Repeat(st.indent, depth);
  }

  // ---- Byte by byte ----

  /** The variables of Indent's loop. */
  datatype Layout = Layout(needIndent: bool, depth: int)

  /** What is written for one byte that is not white space, and the variables after it. */
  function IndentByte(st: Style, l: Layout, m: Mark): (bytes, Layout) {
    if m.code == SkipSpace then ([], l)
    else
      var opens := l.needIndent && m.code != EndObject && m.code != EndArray;
      var l1 := if opens then Layout(false, l.depth + 1) else l;
      var lead := if opens then NewLine(st, l1.depth) else [];
      if m.code == Continue then (lead + [m.c], l1)
      else if m.c == LBRACE || m.c == LBRACK then (lead + [m.c], l1.(needIndent := true))
      else if m.c == COMMA then (lead + ([m.c] + NewLine(st, l1.depth)), l1)
      else if m.c == COLON then (lead + [m.c, SPACE], l1)
      else if m.c == RBRACE || m.c == RBRACK then
        if l1.needIndent then (lead + [m.c], l1.(needIndent := false))
        else (lead + (NewLine(st, l1.depth - 1) + [m.c]), l1.(depth := l1.depth - 1))
      else (lead + [m.c], l1)
  }

  function IndentMarks(st: Style, l: Layout, m: seq<Mark>): (bytes, Layout) {
    if m == [] then ([], l)
    else
      var (out, l0) := IndentMarks(st, l, m[..|m| - 1]);
      var (b, l1) := IndentByte(st, l0, m[|m| - 1]);
      (out + b, l1)
  }

  const START := Layout(false, 0)

  /** What Indent writes for valid data. */
  function Indented(src: bytes, st: Style): bytes {
    IndentMarks(st, START, Trace(Fresh, src)).0
  }

  method WriteIndented(dst: Buffer, st: Style, l: Layout, c: byte, v: Code) returns (l': Layout)
    requires v != SkipSpace
    modifies dst
    ensures l' == IndentByte(st, l, Mark(c, v)).1
    ensures dst.buf == old(dst.buf) + IndentByte(st, l, Mark(c, v)).0
  {
    hide NewLine;
    var needIndent, depth := l.needIndent, l.depth;
    if needIndent && v != EndObject && v != EndArray {
      needIndent := false;
      depth := depth + 1;
      Newline(dst, st, depth);
    }

    // The inside of a lexeme is copied.
    if v == Continue {
      dst.WriteByte(c);
      return Layout(needIndent, depth);
    }

    // Punctuation decides where lines break.
    if c == LBRACE || c == LBRACK {
      // The line breaks only once something is found inside.
      needIndent := true;
      dst.WriteByte(c);
    } else if c == COMMA {
      dst.WriteByte(c);
      Newline(dst, st, depth);
    } else if c == COLON {
      dst.WriteByte(c);
      dst.WriteByte(SPACE);
    } else if c == RBRACE || c == RBRACK {
      if needIndent {
        // Nothing was inside.
        needIndent := false;
      } else {
        depth := depth - 1;
        Newline(dst, st, depth);
      }
      dst.WriteByte(c);
    } else {
      dst.WriteByte(c);
    }
    l' := Layout(needIndent, depth);
  }

  /** Indent: dst is as before if src is not valid. */
  method Indent(dst: Buffer, src: bytes, st: Style) returns (ok: bool)
    modifies dst
    ensures ok <==> Valid(src)
    ensures dst.buf == if ok then old(dst.buf) + Indented(src, st) else old(dst.buf)
  {
    hide *;
    var origLen := |dst.buf|;
    var scan := new Scanner();
    var l := Layout(false, 0);
    var i: nat := 0;
    ghost var out: bytes := [];
    IndentStart(src, st);
    while i < |src|
      invariant i <= |src| && scan.Ok() && !scan.redo && scan.View() == Run(Fresh, src[..i])
      invariant dst.buf == old(dst.buf) + out && IndentMarks(st, START, Trace(Fresh, src[..i])) == (out, l)
    {
      var c := src[i];
      var v := scan.Step(c);
      JsonCompact.RunNext(src, i);
      IndentStep(src, st, i);
      if v == Error {
        ErrorInvalid(src, i);
        break;
      }
      ghost var piece := IndentByte(st, l, Mark(c, v)).0;
      if v != SkipSpace {
        l := WriteIndented(dst, st, l, c, v);
      } else {
        SkipIndents(st, l, c);
      }
      assert old(dst.buf) + out + piece == old(dst.buf) + (out + piece);
      out := out + piece;
      i := i + 1;
    }
    JsonCompact.EofCode(scan.View());
    assert i == |src| ==> src[..i] == src;
    ValidCode(src);
    IndentAll(src, st);
    var code := scan.Eof();
    if code == Error {
      dst.Truncate(origLen);
      return false;
    }
    ok := true;
  }

  lemma SkipIndents(st: Style, l: Layout, c: byte)
    ensures IndentByte(st, l, Mark(c, SkipSpace)) == ([], l)
  {
  }

  lemma IndentStart(src: bytes, st: Style)
    ensures src[..0] == [] && Run(Fresh, src[..0]) == Fresh && IndentMarks(st, START, Trace(Fresh, src[..0])) == ([], START)
    ensures START == Layout(false, 0)
  {
  }

  lemma IndentAll(src: bytes, st: Style)
    ensures Indented(src, st) == IndentMarks(st, START, Trace(Fresh, src)).0
  {
  }

  lemma IndentStep(src: bytes, st: Style, i: nat)
    requires i < |src|
    ensures var (out, l) := IndentMarks(st, START, Trace(Fresh, src[..i]));
            var (b, l') := IndentByte(st, l, Mark(src[i], Next(Run(Fresh, src[..i]), src[i]).1));
            IndentMarks(st, START, Trace(Fresh, src[..i + 1])) == (out + b, l')
  {
    hide Next, Run, IndentByte;
    assert src[..i + 1][..i] == src[..i];
    var m := Trace(Fresh, src[..i + 1]);
    assert m[..i] == Trace(Fresh, src[..i]);
  }

  // ---- The nesting depth ----

  /** depth, and one for an indentation that is due, is the depth of the scanner's stack. */
  predicate Agree(l: Layout, s: Scan) {
    && Wf(s) && l.depth + (if l.needIndent then 1 else 0) == |s.stack|
    && (l.needIndent ==> s.step == BeginValueOrEmpty || s.step == BeginStringOrEmpty)
  }

  lemma AgreeStep(st: Style, l: Layout, s: Scan, c: byte)
    requires Agree(l, s) && !Next(s, c).0.err
    ensures Agree(IndentByte(st, l, Mark(c, Next(s, c).1)).1, Next(s, c).0)
  {
    hide *;
    AgreeWf(l, s);
    StackMoves(s, c);
    AgreeMoves(st, l, s, c, Next(s, c).0, Next(s, c).1);
  }

  lemma AgreeWf(l: Layout, s: Scan)
    requires Agree(l, s)
    ensures Wf(s)
  {
  }

  predicate IsBrace(c: byte) {
    c == LBRACE || c == LBRACK || c == RBRACE || c == RBRACK
  }

  /** What a byte without an error does to the scanner's stack, by its code. */
  predicate Moves(s: Scan, c: byte, s': Scan, code: Code) {
    if code == BeginObject || code == BeginArray then
      (c == LBRACE || c == LBRACK) && |s'.stack| == |s.stack| + 1 && (s'.step == BeginValueOrEmpty || s'.step == BeginStringOrEmpty)
    else if code == EndObject || code == EndArray then
      (c == RBRACE || c == RBRACK) && |s'.stack| == |s.stack| - 1
    else
      && |s'.stack| == |s.stack|
      && if code == SkipSpace then s.step == BeginValueOrEmpty || s.step == BeginStringOrEmpty ==> s'.step == s.step
         else IsBrace(c) ==> code == Continue
  }

  lemma StackMoves(s: Scan, c: byte)
    requires Wf(s) && !Next(s, c).0.err
    ensures Moves(s, c, Next(s, c).0, Next(s, c).1)
  {
    hide NextBeginValue, NextBeginString, NextEndValue, NextLexeme, Moves, BeginLexeme;
    if s.step == BeginValue || (s.step == BeginValueOrEmpty && c != RBRACK) {
      ValueMoves(s, c);
    } else if s.step == BeginString || (s.step == BeginStringOrEmpty && c != RBRACE) {
      StringMoves(s, c);
    } else if s.step == BeginStringOrEmpty {
      EndMoves(s, SetTop(s, ObjectValue), c);
    } else if s.step == BeginValueOrEmpty || s.step == EndValue {
      EndMoves(s, s, c);
    } else if s.step == EndTop {
      TopMoves(s, c);
    } else if NextLexeme(s.step, c).Some? {
      LexemeMoves(s, c, NextLexeme(s.step, c).value);
    } else {
      EndMoves(s, s, c);
    }
  }

  lemma ValueMoves(s: Scan, c: byte)
    requires Wf(s) && (s.step == BeginValue || s.step == BeginValueOrEmpty) && !NextBeginValue(s, c).0.err
    ensures Moves(s, c, NextBeginValue(s, c).0, NextBeginValue(s, c).1)
  {
  }

  lemma StringMoves(s: Scan, c: byte)
    requires Wf(s) && (s.step == BeginString || s.step == BeginStringOrEmpty) && !NextBeginString(s, c).0.err
    ensures Moves(s, c, NextBeginString(s, c).0, NextBeginString(s, c).1)
  {
  }

  lemma LexemeMoves(s: Scan, c: byte, q: Step)
    ensures Moves(s, c, s.(step := q), Continue)
  {
  }

  lemma TopMoves(s: Scan, c: byte)
    requires Wf(s) && s.step == EndTop && !NextEndTop(s, c).0.err
    ensures Moves(s, c, NextEndTop(s, c).0, NextEndTop(s, c).1)
  {
  }

  lemma EndMoves(s: Scan, s1: Scan, c: byte)
    requires !s1.err && !NextEndValue(s1, c).0.err && |s1.stack| == |s.stack|
    requires s.step == BeginValueOrEmpty ==> c == RBRACK
    requires s.step == BeginStringOrEmpty ==> c == RBRACE
    ensures Moves(s, c, NextEndValue(s1, c).0, NextEndValue(s1, c).1)
  {
  }

  lemma AgreeMoves(st: Style, l: Layout, s: Scan, c: byte, s': Scan, code: Code)
    requires Agree(l, s) && Moves(s, c, s', code) && Wf(s')
    ensures Agree(IndentByte(st, l, Mark(c, code)).1, s')
  {
    hide NewLine, Wf;
  }

  /** As long as there is no error, Indent's depth follows the scanner's stack and is never negative. */
  lemma {:induction false} DepthIsNesting(src: bytes, st: Style, i: nat)
    requires i <= |src| && !Run(Fresh, src[..i]).err
    ensures var l := IndentMarks(st, START, Trace(Fresh, src[..i])).1;
            && l.depth + (if l.needIndent then 1 else 0) == |Run(Fresh, src[..i]).stack|
            && Agree(l, Run(Fresh, src[..i])) && l.depth >= 0
  {
    hide Next, IndentByte;
    if i == 0 {
      IndentStart(src, st);
    } else {
      JsonCompact.RunNext(src, i - 1);
      ErrorStays(Run(Fresh, src[..i - 1]), src[i - 1]);
      DepthIsNesting(src, st, i - 1);
      IndentStep(src, st, i - 1);
      AgreeStep(st, IndentMarks(st, START, Trace(Fresh, src[..i - 1])).1, Run(Fresh, src[..i - 1]), src[i - 1]);
    }
  }
}
