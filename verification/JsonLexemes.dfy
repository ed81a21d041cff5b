/**
 Strings, numbers and names as RFC 7159 defines them, and the proof that the scanner's lexical states
 recognise exactly these.
 */
module JsonLexemes {
  import opened Options
  import opened Bytes
  import opened JsonScanner

  // ---- Section 6: numbers ----

  predicate AllDigits(s: bytes) {
    forall i :: 0 <= i < |s| ==> IsDigit(s[i])
  }

  predicate IsDigits(s: bytes) {
    s != [] && AllDigits(s)
  }

  predicate IsMinus(s: bytes) {
    s == [] || s == [0x2D]
  }

  /** int = zero / ( digit1-9 *DIGIT ) */
  predicate IsWhole(s: bytes) {
    s == [0x30] || (IsDigits(s) && s[0] != 0x30)
  }

  /** [ frac ]; frac = decimal-point 1*DIGIT */
  predicate IsFraction(s: bytes) {
    s == [] || (s[0] == 0x2E && IsDigits(s[1..]))
  }

  predicate IsSign(s: bytes) {
    s == [] || s == [0x2B] || s == [0x2D]
  }

  /** [ exp ]; exp = e [ minus / plus ] 1*DIGIT */
  predicate IsExponent(s: bytes) {
    s == [] || (IsE(s[0]) && (IsDigits(s[1..]) || (|s| > 2 && IsSign(s[1..2]) && IsDigits(s[2..]))))
  }

  /** number = [ minus ] int [ frac ] [ exp ] */
  ghost predicate IsNumber(s: bytes) {
    exists minus, whole, fraction, exponent ::
      && s == minus + whole + fraction + exponent
      && IsMinus(minus) && IsWhole(whole) && IsFraction(fraction) && IsExponent(exponent)
  }

  // ---- Section 7: strings ----

  /** An unescaped character; the scanner works on bytes and lets every byte above the control characters pass. */
  predicate IsPlain(c: byte) {
    c >= 0x20 && c != QUOTE && c != BACKSLASH
  }

  predicate AllHex(s: bytes) {
    forall i :: 0 <= i < |s| ==> IsHex(s[i])
  }

  /** One char of the grammar. */
  predicate IsChar(s: bytes) {
    || (|s| == 1 && IsPlain(s[0]))
    || (|s| == 2 && s[0] == BACKSLASH && IsEscape(s[1]))
    || (|s| == 6 && s[0] == BACKSLASH && s[1] == 0x75 && AllHex(s[2..]))
  }

  /** The length of the char that must come first. */
  function CharLength(s: bytes): (n: nat)
    requires s != []
    ensures n > 0
  {
    if s[0] != BACKSLASH then 1 else if |s| > 1 && s[1] == 0x75 then 6 else 2
  }

  /** *char */
  predicate IsChars(s: bytes) {
    s == [] || (CharLength(s) <= |s| && IsChar(s[..CharLength(s)]) && IsChars(s[CharLength(s)..]))
  }

  /** string = quotation-mark *char quotation-mark */
  predicate IsString(s: bytes) {
    |s| >= 2 && s[0] == QUOTE && s[|s| - 1] == QUOTE && IsChars(s[1..|s| - 1])
  }

  // ---- Section 3: names ----

  predicate IsName(s: bytes) {
    s == TRUE || s == FALSE || s == NULL
  }

  ghost predicate IsScalar(s: bytes) {
    IsName(s) || IsNumber(s) || IsString(s)
  }

  // ---- The scanner's lexical states ----

  /** The state after the bytes of one lexeme, if they can begin one. */
  function LexState(s: bytes): Option<Step> {
    if s == [] then None
    else if |s| == 1 then BeginLexeme(s[0])
    else match LexState(s[..|s| - 1])
      case None => None
      case Some(q) => NextLexeme(q, s[|s| - 1])
  }

  /** The lexeme is complete, or would be if the next byte did not go on with it. */
  predicate IsFinal(q: Step) {
    q == EndValue || EndsNumber(q)
  }

  predicate InNumber(q: Step) {
    q == Neg || q == One || q == Zero || q == Dot || q == Dot0 || q == Exp || q == ExpSign || q == Exp0
  }

  lemma LexAppend(s: bytes, c: byte)
    requires LexState(s).Some?
    ensures LexState(s + [c]) == NextLexeme(LexState(s).value, c)
  {
    assert (s + [c])[..|s|] == s;
  }

  // ---- Numbers ----

  /** What a number's bytes so far look like in state `q`. */
  predicate NumberShape(q: Step, minus: bytes, whole: bytes, fraction: bytes, exponent: bytes) {
    && IsMinus(minus)
    && match q
       case Neg => minus == [0x2D] && whole == [] && fraction == [] && exponent == []
       case Zero => whole == [0x30] && fraction == [] && exponent == []
       case One => IsWhole(whole) && whole != [0x30] && fraction == [] && exponent == []
       case Dot => IsWhole(whole) && fraction == [0x2E] && exponent == []
       case Dot0 => IsWhole(whole) && fraction != [] && IsFraction(fraction) && exponent == []
       case Exp => IsWhole(whole) && IsFraction(fraction) && |exponent| == 1 && IsE(exponent[0])
       case ExpSign =>
         && IsWhole(whole) && IsFraction(fraction)
         && |exponent| == 2 && IsE(exponent[0]) && IsSign(exponent[1..])
       case Exp0 => IsWhole(whole) && IsFraction(fraction) && exponent != [] && IsExponent(exponent)
       case _ => false
  }

  predicate NumberParts(q: Step, s: bytes, minus: bytes, whole: bytes, fraction: bytes, exponent: bytes) {
    s == minus + whole + fraction + exponent && NumberShape(q, minus, whole, fraction, exponent)
  }

  ghost predicate NumberSoFar(q: Step, s: bytes) {
    exists minus, whole, fraction, exponent :: NumberParts(q, s, minus, whole, fraction, exponent)
  }

  lemma AppendDigit(s: bytes, c: byte)
    requires AllDigits(s) && IsDigit(c)
    ensures IsDigits(s + [c])
  {
  }

  lemma WholeGrows(q: Step, s: bytes, minus: bytes, whole: bytes, fraction: bytes, exponent: bytes, c: byte)
    requires NumberParts(q, s, minus, whole, fraction, exponent) && (q == Neg || q == One)
    requires NextLexeme(q, c) == Some(Zero) || NextLexeme(q, c) == Some(One)
    ensures NumberParts(NextLexeme(q, c).value, s + [c], minus, whole + [c], [], [])
  {
    assert fraction == [] && exponent == [];
    assert s == minus + whole;
    assert s + [c] == minus + (whole + [c]) + [] + [];
    if q == Neg {
      assert whole + [c] == [c];
    }
  }

  lemma FractionGrows(q: Step, s: bytes, minus: bytes, whole: bytes, fraction: bytes, exponent: bytes, c: byte)
    requires NumberParts(q, s, minus, whole, fraction, exponent)
    requires NextLexeme(q, c) == Some(Dot) || NextLexeme(q, c) == Some(Dot0)
    ensures NumberParts(NextLexeme(q, c).value, s + [c], minus, whole, fraction + [c], [])
  {
    if NextLexeme(q, c) == Some(Dot0) {
      AppendDigit(fraction[1..], c);
      assert (fraction + [c])[1..] == fraction[1..] + [c];
    }
  }

  lemma ExponentGrows(e: bytes, c: byte)
    requires IsDigit(c) && e != [] && IsE(e[0])
    requires |e| == 1 || (|e| == 2 && IsSign(e[1..])) || IsExponent(e)
    ensures IsExponent(e + [c])
  {
    var e' := e + [c];
    assert e'[1..] == e[1..] + [c];
    if |e| == 1 || IsDigits(e[1..]) {
      AppendDigit(e[1..], c);
    } else {
      assert e'[1..2] == e[1..2] && e'[2..] == e[2..] + [c];
      AppendDigit(e[2..], c);
    }
  }

  lemma ExponentPartGrows(q: Step, s: bytes, minus: bytes, whole: bytes, fraction: bytes, exponent: bytes, c: byte)
    requires NumberParts(q, s, minus, whole, fraction, exponent)
    requires NextLexeme(q, c) == Some(Exp) || NextLexeme(q, c) == Some(ExpSign) || NextLexeme(q, c) == Some(Exp0)
    ensures NumberParts(NextLexeme(q, c).value, s + [c], minus, whole, fraction, exponent + [c])
  {
    if NextLexeme(q, c) == Some(Exp0) {
      ExponentGrows(exponent, c);
    } else if NextLexeme(q, c) == Some(ExpSign) {
      assert (exponent + [c])[1..] == [c];
    }
  }

  lemma NumberGrows(q: Step, s: bytes, c: byte)
    requires InNumber(q) && NumberSoFar(q, s) && NextLexeme(q, c).Some?
    ensures NumberSoFar(NextLexeme(q, c).value, s + [c])
  {
    var q' := NextLexeme(q, c).value;
    var minus, whole, fraction, exponent :| NumberParts(q, s, minus, whole, fraction, exponent);
    hide NumberParts;
    if q' == Zero || q' == One {
      WholeGrows(q, s, minus, whole, fraction, exponent, c);
    } else if q' == Dot || q' == Dot0 {
      FractionGrows(q, s, minus, whole, fraction, exponent, c);
    } else {
      ExponentPartGrows(q, s, minus, whole, fraction, exponent, c);
    }
  }

  lemma NumberBegins(s: bytes)
    requires |s| == 1 && BeginLexeme(s[0]).Some? && InNumber(BeginLexeme(s[0]).value)
    ensures NumberSoFar(BeginLexeme(s[0]).value, s)
  {
    var q := BeginLexeme(s[0]).value;
    if q == Neg {
      assert NumberParts(q, s, s, [], [], []);
    } else {
      assert NumberParts(q, s, [], s, [], []);
    }
  }

  lemma {:induction false} LexNumberSound(s: bytes)
    requires LexState(s).Some? && InNumber(LexState(s).value)
    ensures NumberSoFar(LexState(s).value, s)
  {
    hide NumberSoFar;
    if |s| == 1 {
      NumberBegins(s);
    } else {
      var s0, c := s[..|s| - 1], s[|s| - 1];
      LexNumberSound(s0);
      NumberGrows(LexState(s0).value, s0, c);
      assert s == s0 + [c];
    }
  }

  lemma {:induction false} DigitsRun(p: bytes, ds: bytes)
    requires LexState(p).Some? && AllDigits(ds)
    requires LexState(p).value == One || LexState(p).value == Dot0 || LexState(p).value == Exp0
    ensures LexState(p + ds) == LexState(p)
  {
    if ds == [] {
      assert p + ds == p;
    } else {
      var ds0, c := ds[..|ds| - 1], ds[|ds| - 1];
      DigitsRun(p, ds0);
      LexAppend(p + ds0, c);
      assert p + ds0 + [c] == p + ds;
    }
  }

  lemma WholeRuns(minus: bytes, whole: bytes)
    requires IsMinus(minus) && IsWhole(whole)
    ensures LexState(minus + whole) == Some(if whole == [0x30] then Zero else One)
  {
    var first := minus + whole[..1];
    if minus == [0x2D] {
      assert first[..1] == [0x2D] && first[1] == whole[0];
      LexAppend([0x2D], whole[0]);
      assert first == [0x2D] + [whole[0]];
    } else {
      assert first == [whole[0]];
    }
    if whole != [0x30] {
      DigitsRun(first, whole[1..]);
    }
    assert minus + whole == first + whole[1..];
  }

  lemma FractionRuns(p: bytes, fraction: bytes)
    requires LexState(p) == Some(Zero) || LexState(p) == Some(One)
    requires IsFraction(fraction)
    ensures LexState(p + fraction) == if fraction == [] then LexState(p) else Some(Dot0)
  {
    if fraction == [] {
      assert p + fraction == p;
    } else {
      LexAppend(p, fraction[0]);
      LexAppend(p + [fraction[0]], fraction[1]);
      var first := p + [fraction[0]] + [fraction[1]];
      assert AllDigits(fraction[2..]) by { assert forall i :: 0 <= i < |fraction[2..]| ==> fraction[2..][i] == fraction[1..][i + 1]; }
      DigitsRun(first, fraction[2..]);
      assert p + fraction == first + fraction[2..];
    }
  }

  lemma ExponentRuns(p: bytes, exponent: bytes)
    requires LexState(p) == Some(Zero) || LexState(p) == Some(One) || LexState(p) == Some(Dot0)
    requires IsExponent(exponent) && exponent != []
    ensures LexState(p + exponent) == Some(Exp0)
  {
    var p1, rest := p + [exponent[0]], exponent[1..];
    LexAppend(p, exponent[0]);
    hide LexState;
    assert p + exponent == p1 + rest;
    if IsDigits(rest) {
      ExponentDigits(p1, rest);
    } else {
      assert exponent[1..2] == rest[..1] && exponent[2..] == rest[1..];
      SignedRuns(p1, rest);
    }
  }

  lemma SignedRuns(p: bytes, e: bytes)
    requires LexState(p) == Some(Exp)
    requires |e| > 1 && IsSign(e[..1]) && IsDigits(e[1..])
    ensures LexState(p + e) == Some(Exp0)
  {
    LexAppend(p, e[0]);
    hide LexState;
    assert e[..1] == [e[0]];
    ExponentDigits(p + [e[0]], e[1..]);
    assert p + e == p + [e[0]] + e[1..];
  }

  lemma ExponentDigits(p: bytes, ds: bytes)
    requires LexState(p) == Some(Exp) || LexState(p) == Some(ExpSign)
    requires IsDigits(ds)
    ensures LexState(p + ds) == Some(Exp0)
  {
    LexAppend(p, ds[0]);
    DigitsRun(p + [ds[0]], ds[1..]);
    assert p + ds == p + [ds[0]] + ds[1..];
  }

  /** The scanner's number states accept exactly the numbers of section 6. */
  lemma NumberIff(s: bytes)
    ensures IsNumber(s) <==> LexState(s).Some? && EndsNumber(LexState(s).value)
  {
    if IsNumber(s) {
      var minus, whole, fraction, exponent :|
        && s == minus + whole + fraction + exponent
        && IsMinus(minus) && IsWhole(whole) && IsFraction(fraction) && IsExponent(exponent);
      WholeRuns(minus, whole);
      FractionRuns(minus + whole, fraction);
      if exponent == [] {
        assert s == minus + whole + fraction;
      } else {
        ExponentRuns(minus + whole + fraction, exponent);
      }
    }
    if LexState(s).Some? && EndsNumber(LexState(s).value) {
      LexNumberSound(s);
    }
  }

  // ---- Strings ----

  lemma {:induction false} CharsAppend(s: bytes, u: bytes)
    requires IsChars(s) && IsChar(u)
    ensures IsChars(s + u)
  {
    if s == [] {
      assert s + u == u && u[..|u|] == u && u[|u|..] == [];
    } else {
      var n := CharLength(s);
      assert (s + u)[..n] == s[..n] && (s + u)[n..] == s[n..] + u;
      CharsAppend(s[n..], u);
    }
  }

  /** Inside a string: complete chars, then what has been read of an escape. */
  predicate StringParts(q: Step, s: bytes, cs: bytes, esc: bytes) {
    && s == [QUOTE] + cs + esc && IsChars(cs)
    && match q
       case InString => esc == []
       case InStringEsc => esc == [BACKSLASH]
       case EscU(n) => |esc| == n + 2 && n < 4 && esc[0] == BACKSLASH && esc[1] == 0x75 && AllHex(esc[2..])
       case _ => false
  }

  ghost predicate StringSoFar(q: Step, s: bytes) {
    exists cs, esc :: StringParts(q, s, cs, esc)
  }

  predicate InText(q: Step) {
    q == InString || q == InStringEsc || q.EscU?
  }

  lemma CharCompletes(q: Step, s: bytes, cs: bytes, esc: bytes, c: byte)
    requires StringParts(q, s, cs, esc) && NextLexeme(q, c) == Some(InString)
    ensures StringParts(InString, s + [c], cs + (esc + [c]), [])
  {
    hide IsChars;
    if q.EscU? { assert (esc + [c])[2..] == esc[2..] + [c]; }
    CharsAppend(cs, esc + [c]);
  }

  lemma EscapeGrows(q: Step, s: bytes, cs: bytes, esc: bytes, c: byte)
    requires StringParts(q, s, cs, esc) && NextLexeme(q, c).Some?
    requires NextLexeme(q, c).value != InString && NextLexeme(q, c).value != EndValue
    ensures StringParts(NextLexeme(q, c).value, s + [c], cs, esc + [c])
  {
    hide IsChars;
    if q.EscU? { assert (esc + [c])[2..] == esc[2..] + [c]; }
  }

  lemma StringGrows(q: Step, s: bytes, c: byte)
    requires StringSoFar(q, s) && NextLexeme(q, c).Some? && NextLexeme(q, c).value != EndValue
    ensures StringSoFar(NextLexeme(q, c).value, s + [c])
  {
    var cs, esc :| StringParts(q, s, cs, esc);
    hide StringParts, NextLexeme;
    if NextLexeme(q, c).value == InString {
      CharCompletes(q, s, cs, esc, c);
    } else {
      EscapeGrows(q, s, cs, esc, c);
    }
  }

  lemma {:induction false} LexStringSound(s: bytes)
    requires LexState(s).Some? && InText(LexState(s).value)
    ensures StringSoFar(LexState(s).value, s)
  {
    if |s| == 1 {
      assert StringParts(InString, s, [], []);
    } else {
      var s0, c := s[..|s| - 1], s[|s| - 1];
      LexStringSound(s0);
      StringGrows(LexState(s0).value, s0, c);
      assert s == s0 + [c];
    }
  }

  lemma CharRuns(p: bytes, u: bytes)
    requires LexState(p) == Some(InString) && IsChar(u)
    ensures LexState(p + u) == Some(InString)
  {
    LexAppend(p, u[0]);
    hide LexState;
    if |u| == 1 {
      assert u == [u[0]];
    } else {
      LexAppend(p + [u[0]], u[1]);
      if |u| == 2 {
        assert p + u == p + [u[0]] + [u[1]];
      } else {
        HexRuns(p + [u[0]] + [u[1]], u[2..], 0);
        assert p + u == p + [u[0]] + [u[1]] + u[2..];
      }
    }
  }

  lemma {:induction false} HexRuns(p: bytes, hs: bytes, n: nat)
    requires n < 4 && LexState(p) == Some(EscU(n)) && |hs| == 4 - n && AllHex(hs)
    ensures LexState(p + hs) == Some(InString)
    decreases |hs|
  {
    LexAppend(p, hs[0]);
    hide LexState;
    assert p + hs == p + [hs[0]] + hs[1..];
    if n < 3 {
      HexRuns(p + [hs[0]], hs[1..], n + 1);
    } else {
      assert p + hs == p + [hs[0]];
    }
  }

  lemma {:induction false} CharsRun(p: bytes, s: bytes)
    requires LexState(p) == Some(InString) && IsChars(s)
    ensures LexState(p + s) == Some(InString)
    decreases |s|
  {
    hide LexState;
    if s == [] {
      assert p + s == p;
    } else {
      var n := CharLength(s);
      CharRuns(p, s[..n]);
      CharsRun(p + s[..n], s[n..]);
      assert p + s == p + s[..n] + s[n..];
    }
  }

  // ---- Names ----

  lemma {:induction false} LexNameSound(s: bytes)
    requires LexState(s).Some? && LexState(s).value.InName?
    ensures IsName(s + LexState(s).value.rest)
  {
    if |s| > 1 {
      var s0, c := s[..|s| - 1], s[|s| - 1];
      LexNameSound(s0);
      assert s0 + LexState(s0).value.rest == s + LexState(s).value.rest;
    }
  }

  lemma {:induction false} NameRuns(s: bytes, n: nat)
    requires IsName(s) && 1 <= n <= |s|
    ensures LexState(s[..n]) == Some(if n == |s| then EndValue else InName(s[n..]))
  {
    hide *;
    if n > 1 {
      NameRuns(s, n - 1);
      NameNext(s, n);
    } else {
      NameFirst(s);
    }
  }

  lemma NameFirst(s: bytes)
    requires IsName(s)
    ensures |s| > 1 && LexState(s[..1]) == Some(InName(s[1..]))
  {
    assert s[..1] == [s[0]];
  }

  lemma NameNext(s: bytes, n: nat)
    requires 1 < n <= |s| && LexState(s[..n - 1]) == Some(InName(s[n - 1..]))
    ensures LexState(s[..n]) == Some(if n == |s| then EndValue else InName(s[n..]))
  {
    LexAppend(s[..n - 1], s[n - 1]);
    assert s[..n] == s[..n - 1] + [s[n - 1]];
    assert s[n - 1..][1..] == s[n..];
    hide LexState;
  }

  // ---- All lexemes ----

  /** A lexeme that is complete in state EndValue was a string or a name. */
  lemma LexEndSound(s: bytes)
    requires LexState(s) == Some(EndValue)
    ensures IsString(s) || IsName(s)
  {
    var s0, c := s[..|s| - 1], s[|s| - 1];
    var q := LexState(s0).value;
    if q.InName? {
      LexNameSound(s0);
      assert s == s0 + q.rest;
    } else {
      LexStringSound(s0);
      var cs, esc :| StringParts(q, s0, cs, esc);
      assert s[1..|s| - 1] == cs;
    }
  }

  lemma StringRuns(s: bytes)
    requires IsString(s)
    ensures LexState(s) == Some(EndValue)
  {
    var cs := s[1..|s| - 1];
    CharsRun([QUOTE], cs);
    LexAppend([QUOTE] + cs, QUOTE);
    assert s == [QUOTE] + cs + [QUOTE];
  }

  /** The scanner's lexical states recognise exactly the scalars of the grammar. */
  lemma ScalarIff(s: bytes)
    ensures IsScalar(s) <==> LexState(s).Some? && IsFinal(LexState(s).value)
  {
    hide LexState, IsString, IsNumber;
    NumberIff(s);
    if IsName(s) {
      NameRuns(s, |s|);
      assert s[..|s|] == s;
    } else if IsString(s) {
      StringRuns(s);
    } else if LexState(s) == Some(EndValue) {
      LexEndSound(s);
    }
  }

  /** No lexeme begins with punctuation. */
  lemma {:induction false} LexBegins(text: bytes)
    requires LexState(text).Some?
    ensures text[0] != COMMA && text[0] != COLON && text[0] != LBRACE && text[0] != LBRACK && text[0] != RBRACE && text[0] != RBRACK
  {
    if |text| > 1 { LexBegins(text[..|text| - 1]); }
  }
}
