/**
 isValidNumber, the encoder's own number recogniser, agrees with section 6 of RFC 7159 and so with the
 scanner.
 */
module JsonNumber {
  import opened Options
  import opened Bytes
  import opened JsonScanner
  import opened JsonLexemes

  /** The scanner cannot get past a byte that does not go on with the lexeme. */
  lemma {:induction false} Stuck(p: bytes, c: byte, rest: bytes)
    requires LexState(p + [c]) == None
    ensures LexState(p + [c] + rest) == None
  {
    if rest == [] {
      assert p + [c] + rest == p + [c];
    } else {
      assert (p + [c] + rest)[..|p + [c] + rest| - 1] == p + [c] + rest[..|rest| - 1];
      Stuck(p, c, rest[..|rest| - 1]);
    }
  }

  /** A number starts with a minus sign or a digit. */
  lemma {:induction false} NumberFirst(s: bytes)
    requires LexState(s).Some? && InNumber(LexState(s).value)
    ensures s[0] == 0x2D || IsDigit(s[0])
  {
    if |s| > 1 {
      NumberFirst(s[..|s| - 1]);
    }
  }

  /** What is left cannot complete the number that `p` began. */
  lemma NotNumber(p: bytes, s: bytes)
    requires p != [] && LexState(p).Some?
    requires s == [] ==> !EndsNumber(LexState(p).value)
    requires s != [] ==> NextLexeme(LexState(p).value, s[0]) == None
    ensures !IsNumber(p + s)
  {
    NumberIff(p + s);
    if s == [] {
      assert p + s == p;
    } else {
      LexAppend(p, s[0]);
      Stuck(p, s[0], s[1..]);
      assert p + s == p + [s[0]] + s[1..];
    }
  }

  lemma NotBegun(s: bytes)
    requires s == [] || !(s[0] == 0x2D || IsDigit(s[0]))
    ensures !IsNumber(s)
  {
    NumberIff(s);
    if LexState(s).Some? && EndsNumber(LexState(s).value) { NumberFirst(s); }
  }

  lemma One(c: byte)
    ensures LexState([c]) == BeginLexeme(c)
  {
  }

  /** The number states in which a digit changes nothing. */
  predicate TakesDigits(q: Step) {
    q == Step.One || q == Dot0 || q == Exp0
  }

  /** The loop over digits. */
  method SkipDigits(ghost p: bytes, s: bytes) returns (ghost p': bytes, s': bytes)
    requires LexState(p).Some? && TakesDigits(LexState(p).value)
    ensures p' + s' == p + s && LexState(p') == LexState(p)
    ensures s' == [] || !IsDigit(s'[0])
  {
    p', s' := p, s;
    while s' != [] && IsDigit(s'[0])
      invariant p' + s' == p + s && LexState(p') == LexState(p)
      decreases |s'|
    {
      LexAppend(p', s'[0]);
      p', s' := p' + [s'[0]], s'[1..];
    }
  }

  method IsValidNumber(text: bytes) returns (ok: bool)
    ensures ok <==> IsNumber(text)
  {
    var s := text;
    ghost var p: bytes := [];
    if s == [] {
      NotBegun(text);
      return false;
    }

    // The sign
    if s[0] == 0x2D {
      One(0x2D);
      p, s := [0x2D], s[1..];
      assert text == p + s;
      if s == [] {
        NotNumber(p, s);
        return false;
      }
    }

    // The integer part
    if !IsDigit(s[0]) {
      if p == [] { NotBegun(text); } else { NotNumber(p, s); }
      return false;
    }
    var first := s[0];
    if p == [] { One(s[0]); } else { LexAppend(p, s[0]); }
    assert p + [s[0]] == (if p == [] then [s[0]] else p + [s[0]]);
    p, s := p + [s[0]], s[1..];
    assert text == p + s;
    if first != 0x30 {
      p, s := SkipDigits(p, s);
    }
    ok := Fraction(text, p, s);
  }

  lemma TakesDot(p: bytes, c: byte)
    requires c == 0x2E && (LexState(p) == Some(Zero) || LexState(p) == Some(Step.One))
    ensures LexState(p + [c]) == Some(Dot)
  {
    LexAppend(p, c);
  }

  lemma TakesE(p: bytes, c: byte)
    requires IsE(c) && (LexState(p) == Some(Zero) || LexState(p) == Some(Step.One) || LexState(p) == Some(Dot0))
    ensures LexState(p + [c]) == Some(Exp)
  {
    LexAppend(p, c);
  }

  lemma TakesSign(p: bytes, c: byte)
    requires (c == 0x2B || c == 0x2D) && LexState(p) == Some(Exp)
    ensures LexState(p + [c]) == Some(ExpSign)
  {
    LexAppend(p, c);
  }

  lemma TakesDigit(p: bytes, c: byte)
    requires IsDigit(c) && (LexState(p) == Some(Dot) || LexState(p) == Some(Exp) || LexState(p) == Some(ExpSign))
    ensures LexState(p + [c]) == Some(if LexState(p) == Some(Dot) then Dot0 else Exp0)
  {
    LexAppend(p, c);
  }

  /** After a point, an e, a sign or the digits of an exponent: neither a digit nor the sign that may come. */
  lemma NoDigit(p: bytes, s: bytes)
    requires LexState(p) == Some(Dot) || LexState(p) == Some(Exp) || LexState(p) == Some(ExpSign) || LexState(p) == Some(Exp0)
    requires s == [] ==> LexState(p) != Some(Exp0)
    requires s != [] ==> !IsDigit(s[0]) && (LexState(p) == Some(Exp) ==> s[0] != 0x2B && s[0] != 0x2D)
    ensures !IsNumber(p + s)
  {
    NotNumber(p, s);
  }

  /** After the digits before or after the point: neither a point nor an exponent that may come. */
  lemma NoExponent(p: bytes, s: bytes)
    requires LexState(p) == Some(Zero) || LexState(p) == Some(Step.One) || LexState(p) == Some(Dot0)
    requires s != [] && !IsE(s[0])
    requires s[0] == 0x2E ==> LexState(p) == Some(Dot0)
    requires IsDigit(s[0]) ==> LexState(p) == Some(Zero)
    ensures !IsNumber(p + s)
  {
    NotNumber(p, s);
  }

  lemma Complete(p: bytes)
    requires LexState(p) == Some(Zero) || LexState(p) == Some(Step.One) || LexState(p) == Some(Dot0) || LexState(p) == Some(Exp0)
    ensures IsNumber(p) && IsNumber(p + [])
  {
    NumberIff(p);
    assert p + [] == p;
  }

  /** A point and the digits that it needs, or nothing. */
  method Fraction(ghost text: bytes, ghost p0: bytes, s0: bytes) returns (ok: bool)
    requires text == p0 + s0 && p0 != []
    requires LexState(p0) == Some(Zero) || (LexState(p0) == Some(Step.One) && (s0 == [] || !IsDigit(s0[0])))
    ensures ok <==> IsNumber(text)
  {
    hide LexState, NextLexeme, IsNumber;
    var s := s0;
    ghost var p := p0;
    if |s| >= 2 && s[0] == 0x2E && IsDigit(s[1]) {
      TakesDot(p, s[0]);
      TakesDigit(p + [s[0]], s[1]);
      p, s := p + [s[0]] + [s[1]], s[2..];
      p, s := SkipDigits(p, s);
      assert text == p + s;
      if s != [] && !IsE(s[0]) { NoExponent(p, s); }
    } else if s != [] && s[0] == 0x2E {
      TakesDot(p, s[0]);
      NoDigit(p + [s[0]], s[1..]);
      assert text == p + [s[0]] + s[1..];
    } else if s != [] && !IsE(s[0]) {
      NoExponent(p, s);
    }
    ok := Exponent(text, p, s);
  }

  /** e or E, and then what an exponent needs; or nothing. */
  method Exponent(ghost text: bytes, ghost p: bytes, s: bytes) returns (ok: bool)
    requires text == p + s
    requires LexState(p) == Some(Zero) || LexState(p) == Some(Step.One) || LexState(p) == Some(Dot0)
    requires s != [] && !IsE(s[0]) ==> !IsNumber(text)
    ensures ok <==> IsNumber(text)
  {
    hide LexState, NextLexeme, IsNumber;
    if |s| >= 2 && IsE(s[0]) {
      TakesE(p, s[0]);
      assert text == p + [s[0]] + s[1..];
      ok := AfterE(text, p + [s[0]], s[1..]);
      return;
    }
    if s == [] {
      Complete(p);
    } else if IsE(s[0]) {
      TakesE(p, s[0]);
      NoDigit(p + [s[0]], []);
      assert text == p + [s[0]] + [];
    }
    ok := s == [];
  }

  /** After the e: a sign or none, the digits that must come, and the end. */
  method AfterE(ghost text: bytes, ghost p0: bytes, s0: bytes) returns (ok: bool)
    requires text == p0 + s0 && s0 != [] && LexState(p0) == Some(Exp)
    ensures ok <==> IsNumber(text)
  {
    hide LexState, NextLexeme, IsNumber;
    var s := s0;
    ghost var p := p0;
    if s[0] == 0x2B || s[0] == 0x2D {
      TakesSign(p, s[0]);
      p, s := p + [s[0]], s[1..];
      assert text == p + s;
      if s == [] {
        NoDigit(p, s);
        return false;
      }
    }
    if IsDigit(s[0]) {
      TakesDigit(p, s[0]);
      assert text == p + [s[0]] + s[1..];
      p, s := SkipDigits(p + [s[0]], s[1..]);
    }
    if s == [] {
      Complete(p);
    } else {
      NoDigit(p, s);
    }
    ok := s == [];
  }
}
