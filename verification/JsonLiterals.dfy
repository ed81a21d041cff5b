/**
 What the encoder writes, told by literal bytes: each character of a string, each byte that HTMLEscape and
 compact rewrite, and the suffix of a key; and what never occurs in the output.
 */
module JsonLiterals {
  import opened Options
  import opened Bytes
  import opened JsonScanner
  import opened JsonStrings
  import opened JsonEscape
  import opened JsonEncoder
  import opened Utf8

  /** A string of ASCII characters as bytes. */
  function Ascii(s: string): bytes
    requires forall i :: 0 <= i < |s| ==> s[i] < 128 as char
  {
    seq(|s|, i requires 0 <= i < |s| => s[i] as byte)
  }

  // ---- String literals ----

  /** A character below U+0080 in a literal. */
  function WrittenAscii(c: byte, html: bool): bytes
    requires c < 0x80
  {
    if c == 0x22 then Ascii("\\\"")
    else if c == 0x5C then Ascii("\\\\")
    else if c == 0x0A then Ascii("\\n")
    else if c == 0x0D then Ascii("\\r")
    else if c == 0x09 then Ascii("\\t")
    else if c < 0x20 then Ascii("\\u00") + [if c < 0x10 then 0x30 else 0x31, Ascii("0123456789abcdef")[c % 16]]
    else if html && c == 0x3C then Ascii("\\u003c")
    else if html && c == 0x3E then Ascii("\\u003e")
    else if html && c == 0x26 then Ascii("\\u0026")
    else [c]
  }

  /** The inside of the literal. */
  function Written(s: bytes, html: bool): bytes {
    if s == [] then []
    else if s[0] < 0x80 then WrittenAscii(s[0], html) + Written(s[1..], html)
    else if CharSize(s) == 0 then Ascii("\\ufffd") + Written(s[1..], html)
    else if s[..CharSize(s)] == [0xE2, 0x80, 0xA8] then Ascii("\\u2028") + Written(s[3..], html)
    else if s[..CharSize(s)] == [0xE2, 0x80, 0xA9] then Ascii("\\u2029") + Written(s[3..], html)
    else s[..CharSize(s)] + Written(s[CharSize(s)..], html)
  }

  lemma AsciiWritten(c: byte, html: bool)
    requires c < 0x80
    ensures EscapeAscii(c, html) == WrittenAscii(c, html)
  {
    hide EscapeAscii, WrittenAscii, Ascii;
    if c == 0x22 || c == 0x5C || c == 0x0A || c == 0x0D || c == 0x09 {
      ShortWritten(c, html);
    } else if c < 0x20 {
      ControlWritten(c, html);
    } else {
      OtherWritten(c, html);
    }
  }

  lemma ShortWritten(c: byte, html: bool)
    requires c == 0x22 || c == 0x5C || c == 0x0A || c == 0x0D || c == 0x09
    ensures EscapeAscii(c, html) == WrittenAscii(c, html)
  {
    hide HexDigit;
  }

  lemma HexTable(n: nat)
    requires n < 16
    ensures Ascii("0123456789abcdef")[n] == HexDigit(n)
  {
  }

  lemma ControlWritten(c: byte, html: bool)
    requires c < 0x20 && c != 0x0A && c != 0x0D && c != 0x09
    ensures EscapeAscii(c, html) == WrittenAscii(c, html)
  {
    HexTable(c / 16);
    HexTable(c % 16);
    assert HexDigit(c / 16) == if c < 0x10 then 0x30 else 0x31;
    hide HexDigit;
    assert Ascii("\\u00") == [0x5C, 0x75, 0x30, 0x30];
  }

  lemma OtherWritten(c: byte, html: bool)
    requires 0x20 <= c < 0x80 && c != 0x22 && c != 0x5C
    ensures EscapeAscii(c, html) == WrittenAscii(c, html)
  {
  }

  /** Which three bytes the two separators are. */
  lemma SeparatorBytes(s: bytes)
    requires CharSize(s) > 1
    ensures CharRune(s) == 0x2028 <==> s[..CharSize(s)] == [0xE2, 0x80, 0xA8]
    ensures CharRune(s) == 0x2029 <==> s[..CharSize(s)] == [0xE2, 0x80, 0xA9]
  {
    EncodeDecoded(s);
    assert EncodeRune(0x2028) == [0xE2, 0x80, 0xA8] && EncodeRune(0x2029) == [0xE2, 0x80, 0xA9];
    if s[..CharSize(s)] == [0xE2, 0x80, 0xA8] || s[..CharSize(s)] == [0xE2, 0x80, 0xA9] {
      assert s[0] == s[..CharSize(s)][0] && s[1] == s[..CharSize(s)][1] && s[2] == s[..CharSize(s)][2];
    }
  }

  lemma UnitWritten(s: bytes, html: bool)
    requires s != []
    ensures Written(s, html) == QuoteUnit(s, html) + Written(s[UnitSize(s)..], html)
  {
    hide *;
    if s[0] < 0x80 {
      AsciiUnitWritten(s, html);
    } else if CharSize(s) == 0 {
      IllFormedWritten(s, html);
    } else {
      CharWritten(s, html);
    }
  }

  lemma AsciiUnitWritten(s: bytes, html: bool)
    requires s != [] && s[0] < 0x80
    ensures Written(s, html) == QuoteUnit(s, html) + Written(s[UnitSize(s)..], html)
  {
    AsciiWritten(s[0], html);
    hide EscapeAscii, WrittenAscii, Ascii;
  }

  lemma IllFormedWritten(s: bytes, html: bool)
    requires s != [] && s[0] >= 0x80 && CharSize(s) == 0
    ensures Written(s, html) == QuoteUnit(s, html) + Written(s[UnitSize(s)..], html)
  {
    assert Ascii("\\ufffd") == [0x5C, 0x75, 0x66, 0x66, 0x66, 0x64];
    hide Ascii, CharSize;
  }

  lemma CharWritten(s: bytes, html: bool)
    requires s != [] && s[0] >= 0x80 && CharSize(s) > 0
    ensures Written(s, html) == QuoteUnit(s, html) + Written(s[UnitSize(s)..], html)
  {
    hide *;
    CharBytes(s);
    SeparatorBytes(s);
    WrittenFront(s, html);
    UnitFront(s, html);
  }

  lemma WrittenFront(s: bytes, html: bool)
    requires s != [] && s[0] >= 0x80 && CharSize(s) > 0
    ensures var n := CharSize(s);
            Written(s, html) == (if s[..n] == [0xE2, 0x80, 0xA8] then [0x5C, 0x75, 0x32, 0x30, 0x32, 0x38]
                                 else if s[..n] == [0xE2, 0x80, 0xA9] then [0x5C, 0x75, 0x32, 0x30, 0x32, 0x39]
                                 else s[..n]) + Written(s[n..], html)
  {
    assert Ascii("\\u2028") == [0x5C, 0x75, 0x32, 0x30, 0x32, 0x38] && Ascii("\\u2029") == [0x5C, 0x75, 0x32, 0x30, 0x32, 0x39];
    assert |s[..CharSize(s)]| == CharSize(s);
    hide CharSize, Ascii;
  }

  lemma UnitFront(s: bytes, html: bool)
    requires s != [] && s[0] >= 0x80 && CharSize(s) > 0
    ensures UnitSize(s) == CharSize(s)
    ensures QuoteUnit(s, html) == if CharRune(s) == 0x2028 then [0x5C, 0x75, 0x32, 0x30, 0x32, 0x38]
                                  else if CharRune(s) == 0x2029 then [0x5C, 0x75, 0x32, 0x30, 0x32, 0x39]
                                  else s[..CharSize(s)]
  {
    hide CharSize, CharRune;
  }

  lemma {:induction false} BodyWritten(s: bytes, html: bool)
    ensures QuoteBody(s, html) == Written(s, html)
  {
    hide Written, QuoteUnit, UnitSize;
    if s == [] {
      NothingWritten(html);
    } else {
      UnitWritten(s, html);
      BodyWritten(s[UnitSize(s)..], html);
    }
  }

  lemma NothingWritten(html: bool)
    ensures Written([], html) == []
  {
  }

  /** The literal that string and stringBytes write. */
  lemma QuoteWrites(s: bytes, html: bool)
    ensures Quote(s, html) == [0x22] + Written(s, html) + [0x22]
  {
    BodyWritten(s, html);
    hide Written, QuoteBody;
  }

  // ---- What does not occur ----

  /** Neither <, > nor &. */
  predicate NoHtml(s: bytes) {
    forall i :: 0 <= i < |s| ==> s[i] != 0x3C && s[i] != 0x3E && s[i] != 0x26
  }

  predicate SeparatorAt(s: bytes, i: nat) {
    i + 2 < |s| && s[i] == 0xE2 && s[i + 1] == 0x80 && (s[i + 2] == 0xA8 || s[i + 2] == 0xA9)
  }

  /** Neither U+2028 nor U+2029, as bytes. */
  ghost predicate NoLineSeparator(s: bytes) {
    forall i: nat :: !SeparatorAt(s, i)
  }

  /** E2 only at the front. */
  predicate LeadsOnly(u: bytes) {
    forall i :: 0 < i < |u| ==> u[i] != 0xE2
  }

  lemma SeparatorWithin(u: bytes, t: bytes)
    requires NoLineSeparator(t) && NoLineSeparator(u) && LeadsOnly(u) && (u != [] && u[0] == 0xE2 ==> |u| >= 3)
    ensures NoLineSeparator(u + t)
  {
    var s := u + t;
    forall i: nat ensures !SeparatorAt(s, i) {
      if i < |u| {
        assert SeparatorAt(s, i) ==> i == 0 && SeparatorAt(u, 0);
      } else {
        assert !SeparatorAt(t, i - |u|);
      }
    }
  }

  lemma UnitClean(s: bytes, html: bool)
    requires s != []
    ensures html ==> NoHtml(QuoteUnit(s, html))
    ensures var u := QuoteUnit(s, html); NoLineSeparator(u) && LeadsOnly(u) && (u != [] && u[0] == 0xE2 ==> |u| >= 3)
  {
    var u := QuoteUnit(s, html);
    if s[0] >= 0x80 && CharSize(s) > 0 {
      SeparatorBytes(s);
      CharBytes(s);
      hide CharSize, CharRune, Ascii;
      assert u == s[..CharSize(s)] || AllAscii(u);
    } else {
      assert AllAscii(u);
    }
  }

  predicate AllAscii(s: bytes) {
    forall i :: 0 <= i < |s| ==> s[i] < 0x80
  }

  /** The bytes of a character beyond ASCII. */
  lemma CharBytes(s: bytes)
    requires s != [] && s[0] >= 0x80 && CharSize(s) > 0
    ensures 2 <= CharSize(s) <= |s| && (s[0] == 0xE2 ==> CharSize(s) == 3)
    ensures forall i :: 0 < i < CharSize(s) ==> 0x80 <= s[i] < 0xC0
  {
  }

  lemma {:induction false} BodyClean(s: bytes, html: bool)
    ensures html ==> NoHtml(QuoteBody(s, html))
    ensures NoLineSeparator(QuoteBody(s, html))
  {
    hide QuoteUnit, UnitSize;
    if s != [] {
      BodyClean(s[UnitSize(s)..], html);
      UnitClean(s, html);
      SeparatorWithin(QuoteUnit(s, html), QuoteBody(s[UnitSize(s)..], html));
    }
  }

  /** No literal has a line separator, and with escapeHTML none has a character that HTML gives a meaning. */
  lemma QuoteClean(s: bytes, html: bool)
    ensures html ==> NoHtml(Quote(s, html))
    ensures NoLineSeparator(Quote(s, html))
  {
    BodyClean(s, html);
    hide QuoteBody;
    var body := QuoteBody(s, html);
    forall i: nat ensures !SeparatorAt(Quote(s, html), i) {
      if 0 < i <= |body| { assert !SeparatorAt(body, i - 1); }
    }
  }

  // ---- HTMLEscape and compact ----

  /** What HTMLEscape makes of the bytes of a text, and compact of its significant ones. */
  function Rewritten(s: bytes, html: bool): bytes {
    if s == [] then []
    else if html && s[0] == 0x3C then Ascii("\\u003c") + Rewritten(s[1..], html)
    else if html && s[0] == 0x3E then Ascii("\\u003e") + Rewritten(s[1..], html)
    else if html && s[0] == 0x26 then Ascii("\\u0026") + Rewritten(s[1..], html)
    else if SeparatorAt(s, 0) then (if s[2] == 0xA8 then Ascii("\\u2028") else Ascii("\\u2029")) + Rewritten(s[3..], html)
    else [s[0]] + Rewritten(s[1..], html)
  }

  lemma {:induction false} EscapeRewrites(s: bytes, html: bool)
    ensures Escape(s, html) == Rewritten(s, html)
  {
    if s != [] {
      FirstRewritten(s, html);
      EscapeFront(s, html);
      if EscapeUnit(s, html).Some? {
        EscapeRewrites(s[EscapeUnit(s, html).value.1..], html);
      } else {
        EscapeRewrites(s[1..], html);
      }
      hide Rewritten, Escape, EscapeUnit;
    }
  }

  lemma FirstRewritten(s: bytes, html: bool)
    requires s != []
    ensures EscapeUnit(s, html) == None ==> Rewritten(s, html) == [s[0]] + Rewritten(s[1..], html)
    ensures EscapeUnit(s, html).Some? ==>
      Rewritten(s, html) == EscapeUnit(s, html).value.0 + Rewritten(s[EscapeUnit(s, html).value.1..], html)
  {
  }

  lemma {:induction false} EscapeClean(s: bytes, html: bool)
    ensures html ==> NoHtml(Escape(s, html))
    ensures NoLineSeparator(Escape(s, html))
    decreases |s|
  {
    if s != [] {
      EscapeFront(s, html);
      if EscapeUnit(s, html).Some? {
        var (u, n) := EscapeUnit(s, html).value;
        EscapeClean(s[n..], html);
        UnitThen(s, html, Escape(s[n..], html));
      } else {
        EscapeClean(s[1..], html);
        NotSeparator(s, html);
        ByteThen(s[0], Escape(s[1..], html));
      }
      hide Escape, EscapeUnit;
    }
  }

  lemma EscapeFront(s: bytes, html: bool)
    requires s != []
    ensures EscapeUnit(s, html) == None ==> Escape(s, html) == [s[0]] + Escape(s[1..], html) && (html ==> !IsHtml(s[0]))
    ensures EscapeUnit(s, html).Some? ==>
      Escape(s, html) == EscapeUnit(s, html).value.0 + Escape(s[EscapeUnit(s, html).value.1..], html)
  {
  }

  lemma UnitThen(s: bytes, html: bool, t: bytes)
    requires s != [] && EscapeUnit(s, html).Some? && NoLineSeparator(t)
    ensures NoLineSeparator(EscapeUnit(s, html).value.0 + t) && NoHtml(EscapeUnit(s, html).value.0)
  {
    UnitInert(s, html);
    hide EscapeUnit;
    SeparatorWithin(EscapeUnit(s, html).value.0, t);
  }

  lemma ByteThen(c: byte, t: bytes)
    requires NoLineSeparator(t) && !AtSeparator([c] + t)
    ensures NoLineSeparator([c] + t)
  {
    var s := [c] + t;
    forall i: nat ensures !SeparatorAt(s, i) {
      if i > 0 { assert !SeparatorAt(t, i - 1); }
    }
  }

  // ---- The suffix ----

  lemma SuffixSpells()
    ensures SUFFIX == Ascii("(string)")
  {
  }
}
