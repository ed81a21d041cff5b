/**
 String literals: the encoder's escaping, the decoder's unquoting, and what one does to the other.
 */
module JsonStrings {
  import opened Options
  import opened Bytes
  import opened JsonScanner
  import opened JsonLexemes
  import opened Utf8

  // ---- Hexadecimal digits ----

  /** hex[n] */
  function HexDigit(n: nat): byte
    requires n < 16
  {
    if n < 10 then 0x30 + n else 0x61 + (n - 10)
  }

  function HexValue(c: byte): nat
    requires IsHex(c)
  {
    if IsDigit(c) then c as int - 0x30 else if c >= 0x61 then c as int - 0x61 + 10 else c as int - 0x41 + 10
  }

  /** The value of a \uXXXX escape at the front of `s`. */
  function GetU4(s: bytes): (r: Option<nat>)
    ensures r.Some? ==> r.value < 0x10000
  {
    if |s| >= 6 && s[0] == BACKSLASH && s[1] == 0x75 && AllHex(s[2..6])
    then Some(((HexValue(s[2]) * 16 + HexValue(s[3])) * 16 + HexValue(s[4])) * 16 + HexValue(s[5]))
    else None
  }

  /** \uXXXX for a rune of the basic plane. */
  function U4(r: nat): (u: bytes)
    requires r < 0x10000
  {
    [BACKSLASH, 0x75, HexDigit(r / 0x1000), HexDigit(r / 0x100 % 16), HexDigit(r / 16 % 16), HexDigit(r % 16)]
  }

  lemma GetU4Inverts(r: nat, t: bytes)
    requires r < 0x10000
    ensures GetU4(U4(r) + t) == Some(r)
    ensures IsChar(U4(r))
  {
    var u := U4(r) + t;
    assert u[2..6] == U4(r)[2..];
    assert u[2] == HexDigit(r / 0x1000) && u[3] == HexDigit(r / 0x100 % 16) && u[4] == HexDigit(r / 16 % 16) && u[5] == HexDigit(r % 16);
    assert r / 0x100 == r / 0x1000 * 16 + r / 0x100 % 16;
    assert r / 16 == r / 0x100 * 16 + r / 16 % 16;
  }

  // ---- Escaping ----

  /** An ASCII character that the encoder copies. */
  predicate IsSafe(c: byte, html: bool) {
    0x20 <= c < 0x80 && c != BACKSLASH && c != QUOTE && !(html && (c == 0x3C || c == 0x3E || c == 0x26))
  }

  function EscapeAscii(c: byte, html: bool): bytes
    requires c < 0x80
  {
    if IsSafe(c, html) then [c]
    else if c == BACKSLASH || c == QUOTE then [BACKSLASH, c]
    else if c == 0x0A then [BACKSLASH, 0x6E]
    else if c == 0x0D then [BACKSLASH, 0x72]
    else if c == 0x09 then [BACKSLASH, 0x74]
    else [BACKSLASH, 0x75, 0x30, 0x30, HexDigit(c / 16), HexDigit(c % 16)]
  }

  /** U+2028 and U+2029 */
  predicate IsLineSeparator(r: rune) {
    r == 0x2028 || r == 0x2029
  }

  /** What the encoder writes for the first character, or ill-formed byte, of `s`. */
  function QuoteUnit(s: bytes, html: bool): bytes
    requires s != []
  {
    if s[0] < 0x80 then EscapeAscii(s[0], html)
    else if CharSize(s) == 0 then [BACKSLASH, 0x75, 0x66, 0x66, 0x66, 0x64]
    else if IsLineSeparator(CharRune(s)) then [BACKSLASH, 0x75, 0x32, 0x30, 0x32, HexDigit(CharRune(s) % 16)]
    else s[..CharSize(s)]
  }

  /** The number of bytes that utf8.DecodeRune takes from `s`. */
  function UnitSize(s: bytes): nat
    requires s != []
    ensures 0 < UnitSize(s) <= |s|
  {
    DecodeRune(s).1
  }

  function QuoteBody(s: bytes, html: bool): bytes {
    if s == [] then [] else QuoteUnit(s, html) + QuoteBody(s[UnitSize(s)..], html)
  }

  function Quote(s: bytes, html: bool): bytes {
    [QUOTE] + QuoteBody(s, html) + [QUOTE]
  }

  // ---- Unquoting ----

  function SimpleEscape(c: byte): Option<byte> {
    if c == QUOTE || c == BACKSLASH || c == 0x2F || c == 0x27 then Some(c)
    else if c == 0x62 then Some(0x08)
    else if c == 0x66 then Some(0x0C)
    else if c == 0x6E then Some(0x0A)
    else if c == 0x72 then Some(0x0D)
    else if c == 0x74 then Some(0x09)
    else None
  }

  /** utf16.IsSurrogate */
  predicate IsSurrogate(r: nat) {
    0xD800 <= r < 0xE000
  }

  /** utf16.DecodeRune, with None where it gives the replacement character. */
  function DecodePair(high: nat, low: Option<nat>): (r: Option<rune>)
    ensures r.Some? ==> 0x10000 <= r.value && IsScalarValue(r.value)
  {
    if 0xD800 <= high < 0xDC00 && low.Some? && 0xDC00 <= low.value < 0xE000
    then Some((high - 0xD800) * 0x400 + (low.value - 0xDC00) + 0x10000)
    else None
  }

  /** The output for the first escape or character of a literal's body, and how many bytes it takes. */
  function UnquoteUnit(s: bytes): (u: Option<(bytes, nat)>)
    requires s != []
    ensures u.Some? ==> 0 < u.value.1 <= |s| && |u.value.0| <= 4
  {
    if s[0] == BACKSLASH then
      if |s| < 2 then None
      else if SimpleEscape(s[1]).Some? then Some(([SimpleEscape(s[1]).value], 2))
      else
        match GetU4(s)
        case None => None
        case Some(r) =>
          if !IsSurrogate(r) then Some((EncodeRune(r), 6))
          else
            match DecodePair(r, GetU4(s[6..]))
            case Some(pair) => Some((EncodeRune(pair), 12))
            case None => Some((EncodeRune(REPLACEMENT), 6))
    else if s[0] == QUOTE || s[0] < 0x20 then None
    else Some((EncodeRune(DecodeRune(s).0), DecodeRune(s).1))
  }

  function Prepend(p: bytes, s: Option<bytes>): Option<bytes> {
    match s
    case None => None
    case Some(t) => Some(p + t)
  }

  function UnquoteBody(s: bytes): Option<bytes> {
    if s == [] then Some([])
    else
      match UnquoteUnit(s)
      case None => None
      case Some((u, n)) => Prepend(u, UnquoteBody(s[n..]))
  }

  predicate IsQuoted(s: bytes) {
    |s| >= 2 && s[0] == QUOTE && s[|s| - 1] == QUOTE
  }

  function Unquote(s: bytes): Option<bytes> {
    if IsQuoted(s) then UnquoteBody(s[1..|s| - 1]) else None
  }

  // ---- The encoder's literal is a string of the grammar ----

  lemma {:induction false} PlainChars(u: bytes, t: bytes)
    requires (forall i :: 0 <= i < |u| ==> IsPlain(u[i])) && IsChars(t)
    ensures IsChars(u + t)
  {
    if u == [] {
      assert u + t == t;
    } else {
      PlainChars(u[1..], t);
      assert (u + t)[..1] == [u[0]] && (u + t)[1..] == u[1..] + t;
    }
  }

  lemma CharThen(u: bytes, t: bytes)
    requires IsChar(u) && IsChars(t)
    ensures IsChars(u + t)
  {
    assert (u + t)[..|u|] == u && (u + t)[|u|..] == t;
  }

  lemma QuoteUnitChars(s: bytes, html: bool, t: bytes)
    requires s != [] && IsChars(t)
    ensures IsChars(QuoteUnit(s, html) + t)
  {
    var u := QuoteUnit(s, html);
    if s[0] >= 0x80 && CharSize(s) > 0 && !IsLineSeparator(CharRune(s)) {
      PlainChars(u, t);
    } else {
      CharThen(u, t);
    }
  }

  lemma {:induction false} QuoteBodyChars(s: bytes, html: bool)
    ensures IsChars(QuoteBody(s, html))
  {
    if s != [] {
      QuoteBodyChars(s[UnitSize(s)..], html);
      QuoteUnitChars(s, html, QuoteBody(s[UnitSize(s)..], html));
    }
  }

  /** Whatever the bytes, the encoder writes a string of the grammar, which the scanner accepts. */
  lemma QuoteIsString(s: bytes, html: bool)
    ensures IsString(Quote(s, html)) && LexState(Quote(s, html)) == Some(EndValue)
  {
    QuoteBodyChars(s, html);
    var q := Quote(s, html);
    assert q[1..|q| - 1] == QuoteBody(s, html);
    StringRuns(q);
  }

  // ---- The round trip ----

  /** What the first unit of `s` stands for: itself, or the replacement character. */
  function CoerceUnit(s: bytes): bytes
    requires s != []
  {
    if CharSize(s) == 0 then REPLACEMENT_BYTES else s[..CharSize(s)]
  }

  lemma {:induction false} CoerceByUnits(s: bytes)
    requires s != []
    ensures Coerce(s) == CoerceUnit(s) + Coerce(s[UnitSize(s)..])
  {
  }

  /** \uXXXX, for any rune of the basic plane, stands for that rune. */
  lemma UnquoteU4(r: rune, t: bytes)
    requires r < 0x10000 && IsScalarValue(r)
    ensures UnquoteUnit(U4(r) + t) == Some((EncodeRune(r), 6))
  {
    GetU4Inverts(r, t);
    hide GetU4, EncodeRune;
  }

  lemma EscapeIsU4(c: byte, html: bool)
    requires c < 0x80 && |EscapeAscii(c, html)| == 6
    ensures EscapeAscii(c, html) == U4(c)
  {
  }

  lemma UnquoteEscapeAscii(c: byte, html: bool, t: bytes)
    requires c < 0x80
    ensures UnquoteUnit(EscapeAscii(c, html) + t) == Some(([c], |EscapeAscii(c, html)|))
  {
    hide GetU4, DecodePair;
    if |EscapeAscii(c, html)| == 6 {
      EscapeIsU4(c, html);
      UnquoteU4(c, t);
      hide UnquoteUnit, EscapeAscii;
    } else if |EscapeAscii(c, html)| == 2 {
      hide EncodeRune, DecodeRune;
    } else {
      hide SimpleEscape;
    }
  }

  lemma UnquoteRaw(s: bytes, t: bytes)
    requires s != [] && s[0] >= 0x80 && CharSize(s) > 0
    ensures UnquoteUnit(s[..CharSize(s)] + t) == Some((s[..CharSize(s)], CharSize(s)))
  {
    EncodeDecoded(s);
    CharSizePrefix(s, t);
    hide CharRune, EncodeRune, CharSize, GetU4, DecodePair, SimpleEscape;
  }

  lemma UnquoteQuoteUnit(s: bytes, html: bool, t: bytes)
    requires s != []
    ensures UnquoteUnit(QuoteUnit(s, html) + t) == Some((CoerceUnit(s), |QuoteUnit(s, html)|))
  {
    hide UnquoteUnit, CharRune, EncodeRune, EscapeAscii;
    if s[0] < 0x80 {
      UnquoteEscapeAscii(s[0], html, t);
      assert s[..1] == [s[0]];
    } else if CharSize(s) == 0 {
      UnquoteU4(REPLACEMENT, t);
      assert U4(REPLACEMENT) == QuoteUnit(s, html);
      ReplacementEncoded();
    } else if IsLineSeparator(CharRune(s)) {
      EncodeDecoded(s);
      UnquoteU4(CharRune(s), t);
      assert U4(CharRune(s)) == QuoteUnit(s, html);
    } else {
      UnquoteRaw(s, t);
    }
  }

  lemma {:induction false} UnquoteQuoteBody(s: bytes, html: bool)
    ensures UnquoteBody(QuoteBody(s, html)) == Some(Coerce(s))
  {
    if s != [] {
      var t := QuoteBody(s[UnitSize(s)..], html);
      UnquoteQuoteBody(s[UnitSize(s)..], html);
      UnquoteQuoteUnit(s, html, t);
      CoerceByUnits(s);
      var u := QuoteUnit(s, html);
      hide QuoteUnit, UnquoteUnit, Coerce, CoerceUnit;
      assert QuoteBody(s, html) == u + t && (u + t)[|u|..] == t;
    }
  }

  /** Escaping and unquoting any byte string replaces its ill-formed bytes, whether or not HTML is escaped. */
  lemma UnquoteQuote(s: bytes, html: bool)
    ensures Unquote(Quote(s, html)) == Some(Coerce(s))
  {
    var q := Quote(s, html);
    assert q[1..|q| - 1] == QuoteBody(s, html);
    UnquoteQuoteBody(s, html);
  }

  /** Well-formed strings survive, so two of them are never written alike. */
  lemma QuoteRoundTrip(s: bytes, html: bool)
    requires WellFormed(s)
    ensures Unquote(Quote(s, html)) == Some(s)
  {
    UnquoteQuote(s, html);
    CoerceIdentity(s);
  }

  // ---- Unquoting the grammar's strings ----

  /** A char of the grammar, or the escape \' that unquoting lets pass. */
  predicate IsLooseChar(s: bytes) {
    IsChar(s) || s == [BACKSLASH, 0x27]
  }

  predicate IsLooseChars(s: bytes) {
    s == [] || (CharLength(s) <= |s| && IsLooseChar(s[..CharLength(s)]) && IsLooseChars(s[CharLength(s)..]))
  }

  /** The bytes of a character above ASCII are chars of their own. */
  lemma {:induction false} PlainTail(s: bytes, n: nat)
    requires n <= |s| && forall i :: 0 <= i < n ==> IsPlain(s[i])
    ensures IsLooseChars(s) <==> IsLooseChars(s[n..])
  {
    if n > 0 {
      PlainTail(s[1..], n - 1);
      assert s[1..][n - 1..] == s[n..];
    } else {
      assert s[0..] == s;
    }
  }

  /** An escape of six bytes is one char. */
  lemma U4Tail(s: bytes)
    requires GetU4(s).Some?
    ensures IsLooseChars(s) <==> IsLooseChars(s[6..])
  {
    assert s[..6][2..] == s[2..6];
  }

  lemma EscapeTail(s: bytes)
    requires |s| >= 2 && s[0] == BACKSLASH && SimpleEscape(s[1]).Some?
    ensures IsLooseChars(s) <==> IsLooseChars(s[2..])
  {
    assert s[..2] == [BACKSLASH, s[1]];
  }

  lemma LooseUnit(s: bytes)
    requires s != []
    ensures UnquoteUnit(s) == None ==> !IsLooseChars(s)
    ensures UnquoteUnit(s).Some? ==> (IsLooseChars(s) <==> IsLooseChars(s[UnquoteUnit(s).value.1..]))
  {
    if s[0] == BACKSLASH {
      if |s| >= 2 && SimpleEscape(s[1]).Some? {
        EscapeTail(s);
      } else if GetU4(s).Some? {
        U4Tail(s);
        if UnquoteUnit(s).value.1 == 12 {
          U4Tail(s[6..]);
          assert s[6..][6..] == s[12..];
        }
      } else {
        BadEscape(s);
      }
    } else if UnquoteUnit(s).Some? {
      PlainTail(s, UnquoteUnit(s).value.1);
    }
  }

  lemma BadEscape(s: bytes)
    requires s != [] && s[0] == BACKSLASH && GetU4(s) == None && (|s| < 2 || SimpleEscape(s[1]) == None)
    ensures !IsLooseChars(s)
  {
    if |s| >= 6 {
      assert s[..6][2..] == s[2..6];
    }
  }

  lemma {:induction false} UnquoteBodyIff(s: bytes)
    ensures UnquoteBody(s).Some? <==> IsLooseChars(s)
  {
    if s != [] {
      LooseUnit(s);
      if UnquoteUnit(s).Some? {
        hide UnquoteUnit, IsLooseChars;
        UnquoteBodyIff(s[UnquoteUnit(s).value.1..]);
      }
    }
  }

  lemma {:induction false} CharsAreLoose(s: bytes)
    requires IsChars(s)
    ensures IsLooseChars(s)
  {
    if s != [] { CharsAreLoose(s[CharLength(s)..]); }
  }

  /** Unquoting succeeds exactly on the grammar's strings and those that also use the escape \'. */
  lemma UnquoteIff(s: bytes)
    ensures Unquote(s).Some? <==> IsQuoted(s) && IsLooseChars(s[1..|s| - 1])
    ensures IsString(s) ==> Unquote(s).Some?
  {
    if IsQuoted(s) { UnquoteBodyIff(s[1..|s| - 1]); }
    if IsString(s) { CharsAreLoose(s[1..|s| - 1]); }
  }

  lemma UnitWellFormed(s: bytes, t: bytes)
    requires s != [] && UnquoteUnit(s).Some? && WellFormed(t)
    ensures WellFormed(UnquoteUnit(s).value.0 + t)
  {
    var u := UnquoteUnit(s).value.0;
    if s[0] == BACKSLASH {
      if SimpleEscape(s[1]).Some? {
        WellFormedConcat(SimpleEscape(s[1]).value, t);
      } else {
        var r := GetU4(s).value;
        if !IsSurrogate(r) {
          WellFormedConcat(r, t);
        } else {
          match DecodePair(r, GetU4(s[6..]))
          case Some(pair) => WellFormedConcat(pair, t);
          case None => WellFormedConcat(REPLACEMENT, t);
        }
      }
    } else {
      WellFormedConcat(DecodeRune(s).0, t);
    }
  }

  lemma {:induction false} UnquoteBodyWellFormed(s: bytes)
    ensures UnquoteBody(s).Some? ==> WellFormed(UnquoteBody(s).value)
  {
    if s != [] && UnquoteUnit(s).Some? {
      var rest := s[UnquoteUnit(s).value.1..];
      UnquoteBodyWellFormed(rest);
      if UnquoteBody(rest).Some? {
        UnitWellFormed(s, UnquoteBody(rest).value);
      }
    }
  }

  /** What comes out is always well-formed UTF-8. */
  lemma UnquoteWellFormed(s: bytes)
    ensures Unquote(s).Some? ==> WellFormed(Unquote(s).value)
  {
    if IsQuoted(s) { UnquoteBodyWellFormed(s[1..|s| - 1]); }
  }
}
