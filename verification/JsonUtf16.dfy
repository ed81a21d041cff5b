/**
 What a string literal means, told a second way: a literal spells UTF-16 code units, an escape one and
 any other character one or two, and the string is what section 2.2 of RFC 2781 decodes them to, with
 a replacement character for each unit that has no partner.
 */
module JsonUtf16 {
  import opened Options
  import opened Bytes
  import opened JsonScanner
  import opened JsonLexemes
  import opened JsonStrings
  import opened Utf8

  type unit = u: int | 0 <= u < 0x10000
  type units = seq<unit>

  predicate IsHigh(u: unit) {
    0xD800 <= u < 0xDC00
  }

  predicate IsLow(u: unit) {
    0xDC00 <= u < 0xE000
  }

  /** Section 2.1: a character as one or two code units. */
  function ToUtf16(r: rune): units
    requires IsScalarValue(r)
  {
    if r < 0x10000 then [r] else [0xD800 + (r - 0x10000) / 0x400, 0xDC00 + (r - 0x10000) % 0x400]
  }

  function PairRune(hi: unit, lo: unit): (r: rune)
    requires IsHigh(hi) && IsLow(lo)
    ensures 0x10000 <= r && IsScalarValue(r)
  {
    (hi as int - 0xD800) * 0x400 + (lo as int - 0xDC00) + 0x10000
  }

  /** Section 2.2: code units as characters, written in UTF-8. */
  function FromUtf16(u: units): bytes {
    if u == [] then []
    else if |u| >= 2 && IsHigh(u[0]) && IsLow(u[1]) then
      EncodeRune(PairRune(u[0], u[1])) + FromUtf16(u[2..])
    else if IsHigh(u[0]) || IsLow(u[0]) then EncodeRune(REPLACEMENT) + FromUtf16(u[1..])
    else EncodeRune(u[0]) + FromUtf16(u[1..])
  }

  /** Section 7 of RFC 7159: what the letter after a backslash stands for. The single quote is unquoteBytes' own. */
  function LetterOf(c: byte): Option<unit> {
    if c == 0x22 then Some(0x22)      // quotation mark
    else if c == 0x5C then Some(0x5C) // reverse solidus
    else if c == 0x2F then Some(0x2F) // solidus
    else if c == 0x62 then Some(0x08) // b: backspace
    else if c == 0x66 then Some(0x0C) // f: form feed
    else if c == 0x6E then Some(0x0A) // n: line feed
    else if c == 0x72 then Some(0x0D) // r: carriage return
    else if c == 0x74 then Some(0x09) // t: tab
    else if c == 0x27 then Some(0x27)
    else None
  }

  /** 0 to 9, A to F and a to f. */
  function DigitOf(c: byte): Option<nat> {
    if 0x30 <= c <= 0x39 then Some(c - 0x30)
    else if 0x41 <= c <= 0x46 then Some(10 + (c - 0x41))
    else if 0x61 <= c <= 0x66 then Some(10 + (c - 0x61))
    else None
  }

  /** Four hexadecimal digits as a number. */
  function FourDigits(s: bytes): (r: Option<nat>)
    ensures r.Some? ==> |s| >= 4
  {
    if |s| >= 4 && DigitOf(s[0]).Some? && DigitOf(s[1]).Some? && DigitOf(s[2]).Some? && DigitOf(s[3]).Some?
    then Some(DigitOf(s[0]).value * 0x1000 + DigitOf(s[1]).value * 0x100 + DigitOf(s[2]).value * 0x10 + DigitOf(s[3]).value)
    else None
  }

  lemma DigitsFit(s: bytes)
    ensures FourDigits(s).Some? ==> FourDigits(s).value < 0x10000
  {
  }

  /** The code units that the body of a literal spells; None if it is no literal. */
  function Spells(s: bytes): Option<units> {
    if s == [] then Some([])
    else if s[0] == 0x5C then
      if |s| < 2 then None
      else if LetterOf(s[1]).Some? then Before([LetterOf(s[1]).value], Spells(s[2..]))
      else if s[1] == 0x75 && FourDigits(s[2..]).Some? then
        DigitsFit(s[2..]);
        Before([FourDigits(s[2..]).value], Spells(s[6..]))
      else None
    else if s[0] == 0x22 || s[0] < 0x20 then None
    else Before(ToUtf16(DecodeRune(s).0), Spells(s[DecodeRune(s).1..]))
  }

  lemma LettersAgree(c: byte)
    ensures SimpleEscape(c) == (match LetterOf(c) case Some(u) => if u < 256 then Some(u) else None case None => None)
    ensures LetterOf(c).Some? <==> SimpleEscape(c).Some?
    ensures LetterOf(c).Some? ==> LetterOf(c).value == SimpleEscape(c).value
  {
  }

  lemma DigitAgrees(c: byte)
    ensures DigitOf(c).Some? <==> IsHex(c)
    ensures IsHex(c) ==> DigitOf(c) == Some(HexValue(c))
  {
  }

  lemma DigitsAgree(s: bytes)
    requires |s| >= 2 && s[0] == BACKSLASH && s[1] == 0x75
    ensures GetU4(s) == FourDigits(s[2..])
  {
    if |s| >= 6 {
      DigitAgrees(s[2]);
      DigitAgrees(s[3]);
      DigitAgrees(s[4]);
      DigitAgrees(s[5]);
      var d := s[2..6];
      assert AllHex(d) <==> IsHex(d[0]) && IsHex(d[1]) && IsHex(d[2]) && IsHex(d[3]);
      hide DigitOf, HexValue, IsHex;
    }
  }

  /** What a body spells, by the functions that the decoder calls. */
  lemma SpellsFirst(s: bytes)
    requires s != []
    ensures Spells(s) ==
      if s[0] == BACKSLASH then
        if |s| < 2 then None
        else if SimpleEscape(s[1]).Some? then Before([SimpleEscape(s[1]).value as int], Spells(s[2..]))
        else if GetU4(s).Some? then Before([GetU4(s).value], Spells(s[6..]))
        else None
      else if s[0] == QUOTE || s[0] < 0x20 then None
      else Before(ToUtf16(DecodeRune(s).0), Spells(s[DecodeRune(s).1..]))
  {
    if s[0] == BACKSLASH && |s| >= 2 {
      LettersAgree(s[1]);
      if s[1] == 0x75 { DigitsAgree(s); }
    }
    hide LetterOf, SimpleEscape, FourDigits, DecodeRune, ToUtf16;
  }

  function Before(p: units, u: Option<units>): Option<units> {
    match u
    case None => None
    case Some(v) => Some(p + v)
  }

  function Meaning(s: bytes): Option<bytes> {
    match Spells(s)
    case None => None
    case Some(u) => Some(FromUtf16(u))
  }

  lemma FromSingle(r: rune, u: units)
    requires IsScalarValue(r) && r < 0x10000
    ensures FromUtf16([r] + u) == EncodeRune(r) + FromUtf16(u)
  {
    hide EncodeRune;
    assert ([r] + u)[1..] == u;
  }

  lemma FromPair(hi: unit, lo: unit, u: units)
    requires IsHigh(hi) && IsLow(lo)
    ensures FromUtf16([hi, lo] + u) == EncodeRune(PairRune(hi, lo)) + FromUtf16(u)
  {
    hide EncodeRune;
    assert ([hi, lo] + u)[2..] == u;
  }

  lemma FromToUtf16(r: rune, u: units)
    requires IsScalarValue(r)
    ensures FromUtf16(ToUtf16(r) + u) == EncodeRune(r) + FromUtf16(u)
  {
    hide FromUtf16, EncodeRune;
    if r < 0x10000 {
      FromSingle(r, u);
    } else {
      FromPair(0xD800 + (r - 0x10000) / 0x400, 0xDC00 + (r - 0x10000) % 0x400, u);
    }
  }

  /** Only an escape spells the second half of a pair first. */
  lemma LowIsEscaped(s: bytes)
    ensures Spells(s).Some? && Spells(s).value != [] && IsLow(Spells(s).value[0]) ==> GetU4(s) == Some(Spells(s).value[0])
  {
    if s != [] { SpellsFirst(s); }
    hide Spells, GetU4, DecodeRune;
  }

  lemma MeaningOfUnit(p: units, rest: bytes, r: rune)
    requires IsScalarValue(r) && p == ToUtf16(r)
    ensures Before(p, Spells(rest)).Some? ==>
      Some(FromUtf16(Before(p, Spells(rest)).value)) == Prepend(EncodeRune(r), Meaning(rest))
  {
    if Spells(rest).Some? { FromToUtf16(r, Spells(rest).value); }
  }

  /** A code unit without a partner. */
  lemma MeaningOfLone(r: unit, s: bytes)
    requires IsSurrogate(r) && DecodePair(r, GetU4(s)) == None
    ensures Spells(s).Some? ==> FromUtf16([r] + Spells(s).value) == EncodeRune(REPLACEMENT) + FromUtf16(Spells(s).value)
  {
    if Spells(s).Some? {
      var u := Spells(s).value;
      LowIsEscaped(s);
      assert ([r] + u)[1..] == u;
      hide Spells, GetU4, EncodeRune;
      if u != [] { assert ([r] + u)[1] == u[0]; }
    }
  }

  lemma SpellsU4First(s: bytes)
    requires s != [] && GetU4(s).Some?
    ensures |s| >= 6 && Spells(s) == Before([GetU4(s).value], Spells(s[6..]))
  {
    SpellsFirst(s);
    hide Spells, HexValue;
  }

  lemma MeaningOfPair(s: bytes)
    requires |s| >= 12 && GetU4(s).Some? && GetU4(s[6..]).Some? && DecodePair(GetU4(s).value, GetU4(s[6..])).Some?
    ensures Meaning(s) == Prepend(EncodeRune(DecodePair(GetU4(s).value, GetU4(s[6..])).value), Meaning(s[12..]))
  {
    var hi: unit, lo: unit := GetU4(s).value, GetU4(s[6..]).value;
    assert s[6..][6..] == s[12..];
    SpellsU4First(s);
    SpellsU4First(s[6..]);
    hide Spells, GetU4, EncodeRune, FromUtf16;
    if Spells(s[12..]).Some? {
      var u := Spells(s[12..]).value;
      assert [hi] + ([lo] + u) == [hi, lo] + u;
      FromPair(hi, lo, u);
    }
  }

  lemma {:induction false} UnquoteBodyMeans(s: bytes)
    ensures UnquoteBody(s) == Meaning(s)
  {
    if s != [] {
      if UnquoteUnit(s).Some? {
        UnitMeans(s);
        hide UnquoteUnit, Meaning;
        UnquoteBodyMeans(s[UnquoteUnit(s).value.1..]);
      } else {
        NoUnit(s);
      }
    }
  }

  lemma NoUnit(s: bytes)
    requires s != [] && UnquoteUnit(s) == None
    ensures Spells(s) == None
  {
    SpellsFirst(s);
    hide Spells, GetU4, EncodeRune, DecodeRune, SimpleEscape;
  }

  /** One unit of the unquoting loop gives its share of the meaning. */
  lemma UnitMeans(s: bytes)
    requires s != [] && UnquoteUnit(s).Some?
    ensures Meaning(s) == Prepend(UnquoteUnit(s).value.0, Meaning(s[UnquoteUnit(s).value.1..]))
  {
    SpellsFirst(s);
    hide Spells, GetU4, DecodeRune, FromUtf16;
    if s[0] != BACKSLASH {
      MeaningOfUnit(ToUtf16(DecodeRune(s).0), s[DecodeRune(s).1..], DecodeRune(s).0);
      hide EncodeRune;
    } else if SimpleEscape(s[1]).Some? {
      MeaningOfUnit([SimpleEscape(s[1]).value as int], s[2..], SimpleEscape(s[1]).value);
    } else {
      hide EncodeRune;
      UnquoteEscapeMeans(s);
    }
  }

  lemma UnquoteEscapeMeans(s: bytes)
    requires s != [] && s[0] == BACKSLASH && UnquoteUnit(s).Some? && SimpleEscape(s[1]) == None
    ensures Meaning(s) == Prepend(UnquoteUnit(s).value.0, Meaning(s[UnquoteUnit(s).value.1..]))
  {
    SpellsFirst(s);
    hide Spells, GetU4, EncodeRune, FromUtf16;
    var r := GetU4(s).value;
    if !IsSurrogate(r) {
      MeaningOfUnit([r], s[6..], r);
    } else if DecodePair(r, GetU4(s[6..])).Some? {
      MeaningOfPair(s);
    } else {
      MeaningOfLone(r, s[6..]);
    }
  }

  /** Unquoting gives the meaning of the code units. */
  lemma UnquoteMeans(s: bytes)
    requires IsQuoted(s)
    ensures Unquote(s) == Meaning(s[1..|s| - 1])
  {
    UnquoteBodyMeans(s[1..|s| - 1]);
  }
}
