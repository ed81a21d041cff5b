/**
 The characters that the scanner, the grammar and the comparators give a meaning, told by the letters themselves,
 and the encodings of characters beyond ASCII.
 */
module Alphabet {
  import opened Bytes
  import opened JsonScanner
  import opened JsonGrammar
  import opened JsonMeaning
  import opened JsonLiterals
  import opened JsonMarshal
  import JsonEncoder
  import JsonIndent
  import opened Fold
  import opened Utf8

  // ---- JSON ----

  lemma Punctuation()
    ensures Ascii("{}[],:\"\\ \n") == [LBRACE, RBRACE, LBRACK, RBRACK, COMMA, COLON, QUOTE, BACKSLASH, SPACE, NEWLINE]
    ensures Ascii("true") == TRUE && Ascii("false") == FALSE && Ascii("null") == NULL
  {
  }

  /** White space, the letter of an exponent and the letters of the short escapes. */
  lemma Letters(c: byte)
    ensures IsSpace(c) <==> c in Ascii(" \t\n\r")
    ensures IsE(c) <==> c in Ascii("eE")
    ensures IsEscape(c) <==> c in Ascii("\"\\/bfnrt")
  {
    LettersAre();
  }

  lemma LettersAre()
    ensures Ascii(" \t\n\r") == [0x20, 0x09, 0x0A, 0x0D]
    ensures Ascii("eE") == [0x65, 0x45]
    ensures Ascii("\"\\/bfnrt") == [0x22, 0x5C, 0x2F, 0x62, 0x66, 0x6E, 0x72, 0x74]
  {
  }

  /** Decimal and hexadecimal digits. */
  lemma Digits(c: byte)
    ensures IsDigit(c) <==> c in Ascii("0123456789")
    ensures IsHex(c) <==> c in Ascii("0123456789") || c in Ascii("abcdef") || c in Ascii("ABCDEF")
  {
    DigitsAre();
  }

  lemma DigitsAre()
    ensures Ascii("0123456789") == [0x30, 0x31, 0x32, 0x33, 0x34, 0x35, 0x36, 0x37, 0x38, 0x39]
    ensures Ascii("abcdef") == [0x61, 0x62, 0x63, 0x64, 0x65, 0x66]
    ensures Ascii("ABCDEF") == [0x41, 0x42, 0x43, 0x44, 0x45, 0x46]
  {
  }

  /** What a scalar denotes, by its text. */
  lemma ScalarDenotes(text: bytes)
    ensures Denote(Lit(text)) == Null <==> text == Ascii("null")
    ensures Denote(Lit(text)) == Bool(true) <==> text == Ascii("true")
    ensures Denote(Lit(text)) == Bool(false) <==> text == Ascii("false")
    ensures Denote(Lit(text)).Str? <==> text != [] && text[0] == '"' as byte
    ensures Denote(Lit(text)).Number? ==> Denote(Lit(text)) == Number(text)
  {
    Punctuation();
  }

  // ---- Line breaks ----

  /** A line break is a line feed and the prefix, and for each level of nesting one copy of the indent more. */
  lemma LineBreaks(st: JsonIndent.Style, depth: int)
    ensures JsonIndent.NewLine(st, if depth > 0 then 0 else depth) == Ascii("\n") + st.prefix
    ensures depth >= 0 ==> JsonIndent.NewLine(st, depth + 1) == JsonIndent.NewLine(st, depth) + st.indent
  {
    Punctuation();
    assert Ascii("\n") == [0x0A];
    assert Ascii("\n") + st.prefix + [] == Ascii("\n") + st.prefix;
  }

  // ---- Case ----

  /** The letter of a pair; the runes beyond ASCII are the Kelvin sign and the long s. */
  predicate SameLetter(c: byte, r: rune) {
    || (exists i: nat :: i < 26 && IsPair(c, r, i))
    || ((c == 'k' as byte || c == 'K' as byte) && r == 0x212A)
    || ((c == 's' as byte || c == 'S' as byte) && r == 0x017F)
  }

  predicate IsPair(c: byte, r: rune, i: nat)
    requires i < 26
  {
    var upper, lower := 'A' as int + i, 'a' as int + i;
    (c == upper && r == lower) || (c == lower && r == upper)
  }

  /** An ASCII character matches itself, the other case of a letter, and K and S one rune more each. */
  lemma Folds(c: byte, r: rune)
    requires c < 0x80
    ensures FoldClass(c) == FoldClass(r) <==> c == r || SameLetter(c, r)
  {
    assert 'A' as int == 0x41 && 'a' as int == 0x61 && 'k' as int == 0x6B && 'K' as int == 0x4B;
    assert 's' as int == 0x73 && 'S' as int == 0x53;
    if 0x41 <= c <= 0x5A && r == c + 0x20 { assert IsPair(c, r, c - 0x41); }
    if 0x61 <= c <= 0x7A && r == c - 0x20 { assert IsPair(c, r, c - 0x61); }
  }

  // ---- UTF-8 ----

  /** The characters in the examples of RFC 3629, section 7. */
  lemma EncodingExamples()
    ensures EncodeRune(0x0041) == [0x41] && EncodeRune(0x002E) == [0x2E]
    ensures EncodeRune(0x2262) == [0xE2, 0x89, 0xA2] && EncodeRune(0x0391) == [0xCE, 0x91]
    ensures EncodeRune(0xD55C) == [0xED, 0x95, 0x9C] && EncodeRune(0xAD6D) == [0xEA, 0xB5, 0xAD]
    ensures EncodeRune(0xC5B4) == [0xEC, 0x96, 0xB4] && EncodeRune(0x65E5) == [0xE6, 0x97, 0xA5]
    ensures EncodeRune(0x672C) == [0xE6, 0x9C, 0xAC] && EncodeRune(0x8A9E) == [0xE8, 0xAA, 0x9E]
    ensures EncodeRune(0xFEFF) == [0xEF, 0xBB, 0xBF] && EncodeRune(0x233B4) == [0xF0, 0xA3, 0x8E, 0xB4]
  {
  }

  /** In the order of `q` and `r` the quotients decide, and then the remainders. */
  lemma QuotientFirst(q: nat, r: nat)
    requires q < r
    ensures q / 0x40 <= r / 0x40 && (q / 0x40 == r / 0x40 ==> q % 0x40 < r % 0x40)
  {
  }

  lemma OrderTwo(q: rune, r: rune)
    requires 0x80 <= q < r < 0x800
    ensures FirstDifference(EncodeRune(q), EncodeRune(r), if q / 0x40 < r / 0x40 then 0 else 1)
  {
    QuotientFirst(q, r);
  }

  lemma OrderThree(q: rune, r: rune)
    requires 0x800 <= q < r < 0x10000 && IsScalarValue(q) && IsScalarValue(r)
    ensures FirstDifference(EncodeRune(q), EncodeRune(r),
                            if q / 0x1000 < r / 0x1000 then 0 else if q / 0x40 < r / 0x40 then 1 else 2)
  {
    QuotientFirst(q, r);
    assert q / 0x40 / 0x40 == q / 0x1000 && r / 0x40 / 0x40 == r / 0x1000;
    if q / 0x40 < r / 0x40 { QuotientFirst(q / 0x40, r / 0x40); }
  }

  lemma OrderFour(q: rune, r: rune)
    requires 0x10000 <= q < r < 0x110000
    ensures FirstDifference(EncodeRune(q), EncodeRune(r),
                            if q / 0x40000 < r / 0x40000 then 0 else if q / 0x1000 < r / 0x1000 then 1
                            else if q / 0x40 < r / 0x40 then 2 else 3)
  {
    QuotientFirst(q, r);
    assert q / 0x40 / 0x40 == q / 0x1000 && r / 0x40 / 0x40 == r / 0x1000;
    assert q / 0x1000 / 0x40 == q / 0x40000 && r / 0x1000 / 0x40 == r / 0x40000;
    if q / 0x40 < r / 0x40 { QuotientFirst(q / 0x40, r / 0x40); }
    if q / 0x1000 < r / 0x1000 { QuotientFirst(q / 0x1000, r / 0x1000); }
  }

  /** The order of the encodings is the order of the runes (RFC 3629, section 1). */
  lemma EncodingOrder(q: rune, r: rune)
    requires IsScalarValue(q) && IsScalarValue(r) && q < r
    ensures JsonEncoder.Less(EncodeRune(q), EncodeRune(r))
  {
    LessMeans(EncodeRune(q), EncodeRune(r));
    hide JsonEncoder.Less;
    if 0x80 <= q && r < 0x800 {
      OrderTwo(q, r);
    } else if 0x800 <= q && r < 0x10000 {
      OrderThree(q, r);
    } else if 0x10000 <= q {
      OrderFour(q, r);
    } else {
      assert FirstDifference(EncodeRune(q), EncodeRune(r), 0);
    }
  }
}
