/**
 The loops that escape and unquote, carried out in place and proved against the functions of JsonStrings.
 */
module JsonQuoting {
  import opened Options
  import opened Bytes
  import opened JsonScanner
  import opened JsonLexemes
  import opened JsonStrings
  import opened Utf8

  /** bytes.Buffer, and the methods of encodeState, which embeds it. */
  class Buffer {
    var buf: bytes

    constructor ()
      ensures buf == []
    {
      buf := [];
    }

    method WriteByte(c: byte)
      modifies this
      ensures buf == old(buf) + [c]
    {
      buf := buf + [c];
    }

    method Write(s: bytes)
      modifies this
      ensures buf == old(buf) + s
    {
      buf := buf + s;
    }

    method Truncate(n: nat)
      requires n <= |buf|
      modifies this
      ensures buf == old(buf)[..n]
    {
      buf := buf[..n];
    }

    /** The escape that a byte below 0x80 needs. */
    method WriteEscape(c: byte, escapeHTML: bool)
      requires c < 0x80 && !IsSafe(c, escapeHTML)
      modifies this
      ensures buf == old(buf) + EscapeAscii(c, escapeHTML)
    {
      match c
      case 0x5C | 0x22 =>
        WriteByte(BACKSLASH);
        WriteByte(c);
      case 0x0A =>
        WriteByte(BACKSLASH);
        WriteByte(0x6E);
      case 0x0D =>
        WriteByte(BACKSLASH);
        WriteByte(0x72);
      case 0x09 =>
        WriteByte(BACKSLASH);
        WriteByte(0x74);
      case _ =>
        Write([BACKSLASH, 0x75, 0x30, 0x30]);
        WriteByte(HexDigit(c / 16));
        WriteByte(HexDigit(c % 16));
    }

    method Flush(s: bytes, start: nat, i: nat, ghost all: bytes)
      requires Pending(buf, s, start, i, all)
      modifies this
      ensures buf == all
    {
      if start < i { Write(s[start..i]); }
    }

    /** The escapes: for ASCII, for an ill-formed byte, and for the two line separators. */
    method WriteSpecial(s: bytes, escapeHTML: bool)
      requires s != [] && !IsCopied(s, escapeHTML)
      modifies this
      ensures buf == old(buf) + QuoteUnit(s, escapeHTML)
    {
      hide EscapeAscii;
      if s[0] < 0x80 {
        WriteEscape(s[0], escapeHTML);
        return;
      }
      var (c, size) := DecodeRune(s);
      if c == REPLACEMENT && size == 1 {
        Write([BACKSLASH, 0x75, 0x66, 0x66, 0x66, 0x64]);
      } else {
        Write([BACKSLASH, 0x75, 0x32, 0x30, 0x32]);
        WriteByte(HexDigit(c % 16));
      }
    }

    /** encodeState.string: `out` is due so far, and all of it is written but the stretch s[start..i]. */
    method String(s: bytes, escapeHTML: bool) returns (n: nat)
      modifies this
      ensures buf == old(buf) + Quote(s, escapeHTML)
      ensures n == |Quote(s, escapeHTML)|
    {
      hide Due, Pending, QuoteBody, QuoteUnit, UnitSize, IsCopied;
      var len0 := |buf|;
      WriteByte(QUOTE);
      var start, i := 0, 0;
      ghost var out: bytes := [];
      ghost var buf1 := buf;
      NoneDue(s, escapeHTML);
      Flushed(buf, s, 0);
      while i < |s|
        invariant 0 <= start <= i <= |s|
        invariant Pending(buf, s, start, i, buf1 + out)
        invariant Due(s, escapeHTML, out, i)
      {
        OneMore(s, escapeHTML, out, i);
        var size := UnitSize(s[i..]);
        ghost var unit := QuoteUnit(s[i..], escapeHTML);
        if IsCopied(s[i..], escapeHTML) {
          Keep(buf, s, start, i, size, buf1 + out);
          assert buf1 + out + unit == buf1 + (out + unit);
          i := i + size;
        } else {
          Flush(s, start, i, buf1 + out);
          WriteSpecial(s[i..], escapeHTML);
          i := i + size;
          start := i;
          Flushed(buf, s, i);
          assert buf1 + out + unit == buf1 + (out + unit);
        }
        out := out + unit;
      }
      AllDue(s, escapeHTML, out);
      Flush(s, start, |s|, buf1 + out);
      WriteByte(QUOTE);
      n := |buf| - len0;
    }

    /** encodeState.stringBytes: the same for the bytes of a slice, so it appends the same literal. */
    method StringBytes(s: array<byte>, escapeHTML: bool) returns (n: nat)
      modifies this
      ensures buf == old(buf) + Quote(s[..], escapeHTML)
      ensures n == |Quote(s[..], escapeHTML)|
    {
      hide Due, Pending, QuoteBody, QuoteUnit, UnitSize, IsCopied;
      ghost var t := s[..];
      var len0 := |buf|;
      WriteByte(QUOTE);
      var start, i := 0, 0;
      ghost var out: bytes := [];
      ghost var buf1 := buf;
      NoneDue(t, escapeHTML);
      Flushed(buf, t, 0);
      while i < s.Length
        invariant 0 <= start <= i <= s.Length
        invariant Pending(buf, t, start, i, buf1 + out)
        invariant Due(t, escapeHTML, out, i)
      {
        OneMore(t, escapeHTML, out, i);
        assert s[i..] == t[i..];
        var size := UnitSize(s[i..]);
        ghost var unit := QuoteUnit(t[i..], escapeHTML);
        if IsCopied(s[i..], escapeHTML) {
          Keep(buf, t, start, i, size, buf1 + out);
          assert buf1 + out + unit == buf1 + (out + unit);
          i := i + size;
        } else {
          Flush(s[..], start, i, buf1 + out);
          WriteSpecial(s[i..], escapeHTML);
          i := i + size;
          start := i;
          Flushed(buf, t, i);
          assert buf1 + out + unit == buf1 + (out + unit);
        }
        out := out + unit;
      }
      AllDue(t, escapeHTML, out);
      Flush(s[..], start, s.Length, buf1 + out);
      WriteByte(QUOTE);
      n := |buf| - len0;
    }
  }

  /** The first character of `s` needs no escape: the two cases in which the loop only moves on. */
  predicate IsCopied(s: bytes, html: bool)
    requires s != []
  {
    if s[0] < 0x80 then IsSafe(s[0], html)
    else
      var (c, size) := DecodeRune(s);
      !(c == REPLACEMENT && size == 1) && !IsLineSeparator(c)
  }

  /** `all` is what the buffer will hold when the stretch has been copied. */
  predicate Pending(buf: bytes, s: bytes, start: nat, i: nat, all: bytes) {
    start <= i <= |s| && buf + s[start..i] == all
  }

  lemma Keep(buf: bytes, s: bytes, start: nat, i: nat, size: nat, all: bytes)
    requires Pending(buf, s, start, i, all) && i + size <= |s|
    ensures Pending(buf, s, start, i + size, all + s[i..i + size])
  {
    assert s[start..i + size] == s[start..i] + s[i..i + size];
  }

  lemma Flushed(buf: bytes, s: bytes, i: nat)
    requires i <= |s|
    ensures Pending(buf, s, i, i, buf)
  {
  }

  /** `out` is the body for s[..i]. */
  predicate Due(s: bytes, html: bool, out: bytes, i: nat) {
    i <= |s| && QuoteBody(s, html) == out + QuoteBody(s[i..], html)
  }

  lemma NoneDue(s: bytes, html: bool)
    ensures Due(s, html, [], 0)
  {
    assert s[0..] == s;
  }

  lemma AllDue(s: bytes, html: bool, out: bytes)
    requires Due(s, html, out, |s|)
    ensures QuoteBody(s, html) == out
  {
    assert s[|s|..] == [];
  }

  lemma OneMore(s: bytes, html: bool, out: bytes, i: nat)
    requires i < |s| && Due(s, html, out, i)
    ensures var size := UnitSize(s[i..]);
            && Due(s, html, out + QuoteUnit(s[i..], html), i + size)
            && (IsCopied(s[i..], html) ==> QuoteUnit(s[i..], html) == s[i..i + size])
  {
    hide *;
    var t, size := s[i..], UnitSize(s[i..]);
    QuoteBodyStep(t, html);
    CopiedUnit(t, html);
    assert t[size..] == s[i + size..] && t[..size] == s[i..i + size];
    DueStep(s, html, out, i, QuoteUnit(t, html), i + size);
  }

  lemma DueStep(s: bytes, html: bool, out: bytes, i: nat, unit: bytes, k: nat)
    requires Due(s, html, out, i) && k <= |s| && QuoteBody(s[i..], html) == unit + QuoteBody(s[k..], html)
    ensures Due(s, html, out + unit, k)
  {
    hide QuoteBody;
    assert out + (unit + QuoteBody(s[k..], html)) == out + unit + QuoteBody(s[k..], html);
  }

  lemma QuoteBodyStep(s: bytes, html: bool)
    requires s != []
    ensures QuoteBody(s, html) == QuoteUnit(s, html) + QuoteBody(s[UnitSize(s)..], html)
  {
    hide QuoteUnit, UnitSize;
  }

  lemma CopiedUnit(s: bytes, html: bool)
    requires s != []
    ensures IsCopied(s, html) ==> QuoteUnit(s, html) == s[..UnitSize(s)]
  {
  }

  // ---- Unquoting ----

  const UTF_MAX := 4

  /** Writes the rune at index `w`. */
  method PutRune(b: array<byte>, w: nat, r: rune) returns (n: nat)
    requires IsScalarValue(r) && w + UTF_MAX <= b.Length
    modifies b
    ensures n == |EncodeRune(r)| && n <= UTF_MAX
    ensures b[..w + n] == old(b[..w]) + EncodeRune(r)
  {
    var e := EncodeRune(r);
    n := |e|;
    hide EncodeRune;
    for i := 0 to n
      invariant b[..w] == old(b[..w])
      invariant b[w..w + i] == e[..i]
    {
      b[w + i] := e[i];
      assert e[..i + 1] == e[..i] + [e[i]];
      assert b[w..w + i + 1] == b[w..w + i] + [e[i]];
    }
    assert b[..w + n] == b[..w] + b[w..w + n];
  }

  /** Writes one byte at index `w`. */
  method PutByte(b: array<byte>, w: nat, c: byte)
    requires w < b.Length
    modifies b
    ensures b[..w + 1] == old(b[..w]) + [c]
  {
    b[w] := c;
  }

  /** The \u escape at s[r..], with the second half of a surrogate pair if there is one. */
  method UnquoteU4At(s: bytes, r0: nat, b: array<byte>, w0: nat) returns (ok: bool, r: nat, w: nat)
    requires r0 + 1 < |s| && s[r0] == BACKSLASH && SimpleEscape(s[r0 + 1]) == None && w0 + 2 * UTF_MAX <= b.Length
    modifies b
    ensures ok == UnquoteUnit(s[r0..]).Some?
    ensures ok ==>
      && r == r0 + UnquoteUnit(s[r0..]).value.1 && w <= w0 + UTF_MAX
      && b[..w] == old(b[..w0]) + UnquoteUnit(s[r0..]).value.0
  {
    r, w := r0, w0;
    var rr := GetU4(s[r..]);
    hide GetU4, EncodeRune, SimpleEscape;
    if rr == None { return false, r, w; }
    r := r + 6;
    assert s[r0..][6..] == s[r..];
    var u := rr.value;
    if IsSurrogate(u) {
      var rr1 := GetU4(s[r..]);
      var dec := DecodePair(u, rr1);
      if dec.Some? {
        // Both halves are used up.
        r := r + 6;
        var n := PutRune(b, w, dec.value);
        return true, r, w + n;
      }
      // A half alone stands for no character.
      u := REPLACEMENT;
    }
    var n := PutRune(b, w, u);
    return true, r, w + n;
  }

  /** One turn of the switch: the escape or character at s[r..] goes to b[w..]. */
  method UnquoteAt(s: bytes, r0: nat, b: array<byte>, w0: nat) returns (ok: bool, r: nat, w: nat)
    requires r0 < |s| && w0 + 2 * UTF_MAX <= b.Length
    modifies b
    ensures ok == UnquoteUnit(s[r0..]).Some?
    ensures ok ==>
      && r == r0 + UnquoteUnit(s[r0..]).value.1 && w <= w0 + UTF_MAX
      && b[..w] == old(b[..w0]) + UnquoteUnit(s[r0..]).value.0
  {
    r, w := r0, w0;
    var c := s[r];
    if c == BACKSLASH {
      hide GetU4, EncodeRune, DecodeRune, DecodePair;
      r := r + 1;
      if r >= |s| { return false, r, w; }
      var e := SimpleEscape(s[r]);
      if e.Some? {
        hide SimpleEscape;
        PutByte(b, w, e.value);
        return true, r + 1, w + 1;
      }
      hide UnquoteUnit;
      ok, r, w := UnquoteU4At(s, r0, b, w0);
    } else if c == QUOTE || c < 0x20 {
      ok := false;
    } else if c < 0x80 {
      AsciiUnit(s[r..]);
      hide UnquoteUnit;
      PutByte(b, w, c);
      return true, r + 1, w + 1;
    } else {
      hide GetU4, EncodeRune, DecodePair, SimpleEscape;
      var (rr, size) := DecodeRune(s[r..]);
      hide DecodeRune;
      var n := PutRune(b, w, rr);
      return true, r + size, w + n;
    }
  }

  lemma AsciiUnit(s: bytes)
    requires s != [] && 0x20 <= s[0] < 0x80 && s[0] != BACKSLASH && s[0] != QUOTE
    ensures UnquoteUnit(s) == Some(([s[0]], 1))
  {
    hide GetU4, DecodePair, SimpleEscape;
  }

  /** `out` is the text of s[..r]. */
  predicate Unquoted(s: bytes, out: bytes, r: nat) {
    r <= |s| && UnquoteBody(s) == Prepend(out, UnquoteBody(s[r..]))
  }

  lemma UnquotedNone(s: bytes)
    ensures Unquoted(s, [], 0)
  {
    assert s[0..] == s;
    if t :| UnquoteBody(s) == Some(t) { assert [] + t == t; }
  }

  lemma UnquotedAll(s: bytes, out: bytes)
    requires Unquoted(s, out, |s|)
    ensures UnquoteBody(s) == Some(out)
  {
    assert s[|s|..] == [] && out + [] == out;
  }

  lemma UnquotedMore(s: bytes, out: bytes, r: nat)
    requires Unquoted(s, out, r) && r < |s|
    ensures match UnquoteUnit(s[r..])
            case None => UnquoteBody(s) == None
            case Some((u, n)) => Unquoted(s, out + u, r + n)
  {
    hide UnquoteUnit;
    if UnquoteUnit(s[r..]).Some? {
      var (u, n) := UnquoteUnit(s[r..]).value;
      assert s[r..][n..] == s[r + n..];
      if t :| UnquoteBody(s[r + n..]) == Some(t) {
        assert out + (u + t) == out + u + t;
      }
    }
  }

  /** A character that the first loop passes over stands for itself. */
  lemma UnquotedCopy(s: bytes, r: nat)
    requires r < |s| && Unquoted(s, s[..r], r)
    requires s[r] != BACKSLASH && s[r] != QUOTE && s[r] >= 0x20 && CharSize(s[r..]) > 0
    ensures Unquoted(s, s[..r + CharSize(s[r..])], r + CharSize(s[r..]))
  {
    UnquotedMore(s, s[..r], r);
    var t := s[r..];
    EncodeDecoded(t);
    assert UnquoteUnit(t) == Some((t[..CharSize(t)], CharSize(t)));
    hide UnquoteUnit, CharSize, Unquoted;
    assert s[..r] + t[..CharSize(t)] == s[..r + CharSize(t)];
  }

  /** The first loop: the length of the front part that needs no unquoting. */
  method PlainPrefix(s: bytes) returns (r: nat)
    ensures r <= |s| && Unquoted(s, s[..r], r)
  {
    hide Unquoted;
    r := 0;
    UnquotedNone(s);
    assert s[..0] == [];
    while r < |s|
      invariant r <= |s| && Unquoted(s, s[..r], r)
    {
      var c := s[r];
      if c == BACKSLASH || c == QUOTE || c < 0x20 {
        break;
      }
      if c < 0x80 {
        UnquotedCopy(s, r);
        r := r + 1;
        continue;
      }
      var (rr, size) := DecodeRune(s[r..]);
      if rr == REPLACEMENT && size == 1 {
        break;
      }
      UnquotedCopy(s, r);
      r := r + size;
    }
  }

  /** A longer buffer with the bytes written so far. */
  method Enlarged(b: array<byte>, w: nat, n: nat) returns (nb: array<byte>)
    requires w <= b.Length && w <= n
    ensures fresh(nb) && nb.Length == n && nb[..w] == b[..w]
  {
    nb := new byte[n];
    for i := 0 to w
      invariant forall k :: 0 <= k < i ==> nb[k] == b[k]
    {
      nb[i] := b[i];
    }
  }

  lemma UnquoteIs(literal: bytes)
    ensures IsQuoted(literal) ==> |literal| >= 2 && Unquote(literal) == UnquoteBody(literal[1..|literal| - 1])
    ensures !IsQuoted(literal) ==> Unquote(literal) == None
  {
    hide UnquoteBody;
  }

  lemma UtfMax()
    ensures UTF_MAX == 4
  {
  }

  lemma UnquotedBound(s: bytes, out: bytes, r: nat)
    requires Unquoted(s, out, r)
    ensures r <= |s|
  {
  }

  method UnquoteBytes(literal: bytes) returns (t: bytes, ok: bool)
    ensures Unquote(literal) == if ok then Some(t) else None
  {
    hide *;
    UnquoteIs(literal);
    UtfMax();
    if !IsQuoted(literal) { return [], false; }
    var s := literal[1..|literal| - 1];
    var r := PlainPrefix(s);
    if r == |s| {
      UnquotedAll(s, s[..r]);
      assert s[..r] == s;
      return s, true;
    }
    var b := new byte[|s| + 2 * UTF_MAX];
    var w: nat := r;
    for i := 0 to r
      invariant b[..i] == s[..i]
    {
      b[i] := s[i];
      assert s[..i + 1] == s[..i] + [s[i]];
    }
    while r < |s|
      invariant r <= |s| && w <= b.Length && fresh(b)
      invariant Unquoted(s, b[..w], r)
      decreases |s| - r
    {
      // The next unit must fit.
      if w >= b.Length - 2 * UTF_MAX {
        b := Enlarged(b, w, (b.Length + UTF_MAX) * 2);
      }
      UnquotedMore(s, b[..w], r);
      var more: bool;
      more, r, w := UnquoteAt(s, r, b, w);
      if !more { return [], false; }
      UnquotedBound(s, b[..w], r);
    }
    UnquotedAll(s, b[..w]);
    return b[..w], true;
  }
}
