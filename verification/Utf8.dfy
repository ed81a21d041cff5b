/**
 UTF-8 as RFC 3629, section 4, defines it, decoded and encoded as Go's unicode/utf8 package does.
 */
module Utf8 {
  import opened Bytes

  type rune = nat

  const REPLACEMENT: rune := 0xFFFD
  const REPLACEMENT_BYTES: bytes := [0xEF, 0xBF, 0xBD]

  /** A Unicode scalar value. */
  predicate IsScalarValue(r: rune) {
    r < 0xD800 || 0xE000 <= r < 0x110000
  }

  predicate IsTail(c: byte) {
    0x80 <= c <= 0xBF
  }

  /** The second byte allowed after a lead byte. */
  predicate IsSecond(lead: byte, c: byte) {
    if lead == 0xE0 then 0xA0 <= c <= 0xBF
    else if lead == 0xED then 0x80 <= c <= 0x9F
    else if lead == 0xF0 then 0x90 <= c <= 0xBF
    else if lead == 0xF4 then 0x80 <= c <= 0x8F
    else IsTail(c)
  }

  /** The length that a lead byte announces; 0 for a byte that leads nothing. */
  function LeadLength(c: byte): nat {
    if c < 0x80 then 1
    else if 0xC2 <= c <= 0xDF then 2
    else if 0xE0 <= c <= 0xEF then 3
    else if 0xF0 <= c <= 0xF4 then 4
    else 0
  }

  /** The length of the well-formed character at the front of `s`; 0 if there is none. */
  function CharSize(s: bytes): (n: nat)
    ensures n <= |s| && n <= 4
  {
    if s == [] then 0
    else
      var n := LeadLength(s[0]);
      if |s| < n then 0
      else if n > 1 && !IsSecond(s[0], s[1]) then 0
      else if n > 2 && !IsTail(s[2]) then 0
      else if n > 3 && !IsTail(s[3]) then 0
      else n
  }

  /** What a byte adds to the rune above `base`. */
  function Bits(c: byte, base: int): int {
    c as int - base
  }

  /** The rune of the well-formed character at the front of `s`. */
  function CharRune(s: bytes): (r: rune)
    requires CharSize(s) > 0
    ensures IsScalarValue(r)
    ensures r < 0x80 <==> CharSize(s) == 1
  {
    var n := CharSize(s);
    if n == 1 then s[0]
    else if n == 2 then Bits(s[0], 0xC0) * 0x40 + Bits(s[1], 0x80)
    else if n == 3 then Bits(s[0], 0xE0) * 0x1000 + Bits(s[1], 0x80) * 0x40 + Bits(s[2], 0x80)
    else Bits(s[0], 0xF0) * 0x40000 + Bits(s[1], 0x80) * 0x1000 + Bits(s[2], 0x80) * 0x40 + Bits(s[3], 0x80)
  }

  /** utf8.DecodeRune: an ill-formed byte is one replacement rune. */
  function DecodeRune(s: bytes): (r: (rune, nat))
    ensures r.1 <= |s| && IsScalarValue(r.0)
    ensures s != [] ==> r.1 > 0
  {
    if s == [] then (REPLACEMENT, 0)
    else if CharSize(s) == 0 then (REPLACEMENT, 1)
    else (CharRune(s), CharSize(s))
  }

  /** utf8.EncodeRune, on scalar values. */
  function EncodeRune(r: rune): (s: bytes)
    requires IsScalarValue(r)
    ensures 1 <= |s| <= 4
  {
    if r < 0x80 then [r]
    else if r < 0x800 then [0xC0 + r / 0x40, 0x80 + r % 0x40]
    else if r < 0x10000 then [0xE0 + r / 0x1000, 0x80 + r / 0x40 % 0x40, 0x80 + r % 0x40]
    else [0xF0 + r / 0x40000, 0x80 + r / 0x1000 % 0x40, 0x80 + r / 0x40 % 0x40, 0x80 + r % 0x40]
  }

  /** Encoding the rune of a well-formed character gives its bytes back. */
  lemma EncodeDecoded(s: bytes)
    requires CharSize(s) > 0
    ensures EncodeRune(CharRune(s)) == s[..CharSize(s)]
  {
    if CharSize(s) == 3 { EncodeDecoded3(s); }
    if CharSize(s) == 4 { EncodeDecoded4(s); }
  }

  lemma EncodeDecoded3(s: bytes)
    requires CharSize(s) == 3
    ensures EncodeRune(CharRune(s)) == s[..3]
  {
    assert CharRune(s) / 0x40 == Bits(s[0], 0xE0) * 0x40 + Bits(s[1], 0x80);
  }

  lemma EncodeDecoded4(s: bytes)
    requires CharSize(s) == 4
    ensures EncodeRune(CharRune(s)) == s[..4]
  {
    assert CharRune(s) / 0x40 == Bits(s[0], 0xF0) * 0x1000 + Bits(s[1], 0x80) * 0x40 + Bits(s[2], 0x80);
    assert CharRune(s) / 0x1000 == Bits(s[0], 0xF0) * 0x40 + Bits(s[1], 0x80);
  }

  /** Decoding an encoded rune gives it back, whatever follows. */
  lemma DecodeEncoded(r: rune, rest: bytes)
    requires IsScalarValue(r)
    ensures CharSize(EncodeRune(r) + rest) == |EncodeRune(r)|
    ensures CharRune(EncodeRune(r) + rest) == r
  {
    var s := EncodeRune(r) + rest;
    if 0x80 <= r < 0x800 {
      assert s[0] == 0xC0 + r / 0x40 && s[1] == 0x80 + r % 0x40;
    } else if 0x800 <= r < 0x10000 {
      ThreeBytes(r);
      assert s[0] == 0xE0 + r / 0x1000 && s[1] == 0x80 + r / 0x40 % 0x40 && s[2] == 0x80 + r % 0x40;
    } else if 0x10000 <= r {
      FourBytes(r);
      assert s[0] == 0xF0 + r / 0x40000 && s[1] == 0x80 + r / 0x1000 % 0x40
          && s[2] == 0x80 + r / 0x40 % 0x40 && s[3] == 0x80 + r % 0x40;
    }
  }

  lemma ThreeBytes(r: rune)
    requires 0x800 <= r < 0x10000 && IsScalarValue(r)
    ensures r == r / 0x1000 * 0x1000 + r / 0x40 % 0x40 * 0x40 + r % 0x40
    ensures IsSecond(0xE0 + r / 0x1000, 0x80 + r / 0x40 % 0x40)
  {
    var a := r / 0x40;
    assert a / 0x40 == r / 0x1000;
  }

  lemma FourBytes(r: rune)
    requires 0x10000 <= r < 0x110000
    ensures r == r / 0x40000 * 0x40000 + r / 0x1000 % 0x40 * 0x1000 + r / 0x40 % 0x40 * 0x40 + r % 0x40
    ensures IsSecond(0xF0 + r / 0x40000, 0x80 + r / 0x1000 % 0x40)
    ensures r / 0x40000 <= 4
  {
    var a := r / 0x40;
    var b := a / 0x40;
    assert b == r / 0x1000 && b / 0x40 == r / 0x40000;
  }

  predicate WellFormed(s: bytes) {
    s == [] || (CharSize(s) > 0 && WellFormed(s[CharSize(s)..]))
  }

  /** `s` with a replacement character in place of each ill-formed byte. */
  function Coerce(s: bytes): bytes {
    if s == [] then []
    else if CharSize(s) == 0 then REPLACEMENT_BYTES + Coerce(s[1..])
    else s[..CharSize(s)] + Coerce(s[CharSize(s)..])
  }

  lemma CharSizePrefix(s: bytes, t: bytes)
    requires CharSize(s) > 0
    ensures CharSize(s[..CharSize(s)] + t) == CharSize(s)
    ensures CharRune(s[..CharSize(s)] + t) == CharRune(s)
  {
    var u := s[..CharSize(s)] + t;
    assert forall i :: 0 <= i < CharSize(s) ==> u[i] == s[i];
  }

  lemma WellFormedConcat(r: rune, t: bytes)
    requires IsScalarValue(r) && WellFormed(t)
    ensures WellFormed(EncodeRune(r) + t)
  {
    DecodeEncoded(r, t);
    assert (EncodeRune(r) + t)[|EncodeRune(r)|..] == t;
  }

  lemma ReplacementEncoded()
    ensures EncodeRune(REPLACEMENT) == REPLACEMENT_BYTES
  {
  }

  lemma {:induction false} CoerceWellFormed(s: bytes)
    ensures WellFormed(Coerce(s))
  {
    if s != [] {
      if CharSize(s) == 0 {
        CoerceWellFormed(s[1..]);
        ReplacementEncoded();
        WellFormedConcat(REPLACEMENT, Coerce(s[1..]));
      } else {
        var t := s[CharSize(s)..];
        CoerceWellFormed(t);
        EncodeDecoded(s);
        WellFormedConcat(CharRune(s), Coerce(t));
      }
    }
  }

  lemma {:induction false} CoerceIdentity(s: bytes)
    requires WellFormed(s)
    ensures Coerce(s) == s
  {
    if s != [] {
      CoerceIdentity(s[CharSize(s)..]);
    }
  }

  lemma CharSizeBefore(a: bytes, b: bytes)
    requires a != [] && (b == [] || b[0] < 0x80)
    ensures CharSize(a + b) == CharSize(a)
  {
    var s := a + b;
    assert s[0] == a[0];
    if |a| < 4 && b != [] { assert s[|a|] == b[0]; }
    assert forall i :: 0 <= i < |a| ==> s[i] == a[i];
  }

  /** No character spans the border to a part that begins in ASCII. */
  lemma {:induction false} CoerceConcat(a: bytes, b: bytes)
    requires b == [] || b[0] < 0x80
    ensures Coerce(a + b) == Coerce(a) + Coerce(b)
  {
    if a == [] {
      assert a + b == b;
    } else {
      CharSizeBefore(a, b);
      var n := if CharSize(a) == 0 then 1 else CharSize(a);
      assert (a + b)[n..] == a[n..] + b && (a + b)[..n] == a[..n];
      CoerceConcat(a[n..], b);
    }
  }
}
