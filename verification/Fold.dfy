/**
 The choice among case-folding comparators: each fast form, where it is chosen, is the comparison of the two
 strings rune by rune.
 */
module Fold {
  import opened Bytes
  import opened Utf8

  const KELVIN: rune := 0x212A
  const SMALL_LONG_ESS: rune := 0x017F

  // ---- The comparison rune by rune ----

  /** utf8.DecodeRune, again and again. */
  function Runes(t: bytes): seq<rune> {
    if t == [] then [] else [DecodeRune(t).0] + Runes(t[DecodeRune(t).1..])
  }

  /** The class of a rune that may match an ASCII one: {x, X}, and {k, K, U+212A} and {s, S, U+017F}. */
  function FoldClass(r: rune): rune {
    if 0x61 <= r <= 0x7A then r - 0x20
    else if r == KELVIN then 0x4B
    else if r == SMALL_LONG_ESS then 0x53
    else r
  }

  /** Equal up to case. */
  ghost predicate EqualRunes(a: seq<rune>, b: seq<rune>) {
    |a| == |b| && forall i :: 0 <= i < |a| ==> FoldClass(a[i]) == FoldClass(b[i])
  }

  ghost predicate FoldEqual(s: bytes, t: bytes) {
    EqualRunes(Runes(s), Runes(t))
  }

  predicate AllAscii(s: bytes) {
    forall i :: 0 <= i < |s| ==> s[i] < 0x80
  }

  /** b & caseMask: bit 5 cleared */
  function Mask(b: byte): byte {
    if b / 0x20 % 2 == 1 then b - 0x20 else b
  }

  predicate IsLetter(b: byte) {
    0x41 <= Mask(b) <= 0x5A
  }

  /** k, K, s or S */
  predicate IsSpecial(b: byte) {
    Mask(b) == 0x4B || Mask(b) == 0x53
  }

  // ---- One rune at a time ----

  lemma RunesOne(t: bytes)
    requires t != []
    ensures Runes(t) == [DecodeRune(t).0] + Runes(t[DecodeRune(t).1..])
    ensures t[0] < 0x80 ==> DecodeRune(t) == (t[0] as nat, 1)
    ensures t[0] >= 0x80 ==> DecodeRune(t).0 >= 0x80
  {
  }

  /** Comparing the first rune and the rest. */
  lemma FoldStep(s: bytes, t: bytes)
    requires s != [] && s[0] < 0x80
    ensures t == [] ==> !FoldEqual(s, t)
    ensures t != [] ==>
      (FoldEqual(s, t) <==> FoldClass(s[0]) == FoldClass(DecodeRune(t).0) && FoldEqual(s[1..], t[DecodeRune(t).1..]))
  {
    RunesOne(s);
    if t != [] {
      RunesOne(t);
      hide DecodeRune, FoldClass, Runes;
      var a, b := Runes(s[1..]), Runes(t[DecodeRune(t).1..]);
      FoldCons(s[0] as nat, a, DecodeRune(t).0, b);
    }
  }

  lemma FoldCons(x: rune, a: seq<rune>, y: rune, b: seq<rune>)
    ensures EqualRunes([x] + a, [y] + b) <==> FoldClass(x) == FoldClass(y) && EqualRunes(a, b)
  {
    hide FoldClass;
    var u, v := [x] + a, [y] + b;
    assert u[0] == x && v[0] == y;
    if EqualRunes(u, v) {
      assert forall i :: 0 <= i < |a| ==> a[i] == u[i + 1] && b[i] == v[i + 1];
    }
  }

  lemma FoldEnd(t: bytes)
    ensures FoldEqual([], t) <==> t == []
  {
    if t != [] { RunesOne(t); }
  }

  /** Between ASCII bytes. */
  lemma AsciiClass(sb: byte, tb: byte)
    requires sb < 0x80 && tb < 0x80
    ensures FoldClass(sb) == FoldClass(tb) <==> sb == tb || (IsLetter(sb) && Mask(sb) == Mask(tb))
  {
  }

  /** A rune above ASCII matches only its special letter. */
  lemma HighClass(sb: byte, r: rune)
    requires sb < 0x80 && r >= 0x80
    ensures (FoldClass(sb) == FoldClass(r)) == ((Mask(sb) == 0x53 && r == SMALL_LONG_ESS) || (Mask(sb) == 0x4B && r == KELVIN))
  {
  }

  // ---- The comparators ----

  /** equalFoldRight, which is right for every ASCII key. */
  method EqualFoldRight(s: bytes, t0: bytes) returns (r: bool)
    requires AllAscii(s)
    ensures r <==> FoldEqual(s, t0)
  {
    var t := t0;
    var i := 0;
    assert s[0..] == s;
    while i < |s|
      invariant i <= |s| && (FoldEqual(s, t0) <==> FoldEqual(s[i..], t))
    {
      hide FoldEqual, FoldClass, DecodeRune;
      var sb := s[i];
      assert s[i..][0] == sb && s[i..][1..] == s[i + 1..];
      FoldStep(s[i..], t);
      if t == [] { return false; }
      var tb := t[0];
      RunesOne(t);
      if tb < 0x80 {
        AsciiClass(sb, tb);
        if sb != tb {
          var sbUpper := Mask(sb);
          if 0x41 <= sbUpper <= 0x5A {
            if sbUpper != Mask(tb) { return false; }
          } else {
            return false;
          }
        }
        t := t[1..];
      } else {
        // Only the Kelvin sign and the long s fold to an ASCII letter.
        var (tr, size) := DecodeRune(t);
        HighClass(sb, tr);
        if sb == 0x73 || sb == 0x53 {
          if tr != SMALL_LONG_ESS { return false; }
        } else if sb == 0x6B || sb == 0x4B {
          if tr != KELVIN { return false; }
        } else {
          return false;
        }
        t := t[size..];
      }
      i := i + 1;
    }
    assert s[i..] == [];
    FoldEnd(t);
    r := t == [];
  }

  /** The same byte, or the same letter. */
  predicate SameByte(a: byte, b: byte) {
    a == b || (IsLetter(a) && Mask(a) == Mask(b))
  }

  ghost predicate SameBytes(s: bytes, t: bytes) {
    |s| == |t| && forall i :: 0 <= i < |s| ==> SameByte(s[i], t[i])
  }

  lemma SameCons(s: bytes, t: bytes)
    requires s != [] && t != []
    ensures SameBytes(s, t) <==> SameByte(s[0], t[0]) && SameBytes(s[1..], t[1..])
  {
    hide SameByte;
    if SameByte(s[0], t[0]) && SameBytes(s[1..], t[1..]) {
      assert forall i :: 0 < i < |s| ==> s[i] == s[1..][i - 1] && t[i] == t[1..][i - 1];
    }
  }

  /** A byte above ASCII does not look like a letter under the mask. */
  lemma MaskHigh(sb: byte, tb: byte)
    requires sb < 0x80 && tb >= 0x80
    ensures !SameByte(sb, tb)
  {
  }

  predicate AllPlain(s: bytes) {
    forall i :: 0 <= i < |s| ==> s[i] < 0x80 && !IsSpecial(s[i])
  }

  /** A string without special letters is matched only byte for byte. */
  lemma {:induction false} PlainFold(s: bytes, t: bytes)
    requires AllPlain(s)
    ensures FoldEqual(s, t) <==> SameBytes(s, t)
  {
    if s == [] {
      FoldEnd(t);
    } else {
      FoldStep(s, t);
      if t != [] {
        RunesOne(t);
        if t[0] < 0x80 {
          AsciiClass(s[0], t[0]);
          hide FoldEqual, SameBytes, FoldClass, DecodeRune;
          PlainFold(s[1..], t[1..]);
          SameCons(s, t);
        } else {
          HighClass(s[0], DecodeRune(t).0);
          MaskHigh(s[0], t[0]);
          hide FoldEqual, FoldClass, DecodeRune, SameByte;
        }
      }
    }
  }

  /** asciiEqualFold, for ASCII keys without special letters. */
  method AsciiEqualFold(s: bytes, t: bytes) returns (r: bool)
    requires AllPlain(s)
    ensures r <==> FoldEqual(s, t)
  {
    hide FoldEqual;
    PlainFold(s, t);
    if |s| != |t| { return false; }
    var i := 0;
    while i < |s|
      invariant i <= |s| && forall k :: 0 <= k < i ==> SameByte(s[k], t[k])
    {
      var sb, tb := s[i], t[i];
      i := i + 1;
      if sb == tb { continue; }
      if 0x61 <= sb <= 0x7A || 0x41 <= sb <= 0x5A {
        if Mask(sb) != Mask(tb) { return false; }
      } else {
        return false;
      }
    }
    r := true;
  }

  /** simpleLetterEqualFold, for keys of ASCII letters that are not special. */
  method SimpleLetterEqualFold(s: bytes, t: bytes) returns (r: bool)
    requires AllPlain(s) && forall i :: 0 <= i < |s| ==> IsLetter(s[i])
    ensures r <==> FoldEqual(s, t)
  {
    hide FoldEqual;
    PlainFold(s, t);
    if |s| != |t| { return false; }
    var i := 0;
    while i < |s|
      invariant i <= |s| && forall k :: 0 <= k < i ==> SameByte(s[k], t[k])
    {
      if Mask(s[i]) != Mask(t[i]) { return false; }
      i := i + 1;
    }
    r := true;
  }

  // ---- The choice ----

  datatype Comparator = BytesEqualFold | RightFold | AsciiFold | LetterFold

  /** foldFunc */
  method FoldFunc(s: bytes) returns (f: Comparator)
    ensures f == BytesEqualFold <==> !AllAscii(s)
    ensures f == AsciiFold || f == LetterFold ==> AllPlain(s)
    ensures f == LetterFold ==> forall i :: 0 <= i < |s| ==> IsLetter(s[i])
    ensures f == RightFold ==> exists i :: 0 <= i < |s| && IsSpecial(s[i])
    ensures f == AsciiFold ==> exists i :: 0 <= i < |s| && !IsLetter(s[i])
  {
    var nonLetter, special := false, false;
    var i := 0;
    while i < |s|
      invariant i <= |s| && forall k :: 0 <= k < i ==> s[k] < 0x80
      invariant special <==> exists k :: 0 <= k < i && IsSpecial(s[k])
      invariant nonLetter <==> exists k :: 0 <= k < i && !IsLetter(s[k])
    {
      var b := s[i];
      if b >= 0x80 { return BytesEqualFold; }
      var upper := Mask(b);
      if upper < 0x41 || upper > 0x5A {
        nonLetter := true;
      } else if upper == 0x4B || upper == 0x53 {
        // A rune beyond ASCII folds to k and another to s.
        special := true;
      }
      i := i + 1;
    }
    if special { return RightFold; }
    if nonLetter { return AsciiFold; }
    return LetterFold;
  }

  /** foldFunc(s)(s, t), where `equalFold` stands for bytes.EqualFold: rune by rune for an ASCII key, and left to
      bytes.EqualFold for any other. */
  method Compare(s: bytes, t: bytes, equalFold: (bytes, bytes) -> bool) returns (r: bool)
    ensures r <==> if AllAscii(s) then FoldEqual(s, t) else equalFold(s, t)
  {
    var picked := FoldFunc(s);
    match picked
    case BytesEqualFold => r := equalFold(s, t);
    case RightFold => r := EqualFoldRight(s, t);
    case AsciiFold => r := AsciiEqualFold(s, t);
    case LetterFold => r := SimpleLetterEqualFold(s, t);
  }
}
