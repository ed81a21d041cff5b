/** HTMLEscape, and the rewriting of bytes that it shares with compact. */
module JsonEscape {
  import opened Options
  import opened Bytes
  import opened JsonScanner
  import opened JsonStrings
  import opened JsonQuoting

  /** '<', '>' and '&' */
  predicate IsHtml(c: byte) {
    c == 0x3C || c == 0x3E || c == 0x26
  }

  /** U+2028 or U+2029 comes first: E2 80 A8 or E2 80 A9. */
  predicate AtSeparator(s: bytes) {
    |s| >= 3 && s[0] == 0xE2 && s[1] == 0x80 && (s[2] == 0xA8 || s[2] == 0xA9)
  }

  /** The escape that replaces the first bytes of `s`, and how many. */
  function EscapeUnit(s: bytes, html: bool): (u: Option<(bytes, nat)>)
    requires s != []
    ensures u.Some? ==> 0 < u.value.1 <= |s|
  {
    if html && IsHtml(s[0]) then Some(([BACKSLASH, 0x75, 0x30, 0x30, HexDigit(s[0] / 16), HexDigit(s[0] % 16)], 1))
    else if AtSeparator(s) then Some(([BACKSLASH, 0x75, 0x32, 0x30, 0x32, HexDigit(s[2] % 16)], 3))
    else None
  }

  function Escape(s: bytes, html: bool): bytes {
    if s == [] then []
    else
      match EscapeUnit(s, html)
      case None => [s[0]] + Escape(s[1..], html)
      case Some((u, n)) => u + Escape(s[n..], html)
  }

  // ---- Escaping twice ----

  /** No byte of an escape is escaped again. */
  predicate IsInert(u: bytes) {
    forall i :: 0 <= i < |u| ==> u[i] < 0x80 && !IsHtml(u[i])
  }

  lemma UnitInert(s: bytes, html: bool)
    requires s != [] && EscapeUnit(s, html).Some?
    ensures IsInert(EscapeUnit(s, html).value.0)
  {
  }

  lemma {:induction false} InertThen(u: bytes, s: bytes, html: bool)
    requires IsInert(u)
    ensures Escape(u + s, html) == u + Escape(s, html)
  {
    if u == [] {
      assert u + s == s;
    } else {
      InertThen(u[1..], s, html);
      assert (u + s)[1..] == u[1..] + s;
      assert EscapeUnit(u + s, html) == None;
      assert u == [u[0]] + u[1..];
    }
  }

  /** Escaping what is escaped does nothing more, except for HTML characters that were left before. */
  lemma {:induction false} EscapeTwice(s: bytes, html: bool, html': bool)
    ensures Escape(Escape(s, html), html') == Escape(s, html || html')
  {
    if s != [] {
      match EscapeUnit(s, html)
      case Some((u, n)) =>
        UnitInert(s, html);
        EscapeTwice(s[n..], html, html');
        InertThen(u, Escape(s[n..], html), html');
        assert EscapeUnit(s, html || html') == Some((u, n));
      case None =>
        EscapeTwice(s[1..], html, html');
        PlainThen(s, html, html');
    }
  }

  /** A byte that the first pass leaves is seen by the second as it was. */
  lemma PlainThen(s: bytes, html: bool, html': bool)
    requires s != [] && EscapeUnit(s, html) == None
    ensures Escape([s[0]] + Escape(s[1..], html), html')
         == if EscapeUnit(s, html || html').Some?
            then EscapeUnit(s, html || html').value.0 + Escape(Escape(s[1..], html), html')
            else [s[0]] + Escape(Escape(s[1..], html), html')
  {
    var t := Escape(s[1..], html);
    var all := [s[0]] + t;
    assert all[1..] == t;
    NotSeparator(s, html);
    hide Escape;
    assert EscapeUnit(all, html') == if html' && IsHtml(s[0]) then EscapeUnit(s, html || html') else None;
    EscapeFirst(all, html');
  }

  lemma EscapeFirst(s: bytes, html: bool)
    requires s != [] && (EscapeUnit(s, html).Some? ==> EscapeUnit(s, html).value.1 == 1)
    ensures Escape(s, html) == (if EscapeUnit(s, html).Some? then EscapeUnit(s, html).value.0 else [s[0]]) + Escape(s[1..], html)
  {
    hide EscapeUnit;
  }

  /** A pass makes no new separators. */
  lemma NotSeparator(s: bytes, html: bool)
    requires s != [] && !AtSeparator(s)
    ensures !AtSeparator([s[0]] + Escape(s[1..], html))
  {
    var t := Escape(s[1..], html);
    var all := [s[0]] + t;
    if AtSeparator(all) {
      assert t[0] == 0x80 && t[1] == all[2];
      FirstByte(s[1..], html);
      var r := Escape(s[2..], html);
      assert s[1..][1..] == s[2..] && t == [s[1]] + r;
      assert r[0] == t[1];
      FirstByte(s[2..], html);
    }
  }

  lemma FirstByte(s: bytes, html: bool)
    requires Escape(s, html) != [] && Escape(s, html)[0] >= 0x80
    ensures s != [] && s[0] == Escape(s, html)[0] && Escape(s, html) == [s[0]] + Escape(s[1..], html)
  {
    UnitFirst(s, html);
  }

  lemma UnitFirst(s: bytes, html: bool)
    ensures s != [] && EscapeUnit(s, html).Some? ==> Escape(s, html) != [] && Escape(s, html)[0] < 0x80
  {
  }

  // ---- Concatenation ----

  /** Nothing is escaped across the border to a part that begins in ASCII. */
  lemma {:induction false} EscapeConcat(a: bytes, b: bytes, html: bool)
    requires b == [] || b[0] < 0x80
    ensures Escape(a + b, html) == Escape(a, html) + Escape(b, html)
  {
    hide *;
    if a == [] {
      assert a + b == b;
      EscapeNone(html);
    } else {
      UnitConcat(a, b, html);
      var n := if EscapeUnit(a, html).Some? then EscapeUnit(a, html).value.1 else 1;
      DropConcat(a, b, n);
      EscapeConcat(a[n..], b, html);
      EscapeUnfold(a, html);
      EscapeUnfold(a + b, html);
    }
  }

  lemma DropConcat(a: bytes, b: bytes, n: nat)
    requires a != [] && n <= |a|
    ensures (a + b)[n..] == a[n..] + b && (a + b)[0] == a[0] && a + b != []
  {
  }

  lemma EscapeNone(html: bool)
    ensures Escape([], html) == []
  {
  }

  lemma EscapeUnfold(s: bytes, html: bool)
    requires s != []
    ensures EscapeUnit(s, html) == None ==> Escape(s, html) == [s[0]] + Escape(s[1..], html)
    ensures EscapeUnit(s, html).Some? ==>
      Escape(s, html) == EscapeUnit(s, html).value.0 + Escape(s[EscapeUnit(s, html).value.1..], html)
  {
    hide EscapeUnit;
  }

  lemma UnitConcat(a: bytes, b: bytes, html: bool)
    requires a != [] && (b == [] || b[0] < 0x80)
    ensures EscapeUnit(a + b, html) == EscapeUnit(a, html)
  {
    var s := a + b;
    assert s[0] == a[0];
    if |a| == 1 && b != [] { assert s[1] == b[0]; }
    if |a| == 2 { assert s[1] == a[1]; }
    if |a| == 2 && b != [] { assert s[2] == b[0]; }
    if |a| > 2 { assert s[1] == a[1] && s[2] == a[2]; }
  }

  // ---- The loop ----

  /** The bytes of src[..i] that wait to be copied; after a separator `start` is ahead of `i`. */
  function Stretch(src: bytes, start: nat, i: nat): bytes
    requires i <= |src|
  {
    if start < i then src[start..i] else []
  }

  /** The two rewritings at src[i]. */
  method Rewrite(dst: Buffer, src: bytes, i: nat, start0: nat, escape: bool) returns (start: nat)
    requires i < |src|
    modifies dst
    ensures EscapeUnit(src[i..], escape) == None ==> start == start0 && dst.buf == old(dst.buf)
    ensures EscapeUnit(src[i..], escape).Some? ==>
      var (u, n) := EscapeUnit(src[i..], escape).value;
      start == i + n && dst.buf == old(dst.buf) + Stretch(src, start0, i) + u
  {
    start := start0;
    var c := src[i];
    if escape && IsHtml(c) {
      if start < i { dst.Write(src[start..i]); }
      dst.Write([BACKSLASH, 0x75, 0x30, 0x30]);
      dst.WriteByte(HexDigit(c / 16));
      dst.WriteByte(HexDigit(c % 16));
      start := i + 1;
    }
    // The two separators differ in the last bit of their three bytes.
    if c == 0xE2 && i + 2 < |src| && src[i + 1] == 0x80 && src[i + 2] / 2 * 2 == 0xA8 {
      if start < i { dst.Write(src[start..i]); }
      dst.Write([BACKSLASH, 0x75, 0x32, 0x30, 0x32]);
      dst.WriteByte(HexDigit(src[i + 2] % 16));
      start := i + 3;
    }
  }

  /** The loop's state at `i`: `out` is due for the bytes before max(start, i), and written but for the stretch. */
  predicate Copying(buf: bytes, src: bytes, start: nat, i: nat, all: bytes) {
    && i <= |src| && start <= |src|
    && buf + Stretch(src, start, i) == all
    && (i < start ==> forall k :: i <= k < start ==> src[k] == 0x80 || src[k] == 0xA8 || src[k] == 0xA9)
  }

  function At(start: nat, i: nat): nat {
    if start < i then i else start
  }

  lemma CopyUnit(buf: bytes, src: bytes, start: nat, i: nat, all: bytes, buf': bytes, html: bool)
    requires Copying(buf, src, start, i, all) && start <= i < |src| && EscapeUnit(src[i..], html).Some?
    requires buf' == buf + Stretch(src, start, i) + EscapeUnit(src[i..], html).value.0
    ensures var (u, n) := EscapeUnit(src[i..], html).value;
            i + n <= |src| && Copying(buf', src, i + n, i + 1, all + u)
  {
    var (u, n) := EscapeUnit(src[i..], html).value;
    if n == 3 { assert src[i + 1] == src[i..][1] && src[i + 2] == src[i..][2]; }
  }

  lemma CopyByte(buf: bytes, src: bytes, start: nat, i: nat, all: bytes)
    requires Copying(buf, src, start, i, all) && start <= i < |src|
    ensures Copying(buf, src, start, i + 1, all + [src[i]])
  {
    assert src[start..i + 1] == src[start..i] + [src[i]];
  }

  lemma CopyWait(buf: bytes, src: bytes, start: nat, i: nat, all: bytes, html: bool)
    requires Copying(buf, src, start, i, all) && i < start
    ensures Copying(buf, src, start, i + 1, all) && EscapeUnit(src[i..], html) == None
  {
    assert src[i..][0] == src[i];
  }

  lemma EscapeStep(whole: bytes, out: bytes, s: bytes, i: nat, html: bool)
    requires i < |s| && whole == out + Escape(s[i..], html)
    ensures EscapeUnit(s[i..], html) == None ==> whole == (out + [s[i]]) + Escape(s[i + 1..], html)
    ensures EscapeUnit(s[i..], html).Some? ==>
      var (u, n) := EscapeUnit(s[i..], html).value;
      i + n <= |s| && whole == (out + u) + Escape(s[i + n..], html)
  {
    assert s[i..][1..] == s[i + 1..];
    if EscapeUnit(s[i..], html).Some? {
      assert s[i..][EscapeUnit(s[i..], html).value.1..] == s[i + EscapeUnit(s[i..], html).value.1..];
    }
    hide EscapeUnit;
  }

  method HTMLEscape(dst: Buffer, src: bytes)
    modifies dst
    ensures dst.buf == old(dst.buf) + Escape(src, true)
  {
    hide *;
    var start: nat, i: nat := 0, 0;
    ghost var out: bytes := [];
    CopyStart(dst.buf, src);
    while i < |src|
      invariant i <= |src| && Copying(dst.buf, src, start, i, old(dst.buf) + out)
      invariant start <= |src| && At(start, i) <= |src| && Escape(src, true) == out + Escape(src[At(start, i)..], true)
    {
      ghost var buf := dst.buf;
      ghost var unit := EscapeUnit(src[i..], true);
      var start' := Rewrite(dst, src, i, start, true);
      ghost var piece := EscapeTurn(buf, dst.buf, src, start, i, start', old(dst.buf), out);
      out := out + piece;
      start := start';
      i := i + 1;
    }
    CopyEnd(dst.buf, src, start, old(dst.buf) + out);
    NoneLeft(src, At(start, i), out);
    if start < |src| { dst.Write(src[start..]); }
  }

  lemma CopyStart(buf: bytes, src: bytes)
    ensures Copying(buf, src, 0, 0, buf + []) && At(0, 0) == 0 && src[0..] == src
  {
  }

  lemma CopyEnd(buf: bytes, src: bytes, start: nat, all: bytes)
    requires Copying(buf, src, start, |src|, all)
    ensures At(start, |src|) == |src| && (if start < |src| then buf + src[start..] else buf) == all
  {
    assert src[start..|src|] == src[start..];
  }

  lemma NoneLeft(src: bytes, j: nat, out: bytes)
    requires j == |src|
    ensures out + Escape(src[j..], true) == out
  {
  }

  /** One turn of HTMLEscape's loop. */
  lemma EscapeTurn(buf: bytes, buf': bytes, src: bytes, start: nat, i: nat, start': nat, buf0: bytes, out: bytes) returns (piece: bytes)
    requires i < |src| && Copying(buf, src, start, i, buf0 + out)
    requires At(start, i) <= |src| && Escape(src, true) == out + Escape(src[At(start, i)..], true)
    requires EscapeUnit(src[i..], true) == None ==> start' == start && buf' == buf
    requires EscapeUnit(src[i..], true).Some? ==>
      start' == i + EscapeUnit(src[i..], true).value.1 && buf' == buf + Stretch(src, start, i) + EscapeUnit(src[i..], true).value.0
    ensures Copying(buf', src, start', i + 1, buf0 + (out + piece))
    ensures start' <= |src| && At(start', i + 1) <= |src|
    ensures Escape(src, true) == (out + piece) + Escape(src[At(start', i + 1)..], true)
  {
    hide EscapeUnit, Escape, Stretch, Copying;
    if i < start {
      piece := [];
      CopyWait(buf, src, start, i, buf0 + out, true);
      assert out + [] == out;
    } else {
      EscapeStep(Escape(src, true), out, src, i, true);
      if EscapeUnit(src[i..], true).Some? {
        piece := EscapeUnit(src[i..], true).value.0;
        CopyUnit(buf, src, start, i, buf0 + out, buf', true);
      } else {
        piece := [src[i]];
        CopyByte(buf, src, start, i, buf0 + out);
      }
      assert buf0 + out + piece == buf0 + (out + piece);
    }
  }
}
