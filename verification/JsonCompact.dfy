/** compact: white space between tokens goes, and the characters that HTML or JSONP cannot hold are escaped. */
module JsonCompact {
  import opened Options
  import opened Bytes
  import opened JsonScanner
  import opened JsonLexemes
  import opened JsonGrammar
  import opened JsonParse
  import opened JsonQuoting
  import opened JsonEscape
  import opened JsonTrace
  import JsonMeaning

  // ---- What valid data guarantees on the way ----

  lemma ValidPrefix(data: bytes, i: nat)
    requires Valid(data) && i <= |data|
    ensures !Run(Fresh, data[..i]).err && Run(Fresh, data[..i]).step != Failed
  {
    hide Next;
    var s := Run(Fresh, data[..i]);
    assert data == data[..i] + data[i..];
    RunConcat(Fresh, data[..i], data[i..]);
    if s.step == Failed { ErrorIsFinal(s, data[i..]); }
  }

  /** The states and codes along the data are those of the byte-by-byte run. */
  lemma RunNext(data: bytes, i: nat)
    requires i < |data|
    ensures Run(Fresh, data[..i + 1]) == Next(Run(Fresh, data[..i]), data[i]).0
    ensures Trace(Fresh, data)[i] == Mark(data[i], Next(Run(Fresh, data[..i]), data[i]).1)
  {
    hide Next, Run, Trace;
    RunSnoc(Fresh, data, i);
    TraceAt(Fresh, data, i);
  }

  /** Only inside a string can a byte above ASCII, or an HTML character, be right. */
  lemma InStringOnly(s: Scan, c: byte)
    requires Wf(s) && !Next(s, c).0.err && (c >= 0x80 || IsHtml(c))
    requires s.step.InName? ==> s.step.rest[0] < 0x80 && !IsHtml(s.step.rest[0])
    ensures s.step == InString && Next(s, c) == (s, Continue)
  {
  }

  lemma NameLetters(data: bytes)
    requires !Run(Fresh, data).err && Run(Fresh, data).step.InName?
    ensures var c := Run(Fresh, data).step.rest[0];
            c < 0x80 && !IsHtml(c)
  {
    hide *;
    FreshWf();
    var fs, fo := RunFollows(data);
    FollowsParts(Run(Fresh, data), fs, fo, data);
    NameFocus(Run(Fresh, data), fs, fo);
    LexNameSound(fo.text);
    NameLetter(fo.text, Run(Fresh, data).step.rest);
  }

  lemma NameFocus(s: Scan, fs: seq<Frame>, fo: Focus)
    requires Wf(s) && Matches(s, fs, fo) && s.step.InName?
    ensures fo.Lexing? && LexState(fo.text) == Some(s.step) && s.step.rest != []
  {
    hide LexState;
  }

  lemma NameLetter(front: bytes, rest: bytes)
    requires rest != [] && IsName(front + rest)
    ensures rest[0] < 0x80 && !IsHtml(rest[0])
  {
    assert (front + rest)[|front|] == rest[0];
  }

  lemma InStringNext(s: Scan, c: byte)
    requires Wf(s) && s.step == InString && !Next(s, c).0.err
    ensures Next(s, c).1 == Continue
  {
  }

  /** Valid data does not end inside a string. */
  lemma InStringGoesOn(data: bytes, i: nat)
    requires Valid(data) && i <= |data| && Run(Fresh, data[..i]).step == InString
    ensures i < |data| && Next(Run(Fresh, data[..i]), data[i]).1 == Continue
  {
    hide *;
    FreshWf();
    if i == |data| {
      assert data[..i] == data;
      NotEndInString(data);
    } else {
      ValidPrefix(data, i + 1);
      RunNext(data, i);
      InStringNext(Run(Fresh, data[..i]), data[i]);
    }
  }

  lemma NotEndInString(data: bytes)
    requires Valid(data)
    ensures Run(Fresh, data).step != InString
  {
    hide Run, Next, Spelled, WfFrames, WfFocus, LexState;
    assert data[..|data|] == data;
    ValidPrefix(data, |data|);
    var fs, fo := RunFollows(data);
    ValidCode(data);
    EofEnded(Run(Fresh, data));
  }

  lemma HighByte(data: bytes, i: nat)
    requires Valid(data) && i < |data| && (data[i] >= 0x80 || IsHtml(data[i]))
    ensures Run(Fresh, data[..i]).step == InString && Run(Fresh, data[..i + 1]).step == InString
    ensures Trace(Fresh, data)[i].code == Continue
  {
    hide Next, Run, Trace;
    ValidPrefix(data, i);
    ValidPrefix(data, i + 1);
    RunNext(data, i);
    if Run(Fresh, data[..i]).step.InName? { NameLetters(data[..i]); }
    InStringOnly(Run(Fresh, data[..i]), data[i]);
  }

  // ---- Escaping the significant bytes ----

  lemma KeptStep(data: bytes, i: nat)
    requires i < |data|
    ensures var m := Trace(Fresh, data);
            Kept(m[i..]) == (if IsDropped(m[i].code) then [] else [data[i]]) + Kept(m[i + 1..])
  {
    hide Trace, Run, Next;
    RunNext(data, i);
    var m := Trace(Fresh, data);
    assert m[i..][1..] == m[i + 1..];
  }

  /** In valid data nothing is dropped from within a separator, so it can be seen before or after dropping. */
  lemma UnitKept(data: bytes, i: nat, html: bool)
    requires Valid(data) && i < |data| && !IsDropped(Trace(Fresh, data)[i].code)
    ensures var k := Kept(Trace(Fresh, data)[i..]);
            k != [] && k[0] == data[i] && EscapeUnit(k, html) == EscapeUnit(data[i..], html)
    ensures EscapeUnit(data[i..], html).Some? ==>
      var n := EscapeUnit(data[i..], html).value.1;
      i + n <= |data| && Kept(Trace(Fresh, data)[i..])[n..] == Kept(Trace(Fresh, data)[i + n..])
  {
    hide Trace, Run, Next, Kept, Valid;
    KeptStep(data, i);
    if data[i] == 0xE2 {
      hide EscapeUnit;
      LeadKept(data, i, html);
    } else {
      assert data[i..][0] == data[i];
    }
  }

  /** Inside a string every byte is kept. */
  lemma InStringKept(data: bytes, i: nat)
    requires Valid(data) && i <= |data| && Run(Fresh, data[..i]).step == InString
    ensures i < |data| && Kept(Trace(Fresh, data)[i..]) == [data[i]] + Kept(Trace(Fresh, data)[i + 1..])
  {
    hide Trace, Run, Next, Kept, Valid;
    InStringGoesOn(data, i);
    RunNext(data, i);
    KeptStep(data, i);
  }

  /** The lead byte of a separator. */
  lemma LeadKept(data: bytes, i: nat, html: bool)
    requires Valid(data) && i < |data| && data[i] == 0xE2
    ensures var k := Kept(Trace(Fresh, data)[i..]);
            k != [] && k[0] == data[i] && EscapeUnit(k, html) == EscapeUnit(data[i..], html)
    ensures EscapeUnit(data[i..], html).Some? ==>
      var n := EscapeUnit(data[i..], html).value.1;
      i + n <= |data| && Kept(Trace(Fresh, data)[i..])[n..] == Kept(Trace(Fresh, data)[i + n..])
  {
    hide *;
    FreshWf();
    var m := Trace(Fresh, data);
    HighByte(data, i);
    InStringKept(data, i);
    InStringKept(data, i + 1);
    if data[i + 1] == 0x80 {
      HighByte(data, i + 1);
      InStringKept(data, i + 2);
      SeparatorKept(data[i..], Kept(m[i..]), Kept(m[i + 3..]), html);
    } else {
      NoSeparator(data[i..], Kept(m[i..]), data[i + 1], html);
    }
  }

  lemma SeparatorKept(s: bytes, k: bytes, rest: bytes, html: bool)
    requires |s| >= 3 && k == [s[0]] + ([s[1]] + ([s[2]] + rest)) && s[0] == 0xE2
    ensures EscapeUnit(k, html) == EscapeUnit(s, html) && k[3..] == rest
    ensures EscapeUnit(s, html).Some? ==> EscapeUnit(s, html).value.1 == 3
  {
    assert k[1] == s[1] && k[2] == s[2];
  }

  lemma NoSeparator(s: bytes, k: bytes, c: byte, html: bool)
    requires |s| >= 2 && |k| >= 2 && s[0] == k[0] == 0xE2 && s[1] == k[1] == c && c != 0x80
    ensures EscapeUnit(s, html) == None && EscapeUnit(k, html) == None
  {
  }

  // ---- The loop ----

  /** What compact writes for valid data. */
  function Compacted(src: bytes, escape: bool): bytes {
    Escape(Significant(src), escape)
  }

  /** `out` is due for src[..j], and the rest follows from the bytes that will be kept. */
  predicate DueAt(src: bytes, escape: bool, out: bytes, j: nat) {
    j <= |src| && Compacted(src, escape) == out + Escape(Kept(Trace(Fresh, src)[j..]), escape)
  }

  lemma NoneDue(src: bytes, escape: bool)
    ensures DueAt(src, escape, [], 0)
  {
    var m := Trace(Fresh, src);
    assert m[0..] == m;
    hide Trace, Kept, Escape;
  }

  lemma AllDue(src: bytes, escape: bool, out: bytes)
    requires DueAt(src, escape, out, |src|)
    ensures Compacted(src, escape) == out
  {
    var m := Trace(Fresh, src);
    assert m[|src|..] == [];
    hide Trace;
  }

  lemma DueDropped(src: bytes, escape: bool, out: bytes, i: nat)
    requires i < |src| && DueAt(src, escape, out, i) && IsDropped(Trace(Fresh, src)[i].code)
    ensures DueAt(src, escape, out, i + 1)
  {
    hide Trace, Kept, Escape, Compacted, Run, Next;
    KeptStep(src, i);
    assert [] + Kept(Trace(Fresh, src)[i + 1..]) == Kept(Trace(Fresh, src)[i + 1..]);
  }

  lemma DueUnit(src: bytes, escape: bool, out: bytes, i: nat)
    requires Valid(src) && i < |src| && DueAt(src, escape, out, i) && EscapeUnit(src[i..], escape).Some?
    ensures Trace(Fresh, src)[i].code == Continue
    ensures DueAt(src, escape, out + EscapeUnit(src[i..], escape).value.0, i + EscapeUnit(src[i..], escape).value.1)
  {
    hide Trace, Kept, Valid, Compacted, EscapeUnit, Escape, Run, Next;
    UnitIsHigh(src[i..], escape);
    HighByte(src, i);
    UnitKept(src, i, escape);
    var k := Kept(Trace(Fresh, src)[i..]);
    assert k[0..] == k;
    EscapeStep(Compacted(src, escape), out, k, 0, escape);
  }

  lemma UnitIsHigh(s: bytes, escape: bool)
    requires s != [] && EscapeUnit(s, escape).Some?
    ensures s[0] >= 0x80 || IsHtml(s[0])
  {
  }

  lemma DueByte(src: bytes, escape: bool, out: bytes, i: nat)
    requires Valid(src) && i < |src| && DueAt(src, escape, out, i) && EscapeUnit(src[i..], escape) == None
    requires !IsDropped(Trace(Fresh, src)[i].code)
    ensures DueAt(src, escape, out + [src[i]], i + 1)
  {
    hide Trace, Kept, Valid, Compacted, EscapeUnit, Escape, Run, Next;
    UnitKept(src, i, escape);
    KeptStep(src, i);
    var k := Kept(Trace(Fresh, src)[i..]);
    assert k[0..] == k && k[1..] == Kept(Trace(Fresh, src)[i + 1..]);
    EscapeStep(Compacted(src, escape), out, k, 0, escape);
  }

  /** One turn of the loop, on valid data: `start1` and `buf1` after the rewritings, `code` from the scanner. */
  lemma CompactTurn(src: bytes, escape: bool, buf: bytes, start: nat, i: nat, buf1: bytes, start1: nat, code: Code,
                    buf0: bytes, out: bytes) returns (piece: bytes)
    requires Valid(src) && i < |src| && Copying(buf, src, start, i, buf0 + out) && DueAt(src, escape, out, At(start, i))
    requires EscapeUnit(src[i..], escape) == None ==> start1 == start && buf1 == buf
    requires EscapeUnit(src[i..], escape).Some? ==>
      start1 == i + EscapeUnit(src[i..], escape).value.1 && buf1 == buf + Stretch(src, start, i) + EscapeUnit(src[i..], escape).value.0
    requires code == Trace(Fresh, src)[i].code
    ensures var start', buf' := if IsDropped(code) then i + 1 else start1, if IsDropped(code) then buf1 + Stretch(src, start1, i) else buf1;
            && Copying(buf', src, start', i + 1, buf0 + (out + piece)) && start' <= |src|
            && DueAt(src, escape, out + piece, At(start', i + 1))
  {
    hide EscapeUnit, Escape, Copying, DueAt, Trace, Valid, Stretch;
    piece := [];
    assert out + [] == out;
    if i < start {
      CopyWait(buf, src, start, i, buf0 + out, escape);
      WaitingCode(buf, src, start, i, buf0 + out);
      CopyBound(buf, src, start, i, buf0 + out);
    } else if EscapeUnit(src[i..], escape).Some? {
      DueUnit(src, escape, out, i);
      piece := EscapeUnit(src[i..], escape).value.0;
      CopyUnit(buf, src, start, i, buf0 + out, buf1, escape);
      assert buf0 + out + piece == buf0 + (out + piece);
    } else if IsDropped(code) {
      DueDropped(src, escape, out, i);
      CopyDrop(buf, src, start, i, buf0 + out);
    } else {
      DueByte(src, escape, out, i);
      piece := [src[i]];
      CopyByte(buf, src, start, i, buf0 + out);
      CopyBound(buf, src, start, i, buf0 + out);
      assert buf0 + out + piece == buf0 + (out + piece);
    }
  }

  lemma CopyBound(buf: bytes, src: bytes, start: nat, i: nat, all: bytes)
    requires Copying(buf, src, start, i, all)
    ensures start <= |src|
  {
  }

  lemma CopyDrop(buf: bytes, src: bytes, start: nat, i: nat, all: bytes)
    requires Copying(buf, src, start, i, all) && start <= i < |src|
    ensures Copying(buf + Stretch(src, start, i), src, i + 1, i + 1, all)
  {
  }

  /** The second and third byte of a separator. */
  lemma WaitingCode(buf: bytes, src: bytes, start: nat, i: nat, all: bytes)
    requires Valid(src) && Copying(buf, src, start, i, all) && i < start && i < |src|
    ensures Trace(Fresh, src)[i].code == Continue
  {
    hide *;
    FreshWf();
    WaitingByte(buf, src, start, i, all);
    HighByte(src, i);
  }

  lemma WaitingByte(buf: bytes, src: bytes, start: nat, i: nat, all: bytes)
    requires Copying(buf, src, start, i, all) && i < start && i < |src|
    ensures src[i] >= 0x80
  {
  }

  /** compact: dst is as before if src is not valid. */
  method Compact(dst: Buffer, src: bytes, escape: bool) returns (ok: bool)
    modifies dst
    ensures ok <==> Valid(src)
    ensures dst.buf == if ok then old(dst.buf) + Compacted(src, escape) else old(dst.buf)
  {
    hide *;
    var origLen := |dst.buf|;
    var scan := new Scanner();
    var start: nat, i: nat := 0, 0;
    ghost var out: bytes := [];
    Starts(src, escape, dst.buf);
    while i < |src|
      invariant i <= |src| && scan.Ok() && !scan.redo && scan.View() == Run(Fresh, src[..i])
      invariant old(dst.buf) <= dst.buf && start <= |src|
      invariant Valid(src) ==> Copying(dst.buf, src, start, i, old(dst.buf) + out) && DueAt(src, escape, out, At(start, i))
    {
      ghost var buf := dst.buf;
      var start1 := Rewrite(dst, src, i, start, escape);
      ghost var buf1 := dst.buf;
      var v := scan.Step(src[i]);
      RunNext(src, i);
      ghost var piece := [];
      if Valid(src) {
        piece := CompactTurn(src, escape, buf, start, i, buf1, start1, v, old(dst.buf), out);
      }
      start := start1;
      if IsDropped(v) {
        if v == Error {
          ErrorInvalid(src, i);
          break;
        }
        FlushStretch(dst, src, start, i);
        start := i + 1;
      }
      out := out + piece;
      i := i + 1;
    }
    EofCode(scan.View());
    assert i == |src| ==> src[..i] == src;
    ValidCode(src);
    var code := scan.Eof();
    if code == Error {
      dst.Truncate(origLen);
      return false;
    }
    CopyEnd(dst.buf, src, start, old(dst.buf) + out);
    AllDue(src, escape, out);
    if start < |src| { dst.Write(src[start..]); }
    ok := true;
  }

  method FlushStretch(dst: Buffer, src: bytes, start: nat, i: nat)
    requires i <= |src|
    modifies dst
    ensures dst.buf == old(dst.buf) + Stretch(src, start, i)
  {
    if start < i { dst.Write(src[start..i]); }
  }

  lemma EofCode(s: Scan)
    requires Wf(s)
    ensures AtEof(s).1 == End || AtEof(s).1 == Error
    ensures s.err ==> AtEof(s).1 == Error
  {
  }

  lemma Starts(src: bytes, escape: bool, buf: bytes)
    ensures Copying(buf, src, 0, 0, buf + []) && At(0, 0) == 0 && DueAt(src, escape, [], 0)
    ensures src[..0] == [] && Run(Fresh, src[..0]) == Fresh
  {
    hide DueAt;
    NoneDue(src, escape);
  }
}
