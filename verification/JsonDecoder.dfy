/**
 The recursive decoder that shares one scanner between all its levels and backs up one byte at a time,
 proved to return what the text denotes.
 */
module JsonDecoder {
  import opened Options
  import opened Bytes
  import opened JsonScanner
  import opened JsonLexemes
  import opened JsonGrammar
  import opened JsonParse
  import opened JsonStrings
  import opened JsonMeaning
  import opened JsonFront
  import JsonQuoting
  import JsonNumber
  import JsonUnique

  // ---- What the scanner says next ----

  /** The result of reading one byte of `rest`, or its end. */
  function NextOf(q: Scan, rest: bytes): (Scan, Code)
    requires Wf(q)
  {
    if rest == [] then AtEof(q) else Next(q, rest[0])
  }

  /** What may come after a value under `stack`: nothing that goes on with a number, and the end only at the top. */
  predicate MayFollow(stack: seq<Parse>, rest: bytes) {
    if rest == [] then stack == [] else !GoesOn(rest[0])
  }

  /** From `s` to `s'` the bytes `skip` all get the code `op`. */
  predicate Skips(s: Scan, skip: bytes, op: Code, s': Scan)
    requires Wf(s)
    decreases |skip|
  {
    if skip == [] then s == s'
    else Next(s, skip[0]).1 == op && Skips(Next(s, skip[0]).0, skip[1..], op, s')
  }

  lemma SkipOne(s: Scan, left: bytes, op: Code, q: Scan, rest: bytes)
    requires Wf(s) && Skips(s, left, op, q)
    ensures left == [] ==> s == q && left + rest == rest
    ensures left != [] ==>
      && NextOf(s, left + rest) == Next(s, left[0]) && Next(s, left[0]).1 == op
      && Skips(Next(s, left[0]).0, left[1..], op, q)
      && (left + rest)[0] == left[0] && (left + rest)[1..] == left[1..] + rest
  {
    hide *;
    if left == [] {
      SkipsNil(s, left, op, q);
    } else {
      SkipsFront(s, left, op, q);
      NextOfFront(s, left + rest);
    }
  }

  lemma SkipsNil(s: Scan, left: bytes, op: Code, q: Scan)
    requires Wf(s) && left == [] && Skips(s, left, op, q)
    ensures s == q
  {
  }

  lemma SkipsFront(s: Scan, left: bytes, op: Code, q: Scan)
    requires Wf(s) && left != [] && Skips(s, left, op, q)
    ensures Next(s, left[0]).1 == op && Skips(Next(s, left[0]).0, left[1..], op, q)
  {
    hide Next;
  }

  lemma NextOfFront(q: Scan, rest: bytes)
    requires Wf(q) && rest != []
    ensures NextOf(q, rest) == Next(q, rest[0])
  {
  }

  lemma {:induction false} PlaysSkips(s: Scan, skip: bytes, op: Code, s': Scan)
    requires Plays(s, All(skip, op), s')
    ensures Skips(s, skip, op, s')
    decreases |skip|
  {
    hide *;
    PlaysNone(s, All(skip, op), s');
    if skip == [] {
      SkipsNone(s, op);
    } else {
      AllCons(skip, op);
      PlaysTail(s, Mark(skip[0], op), All(skip[1..], op), s');
      PlaysSkips(Next(s, skip[0]).0, skip[1..], op, s');
      SkipsCons(s, skip, op, s');
    }
  }

  lemma PlaysNone(s: Scan, m: seq<Mark>, s': Scan)
    requires Plays(s, m, s')
    ensures Wf(s) && (m == [] ==> s == s')
  {
    hide Wf;
  }

  lemma SkipsNone(s: Scan, op: Code)
    requires Wf(s)
    ensures Skips(s, [], op, s) && All([], op) == []
  {
  }

  lemma AllCons(skip: bytes, op: Code)
    requires skip != []
    ensures All(skip, op) == [Mark(skip[0], op)] + All(skip[1..], op)
  {
  }

  lemma SkipsCons(s: Scan, skip: bytes, op: Code, s': Scan)
    requires Wf(s) && skip != [] && Next(s, skip[0]).1 == op && Skips(Next(s, skip[0]).0, skip[1..], op, s')
    ensures Skips(s, skip, op, s')
  {
    hide Next;
  }

  /** The rest of a lexeme, once its first byte is read. */
  lemma LexemeTailPlays(s: Scan, text: bytes)
    requires Wf(s) && LexState(text).Some? && AtLexeme(s, text[0])
    ensures Next(s, text[0]).1 == BeginLiteral
    ensures Plays(Next(s, text[0]).0, All(text[1..], Continue), s.(step := LexState(text).value))
  {
    LexemePlays(s, text);
    LexFirst(text);
    PlaysTail(s, Mark(text[0], BeginLiteral), All(text[1..], Continue), s.(step := LexState(text).value));
  }

  lemma {:induction false} PlaysTail(s: Scan, a: Mark, b: seq<Mark>, s': Scan)
    requires Plays(s, [a] + b, s')
    ensures Next(s, a.c).1 == a.code && Plays(Next(s, a.c).0, b, s')
    decreases |b|
  {
    hide *;
    PlaysNone(s, [a] + b, s');
    if b == [] {
      PlaysSingle(s, a, b, s');
    } else {
      var n := |b| - 1;
      var s0 := PlaysInit(s, [a] + b, s');
      assert ([a] + b)[..n + 1] == [a] + b[..n];
      PlaysTail(s, a, b[..n], s0);
      PlaysThen(Next(s, a.c).0, b[..n], s0, b[n].c, b[n].code, s');
      MarkSnoc(b);
    }
  }

  lemma PlaysSingle(s: Scan, a: Mark, b: seq<Mark>, s': Scan)
    requires b == [] && Plays(s, [a] + b, s')
    ensures Next(s, a.c) == (s', a.code) && Plays(s', b, s')
  {
    hide Next;
    var m := [a] + b;
    assert m[..|m| - 1] == [] && Play(s, m[..|m| - 1]) == (s, true);
    assert m[|m| - 1] == a;
  }

  lemma PlaysInit(s: Scan, m: seq<Mark>, s': Scan) returns (s0: Scan)
    requires m != [] && Plays(s, m, s')
    ensures Plays(s, m[..|m| - 1], s0) && Wf(s0) && Next(s0, m[|m| - 1].c) == (s', m[|m| - 1].code)
  {
    hide Next;
    s0 := Play(s, m[..|m| - 1]).0;
  }

  lemma MarkSnoc(b: seq<Mark>)
    requires b != []
    ensures b == b[..|b| - 1] + [Mark(b[|b| - 1].c, b[|b| - 1].code)]
  {
  }

  /** A scalar ends where something else may follow. */
  lemma AfterScalar(v: Val, stack: seq<Parse>, rest: bytes)
    requires Ended(EndOf(v, stack), stack) && MayFollow(stack, rest)
    ensures Wf(EndOf(v, stack))
    ensures NextOf(EndOf(v, stack), rest).1 != Continue && Wf(NextOf(EndOf(v, stack), rest).0)
  {
    var e := EndOf(v, stack);
    if rest == [] {
      EofEnded(e);
    } else {
      EndedNext(e, stack, rest[0]);
    }
  }

  // ---- Arrays and objects, from the part that is still to be read ----

  function Within(stack: seq<Parse>, p: Parse, step: Step): Scan {
    Scan(step, stack + [p], false, false)
  }

  /** The state in which the byte after a value, and after the white space that follows it, is read. */
  function AfterSpace(v: Val, stack: seq<Parse>, after: bytes): Scan {
    if after == [] then EndOf(v, stack) else Scan(EndValue, stack, false, false)
  }

  lemma BeforeValue(p: Scan, stack: seq<Parse>, before: bytes, v: Val)
    requires AtValue(p, stack) && AllSpace(before) && WfVal(v)
    ensures Wf(p) && Skips(p, before, SkipSpace, p) && Text(v) != []
    ensures Next(p, Text(v)[0]).1 == if v.Lit? then BeginLiteral else if v.Arr? then BeginArray else BeginObject
    ensures Wf(Next(p, Text(v)[0]).0)
    ensures v.Arr? ==> Text(v)[0] == LBRACK && Next(p, LBRACK).0 == Within(stack, ArrayValue, BeginValueOrEmpty)
    ensures v.Obj? ==> Text(v)[0] == LBRACE && Next(p, LBRACE).0 == Within(stack, ObjectKey, BeginStringOrEmpty)
  {
    SpacesPlay(p, before);
    PlaysSkips(p, before, SkipSpace, p);
    hide Skips, LexState;
    if v.Lit? {
      ScalarIff(v.text);
      LexFirst(v.text);
      LexemeTailPlays(p, v.text);
      hide Next;
    }
  }

  lemma AfterValue(v: Val, stack: seq<Parse>, after: bytes, c: byte)
    requires WfVal(v) && stack != [] && AllSpace(after) && IsSeparator(c)
    ensures Wf(EndOf(v, stack)) && Skips(EndOf(v, stack), after, SkipSpace, AfterSpace(v, stack, after))
    ensures Wf(AfterSpace(v, stack, after)) && Ended(AfterSpace(v, stack, after), stack)
    ensures Next(AfterSpace(v, stack, after), c) == NextEndValue(Scan(EndValue, stack, false, false), c)
  {
    var s := Scan(BeginValue, stack, false, false);
    ValPlays(s, stack, v);
    AfterPlays(EndOf(v, stack), stack, after);
    hide Next, EndOf, LexState;
    PlaysSkips(EndOf(v, stack), after, SkipSpace, AfterSpace(v, stack, after));
    EndedNext(AfterSpace(v, stack, after), stack, c);
  }

  /** The look-ahead in an array: the bracket of an empty one, or the next element. */
  lemma ArrayAhead(cur: Scan, stack: seq<Parse>, v: Val, k: nat, rest: bytes) returns (space: bytes, next: bytes)
    requires v.Arr? && WfVal(v) && k <= |v.elems| && (v.elems != [] ==> k < |v.elems|)
    requires cur == Within(stack, ArrayValue, if k == 0 then BeginValueOrEmpty else BeginValue)
    ensures ArrayRest(v.gap, v.elems[k..]) + rest == space + next && next != []
    ensures Wf(cur) && Skips(cur, space, SkipSpace, cur)
    ensures NextOf(cur, next) == Next(cur, next[0]) && NextOf(cur, next).1 != SkipSpace && Wf(NextOf(cur, next).0)
    ensures v.elems == [] ==> NextOf(cur, next) == (Closed(stack), EndArray) && next[1..] == rest
    ensures v.elems != [] ==>
      var es := v.elems[k..];
      && NextOf(cur, next).1 != EndArray
      && next == [] + (Text(es[0].val) + (es[0].after + ([AfterElem(es)] + ArrayTail(v.gap, es, rest))))
  {
    var es := v.elems[k..];
    if v.elems == [] {
      space, next := v.gap, [RBRACK] + rest;
      assert es == [] && v.gap + [RBRACK] + rest == space + next;
      SpacesPlay(cur, space);
      PlaysSkips(cur, space, SkipSpace, cur);
      CloseNext(cur, stack, RBRACK, EndArray);
    } else {
      assert WfElem(es[0]);
      hide WfVal, Text, ArrayRest, ArrayTail, Next, Skips;
      space, next := es[0].before, Text(es[0].val) + (es[0].after + ([AfterElem(es)] + ArrayTail(v.gap, es, rest)));
      ArraySplit(v.gap, es, rest);
      BeforeValue(cur, stack + [ArrayValue], space, es[0].val);
      assert next == [] + next && next[0] == Text(es[0].val)[0];
    }
  }

  lemma ArrayOpened(p: Scan, stack: seq<Parse>, v: Val, rest: bytes)
    requires v.Arr? && AtValue(p, stack)
    ensures Text(v) + rest != [] && (Text(v) + rest)[0] == LBRACK
    ensures (Text(v) + rest)[1..] == ArrayRest(v.gap, v.elems) + rest
    ensures Next(p, LBRACK).0 == Within(stack, ArrayValue, BeginValueOrEmpty)
    ensures EndOf(v, stack) == Closed(stack)
  {
    ArrayText(v);
    hide Text, ArrayRest;
  }

  lemma ArrayDenotes(v: Val, items: seq<Json>)
    requires v.Arr? && |items| == |v.elems| && forall i :: 0 <= i < |items| ==> items[i] == Denote(v.elems[i].val)
    ensures Denote(v) == List(items)
  {
  }

  lemma ObjectOpened(p: Scan, stack: seq<Parse>, v: Val, rest: bytes)
    requires v.Obj? && AtValue(p, stack)
    ensures Text(v) + rest != [] && (Text(v) + rest)[0] == LBRACE
    ensures (Text(v) + rest)[1..] == ObjectRest(v.gap, v.members) + rest
    ensures Next(p, LBRACE).0 == Within(stack, ObjectKey, BeginStringOrEmpty)
    ensures EndOf(v, stack) == Closed(stack)
  {
    ObjectText(v);
    hide Text, ObjectRest;
  }

  /** What the scanner says at the separator after a member. */
  lemma AfterMemberNext(stack: seq<Parse>, ms: seq<Member>)
    requires ms != []
    ensures NextEndValue(Within(stack, ObjectValue, EndValue), AfterMember(ms))
         == if |ms| == 1 then (Closed(stack), EndObject) else (Within(stack, ObjectKey, BeginString), GotValue)
  {
    assert (stack + [ObjectValue])[..|stack|] == stack;
    assert (stack + [ObjectValue])[|stack| := ObjectKey] == stack + [ObjectKey];
  }

  lemma BeforeKey(cur: Scan, stack: seq<Parse>, before: bytes, key: bytes)
    requires AtKey(cur, stack) && AllSpace(before) && IsString(key)
    ensures Wf(cur) && Skips(cur, before, SkipSpace, cur)
    ensures Next(cur, key[0]).1 == BeginLiteral && Wf(Next(cur, key[0]).0)
    ensures Skips(Next(cur, key[0]).0, key[1..], Continue, Within(stack, ObjectKey, EndValue))
  {
    SpacesPlay(cur, before);
    StringRuns(key);
    LexemeTailPlays(cur, key);
    hide IsString, LexState, Next, Skips;
    PlaysSkips(cur, before, SkipSpace, cur);
    PlaysSkips(Next(cur, key[0]).0, key[1..], Continue, Within(stack, ObjectKey, EndValue));
  }

  lemma AfterKey(stack: seq<Parse>, mid: bytes)
    requires AllSpace(mid)
    ensures var q := Within(stack, ObjectKey, EndValue);
            && Wf(q) && Next(q, COLON) == (Within(stack, ObjectValue, BeginValue), GotKey)
            && (mid != [] ==> Next(q, mid[0]) == (q, SkipSpace) && Skips(q, mid[1..], SkipSpace, q))
  {
    var q := Within(stack, ObjectKey, EndValue);
    assert (stack + [ObjectKey])[|stack| := ObjectValue] == stack + [ObjectValue];
    if mid != [] {
      SpacesPlay(q, mid[1..]);
      PlaysSkips(q, mid[1..], SkipSpace, q);
    }
  }

  /** The look-ahead in an object: the brace of an empty one, or the next key. */
  lemma ObjectAhead(cur: Scan, stack: seq<Parse>, v: Val, k: nat, rest: bytes) returns (space: bytes, next: bytes)
    requires v.Obj? && WfVal(v) && k <= |v.members| && (v.members != [] ==> k < |v.members|)
    requires cur == Within(stack, ObjectKey, if k == 0 then BeginStringOrEmpty else BeginString)
    ensures ObjectRest(v.gap, v.members[k..]) + rest == space + next && next != []
    ensures Wf(cur) && Skips(cur, space, SkipSpace, cur)
    ensures NextOf(cur, next) == Next(cur, next[0]) && NextOf(cur, next).1 != SkipSpace && Wf(NextOf(cur, next).0)
    ensures v.members == [] ==> NextOf(cur, next) == (Closed(stack), EndObject) && next[1..] == rest
    ensures v.members != [] ==>
      var ms := v.members[k..];
      NextOf(cur, next).1 == BeginLiteral && next == KeyPart(ms[0], ValuePart(v.gap, ms, rest))
  {
    var ms := v.members[k..];
    if v.members == [] {
      space, next := v.gap, [RBRACE] + rest;
      assert ms == [] && v.gap + [RBRACE] + rest == space + next;
      SpacesPlay(cur, space);
      PlaysSkips(cur, space, SkipSpace, cur);
      CloseNext(cur, stack, RBRACE, EndObject);
    } else {
      assert WfMember(ms[0]);
      space, next := ms[0].before, KeyPart(ms[0], ValuePart(v.gap, ms, rest));
      KeyFirst(ms[0], ValuePart(v.gap, ms, rest));
      hide WfVal, IsString, ObjectRest, Next, Skips, KeyPart;
      ObjectSplit(v.gap, ms, rest);
      BeforeKey(cur, stack, space, ms[0].key);
    }
  }

  /** The rest of a key, up to its closing quotation mark. */
  lemma KeyStart(cur: Scan, stack: seq<Parse>, m: Member, after: bytes) returns (first: Scan)
    requires AtKey(cur, stack) && WfMember(m)
    ensures Wf(cur) && m.key != [] && m.key + after != [] && (m.key + after)[1..] == m.key[1..] + after
    ensures first == Next(cur, (m.key + after)[0]).0 && Wf(first)
    ensures var q := Within(stack, ObjectKey, EndValue); Wf(q) && Skips(first, m.key[1..], Continue, q)
    ensures Unquote(m.key) == Some(StringOf(m.key))
  {
    StringFirst(m.key);
    BeforeKey(cur, stack, [], m.key);
    KeyUnquotes(m.key);
    hide Next, Skips, IsString, WfVal, Unquote, StringOf;
    Front(m.key, after);
    first := Next(cur, m.key[0]).0;
  }

  /** What is met from the end of a key to the colon after it. */
  lemma KeyEnd(stack: seq<Parse>, m: Member, valuePart: bytes)
    requires WfMember(m)
    ensures var q, colon := Within(stack, ObjectKey, EndValue), [COLON] + valuePart;
            var after, next := m.mid + colon, (Within(stack, ObjectValue, BeginValue), GotKey);
            && KeyPart(m, valuePart) == m.key + after && after != [] && Wf(q)
            && NextOf(q, after) == Next(q, after[0]) && NextOf(q, after).1 != Continue && Wf(NextOf(q, after).0)
            && (if m.mid == [] then Next(q, after[0]) == next && after[1..] == valuePart
                else Next(q, after[0]) == (q, SkipSpace) && after[1..] == m.mid[1..] + colon && Skips(q, m.mid[1..], SkipSpace, q))
            && colon != [] && NextOf(q, colon) == Next(q, colon[0]) == next && colon[1..] == valuePart
            && Wf(next.0)
  {
    AfterKey(stack, m.mid);
    hide Next, Skips, IsString, WfVal;
    Front([COLON], valuePart);
    if m.mid == [] {
      assert m.mid + ([COLON] + valuePart) == [COLON] + valuePart;
    } else {
      Front(m.mid, [COLON] + valuePart);
    }
  }

  lemma KeyUnquotes(key: bytes)
    requires IsString(key)
    ensures Unquote(key) == Some(StringOf(key))
  {
    UnquoteIff(key);
  }

  lemma KeyFirst(m: Member, valuePart: bytes)
    requires IsString(m.key)
    ensures KeyPart(m, valuePart) != [] && KeyPart(m, valuePart)[0] == m.key[0]
  {
  }

  lemma NoEntries(ms: seq<Member>)
    ensures Entries(ms[..0]) == map[] && ms[..|ms|] == ms
  {
  }

  lemma MoreEntries(ms: seq<Member>, k: nat)
    requires k < |ms|
    ensures Entries(ms[..k + 1]) == Entries(ms[..k])[StringOf(ms[k].key) := Denote(ms[k].val)]
  {
    assert ms[..k + 1][..k] == ms[..k];
    hide StringOf, Denote;
  }

  lemma ObjectDenotes(v: Val)
    requires v.Obj?
    ensures Denote(v) == Dict(Entries(v.members))
  {
  }

  lemma SeparatorFollows(stack: seq<Parse>, after: bytes, c: byte, tail: bytes)
    requires AllSpace(after) && IsSeparator(c)
    ensures MayFollow(stack, after + ([c] + tail))
    ensures ([c] + tail)[0] == c && ([c] + tail)[1..] == tail
  {
    var rest := after + ([c] + tail);
    assert rest[0] == if after == [] then c else after[0];
  }

  lemma SeparatorNext(q: Scan, stack: seq<Parse>, c: byte, tail: bytes)
    requires Wf(q) && IsSeparator(c) && stack != []
    requires Next(q, c) == NextEndValue(Scan(EndValue, stack, false, false), c)
    ensures NextOf(q, [c] + tail) == Next(q, c) && NextOf(q, [c] + tail).1 != SkipSpace && Wf(Next(q, c).0)
  {
    hide Next;
  }

  /** What the scanner says at the separator after an element. */
  lemma AfterElemNext(stack: seq<Parse>, es: seq<Elem>)
    requires es != []
    ensures NextEndValue(Within(stack, ArrayValue, EndValue), AfterElem(es))
         == if |es| == 1 then (Closed(stack), EndArray) else (Within(stack, ArrayValue, BeginValue), GotElement)
  {
    assert (stack + [ArrayValue])[..|stack|] == stack;
  }

  class DecodeState {
    var data: bytes
    var off: nat
    const scan: Scanner

    /** The scanner is in state `p` and data[off..] is `rest`; or the byte before is yet to be read again. */
    ghost predicate Ready(p: Scan, rest: bytes)
      reads this, scan
    {
      && scan.Ok() && Wf(p)
      && off <= |data| && data[off..] == rest
      && if scan.redo then (scan.Behind(), scan.redoCode) == NextOf(p, rest) else scan.View() == p
    }

    /** One byte of `rest`, or its end, has just been read in state `q`. */
    ghost predicate Read(q: Scan, rest: bytes, code: Code)
      reads this, scan
    {
      && scan.Ok() && !scan.redo && Wf(q)
      && 1 <= off <= |data| + 1 && data[off - 1..] == rest
      && (scan.View(), code) == NextOf(q, rest)
    }

    constructor (data: bytes)
      ensures this.data == data && off == 0 && fresh(scan) && Ready(Fresh, data)
    {
      this.data, off := data, 0;
      scan := new Scanner();
      new;
      assert data[0..] == data;
    }

    /** One turn of scanWhile's loop. */
    method ReadCode(ghost p: Scan, ghost rest: bytes) returns (code: Code)
      requires Ready(p, rest) && (scan.redo ==> rest != []) && Wf(NextOf(p, rest).0)
      modifies this`off, scan
      ensures Read(p, rest, code) && code == NextOf(p, rest).1
      ensures off == old(off) + 1
    {
      hide Next, AtEof;
      if off >= |data| {
        code := scan.Eof();
        off := |data| + 1; // the end has been read too
      } else {
        var c := data[off];
        assert c == rest[0];
        off := off + 1;
        code := scan.Step(c);
      }
    }

    /** scanWhile: past the bytes `skip`, which all get the code `op`, and one more. */
    method ScanWhile(op: Code, ghost p: Scan, ghost skip: bytes, ghost q: Scan, ghost rest: bytes) returns (newOp: Code)
      requires Ready(p, skip + rest) && (scan.redo ==> skip + rest != [])
      requires Skips(p, skip, op, q) && Wf(q)
      requires NextOf(q, rest).1 != op && Wf(NextOf(q, rest).0)
      modifies this`off, scan
      ensures Read(q, rest, newOp)
      ensures off == old(off) + |skip| + 1
    {
      assert Wf(p);
      hide Next, AtEof, Ready, Read, Wf, NextOf, Skips;
      ghost var s, left := p, skip;
      while true
        invariant Wf(s) && Skips(s, left, op, q)
        invariant Ready(s, left + rest) && (scan.redo ==> left + rest != [])
        invariant off + |left| == old(off) + |skip|
        decreases |left|
      {
        SkipOne(s, left, op, q, rest);
        newOp := ReadCode(s, left + rest);
        if newOp != op {
          break;
        }
        Onward(s, left + rest, newOp);
        s, left := Next(s, left[0]).0, left[1..];
      }
    }

    lemma Onward(q: Scan, rest: bytes, code: Code)
      requires Read(q, rest, code) && rest != []
      ensures Ready(Next(q, rest[0]).0, rest[1..]) && !scan.redo && code == Next(q, rest[0]).1
    {
      hide Next;
      assert data[off..] == data[off - 1..][1..];
    }

    /** One byte back: the scanner will give the same code again. */
    method BackUp(op: Code, ghost q: Scan, ghost rest: bytes)
      requires Read(q, rest, op)
      modifies this`off, scan
      ensures Ready(q, rest) && off == old(off) - 1
    {
      off := off - 1;
      scan.Undo(op);
    }

    /** literalInterface: the first byte has been read. */
    method LiteralInterface(ghost p: Scan, ghost stack: seq<Parse>, ghost v: Val, ghost rest: bytes) returns (r: Json)
      requires v.Lit? && WfVal(v) && AtValue(p, stack) && MayFollow(stack, rest)
      requires Read(p, v.text + rest, BeginLiteral)
      modifies this`off, scan
      ensures Ready(EndOf(v, stack), rest)
      ensures r == Denote(v)
    {
      hide *;
      ghost var first := LiteralFacts(p, stack, v, rest);
      Front(v.text, rest);
      var start := ReadAt(p, v.text + rest, BeginLiteral);
      Onward(p, v.text + rest, BeginLiteral);
      var op := ScanWhile(Continue, first, v.text[1..], EndOf(v, stack), rest);

      // The byte that ended the literal belongs to what follows.
      BackUp(op, EndOf(v, stack), rest);
      Cut(data, start, v.text, rest);
      var item := data[start..off];

      r := LiteralValue(item, v);
    }

    method ValueInterface(ghost p: Scan, ghost stack: seq<Parse>, ghost lead: bytes, ghost v: Val, ghost rest: bytes)
      returns (r: Json)
      requires AtValue(p, stack) && AllSpace(lead) && WfVal(v) && MayFollow(stack, rest)
      requires Ready(p, lead + (Text(v) + rest))
      modifies this`off, scan
      ensures Ready(EndOf(v, stack), rest)
      ensures r == Denote(v)
      decreases v, 1
    {
      hide *;
      BeforeValue(p, stack, lead, v);
      NotAtEnd(lead, Text(v), rest);
      AtBegin(p, v, rest);
      var op := ScanWhile(SkipSpace, p, lead, p, Text(v) + rest);
      Onward(p, Text(v) + rest, op);
      if op == BeginArray {
        r := ArrayInterface(p, stack, v, rest);
      } else if op == BeginObject {
        r := ObjectInterface(p, stack, v, rest);
      } else if op == BeginLiteral {
        r := LiteralInterface(p, stack, v, rest);
      } else {
        assert false; // errPhase
      }
    }

    /** A value in an array or object, and the separator after it. */
    method ValueThenSeparator(ghost p: Scan, ghost stack: seq<Parse>, ghost lead: bytes, ghost v: Val, ghost after: bytes,
                              ghost c: byte, ghost tail: bytes) returns (r: Json, op: Code)
      requires AtValue(p, stack) && stack != [] && AllSpace(lead) && WfVal(v) && AllSpace(after) && IsSeparator(c)
      requires Ready(p, lead + (Text(v) + (after + ([c] + tail))))
      modifies this`off, scan
      ensures Wf(AfterSpace(v, stack, after)) && Read(AfterSpace(v, stack, after), [c] + tail, op)
      ensures Next(AfterSpace(v, stack, after), c) == NextEndValue(Scan(EndValue, stack, false, false), c)
      ensures op == NextEndValue(Scan(EndValue, stack, false, false), c).1
      ensures r == Denote(v)
      decreases v, 2
    {
      ghost var q := AfterSpace(v, stack, after);
      SeparatorFollows(stack, after, c, tail);
      AfterValue(v, stack, after, c);
      SeparatorNext(q, stack, c, tail);
      hide *;
      r := ValueInterface(p, stack, lead, v, after + ([c] + tail));
      op := ScanWhile(SkipSpace, EndOf(v, stack), after, q, [c] + tail);
      CodeRead(q, [c] + tail, op);
    }

    lemma CodeRead(q: Scan, rest: bytes, code: Code)
      requires Read(q, rest, code)
      ensures code == NextOf(q, rest).1
    {
    }

    lemma ArrayBegins(p: Scan, stack: seq<Parse>, v: Val, rest: bytes)
      requires v.Arr? && AtValue(p, stack) && Read(p, Text(v) + rest, BeginArray)
      ensures Ready(Within(stack, ArrayValue, BeginValueOrEmpty), ArrayRest(v.gap, v.elems[0..]) + rest) && !scan.redo
      ensures EndOf(v, stack) == Closed(stack)
    {
      ArrayOpened(p, stack, v, rest);
      Onward(p, Text(v) + rest, BeginArray);
      assert v.elems[0..] == v.elems;
    }

    /** An element and the bracket or comma after it. */
    method ArrayItem(ghost cur: Scan, ghost stack: seq<Parse>, ghost v: Val, ghost k: nat, ghost rest: bytes)
      returns (item: Json, op: Code)
      requires v.Arr? && WfVal(v) && k < |v.elems|
      requires cur == Within(stack, ArrayValue, if k == 0 then BeginValueOrEmpty else BeginValue)
      requires var es := v.elems[k..];
               Ready(cur, [] + (Text(es[0].val) + (es[0].after + ([AfterElem(es)] + ArrayTail(v.gap, es, rest)))))
      modifies this`off, scan
      ensures item == Denote(v.elems[k].val) && !scan.redo
      ensures if k + 1 == |v.elems| then op == EndArray && Ready(Closed(stack), rest)
              else op == GotElement && Ready(Within(stack, ArrayValue, BeginValue), ArrayRest(v.gap, v.elems[k + 1..]) + rest)
      decreases v, 0, 0
    {
      ghost var es := v.elems[k..];
      assert WfElem(es[0]);
      assert es[1..] == v.elems[k + 1..];
      ghost var c, tail := AfterElem(es), ArrayTail(v.gap, es, rest);
      AfterElemNext(stack, es);
      Front([c], tail);
      hide *;
      item, op := ValueThenSeparator(cur, stack + [ArrayValue], [], v.elems[k].val, es[0].after, c, tail);
      Onward(AfterSpace(es[0].val, stack + [ArrayValue], es[0].after), [c] + tail, op);
    }

    /** arrayInterface: the opening bracket has been read. */
    method ArrayInterface(ghost p: Scan, ghost stack: seq<Parse>, ghost v: Val, ghost rest: bytes) returns (r: Json)
      requires v.Arr? && WfVal(v) && AtValue(p, stack)
      requires Read(p, Text(v) + rest, BeginArray)
      modifies this`off, scan
      ensures Ready(EndOf(v, stack), rest)
      ensures r == Denote(v)
      decreases v, 0
    {
      ghost var k := 0;
      ghost var cur := Within(stack, ArrayValue, BeginValueOrEmpty);
      var items: seq<Json> := [];
      hide *;
      ArrayBegins(p, stack, v, rest);
      while true
        invariant k <= |v.elems| && (v.elems != [] ==> k < |v.elems|)
        invariant cur == Within(stack, ArrayValue, if k == 0 then BeginValueOrEmpty else BeginValue)
        invariant Ready(cur, ArrayRest(v.gap, v.elems[k..]) + rest) && !scan.redo
        invariant |items| == k && forall i :: 0 <= i < k ==> items[i] == Denote(v.elems[i].val)
        decreases |v.elems| - k
      {
        // An empty array closes here.
        ghost var space, next := ArrayAhead(cur, stack, v, k, rest);
        var op := ScanWhile(SkipSpace, cur, space, cur, next);
        Onward(cur, next, op);
        if op == EndArray {
          break;
        }

        // The value starts with the byte that showed there is one.
        BackUp(op, cur, next);

        var item: Json;
        item, op := ArrayItem(cur, stack, v, k, rest);
        items := items + [item];
        k := k + 1;

        // The separator decides whether another element follows.
        if op == EndArray {
          break;
        }
        if op != GotElement { assert false; } // errPhase
        cur := Within(stack, ArrayValue, BeginValue);
      }
      r := List(items);
      ArrayDenotes(v, items);
    }

    lemma ObjectBegins(p: Scan, stack: seq<Parse>, v: Val, rest: bytes)
      requires v.Obj? && AtValue(p, stack) && Read(p, Text(v) + rest, BeginObject)
      ensures Ready(Within(stack, ObjectKey, BeginStringOrEmpty), ObjectRest(v.gap, v.members[0..]) + rest) && !scan.redo
      ensures EndOf(v, stack) == Closed(stack)
    {
      ObjectOpened(p, stack, v, rest);
      Onward(p, Text(v) + rest, BeginObject);
      assert v.members[0..] == v.members;
    }

    /** The rest of a key, whose quotation mark has been read, and one byte more. */
    method KeyLiteral(ghost cur: Scan, ghost stack: seq<Parse>, ghost m: Member, ghost after: bytes) returns (key: bytes, op: Code)
      requires AtKey(cur, stack) && WfMember(m) && Read(cur, m.key + after, BeginLiteral)
      requires var end := NextOf(Within(stack, ObjectKey, EndValue), after); end.1 != Continue && Wf(end.0)
      modifies this`off, scan
      ensures key == StringOf(m.key) && Read(Within(stack, ObjectKey, EndValue), after, op)
    {
      hide *;
      ghost var first := KeyStart(cur, stack, m, after);
      var start := ReadAt(cur, m.key + after, BeginLiteral);
      Onward(cur, m.key + after, BeginLiteral);
      op := ScanWhile(Continue, first, m.key[1..], Within(stack, ObjectKey, EndValue), after);
      Cut(data, start, m.key, after);
      var item := data[start..off - 1];
      var ok;
      key, ok := JsonQuoting.UnquoteBytes(item);
      if !ok { assert false; } // errPhase
    }

    /** The rest of a key and the colon after it. */
    method Key(ghost cur: Scan, ghost stack: seq<Parse>, ghost m: Member, ghost valuePart: bytes) returns (key: bytes)
      requires AtKey(cur, stack) && WfMember(m)
      requires Read(cur, KeyPart(m, valuePart), BeginLiteral)
      modifies this`off, scan
      ensures key == StringOf(m.key)
      ensures Ready(Within(stack, ObjectValue, BeginValue), valuePart) && !scan.redo
    {
      hide *;
      ghost var q := Within(stack, ObjectKey, EndValue);
      ghost var colon := [COLON] + valuePart;
      KeyEnd(stack, m, valuePart);
      var op;
      key, op := KeyLiteral(cur, stack, m, m.mid + colon);

      // The colon may come after white space.
      Onward(q, m.mid + colon, op);
      if op == SkipSpace {
        op := ScanWhile(SkipSpace, q, m.mid[1..], q, colon);
        Onward(q, colon, op);
      }
      if op != GotKey { assert false; } // errPhase
    }

    /** objectInterface: the opening brace has been read. */
    method ObjectInterface(ghost p: Scan, ghost stack: seq<Parse>, ghost v: Val, ghost rest: bytes) returns (r: Json)
      requires v.Obj? && WfVal(v) && AtValue(p, stack)
      requires Read(p, Text(v) + rest, BeginObject)
      modifies this`off, scan
      ensures Ready(EndOf(v, stack), rest)
      ensures r == Denote(v)
      decreases v, 0
    {
      hide *;
      ghost var k := 0;
      ghost var cur := Within(stack, ObjectKey, BeginStringOrEmpty);
      var entries: map<bytes, Json> := map[];
      ObjectBegins(p, stack, v, rest);
      NoEntries(v.members);
      while true
        invariant k <= |v.members| && (v.members != [] ==> k < |v.members|)
        invariant cur == Within(stack, ObjectKey, if k == 0 then BeginStringOrEmpty else BeginString)
        invariant Ready(cur, ObjectRest(v.gap, v.members[k..]) + rest) && !scan.redo
        invariant entries == Entries(v.members[..k])
        decreases |v.members| - k
      {
        // A key begins, or an empty object closes.
        ghost var space, next := ObjectAhead(cur, stack, v, k, rest);
        var op := ScanWhile(SkipSpace, cur, space, cur, next);
        Onward(cur, next, op);
        if op == EndObject {
          break;
        }
        if op != BeginLiteral { assert false; } // errPhase

        var key, value;
        key, value, op := ObjectItem(cur, stack, v, k, rest);
        MoreEntries(v.members, k);
        entries := entries[key := value];
        k := k + 1;

        // The separator decides whether another member follows.
        if op == EndObject {
          break;
        }
        if op != GotValue { assert false; } // errPhase
        cur := Within(stack, ObjectKey, BeginString);
      }
      r := Dict(entries);
      ObjectDenotes(v);
    }

    /** A member, and the brace or comma after it. */
    method ObjectItem(ghost cur: Scan, ghost stack: seq<Parse>, ghost v: Val, ghost k: nat, ghost rest: bytes)
      returns (key: bytes, value: Json, op: Code)
      requires v.Obj? && WfVal(v) && k < |v.members|
      requires cur == Within(stack, ObjectKey, if k == 0 then BeginStringOrEmpty else BeginString)
      requires Read(cur, KeyPart(v.members[k], ValuePart(v.gap, v.members[k..], rest)), BeginLiteral)
      modifies this`off, scan
      ensures key == StringOf(v.members[k].key) && value == Denote(v.members[k].val) && !scan.redo
      ensures if k + 1 == |v.members| then op == EndObject && Ready(Closed(stack), rest)
              else op == GotValue && Ready(Within(stack, ObjectKey, BeginString), ObjectRest(v.gap, v.members[k + 1..]) + rest)
      decreases v, 0, 0
    {
      ghost var ms := v.members[k..];
      ghost var m := v.members[k];
      assert WfMember(m) && ms[0] == m && ms[1..] == v.members[k + 1..];
      ghost var c, tail := AfterMember(ms), ObjectTail(v.gap, ms, rest);
      AfterMemberNext(stack, ms);
      Front([c], tail);
      assert AtKey(cur, stack);
      hide Ready, Read, Next, Text, KeyPart, Entries, Denote, StringOf, Skips, IsString;
      key := Key(cur, stack, m, ValuePart(v.gap, ms, rest));
      value, op := ValueThenSeparator(Within(stack, ObjectValue, BeginValue), stack + [ObjectValue], m.gap, m.val, m.after, c, tail);
      Onward(AfterSpace(m.val, stack + [ObjectValue], m.after), [c] + tail, op);
    }

    /** The offset of the byte that has just been read. */
    method ReadAt(ghost q: Scan, ghost rest: bytes, ghost code: Code) returns (start: nat)
      requires Read(q, rest, code)
      ensures off == start + 1 && start <= |data| && data[start..] == rest
    {
      start := off - 1;
    }
  }

  lemma NotAtEnd(lead: bytes, text: bytes, rest: bytes)
    requires text != []
    ensures lead + (text + rest) != [] && text + rest != [] && (text + rest)[0] == text[0]
  {
  }

  lemma AtBegin(p: Scan, v: Val, rest: bytes)
    requires Wf(p) && Text(v) != []
    ensures NextOf(p, Text(v) + rest) == Next(p, Text(v)[0])
    ensures v.Lit? ==> Text(v) == v.text
  {
  }

  lemma Front(a: bytes, b: bytes)
    requires a != []
    ensures a + b != [] && (a + b)[0] == a[0] && (a + b)[1..] == a[1..] + b
  {
  }

  lemma Cut(data: bytes, start: nat, a: bytes, b: bytes)
    requires start <= |data| && data[start..] == a + b
    ensures start + |a| <= |data| && data[start..start + |a|] == a
  {
    assert data[start..][..|a|] == a;
  }

  lemma LiteralFacts(p: Scan, stack: seq<Parse>, v: Val, rest: bytes) returns (first: Scan)
    requires v.Lit? && WfVal(v) && AtValue(p, stack) && MayFollow(stack, rest)
    ensures v.text != [] && first == Next(p, v.text[0]).0 && Wf(first)
    ensures Skips(first, v.text[1..], Continue, EndOf(v, stack)) && Wf(EndOf(v, stack))
    ensures NextOf(EndOf(v, stack), rest).1 != Continue && Wf(NextOf(EndOf(v, stack), rest).0)
  {
    ScalarIff(v.text);
    LexFirst(v.text);
    first := Next(p, v.text[0]).0;
    LexemeTailPlays(p, v.text);
    hide Next, AtEof, LexState, WfVal;
    PlaysSkips(first, v.text[1..], Continue, EndOf(v, stack));
    ValPlays(p, stack, v);
    AfterScalar(v, stack, rest);
  }

  /** The first byte of a literal says what it is. */
  lemma LiteralDenotes(v: Val)
    requires v.Lit? && WfVal(v)
    ensures v.text != []
    ensures v.text[0] == 0x6E ==> Denote(v) == Null
    ensures v.text[0] == 0x74 || v.text[0] == 0x66 ==> Denote(v) == Bool(v.text[0] == 0x74)
    ensures v.text[0] == QUOTE ==> Unquote(v.text).Some? && Denote(v) == Str(Unquote(v.text).value)
    ensures !(v.text[0] in {0x6E, 0x74, 0x66, QUOTE}) ==>
      (v.text[0] == 0x2D || 0x30 <= v.text[0] <= 0x39) && Denote(v) == Number(v.text)
  {
    hide IsNumber, IsString, Unquote, LexState;
    NumberIff(v.text);
    if IsNumber(v.text) {
      LexFirst(v.text);
      JsonNumber.NumberFirst(v.text);
    } else if IsString(v.text) {
      UnquoteIff(v.text);
      StringFirst(v.text);
    }
  }

  /** literalInterface's switch on the first byte. */
  method LiteralValue(item: bytes, ghost v: Val) returns (r: Json)
    requires v.Lit? && WfVal(v) && item == v.text
    ensures r == Denote(v)
  {
    LiteralDenotes(v);
    hide *;
    var c := item[0];
    if c == 0x6E { // null
      r := Null;
    } else if c == 0x74 || c == 0x66 { // true, false
      r := Bool(c == 0x74);
    } else if c == QUOTE { // string
      var s, ok := JsonQuoting.UnquoteBytes(item);
      if !ok { assert false; } // errPhase
      r := Str(s);
    } else { // number
      if c != 0x2D && (c < 0x30 || c > 0x39) { assert false; } // errPhase
      r := Number(item);
    }
  }

  lemma StringFirst(s: bytes)
    requires IsString(s)
    ensures s != [] && s[0] == QUOTE
  {
  }

  /** valueInterface on valid data: what the data denotes. */
  method DecodeValid(data: bytes) returns (r: Json)
    requires Valid(data)
    ensures forall lead, v, trail :: IsText(data, lead, v, trail) ==> r == Denote(v)
  {
    hide *;
    ValidIffText(data);
    ghost var lead, v, trail :| IsText(data, lead, v, trail);
    TextParts(data, lead, v, trail);
    var d := new DecodeState(data);
    r := d.ValueInterface(Fresh, [], lead, v, trail);
    forall lead', v', trail' | IsText(data, lead', v', trail') ensures v' == v {
      JsonUnique.Unambiguous(data, lead, v, trail, lead', v', trail');
    }
  }

  /** Unmarshal: nothing for data that checkValid rejects, and what the data denotes otherwise. */
  method Unmarshal(data: bytes) returns (r: Option<Json>)
    ensures r.Some? <==> Valid(data)
    ensures forall lead, v, trail :: IsText(data, lead, v, trail) ==> r == Some(Denote(v))
  {
    hide *;
    var scan := new Scanner();
    var ok := CheckValid(data, scan);
    if !ok {
      ValidIffText(data);
      return None;
    }
    var value := DecodeValid(data);
    r := Some(value);
  }

  lemma TextParts(data: bytes, lead: bytes, v: Val, trail: bytes)
    requires IsText(data, lead, v, trail)
    ensures AtValue(Fresh, []) && AllSpace(lead) && WfVal(v) && MayFollow([], trail)
    ensures data == lead + (Text(v) + trail)
  {
    hide WfVal, Text;
  }
}
