/**
 The stream decoder over a reader that delivers its bytes in pieces: what its methods do depends on the
 bytes alone, not on the pieces.
 */
module JsonStream {
  import opened Options
  import opened Bytes
  import opened JsonScanner
  import opened JsonGrammar
  import opened JsonMeaning
  import opened JsonNextValue
  import opened JsonTokens
  import JsonParse
  import JsonDecoder

  function Joined(chunks: seq<bytes>): bytes {
    if chunks == [] then [] else chunks[0] + Joined(chunks[1..])
  }

  /** A reader that makes progress and keeps reporting its last error: what its calls will return. */
  class Reader {
    var chunks: seq<bytes>
    const last: ReadError
    const early: bool // the last bytes and the error come in one call

    ghost predicate Ok()
      reads this
    {
      forall i :: 0 <= i < |chunks| ==> chunks[i] != []
    }

    /** All that is still to come. */
    ghost function Left(): bytes
      reads this
    {
      Joined(chunks)
    }

    constructor (chunks: seq<bytes>, last: ReadError, early: bool)
      requires forall i :: 0 <= i < |chunks| ==> chunks[i] != []
      ensures Ok() && Left() == Joined(chunks) && this.last == last && this.early == early
    {
      this.chunks, this.last, this.early := chunks, last, early;
    }

    /** Read into a slice of `room` bytes. */
    method Read(room: nat) returns (data: bytes, err: Option<ReadError>)
      requires Ok() && room > 0
      modifies this`chunks
      ensures Ok() && |data| <= room && old(Left()) == data + Left()
      ensures err == None ==> data != []
      ensures err.Some? ==> err.value == last && Left() == []
    {
      if chunks == [] {
        return [], Some(last);
      }
      var c := chunks[0];
      if |c| > room {
        var rest := chunks[1..];
        data := c[..room];
        chunks := [c[room..]] + rest;
        assert chunks[1..] == rest && c == c[..room] + c[room..];
        return data, None;
      }
      chunks := chunks[1..];
      return c, if chunks == [] && early then Some(last) else None;
    }
  }

  const MIN_READ := 512

  /** nonSpace */
  method NonSpace(b: bytes) returns (r: bool)
    ensures r <==> SkipSpaces(b) != []
  {
    var i := 0;
    assert b[0..] == b;
    while i < |b|
      invariant i <= |b| && SkipSpaces(b) == SkipSpaces(b[i..])
    {
      if !IsSpace(b[i]) { return true; }
      assert b[i..][1..] == b[i + 1..];
      i := i + 1;
    }
    r := false;
  }

  class Decoder {
    const reader: Reader
    var buf: bytes
    var capacity: nat
    var scanp: nat // the first byte that is not consumed
    const scan: Scanner
    var err: Option<StreamError>
    var tokenState: TokenState
    var tokenStack: seq<TokenState>

    /** The tokens that Token has returned so far. */
    ghost var history: seq<Token>

    ghost predicate Core()
      reads this, reader
    {
      reader.Ok() && scanp <= |buf| <= capacity
    }

    /** The tokens returned nest properly, and the token state knows the brackets that are open. */
    ghost predicate Valid()
      reads this, reader
    {
      Core() && Balanced(tokenState, tokenStack) && Nesting(history) == Some(Opens(tokenState, tokenStack))
    }

    /** The stream that is not consumed yet. */
    ghost function Unread(): bytes
      requires Core()
      reads this, reader
    {
      buf[scanp..] + reader.Left()
    }

    ghost function View(): Stream
      requires Core()
      reads this, reader
    {
      Stream(Unread(), reader.last, err, tokenState, tokenStack)
    }

    constructor (reader: Reader)
      requires reader.Ok()
      ensures Valid() && fresh(scan) && this.reader == reader && history == []
      ensures View() == Stream(reader.Left(), reader.last, None, AtTop, [])
    {
      this.reader := reader;
      buf, capacity, scanp := [], 0, 0;
      err, tokenState, tokenStack := None, AtTop, [];
      history := [];
      scan := new Scanner();
      new;
      assert buf[scanp..] + reader.Left() == reader.Left();
    }

    method Refill() returns (e: Option<ReadError>)
      requires Core()
      modifies this`buf, this`capacity, this`scanp, reader
      ensures Core() && scanp == 0 && Unread() == old(Unread())
      ensures |buf| >= |old(buf)| - old(scanp)
      ensures e == None ==> |reader.Left()| < |old(reader.Left())|
      ensures e.Some? ==> e.value == reader.last && reader.Left() == []
    {
      // What is consumed makes room.
      if scanp > 0 {
        buf := buf[scanp..];
        scanp := 0;
      }
      assert buf == old(buf[scanp..]);

      // A full read must fit behind what is buffered.
      if capacity - |buf| < MIN_READ {
        capacity := 2 * capacity + MIN_READ;
      }

      // The error, if any, comes together with the last bytes.
      var data;
      data, e := reader.Read(capacity - |buf|);
      assert buf + (data + reader.Left()) == buf + data + reader.Left();
      buf := buf + data;
      assert buf[0..] == buf;
    }

    /** peek: the next byte that is not white space; it stays unread. */
    method Peek() returns (r: Result<byte>)
      requires Core()
      modifies this`buf, this`capacity, this`scanp, reader
      ensures Core()
      ensures var w := SkipSpaces(old(Unread()));
              if w == [] then r == Err(PeekError(reader.last)) && Unread() == old(Unread())
              else r == Got(w[0]) && Unread() == w && scanp < |buf|
    {
      ghost var u := Unread();
      var e: Option<ReadError> := None;
      while true
        invariant Core() && Unread() == u
        invariant e.Some? ==> e.value == reader.last && reader.Left() == []
        decreases |reader.Left()|, if e.Some? then 0 else 1
      {
        var i := scanp;
        while i < |buf|
          invariant scanp <= i <= |buf| && SkipSpaces(u) == SkipSpaces(buf[i..] + reader.Left())
        {
          ghost var here := buf[i..] + reader.Left();
          if IsSpace(buf[i]) {
            assert here[0] == buf[i] && here[1..] == buf[i + 1..] + reader.Left();
            i := i + 1;
            continue;
          }
          assert here[0] == buf[i] && SkipSpaces(here) == here;
          scanp := i;
          return Got(buf[i]);
        }
        // Nothing but white space was buffered, so the error counts.
        if e.Some? {
          assert buf[i..] + reader.Left() == [];
          return Err(PeekError(reader.last));
        }
        e := Refill();
      }
    }

    lemma ByteAt(buf: bytes, start: nat, u: bytes, i: nat)
      requires start <= i < |buf| && buf[start..] <= u
      ensures i - start < |u| && u[i - start] == buf[i]
    {
      assert buf[start..][i - start] == buf[i];
    }

    /** Reading on in the buffer from `from`: Cut when it is exhausted. */
    method ScanBuffer(from: nat, ghost u: bytes, ghost eof: bool) returns (r: Outcome)
      requires Core() && scanp <= from <= |buf| && buf[scanp..] <= u
      requires scan.Ok() && !scan.redo && Walking(u, eof, scan.View(), from - scanp)
      modifies scan
      ensures r.Found? ==> FirstValue(u, eof) == r && scanp + r.n <= |buf|
      ensures r == Broken ==> FirstValue(u, eof) == Broken
      ensures r == Cut ==> scan.Ok() && !scan.redo && Walking(u, eof, scan.View(), |buf| - scanp)
    {
      hide *;
      var i := from;
      while i < |buf|
        invariant from <= i <= |buf| && scanp <= |buf|
        invariant scan.Ok() && !scan.redo && Walking(u, eof, scan.View(), i - scanp)
      {
        var c := buf[i];
        ByteAt(buf, scanp, u, i);
        WalkTurn(u, eof, scan.View(), i - scanp);
        var v := scan.Step(c);
        if v == End {
          return Found(i - scanp);
        }
        // A made-up space shows the end at once, where waiting for the byte after it could block.
        if v == EndObject || v == EndArray {
          var probe := scan.Step(SPACE);
          if probe == End {
            return Found(i + 1 - scanp);
          }
        }
        if v == Error {
          return Broken;
        }
        i := i + 1;
      }
      r := Cut;
    }

    /** The stream has ended inside a value, or before it. */
    method EndOfInput(e: ReadError, ghost u: bytes) returns (r: Result<nat>)
      requires Core() && scanp == 0 && u == buf && e == reader.last
      requires scan.Ok() && !scan.redo && Walking(u, e == EOF, scan.View(), |buf|)
      modifies scan, this`err
      ensures r == ReadResult(u, e) && (r.Got? ==> r.value == |buf|)
      ensures err == if r.Got? then old(err) else Some(r.e)
    {
      WalkStops(u, e == EOF, scan.View());
      var failure := ReaderFailed;
      if e == EOF {
        var v := scan.Step(SPACE);
        if v == End {
          return Got(|buf|);
        }
        var some := NonSpace(buf);
        failure := if some then UnexpectedEof else Eof;
      }
      err := Some(failure);
      r := Err(failure);
    }

    /** readValue: the length of the next value in the buffer. */
    method ReadValue() returns (r: Result<nat>)
      requires Core()
      modifies this`buf, this`capacity, this`scanp, this`err, scan, reader
      ensures Core() && Unread() == old(Unread())
      ensures r == ReadResult(old(Unread()), reader.last)
      ensures r.Got? ==> scanp + r.value <= |buf|
      ensures err == if r.Got? then old(err) else Some(r.e)
    {
      hide Walking, FirstValue, ReadResult, Next, AtEof, Wf, Running, Joined;
      scan.Reset();
      ghost var u, eof := Unread(), reader.last == EOF;
      var from := scanp;
      var e: Option<ReadError> := None;
      WalkStarts(u, eof);
      while true
        invariant Core() && Unread() == u && scanp <= from <= |buf| && err == old(err)
        invariant e.Some? ==> e.value == reader.last && reader.Left() == [] && scanp == 0
        invariant scan.Ok() && !scan.redo && Walking(u, eof, scan.View(), from - scanp)
        decreases |reader.Left()|, if e.Some? then 0 else 1
      {
        var found := ScanBuffer(from, u, eof);
        if found.Found? {
          ResultOf(u, reader.last);
          return Got(found.n);
        }
        if found == Broken {
          ResultOf(u, reader.last);
          err := Some(Syntax);
          return Err(Syntax);
        }
        from := |buf|;

        // The bytes that came with the error have been scanned by now.
        if e.Some? {
          assert buf == u;
          r := EndOfInput(e.value, u);
          return;
        }

        var n := from - scanp;
        e := Refill();
        from := scanp + n;
      }
    }

    /** tokenPrepareForDecode: past the comma or colon that is due. */
    method TokenPrepareForDecode() returns (e: Option<StreamError>)
      requires Core()
      modifies this`buf, this`capacity, this`scanp, this`tokenState, reader
      ensures Core()
      ensures var s := old(View());
              var w := SkipSpaces(s.unread);
              if s.state == AtArrayComma || s.state == AtObjectColon then
                if w == [] then e == Some(PeekError(s.last)) && View() == s
                else if Separator(s.state) != Some(w[0]) then e == Some(Syntax) && View() == s.(unread := w)
                else e == None && View() == s.(unread := w[1..], state := AfterSeparator(s.state))
              else e == None && View() == s
    {
      if tokenState == AtArrayComma {
        var c := Peek();
        if c.Err? { return Some(c.e); }
        if c.value != COMMA { return Some(Syntax); }
        Advance();
        tokenState := AtArrayValue;
      } else if tokenState == AtObjectColon {
        var c := Peek();
        if c.Err? { return Some(c.e); }
        if c.value != COLON { return Some(Syntax); }
        Advance();
        tokenState := AtObjectValue;
      }
      e := None;
    }

    /** Decode, once a value may come: read the whole value, then decode it. */
    method DecodeNow() returns (r: Result<Json>)
      requires Core() && err == None
      modifies this`buf, this`capacity, this`scanp, this`err, this`tokenState, scan, reader
      ensures Core() && (r, View()) == ReadAt(old(View()))
    {
      ghost var s := View();
      hide FirstValue, ReadResult, ValueOf;
      var n := ReadValue();
      if n.Err? { return Err(n.e); }
      ghost var whole := Unread();
      ReadFits(whole, reader.last);
      var item := buf[scanp..scanp + n.value];
      assert item == whole[..n.value];
      scanp := scanp + n.value;
      assert Unread() == whole[n.value..];
      var v := JsonDecoder.DecodeValid(item);
      OneValue(item, v);

      tokenState := ValueEnd(tokenState);
      r := Got(v);
    }

    /** Decode. */
    method Decode() returns (r: Result<Json>)
      requires Core()
      modifies this`buf, this`capacity, this`scanp, this`err, this`tokenState, scan, reader
      ensures Core() && (r, View()) == DecodeAt(old(View()))
      ensures old(Valid()) ==> Valid()
    {
      ghost var s := View();
      hide ReadAt, Nesting, Opens, Balanced;
      if Balanced(s.state, s.stack) { DecodeNests(s); }
      if err.Some? { return Err(err.value); }
      var e := TokenPrepareForDecode();
      if e.Some? { return Err(e.value); }
      if !ValueAllowed(tokenState) { return Err(Syntax); }
      r := DecodeNow();
    }

    /** More: another element or member comes, or anything else that is no closing bracket. */
    method More() returns (more: bool)
      requires Core()
      modifies this`buf, this`capacity, this`scanp, reader
      ensures Core()
      ensures var s := old(View());
              var w := SkipSpaces(s.unread);
              && (more <==> w != [] && w[0] != RBRACK && w[0] != RBRACE)
              && View() == s.(unread := if w == [] then s.unread else w)
      ensures old(Valid()) ==> Valid()
    {
      var c := Peek();
      more := c.Got? && c.value != RBRACK && c.value != RBRACE;
    }

    /** The opening bracket `c` comes next. */
    method Open(c: byte, start: TokenState) returns (r: Result<Token>)
      requires Core() && scanp < |buf|
      modifies this`scanp, this`tokenState, this`tokenStack
      ensures Core()
      ensures var s := old(View());
              if ValueAllowed(s.state)
              then r == Got(Delim(c)) && View() == s.(unread := s.unread[1..], state := start, stack := s.stack + [s.state])
              else r == Err(Syntax) && View() == s
    {
      if !ValueAllowed(tokenState) { return Err(Syntax); }
      Advance();
      tokenStack := tokenStack + [tokenState];
      tokenState := start;
      r := Got(Delim(c));
    }

    /** The closing bracket `c` comes next: the stack is never popped when it is empty. */
    method Close(c: byte) returns (r: Result<Token>)
      requires Core() && scanp < |buf| && Balanced(tokenState, tokenStack) && IsClosing(c)
      modifies this`scanp, this`tokenState, this`tokenStack
      ensures Core()
      ensures var s := old(View());
              if MayClose(s.state, c)
              then r == Got(Delim(c)) && s.stack != []
                && View() == s.(unread := s.unread[1..], state := ValueEnd(s.stack[|s.stack| - 1]), stack := s.stack[..|s.stack| - 1])
              else r == Err(Syntax) && View() == s
    {
      if !MayClose(tokenState, c) { return Err(Syntax); }
      Advance();
      tokenState := tokenStack[|tokenStack| - 1];
      tokenStack := tokenStack[..|tokenStack| - 1];
      tokenState := ValueEnd(tokenState);
      r := Got(Delim(c));
    }

    /** A key: it is decoded as a value at the top, and a colon is due after it. */
    method KeyToken() returns (r: Result<Token>)
      requires Core() && (tokenState == AtObjectStart || tokenState == AtObjectKey)
      modifies this`buf, this`capacity, this`scanp, this`err, this`tokenState, scan, reader
      ensures Core()
      ensures match ReadAt(old(View()))
              case (Got(v), s') => r == Got(Value(v)) && View() == s'.(state := AtObjectColon)
              case (Err(e), s') => r == Err(e) && View() == s'
    {
      hide ReadAt, DecodeAt, Balanced, Nesting, Opens;
      var before := tokenState;
      ghost var s := View();
      tokenState := AtTop;
      assert View() == s.(state := AtTop);
      ReadInState(s);
      var x := Decode();
      tokenState := before;
      if x.Err? { return Err(x.e); }
      tokenState := AtObjectColon;
      r := Got(Value(x.value));
    }

    /** Token. */
    method Token() returns (r: Result<Token>)
      requires Valid()
      modifies this, scan, reader
      ensures Valid() && (r, View()) == TokenAt(old(View()))
      ensures history == old(history) + if r.Got? then [r.value] else []
    {
      ghost var s := View();
      TokenNests(s);
      r := NextToken();
      if r.Got? {
        history := history + [r.value];
        assert history[..|history| - 1] == old(history);
      }
    }

    /** The loop of Token. */
    method NextToken() returns (r: Result<Token>)
      requires Core() && Balanced(tokenState, tokenStack)
      modifies this`buf, this`capacity, this`scanp, this`err, this`tokenState, this`tokenStack, scan, reader
      ensures Core() && (r, View()) == TokenAt(old(View()))
    {
      hide ReadAt, DecodeAt, TokenAt, Nesting, Opens, Balanced;
      ghost var s := View();
      while true
        invariant Core() && Balanced(tokenState, tokenStack) && TokenAt(View()) == TokenAt(s)
        decreases |Unread()|
      {
        ghost var t := View();
        var c := Peek();
        TokenCases(t);
        if c.Err? { return Err(c.e); }
        assert View() == t.(unread := SkipSpaces(t.unread)) && Unread()[0] == c.value;
        match c.value
        case 0x5B =>
          r := Open(LBRACK, AtArrayStart);
          return;
        case 0x5D =>
          r := Close(RBRACK);
          return;
        case 0x7B =>
          r := Open(LBRACE, AtObjectStart);
          return;
        case 0x7D =>
          r := Close(RBRACE);
          return;
        case 0x3A =>
          if tokenState != AtObjectColon { return Err(Syntax); }
          Advance();
          tokenState := AtObjectValue;
          continue;
        case 0x2C =>
          if tokenState == AtArrayComma {
            Advance();
            tokenState := AtArrayValue;
            continue;
          }
          if tokenState == AtObjectComma {
            Advance();
            tokenState := AtObjectKey;
            continue;
          }
          return Err(Syntax);
        case _ =>
          if c.value == QUOTE && (tokenState == AtObjectStart || tokenState == AtObjectKey) {
            r := KeyToken();
            return;
          }
          if !ValueAllowed(tokenState) { return Err(Syntax); }
          DecodeIsRead(View());
          var x := Decode();
          if x.Err? { return Err(x.e); }
          return Got(Value(x.value));
      }
    }

    /** dec.scanp++ */
    method Advance()
      requires Core() && scanp < |buf|
      modifies this`scanp
      ensures Core() && Unread() == old(Unread())[1..]
    {
      scanp := scanp + 1;
    }
  }

  lemma ResultOf(u: bytes, last: ReadError)
    ensures FirstValue(u, last == EOF).Found? ==> ReadResult(u, last) == Got(FirstValue(u, last == EOF).n)
    ensures FirstValue(u, last == EOF) == Broken ==> ReadResult(u, last) == Err(Syntax)
  {
  }

  lemma ReadFits(u: bytes, last: ReadError)
    requires ReadResult(u, last).Got?
    ensures ReadResult(u, last).value <= |u| && JsonScanner.Valid(u[..ReadResult(u, last).value])
  {
    FoundValid(u, last == EOF);
  }

  lemma OneValue(item: bytes, r: Json)
    requires JsonScanner.Valid(item) && forall lead, v, trail :: IsText(item, lead, v, trail) ==> r == Denote(v)
    ensures r == ValueOf(item)
  {
    JsonParse.ValidIffText(item);
    hide IsText, Denote;
    var lead, v, trail :| IsText(item, lead, v, trail);
    ValueOfText(item, lead, v, trail);
  }

  /** A key is read as a value at the top would be. */
  lemma ReadInState(s: Stream)
    ensures var (r, t) := ReadAt(s);
            DecodeAt(s.(state := AtTop)) == (r, t.(state := if r.Got? then ValueEnd(AtTop) else AtTop))
            && (r.Err? ==> t.state == s.state)
  {
    hide ReadResult, ValueOf;
  }

  lemma DecodeIsRead(s: Stream)
    requires ValueAllowed(s.state)
    ensures DecodeAt(s) == ReadAt(s)
  {
    hide ReadResult, ValueOf;
  }

  /** What Token does with the next byte. */
  lemma TokenCases(s: Stream)
    requires Balanced(s.state, s.stack)
    ensures var w := SkipSpaces(s.unread);
            var s1 := s.(unread := w);
            var r := TokenAt(s);
            if w == [] then r == (Err(PeekError(s.last)), s)
            else
              var c, n := w[0], |s.stack| - 1;
              && (IsOpening(c) ==> r == if ValueAllowed(s.state)
                    then (Got(Delim(c)), s.(unread := w[1..], state := if c == LBRACK then AtArrayStart else AtObjectStart, stack := s.stack + [s.state]))
                    else (Err(Syntax), s1))
              && (IsClosing(c) ==>
                    if MayClose(s.state, c)
                    then n >= 0 && r == (Got(Delim(c)), s.(unread := w[1..], state := ValueEnd(s.stack[n]), stack := s.stack[..n]))
                    else r == (Err(Syntax), s1))
              && (c == COLON || c == COMMA ==>
                    if Separator(s.state) == Some(c)
                    then var s2 := s.(unread := w[1..], state := AfterSeparator(s.state)); Balanced(s2.state, s2.stack) && r == TokenAt(s2)
                    else r == (Err(Syntax), s1))
              && (!IsOpening(c) && !IsClosing(c) && c != COLON && c != COMMA ==>
                    if !ValueAllowed(s.state) && !(c == QUOTE && (s.state == AtObjectStart || s.state == AtObjectKey)) then r == (Err(Syntax), s1)
                    else match ReadAt(s1)
                      case (Got(v), s2) => r == (Got(Value(v)), if ValueAllowed(s.state) then s2 else s2.(state := AtObjectColon))
                      case (Err(e), s2) => r == (Err(e), s2))
              && ((s.state == AtObjectStart || s.state == AtObjectKey) ==> !ValueAllowed(s.state))
  {
    hide ReadAt;
  }
}
