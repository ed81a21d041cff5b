/** The length of the first value of a stream, and nextValue, which cuts it off. */
module JsonNextValue {
  import opened Options
  import opened Bytes
  import opened JsonScanner
  import opened JsonLexemes
  import opened JsonGrammar
  import opened JsonParse

  /** What reading up to the end of a value comes to: its length, a syntax error, or the end of the input. */
  datatype Outcome = Found(n: nat) | Broken | Cut

  function Shift(o: Outcome, k: nat): Outcome {
    if o.Found? then Found(o.n + k) else o
  }

  /** A top-level value has just been closed; the scanner would say so only at the next byte, so a space is tried. */
  predicate Probes(s: Scan, code: Code)
    requires Wf(s)
  {
    (code == EndObject || code == EndArray) && Next(s, SPACE).1 == End
  }

  /** Reading on from state `s`; `eof` says that the end of the input counts as the end of a value. */
  function Walk(s: Scan, rest: bytes, eof: bool): Outcome
    requires Wf(s)
    decreases |rest|
  {
    if rest == [] then if eof && AtEof(s).1 == End then Found(0) else Cut
    else
      var (s', code) := Next(s, rest[0]);
      if code == End then Found(0)
      else if code == Error then Broken
      else if Probes(s', code) then Found(1)
      else Shift(Walk(s', rest[1..], eof), 1)
  }

  /** The first value of `data`, with the white space before it. */
  function FirstValue(data: bytes, eof: bool): Outcome {
    Walk(Fresh, data, eof)
  }

  // ---- Steps of the walk ----

  /** The scanner is still inside its value, or before it. */
  predicate Running(s: Scan) {
    Wf(s) && !s.err && !s.endTop && s.step != EndTop
  }

  /** endTop and err, once set, stay set. */
  lemma EndStays(s: Scan, c: byte)
    requires Wf(s)
    ensures s.endTop ==> Next(s, c).0.endTop
    ensures s.err ==> Next(s, c).0.err
    ensures s.step == EndTop ==> Next(s, c).0.step == EndTop || Next(s, c).0.err
  {
    hide NextLexeme;
  }

  lemma {:induction false} EndStaysRun(s: Scan, data: bytes)
    requires Wf(s) && Running(Run(s, data))
    ensures Running(s)
  {
    hide Next;
    if data != [] {
      var n := |data| - 1;
      EndStays(Run(s, data[..n]), data[n]);
      EndStaysRun(s, data[..n]);
    }
  }

  lemma RunFirst(s: Scan, c: byte, rest: bytes)
    requires Wf(s)
    ensures Run(s, [c] + rest) == Run(Next(s, c).0, rest)
  {
    hide *;
    RunConcat(s, [c], rest);
    RunOne(s, c);
  }

  /** A step that leaves the scanner running is none of the ends. */
  lemma RunningStep(s: Scan, c: byte)
    requires Wf(s) && Running(Next(s, c).0)
    ensures Next(s, c).1 != End && Next(s, c).1 != Error && !Probes(Next(s, c).0, Next(s, c).1)
  {
    hide NextLexeme;
  }

  /** The probe changes nothing unless it ends the value. */
  lemma ProbeHarmless(s: Scan, c: byte)
    requires Running(s) && (Next(s, c).1 == EndObject || Next(s, c).1 == EndArray) && Next(Next(s, c).0, SPACE).1 != End
    ensures Next(Next(s, c).0, SPACE).0 == Next(s, c).0
  {
    hide NextLexeme;
  }

  /** A step that is no end leaves the scanner running. */
  lemma StepRuns(s: Scan, c: byte)
    requires Running(s) && Next(s, c).1 != End && Next(s, c).1 != Error && !Probes(Next(s, c).0, Next(s, c).1)
    ensures Running(Next(s, c).0)
  {
  }

  lemma ShiftNone(o: Outcome)
    ensures Shift(o, 0) == o
  {
  }

  lemma ShiftTwice(o: Outcome, k: nat)
    ensures Shift(Shift(o, k), 1) == Shift(o, k + 1)
  {
  }

  lemma WalkUnfold(s: Scan, rest: bytes, eof: bool)
    requires Wf(s) && rest != []
    requires Next(s, rest[0]).1 != End && Next(s, rest[0]).1 != Error && !Probes(Next(s, rest[0]).0, Next(s, rest[0]).1)
    ensures Walk(s, rest, eof) == Shift(Walk(Next(s, rest[0]).0, rest[1..], eof), 1)
  {
    hide Next, Probes, Shift;
  }

  lemma {:induction false} WalkPast(s: Scan, x: bytes, rest: bytes, eof: bool)
    requires Wf(s) && Running(Run(s, x))
    ensures Walk(s, x + rest, eof) == Shift(Walk(Run(s, x), rest, eof), |x|)
    decreases |x|
  {
    hide *;
    ShiftNone(Walk(s, rest, eof));
    RunNone(s, x);
    if x == [] {
      assert x + rest == rest && x[..0] == x;
    } else {
      assert x == [x[0]] + x[1..];
      RunFirst(s, x[0], x[1..]);
      EndStaysRun(Next(s, x[0]).0, x[1..]);
      RunningStep(s, x[0]);
      WalkPast(Next(s, x[0]).0, x[1..], rest, eof);
      assert (x + rest)[1..] == x[1..] + rest && (x + rest)[0] == x[0];
      WalkUnfold(s, x + rest, eof);
      ShiftTwice(Walk(Run(s, x), rest, eof), |x| - 1);
    }
  }

  // ---- Which value is the first ----

  /** data[..n] is white space and then a value that the next byte does not go on with; a string, number or name
      that ends with the input is whole only at the end of the stream. */
  ghost predicate IsFirst(data: bytes, n: nat, lead: bytes, v: Val, eof: bool) {
    && n <= |data| && data[..n] == lead + Text(v)
    && AllSpace(lead) && WfVal(v)
    && (v.Lit? ==> if n < |data| then LexState(v.text + [data[n]]) == None else eof)
  }

  lemma LitEnds(v: Val, rest: bytes, eof: bool)
    requires v.Lit? && WfVal(v)
    requires if rest != [] then LexState(v.text + [rest[0]]) == None else eof
    ensures Running(EndOf(v, [])) && Walk(EndOf(v, []), rest, eof) == Found(0)
  {
    ScalarIff(v.text);
    var s := EndOf(v, []);
    if rest == [] {
      EofEnded(s);
    } else {
      LexAppend(v.text, rest[0]);
      hide LexState;
    }
  }

  lemma CloseEnds(last: Scan, c: byte, code: Code, rest: bytes, eof: bool)
    requires Wf(last) && Next(last, c) == (Closed([]), code) && (code == EndArray || code == EndObject)
    ensures Walk(last, [c] + rest, eof) == Found(1)
  {
    assert Next(Closed([]), SPACE).1 == End;
    hide Next;
  }

  /** The state before the closing bracket of a top-level array or object. */
  lemma BeforeClose(lead: bytes, v: Val) returns (x: bytes, c: byte)
    requires AllSpace(lead) && WfVal(v) && !v.Lit?
    ensures lead + Text(v) == x + [c]
    ensures Running(Run(Fresh, x)) && Next(Run(Fresh, x), c) == (Closed([]), if v.Arr? then EndArray else EndObject)
  {
    hide *;
    FreshAtValue();
    SpacesPlay(Fresh, lead);
    var last: Scan;
    var front: seq<Mark>;
    if v.Arr? {
      front, last := ArrBefore(Fresh, [], v);
      c := RBRACK;
    } else {
      front, last := ObjBefore(Fresh, [], v);
      c := RBRACE;
    }
    OpenRunning(last, []);
    PlaysConcat(Fresh, All(lead, SkipSpace), Fresh, front, last);
    PlayRuns(Fresh, All(lead, SkipSpace) + front);
    PlaysResult(Fresh, All(lead, SkipSpace) + front, last);
    UnmarkConcat(All(lead, SkipSpace), front);
    UnmarkAll(lead, SkipSpace);
    x := lead + Unmark(front);
    UnmarkVal(v);
    UnmarkConcat(front, [Mark(c, if v.Arr? then EndArray else EndObject)]);
    assert Unmark([Mark(c, if v.Arr? then EndArray else EndObject)]) == [c];
    assert lead + (Unmark(front) + [c]) == x + [c];
  }

  lemma FreshAtValue()
    ensures AtValue(Fresh, []) && Wf(Fresh) && Fresh.step == BeginValue
  {
  }

  lemma PlaysResult(s: Scan, m: seq<Mark>, s': Scan)
    requires Plays(s, m, s')
    ensures Play(s, m).0 == s'
  {
  }

  lemma OpenRunning(s: Scan, stack: seq<Parse>)
    requires Wf(s) && StillOpen(s, stack)
    ensures Running(s)
  {
  }

  /** The value is found where the grammar says. */
  lemma FirstFound(data: bytes, n: nat, lead: bytes, v: Val, eof: bool)
    requires IsFirst(data, n, lead, v, eof)
    ensures FirstValue(data, eof) == Found(n)
  {
    var rest := data[n..];
    assert data == lead + Text(v) + rest;
    hide Walk, Text, WfVal;
    if v.Lit? {
      LitFound(lead, v, rest, eof);
    } else {
      BracketedFound(lead, v, rest, eof);
    }
  }

  lemma LitFound(lead: bytes, v: Val, rest: bytes, eof: bool)
    requires v.Lit? && AllSpace(lead) && WfVal(v)
    requires if rest != [] then LexState(v.text + [rest[0]]) == None else eof
    ensures Walk(Fresh, lead + Text(v) + rest, eof) == Found(|lead + Text(v)|)
  {
    hide *;
    ShiftFound(0, |lead + Text(v)|);
    LitRuns(lead, v);
    LitEnds(v, rest, eof);
    WalkPast(Fresh, lead + Text(v), rest, eof);
  }

  lemma BracketedFound(lead: bytes, v: Val, rest: bytes, eof: bool)
    requires !v.Lit? && AllSpace(lead) && WfVal(v)
    ensures Walk(Fresh, lead + Text(v) + rest, eof) == Found(|lead + Text(v)|)
  {
    hide *;
    var x, c := BeforeClose(lead, v);
    ShiftFound(1, |x|);
    CloseEnds(Run(Fresh, x), c, if v.Arr? then EndArray else EndObject, rest, eof);
    WalkPast(Fresh, x, [c] + rest, eof);
    assert lead + Text(v) + rest == x + ([c] + rest);
  }

  lemma ShiftFound(n: nat, k: nat)
    ensures Shift(Found(n), k) == Found(n + k) && Wf(Fresh)
  {
  }

  lemma LitRuns(lead: bytes, v: Val)
    requires AllSpace(lead) && WfVal(v) && v.Lit?
    ensures Run(Fresh, lead + Text(v)) == EndOf(v, [])
  {
    SpacesPlay(Fresh, lead);
    ValPlays(Fresh, [], v);
    hide Play, Plays, WfVal, Marks, Text;
    PlaysConcat(Fresh, All(lead, SkipSpace), Fresh, Marks(v), EndOf(v, []));
    PlayRuns(Fresh, All(lead, SkipSpace) + Marks(v));
    PlaysResult(Fresh, All(lead, SkipSpace) + Marks(v), EndOf(v, []));
    UnmarkVal(v);
    UnmarkAll(lead, SkipSpace);
    UnmarkConcat(All(lead, SkipSpace), Marks(v));
  }

  // ---- What is found is a value ----

  /** Where the walk ends with success. */
  lemma {:induction false} WalkFound(s: Scan, rest: bytes, eof: bool)
    requires Running(s) && Walk(s, rest, eof).Found?
    ensures var n := Walk(s, rest, eof).n;
            && n <= |rest| && AtEof(Run(s, rest[..n])).1 == End
            && (n == |rest| ==> eof || Run(s, rest).endTop)
            && (n < |rest| ==> Run(s, rest[..n]).endTop || Next(Run(s, rest[..n]), rest[n]).1 == End)
    decreases |rest|
  {
    hide Next, AtEof, Probes;
    var n := Walk(s, rest, eof).n;
    if rest == [] || Next(s, rest[0]).1 == End {
      assert rest[..0] == [];
      if rest != [] { EndIsEof(s, rest[0]); }
    } else {
      var s' := Next(s, rest[0]).0;
      assert rest == [rest[0]] + rest[1..];
      RunFirst(s, rest[0], rest[1..]);
      if Probes(s', Next(s, rest[0]).1) {
        assert rest[..1] == [rest[0]];
        RunOne(s, rest[0]);
        ProbeEnds(s, rest[0]);
      } else {
        StepRuns(s, rest[0]);
        WalkFound(s', rest[1..], eof);
        assert rest[..n] == [rest[0]] + rest[1..][..n - 1];
        RunFirst(s, rest[0], rest[1..][..n - 1]);
      }
    }
  }

  lemma EndIsEof(s: Scan, c: byte)
    requires Running(s) && Next(s, c).1 == End
    ensures AtEof(s).1 == End
  {
    hide BeginLexeme;
  }

  lemma ProbeEnds(s: Scan, c: byte)
    requires Running(s) && Probes(Next(s, c).0, Next(s, c).1)
    ensures Next(s, c).0.endTop && AtEof(Next(s, c).0).1 == End
  {
    hide NextLexeme;
  }

  /** After a complete scalar, a byte that gets scanEnd does not go on with it. */
  lemma NoLonger(text: bytes, c: byte)
    requires LexState(text).Some? && IsFinal(LexState(text).value)
    requires Next(Scan(LexState(text).value, [], false, false), c).1 == End
    ensures LexState(text + [c]) == None
  {
    LexAppend(text, c);
    hide LexState;
  }

  /** Only a value is found, and the white space before it, and a longest one. */
  lemma FoundIsFirst(data: bytes, eof: bool) returns (lead: bytes, v: Val)
    requires FirstValue(data, eof).Found?
    ensures IsFirst(data, FirstValue(data, eof).n, lead, v, eof)
  {
    hide Walk, Text, WfVal, Next, AtEof, Run;
    var n := FirstValue(data, eof).n;
    WalkFound(Fresh, data, eof);
    ValidIffText(data[..n]);
    var trail;
    lead, v, trail :| IsText(data[..n], lead, v, trail);
    var m := |lead + Text(v)|;
    assert n == |data| ==> data[..n] == data;
    FoundEnds(data, n, lead, v, trail, eof);
    assert data[..m] == lead + Text(v);
    FirstFound(data, m, lead, v, eof);
  }

  lemma FoundEnds(data: bytes, n: nat, lead: bytes, v: Val, trail: bytes, eof: bool)
    requires n <= |data| && IsText(data[..n], lead, v, trail)
    requires n == |data| ==> eof || Run(Fresh, data[..n]).endTop
    requires n < |data| ==> Run(Fresh, data[..n]).endTop || Next(Run(Fresh, data[..n]), data[n]).1 == End
    ensures v.Lit? ==> var m := |lead + Text(v)|; if m < |data| then LexState(v.text + [data[m]]) == None else eof
  {
    hide Run, Next, LexState, Text, WfVal;
    if v.Lit? {
      LitState(v);
      if trail != [] {
        assert data[|lead + Text(v)|] == trail[0];
        SpaceEnds(v.text, trail[0]);
      } else {
        assert data[..n] == lead + Text(v);
        LitRuns(lead, v);
        if n < |data| { NoLonger(v.text, data[n]); }
      }
    }
  }

  lemma LitState(v: Val)
    requires v.Lit? && WfVal(v)
    ensures LexState(v.text).Some? && IsFinal(LexState(v.text).value)
    ensures EndOf(v, []) == Scan(LexState(v.text).value, [], false, false)
  {
    ScalarIff(v.text);
  }

  lemma SpaceEnds(text: bytes, c: byte)
    requires LexState(text).Some? && IsFinal(LexState(text).value) && IsSpace(c)
    ensures LexState(text + [c]) == None
  {
    LexAppend(text, c);
    hide LexState;
  }

  /** The first value is what the grammar says: the longest one after white space. */
  lemma FirstIff(data: bytes, n: nat, eof: bool)
    ensures FirstValue(data, eof) == Found(n) <==> exists lead, v :: IsFirst(data, n, lead, v, eof)
  {
    hide IsFirst, Walk;
    if FirstValue(data, eof) == Found(n) {
      var lead, v := FoundIsFirst(data, eof);
    }
    if lead, v :| IsFirst(data, n, lead, v, eof) {
      FirstFound(data, n, lead, v, eof);
    }
  }

  /** What is found is accepted by checkValid. */
  lemma FoundValid(data: bytes, eof: bool)
    requires FirstValue(data, eof).Found?
    ensures FirstValue(data, eof).n <= |data| && Valid(data[..FirstValue(data, eof).n])
  {
    hide Text, Walk, WfVal;
    var lead, v := FoundIsFirst(data, eof);
    var value := data[..FirstValue(data, eof).n];
    assert value == lead + Text(v) + [];
    assert IsText(value, lead, v, []);
    ValidIffText(value);
  }

  // ---- nextValue ----

  /** The walk has come to `i` in state `s`. */
  predicate Walking(data: bytes, eof: bool, s: Scan, i: nat) {
    i <= |data| && Running(s) && FirstValue(data, eof) == Shift(Walk(s, data[i..], eof), i)
  }

  lemma WalkStarts(data: bytes, eof: bool)
    ensures Walking(data, eof, Fresh, 0)
  {
    hide Walk;
    assert data[0..] == data;
  }

  /** One turn of the loop: the value ends here, or the walk goes on. */
  lemma WalkTurn(data: bytes, eof: bool, s: Scan, i: nat)
    requires Walking(data, eof, s, i) && i < |data|
    ensures Wf(s)
    ensures var (s', code) := Next(s, data[i]);
            && (code == End ==> FirstValue(data, eof) == Found(i))
            && (code == Error ==> FirstValue(data, eof) == Broken)
            && (Probes(s', code) ==> FirstValue(data, eof) == Found(i + 1))
            && (code != End && code != Error && !Probes(s', code) ==> Walking(data, eof, s', i + 1))
            && (Probes(s', code) <==> (code == EndObject || code == EndArray) && Next(s', SPACE).1 == End)
            && (code == EndObject || code == EndArray ==> Probes(s', code) || Next(s', SPACE).0 == s')
  {
    var (s', code) := Next(s, data[i]);
    assert data[i..][1..] == data[i + 1..];
    if code != End && code != Error && !Probes(s', code) {
      StepRuns(s, data[i]);
      if code == EndObject || code == EndArray { ProbeHarmless(s, data[i]); }
    }
    hide Next, AtEof;
  }

  lemma WalkStops(data: bytes, eof: bool, s: Scan)
    requires Walking(data, eof, s, |data|)
    ensures Wf(s) && FirstValue(data, eof) == if eof && AtEof(s).1 == End then Found(|data|) else Cut
    ensures AtEof(s).1 == End <==> Next(s, SPACE).1 == End
    ensures AtEof(s).1 == End || AtEof(s).1 == Error
  {
    assert data[|data|..] == [];
    hide BeginLexeme;
    if Next(s, SPACE).1 == End { EndIsEof(s, SPACE); }
  }

  /** nextValue: the first value and what follows it, or an error. */
  method NextValue(data: bytes, scan: Scanner) returns (value: bytes, rest: bytes, ok: bool)
    modifies scan
    ensures ok <==> FirstValue(data, true).Found?
    ensures ok ==> |value| == FirstValue(data, true).n && value + rest == data && Valid(value)
  {
    hide *;
    scan.Reset();
    WalkStarts(data, true);
    var i: nat := 0;
    while i < |data|
      invariant i <= |data| && scan.Ok() && !scan.redo && Walking(data, true, scan.View(), i)
    {
      ghost var s := scan.View();
      WalkTurn(data, true, s, i);
      var v := scan.Step(data[i]);
      if v == EndObject || v == EndArray {
        // A space tells whether the bracket has ended the top-level value.
        var probe := scan.Step(SPACE);
        if probe == End {
          FoundIs(data, true, i + 1);
          return data[..i + 1], data[i + 1..], true;
        }
      } else if v == Error {
        FoundIsNot(data, true);
        return [], [], false;
      } else if v == End {
        FoundIs(data, true, i);
        return data[..i], data[i..], true;
      }
      i := i + 1;
    }
    WalkStops(data, true, scan.View());
    var code := scan.Eof();
    if code == Error {
      FoundIsNot(data, true);
      return [], [], false;
    }
    FoundIs(data, true, |data|);
    return data, [], true;
  }

  lemma FoundIs(data: bytes, eof: bool, n: nat)
    requires FirstValue(data, eof) == Found(n)
    ensures n <= |data| && FirstValue(data, eof).Found? && Valid(data[..n]) && data[..n] + data[n..] == data
    ensures n == |data| ==> data[..n] == data
  {
    FoundValid(data, eof);
  }

  lemma FoundIsNot(data: bytes, eof: bool)
    requires FirstValue(data, eof) == Broken || FirstValue(data, eof) == Cut
    ensures !FirstValue(data, eof).Found?
  {
  }
}
