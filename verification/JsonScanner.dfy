/**
 The byte-at-a-time JSON scanner: its transition function, and the scanner object that carries it out
 in place.
 */
module JsonScanner {
  import opened Options
  import opened Bytes

  /** The state functions.  `InName(rest)` stands for the ten states inside true, false and null (stateT is
      InName("rue")), and `EscU(n)` for stateInStringEscU after n hexadecimal digits. */
  datatype Step =
    | BeginValue | BeginValueOrEmpty | BeginString | BeginStringOrEmpty
    | EndValue | EndTop
    | InString | InStringEsc | EscU(n: nat)
    | Neg | One | Zero | Dot | Dot0 | Exp | ExpSign | Exp0
    | InName(rest: bytes)
    | Failed
    | Redo

  datatype Parse = ObjectKey | ObjectValue | ArrayValue

  datatype Code =
    | Continue
    | BeginLiteral
    | BeginObject
    | GotKey
    | GotValue
    | EndObject
    | BeginArray
    | GotElement
    | EndArray
    | SkipSpace
    | End
    | Error

  datatype Scan = Scan(step: Step, stack: seq<Parse>, endTop: bool, err: bool)

  const Fresh := Scan(BeginValue, [], false, false)

  function Top(s: Scan): Parse
    requires s.stack != []
  {
    s.stack[|s.stack| - 1]
  }

  /** The step is one that may meet this stack: the state functions index the top of the stack freely. */
  predicate Wf(s: Scan) {
    && (s.step == BeginString || s.step == BeginStringOrEmpty ==> s.stack != [] && Top(s) == ObjectKey)
    && (s.step == BeginValueOrEmpty ==> s.stack != [] && Top(s) == ArrayValue)
    && (s.step.InName? ==> s.step.rest != [])
    && s.step != Redo
    && (s.step == Failed <==> s.err)
  }

  function SetTop(s: Scan, p: Parse): Scan
    requires s.stack != []
  {
    s.(stack := s.stack[|s.stack| - 1 := p])
  }

  function Fail(s: Scan): (r: (Scan, Code))
    ensures Wf(r.0)
  {
    (s.(step := Failed, err := true), Error)
  }

  function Pop(s: Scan): Scan
    requires s.stack != []
  {
    var stack := s.stack[..|s.stack| - 1];
    if stack == [] then s.(stack := [], step := EndTop, endTop := true)
    else s.(stack := stack, step := EndValue)
  }

  function NextBeginValue(s: Scan, c: byte): (r: (Scan, Code))
    requires Wf(s) && (s.step == BeginValue || s.step == BeginValueOrEmpty)
    ensures Wf(r.0)
  {
    if IsSpace(c) then (s, SkipSpace)
    else if c == LBRACE then (s.(step := BeginStringOrEmpty, stack := s.stack + [ObjectKey]), BeginObject)
    else if c == LBRACK then (s.(step := BeginValueOrEmpty, stack := s.stack + [ArrayValue]), BeginArray)
    else
      match BeginLexeme(c)
      case Some(q) => (s.(step := q), BeginLiteral)
      case None => Fail(s)
  }

  /** The state after the first byte of a string, number or name. */
  function BeginLexeme(c: byte): (r: Option<Step>)
    ensures r.Some? ==> !(r.value in {BeginString, BeginStringOrEmpty, BeginValueOrEmpty, Failed, Redo})
    ensures r.Some? && r.value.InName? ==> r.value.rest != []
  {
    if c == QUOTE then Some(InString)
    else if c == 0x2D then Some(Neg)
    else if c == 0x30 then Some(Zero)
    else if c == 0x74 then Some(InName(TRUE[1..]))
    else if c == 0x66 then Some(InName(FALSE[1..]))
    else if c == 0x6E then Some(InName(NULL[1..]))
    else if 0x31 <= c <= 0x39 then Some(One)
    else None
  }

  function NextBeginString(s: Scan, c: byte): (r: (Scan, Code))
    requires Wf(s) && (s.step == BeginString || s.step == BeginStringOrEmpty)
    ensures Wf(r.0)
  {
    if IsSpace(c) then (s, SkipSpace)
    else if c == QUOTE then (s.(step := InString), BeginLiteral)
    else Fail(s)
  }

  /** stateEndTop complains about a byte that is not a space only at the next call. */
  function NextEndTop(s: Scan, c: byte): (r: (Scan, Code))
    requires Wf(s) && (s.step == EndTop)
    ensures Wf(r.0)
  {
    (if IsSpace(c) then s else Fail(s).0, End)
  }

  function NextEndValue(s: Scan, c: byte): (r: (Scan, Code))
    requires !s.err
    ensures Wf(r.0)
  {
    if s.stack == [] then NextEndTop(s.(step := EndTop, endTop := true), c)
    else if IsSpace(c) then (s.(step := EndValue), SkipSpace)
    else
      match Top(s)
      case ObjectKey =>
        if c == COLON then (SetTop(s, ObjectValue).(step := BeginValue), GotKey) else Fail(s)
      case ObjectValue =>
        if c == COMMA then (SetTop(s, ObjectKey).(step := BeginString), GotValue)
        else if c == RBRACE then (Pop(s), EndObject)
        else Fail(s)
      case ArrayValue =>
        if c == COMMA then (s.(step := BeginValue), GotElement)
        else if c == RBRACK then (Pop(s), EndArray)
        else Fail(s)
  }

  /** Inside a string, number or name: the next state, if the byte belongs to it. */
  function NextLexeme(q: Step, c: byte): (r: Option<Step>)
    ensures r.Some? ==> r.value == EndValue || !(r.value in {BeginString, BeginStringOrEmpty, BeginValueOrEmpty, Failed, Redo})
    ensures r.Some? && r.value.InName? ==> r.value.rest != []
  {
    match q
    case InString =>
      if c == QUOTE then Some(EndValue)
      else if c == BACKSLASH then Some(InStringEsc)
      else if c < 0x20 then None
      else Some(InString)
    case InStringEsc =>
      if IsEscape(c) then Some(InString) else if c == 0x75 then Some(EscU(0)) else None
    case EscU(n) => if IsHex(c) then Some(if n < 3 then EscU(n + 1) else InString) else None
    case Neg => if c == 0x30 then Some(Zero) else if 0x31 <= c <= 0x39 then Some(One) else None
    case One =>
      if IsDigit(c) then Some(One) else if c == 0x2E then Some(Dot) else if IsE(c) then Some(Exp) else None
    case Zero => if c == 0x2E then Some(Dot) else if IsE(c) then Some(Exp) else None
    case Dot => if IsDigit(c) then Some(Dot0) else None
    case Dot0 => if IsDigit(c) then Some(Dot0) else if IsE(c) then Some(Exp) else None
    case Exp => if c == 0x2B || c == 0x2D then Some(ExpSign) else if IsDigit(c) then Some(Exp0) else None
    case ExpSign => if IsDigit(c) then Some(Exp0) else None
    case Exp0 => if IsDigit(c) then Some(Exp0) else None
    case InName(rest) =>
      if rest != [] && c == rest[0] then Some(if |rest| == 1 then EndValue else InName(rest[1..])) else None
    case _ => None
  }

  predicate IsEscape(c: byte) {
    c == 0x62 || c == 0x66 || c == 0x6E || c == 0x72 || c == 0x74 || c == BACKSLASH || c == 0x2F || c == QUOTE
  }

  predicate IsE(c: byte) {
    c == 0x65 || c == 0x45
  }

  /** A number may end here. */
  predicate EndsNumber(q: Step) {
    q == One || q == Zero || q == Dot0 || q == Exp0
  }

  function NextInLexeme(s: Scan, c: byte): (r: (Scan, Code))
    requires Wf(s)
    ensures Wf(r.0)
  {
    match NextLexeme(s.step, c)
    case Some(q) => (s.(step := q), Continue)
    case None => if EndsNumber(s.step) then NextEndValue(s, c) else Fail(s)
  }

  /** One call of scan.step. */
  function Next(s: Scan, c: byte): (r: (Scan, Code))
    requires Wf(s)
    ensures Wf(r.0)
  {
    if s.step == BeginValue then NextBeginValue(s, c)
    else if s.step == BeginValueOrEmpty then
      if c == RBRACK then NextEndValue(s, c) else NextBeginValue(s, c)
    else if s.step == BeginString then NextBeginString(s, c)
    else if s.step == BeginStringOrEmpty then
      if c == RBRACE then NextEndValue(SetTop(s, ObjectValue), c) else NextBeginString(s, c)
    else if s.step == EndValue then NextEndValue(s, c)
    else if s.step == EndTop then NextEndTop(s, c)
    else if s.step == Failed then (s, Error)
    else NextInLexeme(s, c)
  }

  /** scan.eof: the state and code at the end of the input. */
  function AtEof(s: Scan): (r: (Scan, Code))
    requires Wf(s)
  {
    if s.err then (s, Error)
    else if s.endTop then (s, End)
    else
      var s' := Next(s, SPACE).0;
      if s'.endTop then (s', End) else (s'.(err := true), Error)
  }

  // ---- Whole inputs ----

  function Run(s: Scan, data: bytes): (r: Scan)
    requires Wf(s)
    ensures Wf(r)
  {
    if data == [] then s else Next(Run(s, data[..|data| - 1]), data[|data| - 1]).0
  }

  /** Data that the scanner takes to its end without an error. */
  predicate Valid(data: bytes) {
    AtEof(Run(Fresh, data)).1 == End
  }

  lemma FreshWf()
    ensures Wf(Fresh)
  {
  }

  /** An error is final. */
  lemma {:induction false} ErrorIsFinal(s: Scan, data: bytes)
    requires Wf(s) && s.step == Failed
    ensures Run(s, data) == s
  {
    if data != [] { ErrorIsFinal(s, data[..|data| - 1]); }
  }

  lemma {:induction false} RunConcat(s: Scan, a: bytes, b: bytes)
    requires Wf(s)
    ensures Run(s, a + b) == Run(Run(s, a), b)
  {
    if b == [] {
      assert a + b == a;
    } else {
      assert (a + b)[..|a + b| - 1] == a + b[..|b| - 1];
      RunConcat(s, a, b[..|b| - 1]);
    }
  }

  lemma RunOne(s: Scan, c: byte)
    requires Wf(s)
    ensures Run(s, [c]) == Next(s, c).0
  {
    assert [c][..0] == [];
  }

  // ---- The scanner object ----

  class Scanner {
    var step: Step
    var parseState: seq<Parse>
    var endTop: bool
    var err: bool
    var redo: bool
    var redoCode: Code
    var redoState: Step

    /** The state that the next step starts from, when no undo is pending. */
    function View(): Scan
      reads this
    {
      Scan(step, parseState, endTop, err)
    }

    /** The state that an undo has set aside. */
    function Behind(): Scan
      reads this
    {
      Scan(redoState, parseState, endTop, err)
    }

    predicate Ok()
      reads this
    {
      (step == Redo <==> redo) && (if redo then Wf(Behind()) else Wf(View()))
    }

    constructor ()
      ensures Ok() && !redo && View() == Fresh
    {
      step, parseState, endTop, err := BeginValue, [], false, false;
      redo, redoCode, redoState := false, Continue, BeginValue;
    }

    method Reset()
      modifies this
      ensures Ok() && !redo && View() == Fresh
    {
      step := BeginValue;
      parseState := [];
      err := false;
      redo := false;
      endTop := false;
    }

    method Fault() returns (code: Code)
      modifies this`step, this`err
      ensures step == Failed && err && code == Error
    {
      step := Failed;
      err := true;
      code := Error;
    }

    method PushParseState(p: Parse)
      modifies this`parseState
      ensures parseState == old(parseState) + [p]
    {
      parseState := parseState + [p];
    }

    method PopParseState()
      requires parseState != []
      modifies this`step, this`parseState, this`endTop, this`redo
      ensures View() == Pop(old(View())) && !redo
    {
      var n := |parseState| - 1;
      parseState := parseState[..n];
      redo := false;
      if n == 0 {
        step := EndTop;
        endTop := true;
      } else {
        step := EndValue;
      }
    }

    method StateBeginValue(c: byte) returns (code: Code)
      requires Ok() && !redo && (step == BeginValue || step == BeginValueOrEmpty)
      modifies this
      ensures Ok() && !redo && (View(), code) == NextBeginValue(old(View()), c)
    {
      if IsSpace(c) { return SkipSpace; }
      if c == LBRACE {
        step := BeginStringOrEmpty;
        PushParseState(ObjectKey);
        return BeginObject;
      } else if c == LBRACK {
        step := BeginValueOrEmpty;
        PushParseState(ArrayValue);
        return BeginArray;
      }
      var q := BeginLexeme(c);
      if q.Some? {
        step := q.value;
        return BeginLiteral;
      }
      code := Fault();
    }

    method StateBeginString(c: byte) returns (code: Code)
      requires Ok() && !redo && (step == BeginString || step == BeginStringOrEmpty)
      modifies this
      ensures Ok() && !redo && (View(), code) == NextBeginString(old(View()), c)
    {
      if IsSpace(c) { return SkipSpace; }
      if c == QUOTE {
        step := InString;
        return BeginLiteral;
      }
      code := Fault();
    }

    method StateEndTop(c: byte) returns (code: Code)
      requires !redo && step == EndTop && !err
      modifies this
      ensures Ok() && !redo && (View(), code) == NextEndTop(old(View()), c)
    {
      if !IsSpace(c) { var _ := Fault(); }
      code := End;
    }

    method StateEndValue(c: byte) returns (code: Code)
      requires !redo && step != Redo && !err
      modifies this
      ensures Ok() && !redo && (View(), code) == NextEndValue(old(View()), c)
    {
      var n := |parseState|;
      if n == 0 {
        step := EndTop;
        endTop := true;
        code := StateEndTop(c);
        return;
      }
      if IsSpace(c) {
        step := EndValue;
        return SkipSpace;
      }
      match parseState[n - 1]
      case ObjectKey =>
        if c == COLON {
          parseState := parseState[n - 1 := ObjectValue];
          step := BeginValue;
          return GotKey;
        }
        code := Fault();
      case ObjectValue =>
        if c == COMMA {
          parseState := parseState[n - 1 := ObjectKey];
          step := BeginString;
          return GotValue;
        }
        if c == RBRACE {
          PopParseState();
          return EndObject;
        }
        code := Fault();
      case ArrayValue =>
        if c == COMMA {
          step := BeginValue;
          return GotElement;
        }
        if c == RBRACK {
          PopParseState();
          return EndArray;
        }
        code := Fault();
    }

    /** The state functions inside strings, numbers and names. */
    method StateInLexeme(c: byte) returns (code: Code)
      requires Ok() && !redo
      modifies this
      ensures Ok() && !redo && (View(), code) == NextInLexeme(old(View()), c)
    {
      var q := NextLexeme(step, c);
      if q.Some? {
        step := q.value;
        code := Continue;
      } else if EndsNumber(step) {
        code := StateEndValue(c);
      } else {
        code := Fault();
      }
    }

    method StateRedo(c: byte) returns (code: Code)
      requires Ok() && redo
      modifies this`redo, this`step
      ensures Ok() && !redo && View() == old(Behind()) && code == redoCode
    {
      redo := false;
      step := redoState;
      code := redoCode;
    }

    /** scan.step(scan, c) */
    method Step(c: byte) returns (code: Code)
      requires Ok()
      modifies this
      ensures Ok() && !redo
      ensures if old(redo) then View() == old(Behind()) && code == old(redoCode)
              else (View(), code) == Next(old(View()), c)
    {
      match step
      case Redo => code := StateRedo(c);
      case BeginValue => code := StateBeginValue(c);
      case BeginValueOrEmpty =>
        if c == RBRACK { code := StateEndValue(c); } else { code := StateBeginValue(c); }
      case BeginString => code := StateBeginString(c);
      case BeginStringOrEmpty =>
        if c == RBRACE {
          parseState := parseState[|parseState| - 1 := ObjectValue];
          code := StateEndValue(c);
        } else {
          code := StateBeginString(c);
        }
      case EndValue => code := StateEndValue(c);
      case EndTop => code := StateEndTop(c);
      case Failed => code := Error;
      case _ => code := StateInLexeme(c);
    }

    /** scan.eof. With an undo pending the probing space is answered by the undo, and so the end is an error unless
        the top-level value is already known to be over. */
    method Eof() returns (code: Code)
      requires Ok()
      modifies this
      ensures !old(redo) ==> !redo && (View(), code) == AtEof(old(View()))
      ensures old(redo) && (old(err) || old(endTop)) ==>
        unchanged(this) && code == if err then Error else End
      ensures old(redo) && !old(err) && !old(endTop) ==> !redo && View() == old(Behind()).(err := true) && code == Error
    {
      if err { return Error; }
      if endTop { return End; }
      var _ := Step(SPACE);
      if endTop { return End; }
      err := true;
      code := Error;
    }

    method Undo(code: Code)
      requires Ok() && !redo
      modifies this
      ensures Ok() && redo && Behind() == old(View()) && redoCode == code
    {
      redoCode := code;
      redoState := step;
      step := Redo;
      redo := true;
    }
  }

  /** checkValid: nil exactly for valid data. */
  method CheckValid(data: bytes, scan: Scanner) returns (ok: bool)
    modifies scan
    ensures ok == Valid(data)
  {
    FreshWf();
    hide *;
    scan.Reset();
    var i := 0;
    RunNone(Fresh, data);
    while i < |data|
      invariant 0 <= i <= |data|
      invariant scan.Ok() && !scan.redo && scan.View() == Run(Fresh, data[..i])
    {
      RunSnoc(Fresh, data, i);
      var code := scan.Step(data[i]);
      if code == Error {
        ErrorInvalid(data, i);
        return false;
      }
      i := i + 1;
    }
    assert data[..i] == data;
    var code := scan.Eof();
    ValidCode(data);
    ok := code != Error;
  }

  lemma RunNone(s: Scan, data: bytes)
    requires Wf(s)
    ensures Run(s, data[..0]) == s
  {
  }

  /** The state after one byte more. */
  lemma RunSnoc(s: Scan, data: bytes, i: nat)
    requires Wf(s) && i < |data|
    ensures Run(s, data[..i + 1]) == Next(Run(s, data[..i]), data[i]).0
  {
    hide *;
    assert data[..i + 1] == data[..i] + [data[i]];
    RunConcat(s, data[..i], [data[i]]);
    RunOne(Run(s, data[..i]), data[i]);
  }

  /** Data with an error on the way is not valid. */
  lemma ErrorInvalid(data: bytes, i: nat)
    requires i < |data| && Next(Run(Fresh, data[..i]), data[i]).1 == Error
    ensures !Valid(data) && Run(Fresh, data[..i + 1]).err
  {
    FreshWf();
    hide Next, Run, AtEof;
    RunSnoc(Fresh, data, i);
    ErrorCode(Run(Fresh, data[..i]), data[i]);
    ErrorIsFinal(Run(Fresh, data[..i + 1]), data[i + 1..]);
    assert data == data[..i + 1] + data[i + 1..];
    RunConcat(Fresh, data[..i + 1], data[i + 1..]);
    ErrorAtEof(Run(Fresh, data));
  }

  lemma ErrorAtEof(s: Scan)
    requires Wf(s) && s.err
    ensures AtEof(s).1 == Error
  {
  }

  lemma ValidCode(data: bytes)
    ensures Valid(data) <==> AtEof(Run(Fresh, data)).1 == End
    ensures AtEof(Run(Fresh, data)).1 == End || AtEof(Run(Fresh, data)).1 == Error
  {
    hide Run;
  }

  lemma ErrorCode(s: Scan, c: byte)
    requires Wf(s)
    ensures Next(s, c).1 == Error ==> Next(s, c).0.step == Failed && Next(s, c).0.err
  {
  }
}
