/**
 The edit distance of two byte strings: the least number of single-byte insertions, deletions and
 substitutions, at any positions, that lead from one to the other; and the recurrence that computes it.
 */
module EditDistance {
  import opened Bytes

  // ---- Edits ----

  predicate IsEdit(x: bytes, y: bytes, u: bytes, p: bytes, q: bytes, v: bytes) {
    x == u + p + v && y == u + q + v && |p| <= 1 && |q| <= 1
  }

  /** `y` comes from `x` by at most one insertion, deletion or substitution of a byte, at any position. */
  ghost predicate OneEdit(x: bytes, y: bytes) {
    exists u, p, q, v :: IsEdit(x, y, u, p, q, v)
  }

  /** A script from `a` to `b`: the strings it passes through. */
  ghost predicate IsScript(ss: seq<bytes>, a: bytes, b: bytes) {
    && ss != [] && ss[0] == a && ss[|ss| - 1] == b
    && forall i :: 0 <= i < |ss| - 1 ==> OneEdit(ss[i], ss[i + 1])
  }

  // ---- The recurrence ----

  function Min(a: int, b: int): int {
    if a > b then b else a
  }

  function Max(a: int, b: int): (r: int)
    ensures r >= a && r >= b && (r == a || r == b)
  {
    if a > b then a else b
  }

  function MinOfThree(a: int, b: int, c: int): int {
    Min(Min(a, b), c)
  }

  function Init(s: bytes): bytes
    requires s != []
  {
    s[..|s| - 1]
  }

  function Last(s: bytes): byte
    requires s != []
  {
    s[|s| - 1]
  }

  function Distance(a: bytes, b: bytes): nat
    decreases |a| + |b|
  {
    if a == [] then |b|
    else if b == [] then |a|
    else MinOfThree(Distance(Init(a), b) + 1, Distance(a, Init(b)) + 1,
                    Distance(Init(a), Init(b)) + if Last(a) != Last(b) then 1 else 0)
  }

  lemma {:induction false} DistanceSymmetric(a: bytes, b: bytes)
    ensures Distance(a, b) == Distance(b, a)
    decreases |a| + |b|
  {
    if a != [] && b != [] {
      DistanceSymmetric(Init(a), b);
      DistanceSymmetric(a, Init(b));
      DistanceSymmetric(Init(a), Init(b));
    }
  }

  lemma {:induction false} DistanceBounds(a: bytes, b: bytes)
    ensures |a| - |b| <= Distance(a, b) && |b| - |a| <= Distance(a, b)
    ensures Distance(a, b) <= Max(|a|, |b|)
    decreases |a| + |b|
  {
    if a != [] && b != [] {
      DistanceBounds(Init(a), b);
      DistanceBounds(a, Init(b));
      DistanceBounds(Init(a), Init(b));
    }
  }

  lemma {:induction false} DistanceSame(a: bytes)
    ensures Distance(a, a) == 0
  {
    if a != [] { DistanceSame(Init(a)); }
  }

  // ---- No script is shorter ----

  lemma DistanceCases(a: bytes, b: bytes)
    ensures a == [] && b == [] ==> Distance(a, b) == 0
    ensures a != [] && b == [] ==> Distance(a, b) == Distance(Init(a), b) + 1
    ensures a == [] && b != [] ==> Distance(a, b) == Distance(a, Init(b)) + 1
    ensures a != [] && b != [] ==>
      || Distance(a, b) == Distance(Init(a), b) + 1
      || Distance(a, b) == Distance(a, Init(b)) + 1
      || Distance(a, b) == Distance(Init(a), Init(b)) + if Last(a) != Last(b) then 1 else 0
    ensures a != [] ==> Distance(a, b) <= Distance(Init(a), b) + 1
    ensures b != [] ==> Distance(a, b) <= Distance(a, Init(b)) + 1
    ensures a != [] && b != [] ==> Distance(a, b) <= Distance(Init(a), Init(b)) + 1
  {
    if a != [] && b == [] { assert Distance(Init(a), b) == |a| - 1; }
  }

  /** One byte at the end, or none. */
  lemma EndAdds(u: bytes, p: bytes, b: bytes)
    requires |p| <= 1
    ensures Distance(u + p, b) <= Distance(u, b) + 1
    ensures b != [] ==> Distance(u + p, b) <= Distance(u, Init(b)) + 1
  {
    hide Distance;
    DistanceCases(u + p, b);
    if p == [] {
      assert u + p == u;
    } else {
      assert Init(u + p) == u;
    }
  }

  /** An edit at the end. */
  lemma {:induction false} EndEdit(u: bytes, p: bytes, q: bytes, b: bytes)
    requires |p| <= 1 && |q| <= 1
    ensures Distance(u + p, b) <= Distance(u + q, b) + 1
    decreases |b|
  {
    if b == [] {
      assert Distance(u + p, b) == |u + p| && Distance(u + q, b) == |u + q|;
    } else {
      hide Distance;
      EndEdit(u, p, q, Init(b));
      EndAdds(u, p, b);
      DistanceCases(u + p, b);
      DistanceCases(u + q, b);
      if q == [] {
        assert u + q == u;
      } else {
        assert Init(u + q) == u;
      }
    }
  }

  /** One edit, wherever it is, brings a string no more than one step nearer to any other. */
  lemma {:induction false} EditBound(u: bytes, p: bytes, q: bytes, v: bytes, b: bytes)
    requires |p| <= 1 && |q| <= 1
    ensures Distance(u + p + v, b) <= Distance(u + q + v, b) + 1
    decreases |v| + |b|
  {
    var x, y := u + p + v, u + q + v;
    if v == [] {
      assert x == u + p && y == u + q;
      EndEdit(u, p, q, b);
    } else if b == [] {
      assert Distance(x, b) == |x| && Distance(y, b) == |y|;
    } else {
      assert Init(x) == u + p + Init(v) && Init(y) == u + q + Init(v) && Last(x) == Last(v) == Last(y);
      EditBound(u, p, q, Init(v), b);
      EditBound(u, p, q, v, Init(b));
      EditBound(u, p, q, Init(v), Init(b));
    }
  }

  lemma {:induction false} NoShorterScript(ss: seq<bytes>, a: bytes, b: bytes)
    requires IsScript(ss, a, b)
    ensures Distance(a, b) <= |ss| - 1
    decreases |ss|
  {
    if |ss| == 1 {
      DistanceSame(a);
    } else {
      assert OneEdit(ss[0], ss[1]);
      var u, p, q, v :| IsEdit(ss[0], ss[1], u, p, q, v);
      EditBound(u, p, q, v, b);
      assert IsScript(ss[1..], ss[1], b);
      NoShorterScript(ss[1..], ss[1], b);
    }
  }

  // ---- A script of that length ----

  lemma EditIs(x: bytes, y: bytes, u: bytes, p: bytes, q: bytes, v: bytes)
    requires IsEdit(x, y, u, p, q, v)
    ensures OneEdit(x, y)
  {
  }

  lemma EditBefore(x: bytes, y: bytes, c: byte)
    requires OneEdit(x, y)
    ensures OneEdit(x + [c], y + [c])
  {
    var u, p, q, v :| IsEdit(x, y, u, p, q, v);
    assert x + [c] == u + p + (v + [c]) && y + [c] == u + q + (v + [c]);
    EditIs(x + [c], y + [c], u, p, q, v + [c]);
  }

  function Appended(ss: seq<bytes>, c: byte): (r: seq<bytes>)
    ensures |r| == |ss| && forall i :: 0 <= i < |ss| ==> r[i] == ss[i] + [c]
  {
    seq(|ss|, i requires 0 <= i < |ss| => ss[i] + [c])
  }

  lemma AppendedScript(ss: seq<bytes>, a: bytes, b: bytes, c: byte)
    requires IsScript(ss, a, b)
    ensures IsScript(Appended(ss, c), a + [c], b + [c])
  {
    var r := Appended(ss, c);
    forall i | 0 <= i < |r| - 1 ensures OneEdit(r[i], r[i + 1]) {
      EditBefore(ss[i], ss[i + 1], c);
    }
  }

  lemma ScriptStarts(x: bytes, ss: seq<bytes>, a: bytes, b: bytes)
    requires OneEdit(x, a) && IsScript(ss, a, b)
    ensures IsScript([x] + ss, x, b)
  {
    var r := [x] + ss;
    hide OneEdit;
    forall i | 0 <= i < |r| - 1 ensures OneEdit(r[i], r[i + 1]) {
      if i > 0 { assert r[i] == ss[i - 1] && r[i + 1] == ss[i]; }
    }
  }

  lemma ScriptEnds(ss: seq<bytes>, a: bytes, b: bytes, y: bytes)
    requires OneEdit(b, y) && IsScript(ss, a, b)
    ensures IsScript(ss + [y], a, y)
  {
    hide OneEdit;
  }

  lemma {:induction false} SomeScript(a: bytes, b: bytes) returns (ss: seq<bytes>)
    ensures IsScript(ss, a, b) && |ss| == Distance(a, b) + 1
    decreases |a| + |b|
  {
    hide OneEdit, IsScript, Distance;
    DistanceCases(a, b);
    if a == [] && b == [] {
      ss := [[]];
      OneString([]);
    } else if b == [] || (a != [] && Distance(a, b) == Distance(Init(a), b) + 1) {
      var s0 := SomeScript(Init(a), b);
      assert a == Init(a) + [Last(a)] + [] && Init(a) == Init(a) + [] + [];
      EditIs(a, Init(a), Init(a), [Last(a)], [], []);
      ScriptStarts(a, s0, Init(a), b);
      ss := [a] + s0;
    } else if a == [] || Distance(a, b) == Distance(a, Init(b)) + 1 {
      var s0 := SomeScript(a, Init(b));
      assert b == Init(b) + [Last(b)] + [] && Init(b) == Init(b) + [] + [];
      EditIs(Init(b), b, Init(b), [], [Last(b)], []);
      ScriptEnds(s0, a, Init(b), b);
      ss := s0 + [b];
    } else {
      ss := SubstituteScript(a, b);
    }
  }

  lemma OneString(a: bytes)
    ensures IsScript([a], a, a)
  {
  }

  /** The last bytes are aligned. */
  lemma {:induction false} SubstituteScript(a: bytes, b: bytes) returns (ss: seq<bytes>)
    requires a != [] && b != [] && Distance(a, b) == Distance(Init(a), Init(b)) + if Last(a) != Last(b) then 1 else 0
    ensures IsScript(ss, a, b) && |ss| == Distance(a, b) + 1
    decreases |a| + |b|, 0
  {
    hide OneEdit, IsScript, Distance;
    var s0 := SomeScript(Init(a), Init(b));
    var c := Last(b);
    assert b == Init(b) + [c] && a == Init(a) + [Last(a)];
    AppendedScript(s0, Init(a), Init(b), c);
    ss := Appended(s0, c);
    if Last(a) != c {
      assert a == Init(a) + [Last(a)] + [] && Init(a) + [c] == Init(a) + [c] + [];
      EditIs(a, Init(a) + [c], Init(a), [Last(a)], [c], []);
      ScriptStarts(a, ss, Init(a) + [c], b);
      ss := [a] + ss;
    }
  }

  /** The distance is the length of a shortest script, over all scripts. */
  lemma DistanceIsLeast(a: bytes, b: bytes)
    ensures exists ss :: IsScript(ss, a, b) && |ss| - 1 == Distance(a, b)
    ensures forall ss :: IsScript(ss, a, b) ==> |ss| - 1 >= Distance(a, b)
  {
    var ss := SomeScript(a, b);
    forall ss' | IsScript(ss', a, b) ensures |ss'| - 1 >= Distance(a, b) {
      NoShorterScript(ss', a, b);
    }
  }
}
