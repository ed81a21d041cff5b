/** NameMatch: the distance table, kept row by row in one flat array, and the decision taken from its last cell. */
module NameMatch {
  import opened Bytes
  import opened EditDistance

  /** The place of row `i` and column `j` in a table with columns 0 to `n`. */
  function Cell(n: nat, i: nat, j: nat): nat {
    i * (n + 1) + j
  }

  lemma CellInside(m: nat, n: nat, i: nat, j: nat)
    requires i <= m && j <= n
    ensures Cell(n, i, j) < (m + 1) * (n + 1)
    ensures Cell(n, m, n) == (m + 1) * (n + 1) - 1
  {
    assert i * (n + 1) <= m * (n + 1);
  }

  /** Different rows and columns are in different places. */
  lemma CellsDiffer(n: nat, i: nat, j: nat, i': nat, j': nat)
    requires j <= n && j' <= n && (i != i' || j != j')
    ensures Cell(n, i, j) != Cell(n, i', j')
  {
    if i < i' {
      assert (i + 1) * (n + 1) <= i' * (n + 1);
    } else if i' < i {
      assert (i' + 1) * (n + 1) <= i * (n + 1);
    }
  }

  /** The cells before (i, j) row by row, and those of the first row and column, hold distances of prefixes. */
  ghost predicate Filled(table: seq<int>, a: bytes, b: bytes, i: nat, j: nat)
    requires |table| == (|a| + 1) * (|b| + 1)
  {
    forall p: nat, q: nat :: p <= |a| && q <= |b| && Before(p, q, i, j) ==> Holds(table, a, b, p, q)
  }

  predicate Before(p: nat, q: nat, i: nat, j: nat) {
    p == 0 || q == 0 || p < i || (p == i && q < j)
  }

  predicate Holds(table: seq<int>, a: bytes, b: bytes, p: nat, q: nat) {
    p <= |a| && q <= |b| && Cell(|b|, p, q) < |table| && table[Cell(|b|, p, q)] == Distance(a[..p], b[..q])
  }

  /** newMatrix: the first row and the first column. */
  method NewMatrix(m: nat, n: nat) returns (ret: array<int>)
    ensures fresh(ret) && ret.Length == (m + 1) * (n + 1)
    ensures forall j: nat :: j <= n ==> Cell(n, 0, j) < ret.Length && ret[Cell(n, 0, j)] == j
    ensures forall i: nat :: i <= m ==> Cell(n, i, 0) < ret.Length && ret[Cell(n, i, 0)] == i
  {
    forall i: nat, j: nat | i <= m && j <= n ensures Cell(n, i, j) < (m + 1) * (n + 1) {
      CellInside(m, n, i, j);
    }
    ret := new int[(m + 1) * (n + 1)];
    var i: nat := 0;
    while i <= n
      invariant i <= n + 1
      invariant forall j: nat :: j < i ==> ret[Cell(n, 0, j)] == j
    {
      assert Cell(n, 0, i) == i;
      ret[i] := i;
      i := i + 1;
    }
    i := 0;
    while i <= m
      invariant i <= m + 1
      invariant forall j: nat :: j <= n ==> ret[Cell(n, 0, j)] == j
      invariant forall k: nat :: k < i ==> ret[Cell(n, k, 0)] == k
    {
      assert Cell(n, i, 0) == i * (n + 1);
      forall k: nat, j: nat | j <= n && (k, j) != (i, 0) ensures Cell(n, k, j) != Cell(n, i, 0) {
        CellsDiffer(n, k, j, i, 0);
      }
      hide Cell;
      ret[i * (n + 1)] := i;
      i := i + 1;
    }
  }

  /** The new cell is the minimum that the recurrence asks for. */
  lemma CellComputes(table: seq<int>, a: bytes, b: bytes, i: nat, j: nat, temp: int)
    requires |table| == (|a| + 1) * (|b| + 1) && 1 <= i <= |a| && 1 <= j <= |b| && Filled(table, a, b, i, j)
    requires temp == if a[i - 1] != b[j - 1] then 1 else 0
    ensures Holds(table, a, b, i - 1, j) && Holds(table, a, b, i, j - 1) && Holds(table, a, b, i - 1, j - 1)
    ensures Distance(a[..i], b[..j]) == MinOfThree(table[Cell(|b|, i - 1, j)] + 1, table[Cell(|b|, i, j - 1)] + 1,
                                                   table[Cell(|b|, i - 1, j - 1)] + temp)
  {
    assert Before(i - 1, j, i, j) && Before(i, j - 1, i, j) && Before(i - 1, j - 1, i, j);
    assert Init(a[..i]) == a[..i - 1] && Init(b[..j]) == b[..j - 1];
    hide Cell;
  }

  lemma FilledMore(table: seq<int>, table': seq<int>, a: bytes, b: bytes, i: nat, j: nat)
    requires |table| == |table'| == (|a| + 1) * (|b| + 1) && 1 <= i <= |a| && 1 <= j <= |b| && Filled(table, a, b, i, j)
    requires Cell(|b|, i, j) < |table| && table' == table[Cell(|b|, i, j) := Distance(a[..i], b[..j])]
    ensures Filled(table', a, b, i, j + 1)
  {
    forall p: nat, q: nat | p <= |a| && q <= |b| && Before(p, q, i, j + 1) ensures Holds(table', a, b, p, q) {
      if (p, q) != (i, j) {
        assert Before(p, q, i, j);
        assert Holds(table, a, b, p, q);
        CellsDiffer(|b|, p, q, i, j);
      }
    }
  }

  lemma RowDone(table: seq<int>, a: bytes, b: bytes, i: nat)
    requires |table| == (|a| + 1) * (|b| + 1) && Filled(table, a, b, i, |b| + 1)
    ensures Filled(table, a, b, i + 1, 1)
  {
    forall p: nat, q: nat | p <= |a| && q <= |b| && Before(p, q, i + 1, 1) ensures Holds(table, a, b, p, q) {
      assert Before(p, q, i, |b| + 1);
    }
  }

  lemma FirstFilled(table: seq<int>, a: bytes, b: bytes)
    requires |table| == (|a| + 1) * (|b| + 1)
    requires forall j: nat :: j <= |b| ==> Cell(|b|, 0, j) < |table| && table[Cell(|b|, 0, j)] == j
    requires forall i: nat :: i <= |a| ==> Cell(|b|, i, 0) < |table| && table[Cell(|b|, i, 0)] == i
    ensures Filled(table, a, b, 1, 1)
  {
    hide Cell;
    forall p: nat, q: nat | p <= |a| && q <= |b| && Before(p, q, 1, 1) ensures Holds(table, a, b, p, q) {
      assert a[..p] == [] <==> p == 0;
      assert b[..q] == [] <==> q == 0;
    }
  }

  /** `a` is `s` cut, or filled up, to `n` bytes. */
  predicate Fits(s: bytes, n: nat, a: bytes) {
    |a| == n && forall k :: 0 <= k < |s| && k < n ==> a[k] == s[k]
  }

  lemma SomeFit(s: bytes, n: nat) returns (a: bytes)
    ensures Fits(s, n, a) && (n <= |s| ==> a == s[..n])
  {
    a := seq(n, k requires 0 <= k < n => if k < |s| then s[k] else 0);
  }

  /** The table of m+1 rows and n+1 columns for the lowered strings, which are indexed below m and n whatever their
      lengths are. It is not ok where an index lies past the end of its string: the panic. */
  method FillMatrix(s: bytes, t: bytes, m: nat, n: nat) returns (matrix: array<int>, ok: bool)
    requires m > 0 && n > 0
    ensures ok <==> m <= |s| && n <= |t|
    ensures fresh(matrix) && matrix.Length == (m + 1) * (n + 1)
    ensures ok ==> forall i: nat, j: nat :: i <= m && j <= n ==> Holds(matrix[..], s[..m], t[..n], i, j)
  {
    hide Filled, Holds, Distance, Cell, MinOfThree;
    ghost var a := SomeFit(s, m);
    ghost var b := SomeFit(t, n);
    matrix := NewMatrix(m, n);
    FirstFilled(matrix[..], a, b);
    var i := 1;
    while i <= m
      invariant 1 <= i <= m + 1 && i - 1 <= |s| && (i > 1 ==> n <= |t|)
      invariant Filled(matrix[..], a, b, i, 1)
    {
      if i - 1 >= |s| { return matrix, false; }
      var ch1 := s[i - 1];
      var j := 1;
      while j <= n
        invariant 1 <= j <= n + 1 && j - 1 <= |t| && Filled(matrix[..], a, b, i, j)
      {
        if j - 1 >= |t| { return matrix, false; }
        var ch2 := t[j - 1];
        var temp := 0;
        if ch1 != ch2 {
          temp := 1;
        }
        ghost var table := matrix[..];
        CellComputes(table, a, b, i, j, temp);
        Places(m, n, i, j);
        matrix[i * (n + 1) + j] :=
          MinOfThree(matrix[(i - 1) * (n + 1) + j] + 1, matrix[i * (n + 1) + j - 1] + 1, matrix[(i - 1) * (n + 1) + j - 1] + temp);
        FilledMore(table, matrix[..], a, b, i, j);
        j := j + 1;
      }
      RowDone(matrix[..], a, b, i);
      i := i + 1;
    }
    AllFilled(matrix[..], a, b);
    ok := true;
  }

  lemma Places(m: nat, n: nat, i: nat, j: nat)
    requires 1 <= i <= m && 1 <= j <= n
    ensures Cell(n, i, j) == i * (n + 1) + j < (m + 1) * (n + 1)
    ensures 0 <= Cell(n, i - 1, j) == (i - 1) * (n + 1) + j < (m + 1) * (n + 1)
    ensures 0 <= Cell(n, i, j - 1) == i * (n + 1) + j - 1 < (m + 1) * (n + 1)
    ensures 0 <= Cell(n, i - 1, j - 1) == (i - 1) * (n + 1) + j - 1 < (m + 1) * (n + 1)
  {
    CellInside(m, n, i, j);
    CellInside(m, n, i - 1, j);
    CellInside(m, n, i, j - 1);
    CellInside(m, n, i - 1, j - 1);
  }

  lemma AllFilled(table: seq<int>, a: bytes, b: bytes)
    requires |table| == (|a| + 1) * (|b| + 1) && Filled(table, a, b, |a| + 1, 1)
    ensures forall i: nat, j: nat :: i <= |a| && j <= |b| ==> Holds(table, a, b, i, j)
  {
    forall i: nat, j: nat | i <= |a| && j <= |b| ensures Holds(table, a, b, i, j) {
      assert Before(i, j, |a| + 1, 1);
    }
  }

  // ---- The decision ----

  datatype Decision = Matches(yes: bool) | OutOfRange

  /** Some byte that the loops read lies past the end of a lowered string. */
  predicate Shortened(a: bytes, b: bytes, lower: bytes -> bytes) {
    a != [] && b != [] && (|lower(a)| < |a| || |lower(b)| < |b|)
  }

  /** What NameMatch decides, where `lower` stands for strings.ToLower: it compares as many bytes of the lowered
      strings as the original ones have. OutOfRange stands for the panic of an index past the end. */
  function Decide(a: bytes, b: bytes, lower: bytes -> bytes, standard: real): Decision {
    var m, n := |a|, |b|;
    if m == 0 || n == 0 then Matches(false)
    else if Shortened(a, b, lower) then OutOfRange
    else Matches(!(1.0 - Distance(lower(a)[..m], lower(b)[..n]) as real / Max(m, n) as real < standard))
  }

  /** Some script leads from `a` to `b` with at most `limit` edits. */
  ghost predicate ScriptWithin(a: bytes, b: bytes, limit: real) {
    exists ss :: IsScript(ss, a, b) && (|ss| - 1) as real <= limit
  }

  /** The number of edits that the standard allows for. */
  function Allowed(m: nat, n: nat, standard: real): real {
    (1.0 - standard) * Max(m, n) as real
  }

  lemma ScriptIff(a: bytes, b: bytes, limit: real)
    ensures ScriptWithin(a, b, limit) <==> Distance(a, b) as real <= limit
  {
    DistanceIsLeast(a, b);
    hide Distance;
    if ss :| IsScript(ss, a, b) && (|ss| - 1) as real <= limit {
      assert Distance(a, b) <= |ss| - 1;
    }
  }

  /** The share reaches the standard exactly when the distance is small enough. */
  lemma ShareIff(d: nat, most: nat, standard: real)
    requires most > 0
    ensures !(1.0 - d as real / most as real < standard) <==> d as real <= (1.0 - standard) * most as real
  {
    Scales(d as real / most as real, 1.0 - standard, most as real);
    assert d as real / most as real * most as real == d as real;
  }

  lemma Scales(x: real, y: real, m: real)
    requires m > 0.0
    ensures x <= y <==> x * m <= y * m
  {
    if x <= y {
      assert (y - x) * m >= 0.0;
    } else {
      assert (x - y) * m > 0.0;
    }
  }

  /** What the last lines of NameMatch decide. */
  lemma Decided(a: bytes, b: bytes, m: nat, n: nat, standard: real)
    requires m > 0 && n > 0
    ensures 1.0 - Distance(a, b) as real / Max(m, n) as real < standard <==> !ScriptWithin(a, b, Allowed(m, n, standard))
  {
    hide Distance, ScriptWithin;
    ShareIff(Distance(a, b), Max(m, n), standard);
    ScriptIff(a, b, Allowed(m, n, standard));
  }

  lemma Refused(match0: bytes, origin0: bytes, lower: bytes -> bytes, standard: real)
    ensures match0 == [] || origin0 == [] ==> Decide(match0, origin0, lower, standard) == Matches(false)
    ensures Shortened(match0, origin0, lower) <==> Decide(match0, origin0, lower, standard) == OutOfRange
    ensures match0 != [] && origin0 != [] ==>
      (Shortened(match0, origin0, lower) <==> |lower(match0)| < |match0| || |lower(origin0)| < |origin0|)
  {
    hide Distance;
  }

  lemma LastCell(table: seq<int>, a: bytes, b: bytes, m: nat, n: nat)
    requires m <= |a| && n <= |b| && |table| == (m + 1) * (n + 1)
    requires forall i: nat, j: nat :: i <= m && j <= n ==> Holds(table, a[..m], b[..n], i, j)
    ensures 0 <= (m + 1) * (n + 1) - 1 < |table| && table[(m + 1) * (n + 1) - 1] == Distance(a[..m], b[..n])
  {
    hide Distance;
    CellInside(m, n, m, n);
    assert Holds(table, a[..m], b[..n], m, n) && a[..m][..m] == a[..m] && b[..n][..n] == b[..n];
  }

  lemma Answer(match0: bytes, origin0: bytes, lower: bytes -> bytes, standard: real)
    requires match0 != [] && origin0 != [] && !Shortened(match0, origin0, lower)
    ensures var a, b := lower(match0)[..|match0|], lower(origin0)[..|origin0|];
            var most := Max(|match0|, |origin0|);
            && most > 0
            && Decide(match0, origin0, lower, standard) == Matches(!(1.0 - Distance(a, b) as real / most as real < standard))
  {
    hide Distance;
  }

  /** The strings match if and only if few enough edits lead from one to the other. */
  method NameMatch(match0: bytes, origin0: bytes, lower: bytes -> bytes, standard: real) returns (r: Decision)
    ensures match0 == [] || origin0 == [] ==> r == Matches(false)
    ensures match0 != [] && origin0 != [] ==>
      var m, n, a, b := |match0|, |origin0|, lower(match0), lower(origin0);
      if |a| < m || |b| < n then r == OutOfRange
      else r.Matches? && (r.yes <==> ScriptWithin(a[..m], b[..n], Allowed(m, n, standard)))
    ensures r == Decide(match0, origin0, lower, standard)
  {
    hide *;
    Refused(match0, origin0, lower, standard);
    var m, n := |match0|, |origin0|;
    if m == 0 || n == 0 {
      return Matches(false);
    }
    var a, b := lower(match0), lower(origin0);
    var matrix, ok := FillMatrix(a, b, m, n);
    if !ok { return OutOfRange; }
    LastCell(matrix[..], a, b, m, n);
    Answer(match0, origin0, lower, standard);
    Decided(a[..m], b[..n], m, n, standard);
    var percent := 1.0 - matrix[(m + 1) * (n + 1) - 1] as real / Max(m, n) as real;
    if percent < standard {
      return Matches(false);
    }
    r := Matches(true);
  }

  /** U+212A, the Kelvin sign: three bytes, and one once it is lowered. */
  const KELVIN_SIGN: bytes := [0xE2, 0x84, 0xAA]

  /** The panic, for any standard, with whatever string that is not empty the Kelvin sign is compared. */
  lemma KelvinPanics(other: bytes, lower: bytes -> bytes, standard: real)
    requires lower(KELVIN_SIGN) == [0x6B] && other != []
    ensures Decide(KELVIN_SIGN, other, lower, standard) == Decide(other, KELVIN_SIGN, lower, standard) == OutOfRange
  {
    assert |lower(KELVIN_SIGN)| < |KELVIN_SIGN|;
    hide Distance;
  }

  /** A string matches itself up to any standard that can be reached. */
  lemma EqualMatches(a: bytes, lower: bytes -> bytes, standard: real)
    requires a != [] && |lower(a)| >= |a| && standard <= 1.0
    ensures Decide(a, a, lower, standard) == Matches(true)
  {
    DistanceSame(lower(a)[..|a|]);
  }

  /** The order of the two strings does not matter. */
  lemma NameMatchSymmetric(a: bytes, b: bytes, lower: bytes -> bytes, standard: real)
    ensures Decide(a, b, lower, standard) == Decide(b, a, lower, standard)
  {
    if |lower(a)| >= |a| && |lower(b)| >= |b| {
      DistanceSymmetric(lower(a)[..|a|], lower(b)[..|b|]);
    }
  }

  /** The share that is compared with the standard is between 0 and 1, and it is 1 for equal strings. */
  lemma ShareBounds(a: bytes, b: bytes)
    requires a != [] && b != []
    ensures 0.0 <= 1.0 - Distance(a, b) as real / Max(|a|, |b|) as real <= 1.0
    ensures a == b ==> Distance(a, b) == 0
  {
    DistanceBounds(a, b);
    if a == b { DistanceSame(a); }
    hide Distance;
    Ratio(Distance(a, b), Max(|a|, |b|));
  }

  lemma Ratio(x: nat, y: nat)
    requires x <= y && y > 0
    ensures 0.0 <= x as real / y as real <= 1.0
  {
    assert x as real / y as real * y as real == x as real;
  }
}
