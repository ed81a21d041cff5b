/**
 One order for a whole run: the calls of every run can be listed so that the list, replayed on the
 abstract map one call after the other, gives every result that was returned, and so that a call that
 returned before another was invoked comes first.
 */
module MapLinearization {
  import opened Options
  import opened MapSpec
  import opened MapProtocol
  import opened MapShared
  import opened MapThreads
  import opened MapMoves
  import opened MapRuns
  import opened MapTheorems

  // ---- Calls by the step that invokes them ----

  /** Step `i` invokes Load, Store, LoadOrStore or Delete. */
  predicate IsInvocation(labels: seq<(Tid, Label)>, i: nat) {
    i < |labels| && labels[i].1.Invoke? && !labels[i].1.op.Range?
  }

  function OpOf(labels: seq<(Tid, Label)>, i: nat): (op: Op)
    requires IsInvocation(labels, i)
    ensures !op.Range?
  {
    labels[i].1.op
  }

  /** The call invoked at step `i` returns `r` at step `j`. */
  ghost predicate Returns(labels: seq<(Tid, Label)>, i: nat, j: nat, r: Result) {
    IsInvocation(labels, i) && IsCall(labels, labels[i].0, labels[i].1.op, i, j, r)
  }

  /** `lin` replayed from the empty map. */
  function Replay(labels: seq<(Tid, Label)>, lin: seq<nat>): AbsMap
    requires forall i :: i in lin ==> IsInvocation(labels, i)
  {
    if lin == [] then map[]
    else SpecMap(OpOf(labels, lin[|lin| - 1]), Replay(labels, lin[..|lin| - 1]))
  }

  /** `lin` lists every call that returned, and possibly calls that are still running, each once. */
  ghost predicate ListsCalls(labels: seq<(Tid, Label)>, lin: seq<nat>) {
    && (forall i :: i in lin ==> IsInvocation(labels, i))
    && (forall x, y :: 0 <= x < y < |lin| ==> lin[x] != lin[y])
    && (forall i, j, r :: Returns(labels, i, j, r) ==> i in lin)
  }

  /** Each call returned what the ones before it in the list leave for it. */
  ghost predicate Explains(labels: seq<(Tid, Label)>, lin: seq<nat>)
    requires ListsCalls(labels, lin)
  {
    forall x, j, r :: 0 <= x < |lin| && Returns(labels, lin[x], j, r)
      ==> SpecResult(OpOf(labels, lin[x]), Replay(labels, lin[..x])) == r
  }

  /** A call that returned before another was invoked comes before it. */
  ghost predicate RespectsTime(labels: seq<(Tid, Label)>, lin: seq<nat>) {
    forall x, y, j, r :: 0 <= x < |lin| && 0 <= y < |lin| && Returns(labels, lin[x], j, r) && j < lin[y] ==> x < y
  }

  lemma ReturnsLast(labels: seq<(Tid, Label)>, i: nat, j: nat, r: Result, j': nat, r': Result)
    requires Returns(labels, i, j, r) && Returns(labels, i, j', r')
    ensures j' <= j
  {
  }

  lemma ReturnsOnce(labels: seq<(Tid, Label)>, i: nat, j: nat, r: Result, j': nat, r': Result)
    requires Returns(labels, i, j, r) && Returns(labels, i, j', r')
    ensures j == j' && r == r'
  {
    ReturnsLast(labels, i, j, r, j', r');
    ReturnsLast(labels, i, j', r', j, r);
  }

  // ---- Steps that take effect ----

  /** The call invoked at step `i` changes the abstract map at step `q`. */
  predicate TakesEffect(labels: seq<(Tid, Label)>, i: nat, q: nat) {
    && i < q < |labels| && labels[i].1.Invoke? && CommitsAt(labels, labels[i].0, q)
    && forall m :: i < m < q && labels[m].0 == labels[i].0 ==> labels[m].1.Advance?
  }

  lemma InvokesLast(labels: seq<(Tid, Label)>, i: nat, i': nat, q: nat)
    requires TakesEffect(labels, i, q) && TakesEffect(labels, i', q)
    ensures i' <= i
  {
  }

  lemma EffectOfOne(labels: seq<(Tid, Label)>, i: nat, i': nat, q: nat)
    requires TakesEffect(labels, i, q) && TakesEffect(labels, i', q)
    ensures i == i'
  {
    InvokesLast(labels, i, i', q);
    InvokesLast(labels, i', i, q);
  }

  /** Thread `th` runs the call invoked at step `i`, and remembers whether and where it took effect. */
  ghost predicate Runs(labels: seq<(Tid, Label)>, t: Tid, th: Thread, m: nat) {
    && 1 <= th.start <= m <= |labels| && labels[th.start - 1] == (t, Invoke(th.op))
    && (forall q :: th.start <= q < m && labels[q].0 == t ==> labels[q].1.Advance?)
    && (forall q: nat :: q < m && TakesEffect(labels, th.start - 1, q) ==> th.effect == Some(q))
  }

  lemma {:induction false} ThreadRuns(states: seq<State>, labels: seq<(Tid, Label)>, t: Tid, m: nat)
    requires IsRun(states, labels) && m <= |labels| && t in states[m].threads
    ensures Runs(labels, t, states[m].threads[t], m)
  {
    hide *;
    NoneAtFirst(states, labels);
    if m > 0 {
      RunInvariant(states, labels, m - 1);
      StepOf(states, labels, m - 1);
      var u, l := labels[m - 1].0, labels[m - 1].1;
      ThreadBefore(states[m - 1], u, l, states[m], t);
      if u == t && l.Invoke? {
        RunsNew(labels, t, states[m].threads[t], m);
      } else {
        ThreadRuns(states, labels, t, m - 1);
        if u == t && Commits(l.act) { EffectFree(states[m - 1], t, l, states[m]); }
        RunsOn(labels, t, states[m - 1].threads[t], states[m].threads[t], m);
      }
    }
  }

  lemma NoneAtFirst(states: seq<State>, labels: seq<(Tid, Label)>)
    requires IsRun(states, labels)
    ensures |states| == |labels| + 1 && states[0].threads == map[]
  {
    hide Step;
  }

  lemma StepOf(states: seq<State>, labels: seq<(Tid, Label)>, m: nat)
    requires IsRun(states, labels) && m < |labels|
    ensures |states| == |labels| + 1 && Step(states[m], labels[m].0, labels[m].1, states[m + 1])
  {
    hide Step, Init;
  }

  /** Where a thread of the next state comes from. */
  lemma ThreadBefore(s: State, u: Tid, l: Label, s': State, t: Tid)
    requires Step(s, u, l, s') && t in s'.threads
    ensures u == t && l.Invoke? ==> s'.threads[t] == Thread(l.op, Start, |s.hist|, None)
    ensures u == t ==> !l.Return?
    ensures !(u == t && l.Invoke?) ==> t in s.threads && s'.threads[t].op == s.threads[t].op && s'.threads[t].start == s.threads[t].start
    ensures !(u == t && l.Invoke?) ==>
      s'.threads[t].effect == if u == t && Commits(l.act) then Some(|s.hist| - 1) else s.threads[t].effect
  {
    hide LocalStep, Apply, Abs;
  }

  lemma RunsNew(labels: seq<(Tid, Label)>, t: Tid, th: Thread, m: nat)
    requires 1 <= m <= |labels| && labels[m - 1] == (t, Invoke(th.op)) && th.start == m
    ensures Runs(labels, t, th, m)
  {
  }

  lemma RunsOn(labels: seq<(Tid, Label)>, t: Tid, th: Thread, th': Thread, m: nat)
    requires 1 <= m <= |labels| && Runs(labels, t, th, m - 1) && th'.op == th.op && th'.start == th.start
    requires labels[m - 1].0 == t ==> labels[m - 1].1.Advance?
    requires labels[m - 1].0 == t && Commits(labels[m - 1].1.act) ==> th.effect == None
    requires th'.effect == if labels[m - 1].0 == t && Commits(labels[m - 1].1.act) then Some(m - 1) else th.effect
    ensures Runs(labels, t, th', m)
  {
  }

  /** A step that takes effect belongs to a call, which is no Range and takes effect there alone, and the abstract map
      changes there as the call's operation says. */
  lemma EffectHasCall(states: seq<State>, labels: seq<(Tid, Label)>, q: nat) returns (i: nat)
    requires IsRun(states, labels) && q < |labels| && CommitsAt(labels, labels[q].0, q)
    ensures TakesEffect(labels, i, q) && IsInvocation(labels, i)
    ensures Abs(states[q + 1].sh) == SpecMap(OpOf(labels, i), Abs(states[q].sh))
  {
    hide *;
    var t := labels[q].0;
    OnlyEffectsChange(states, labels, q);
    StepOf(states, labels, q);
    ThreadRuns(states, labels, t, q);
    Advances(labels, q);
    RunsEffect(labels, t, states[q].threads[t], q);
    i := states[q].threads[t].start - 1;
    StepsOfThread(states[q], t, labels[q].1, states[q + 1]);
    NoRangeCommits(states[q].sh, states[q].threads[t].op, states[q].threads[t].pc, labels[q].1.act, labels[q].1.pc);
    InvocationOf(labels, i, t, states[q].threads[t].op);
  }

  lemma Advances(labels: seq<(Tid, Label)>, q: nat)
    requires q < |labels| && CommitsAt(labels, labels[q].0, q)
    ensures labels[q].1.Advance? && Commits(labels[q].1.act)
  {
  }

  lemma InvocationOf(labels: seq<(Tid, Label)>, i: nat, t: Tid, op: Op)
    requires i < |labels| && labels[i] == (t, Invoke(op)) && !op.Range?
    ensures IsInvocation(labels, i) && OpOf(labels, i) == op
  {
  }

  lemma StepsOfThread(s: State, t: Tid, l: Label, s': State)
    requires Step(s, t, l, s') && l.Advance?
    ensures t in s.threads && LocalStep(s.sh, s.threads[t].op, s.threads[t].pc, l.act, l.pc)
  {
    hide LocalStep, Apply, Abs;
  }

  lemma RunsEffect(labels: seq<(Tid, Label)>, t: Tid, th: Thread, q: nat)
    requires Runs(labels, t, th, q) && q < |labels| && labels[q].0 == t && CommitsAt(labels, t, q)
    ensures th.start >= 1 && th.start - 1 < |labels| && labels[th.start - 1] == (t, Invoke(th.op))
    ensures TakesEffect(labels, th.start - 1, q)
  {
  }

  lemma NoRangeCommits(sh: Shared, op: Op, pc: Pc, act: Action, pc': Pc)
    requires LocalStep(sh, op, pc, act, pc') && Commits(act)
    ensures !op.Range?
  {
    hide EnterStep, LoadStep, MissLockedStep, StoreStep, LockedWriteStep, TryLoadOrStoreStep, DeleteStep, RangeStep, DirtyLockedStep;
    match GroupOf(pc)
    case Entering => QuietEnter(sh, op, pc, act, pc');
    case Loading => QuietLoad(sh, op, pc, act, pc');
    case MissLocked => QuietMiss(sh, pc, act, pc');
    case Storing => StoreOnly(sh, op, pc, act, pc');
    case LockedWrite => WriteOnly(sh, op, pc, act, pc');
    case TryingLoadOrStore => LosOnly(sh, op, pc, act, pc');
    case Deleting => DeleteOnly(sh, op, pc, act, pc');
    case Ranging => QuietRange(sh, op, pc, act, pc');
    case DirtyLocked => QuietCopy(sh, pc, act, pc');
  }

  lemma StoreOnly(sh: Shared, op: Op, pc: Pc, act: Action, pc': Pc)
    requires StoreStep(sh, op, pc, act, pc')
    ensures !op.Range?
  {
  }

  lemma WriteOnly(sh: Shared, op: Op, pc: Pc, act: Action, pc': Pc)
    requires LockedWriteStep(sh, op, pc, act, pc')
    ensures !op.Range?
  {
  }

  lemma LosOnly(sh: Shared, op: Op, pc: Pc, act: Action, pc': Pc)
    requires TryLoadOrStoreStep(sh, op, pc, act, pc')
    ensures !op.Range?
  {
  }

  lemma DeleteOnly(sh: Shared, op: Op, pc: Pc, act: Action, pc': Pc)
    requires DeleteStep(sh, op, pc, act, pc')
    ensures !op.Range?
  {
  }

  lemma EffectOnce(states: seq<State>, labels: seq<(Tid, Label)>, i: nat, q: nat, q': nat)
    requires IsRun(states, labels) && TakesEffect(labels, i, q) && TakesEffect(labels, i, q') && q <= q'
    ensures q == q'
  {
    hide *;
    OwnThread(labels, i, q);
    OwnThread(labels, i, q');
    var t := labels[q'].0;
    Advances(labels, q');
    StepOf(states, labels, q');
    StepsOfThread(states[q'], t, labels[q'].1, states[q' + 1]);
    ThreadRuns(states, labels, t, q');
    RunsEffect(labels, t, states[q'].threads[t], q');
    EffectOfOne(labels, i, states[q'].threads[t].start - 1, q');
    RunInvariant(states, labels, q');
    EffectFree(states[q'], t, labels[q'].1, states[q' + 1]);
    RunsKnows(labels, t, states[q'].threads[t], q', q);
  }

  lemma OwnThread(labels: seq<(Tid, Label)>, i: nat, q: nat)
    requires TakesEffect(labels, i, q)
    ensures i < q < |labels| && labels[q].0 == labels[i].0 && CommitsAt(labels, labels[q].0, q)
  {
  }

  lemma RunsKnows(labels: seq<(Tid, Label)>, t: Tid, th: Thread, m: nat, q: nat)
    requires Runs(labels, t, th, m)
    requires th.start >= 1 && TakesEffect(labels, th.start - 1, q)
    ensures q < m ==> th.effect == Some(q)
  {
    hide TakesEffect;
  }

  // ---- The moment of each call ----

  /** The call answers in state `m`, without an effect. */
  ghost predicate AnswersIn(states: seq<State>, labels: seq<(Tid, Label)>, i: nat, m: nat)
    requires |states| == |labels| + 1
  {
    && IsInvocation(labels, i)
    && exists j, r :: Returns(labels, i, j, r) && i < m <= j && AnswerIs(states, OpOf(labels, i), m, r)
  }

  /** The call's moment: 2m is state `m`, and 2q + 1 is the step from state `q` to the next. */
  ghost predicate IsMoment(states: seq<State>, labels: seq<(Tid, Label)>, i: nat, p: nat)
    requires |states| == |labels| + 1
  {
    && IsInvocation(labels, i)
    && if p % 2 == 1 then TakesEffect(labels, i, p / 2)
       else (forall q: nat :: !TakesEffect(labels, i, q)) && AnswersIn(states, labels, i, p / 2)
  }

  lemma ReturnedHasMoment(states: seq<State>, labels: seq<(Tid, Label)>, i: nat, j: nat, r: Result) returns (p: nat)
    requires IsRun(states, labels) && Returns(labels, i, j, r)
    ensures |states| == |labels| + 1 && IsMoment(states, labels, i, p)
  {
    hide Abs, Step, AnswerIs, EffectIs;
    var t, op := labels[i].0, OpOf(labels, i);
    assert Init(states[0]) && |states| == |labels| + 1;
    Linearizable(states, labels, t, op, i, j, r);
    if m :| i < m < j && CommitsAt(labels, t, m) {
      p := 2 * m + 1;
      assert TakesEffect(labels, i, m);
    } else {
      var m :| i < m <= j && AnswerIs(states, op, m, r);
      p := 2 * m;
      forall q: nat ensures !TakesEffect(labels, i, q) {
        EffectBeforeReturn(labels, i, q, j, r);
      }
      assert AnswersIn(states, labels, i, m);
    }
  }

  lemma EffectBeforeReturn(labels: seq<(Tid, Label)>, i: nat, q: nat, j: nat, r: Result)
    requires Returns(labels, i, j, r)
    ensures TakesEffect(labels, i, q) ==> i < q < j && CommitsAt(labels, labels[i].0, q)
  {
  }

  /** A call's moment lies between its invocation and its return. */
  lemma MomentInside(states: seq<State>, labels: seq<(Tid, Label)>, i: nat, p: nat, j: nat, r: Result)
    requires |states| == |labels| + 1 && IsMoment(states, labels, i, p)
    ensures 2 * i < p <= 2 * |labels|
    ensures Returns(labels, i, j, r) ==> p <= 2 * j
  {
    hide AnswerIs;
    if p % 2 == 0 {
      var j', r' :| Returns(labels, i, j', r') && i < p / 2 <= j';
      if Returns(labels, i, j, r) { ReturnsOnce(labels, i, j, r, j', r'); }
    } else if Returns(labels, i, j, r) {
      EffectBeforeReturn(labels, i, p / 2, j, r);
    }
  }

  /** What the call returns is what its operation gives in the state of its moment. */
  lemma MomentAnswers(states: seq<State>, labels: seq<(Tid, Label)>, i: nat, p: nat, j: nat, r: Result)
    requires IsRun(states, labels) && |states| == |labels| + 1 && IsMoment(states, labels, i, p) && Returns(labels, i, j, r)
    ensures p / 2 < |states| && SpecResult(OpOf(labels, i), Abs(states[p / 2].sh)) == r
  {
    hide Abs, Step;
    MomentInside(states, labels, i, p, j, r);
    if p % 2 == 0 {
      var j', r' :| Returns(labels, i, j', r') && AnswerIs(states, OpOf(labels, i), p / 2, r');
      ReturnsOnce(labels, i, j, r, j', r');
    } else {
      Linearizable(states, labels, labels[i].0, OpOf(labels, i), i, j, r);
      assert CommitsAt(labels, labels[i].0, p / 2);
    }
  }

  /** What the call does to the abstract map at its moment. */
  lemma MomentChanges(states: seq<State>, labels: seq<(Tid, Label)>, i: nat, p: nat)
    requires IsRun(states, labels) && |states| == |labels| + 1 && IsMoment(states, labels, i, p)
    ensures (p + 1) / 2 < |states| && Abs(states[(p + 1) / 2].sh) == SpecMap(OpOf(labels, i), Abs(states[p / 2].sh))
  {
    hide Abs, Step, Returns, TakesEffect;
    MomentInside(states, labels, i, p, 0, Stored);
    if p % 2 == 0 {
      var j, r :| Returns(labels, i, j, r) && AnswerIs(states, OpOf(labels, i), p / 2, r);
    } else {
      OwnThread(labels, i, p / 2);
      var i' := EffectHasCall(states, labels, p / 2);
      EffectOfOne(labels, i, i', p / 2);
    }
  }

  // ---- Listing by moments ----

  lemma {:induction false} GreatestOf(s: set<nat>, at: map<nat, nat>) returns (x: nat)
    requires s != {} && s <= at.Keys
    ensures x in s && forall y :: y in s ==> at[y] <= at[x]
    decreases |s|
  {
    x :| x in s;
    if s - {x} != {} {
      var y := GreatestOf(s - {x}, at);
      if at[y] > at[x] { x := y; }
    }
  }

  /** `lin` lists `s` once each, by ascending moments. */
  ghost predicate Ascends(s: set<nat>, at: map<nat, nat>, lin: seq<nat>) {
    && (forall i :: i in lin <==> i in s) && s <= at.Keys
    && (forall x, y :: 0 <= x < y < |lin| ==> lin[x] != lin[y] && lin[x] in at && lin[y] in at && at[lin[x]] <= at[lin[y]])
  }

  lemma {:induction false} List(s: set<nat>, at: map<nat, nat>) returns (lin: seq<nat>)
    requires s <= at.Keys
    ensures Ascends(s, at, lin)
    decreases |s|
  {
    if s == {} {
      lin := [];
    } else {
      var x := GreatestOf(s, at);
      var front := List(s - {x}, at);
      lin := front + [x];
      assert lin[|front|] == x;
      forall i | i in s ensures i in lin {
        if i != x {
          assert i in front;
          var k :| 0 <= k < |front| && front[k] == i;
          assert lin[k] == i;
        }
      }
      forall k | 0 <= k < |front| ensures front[k] in s - {x} {
        assert front[k] in front;
      }
    }
  }

  /** The calls with a moment, and one for each. */
  ghost predicate AreMoments(states: seq<State>, labels: seq<(Tid, Label)>, at: map<nat, nat>)
    requires |states| == |labels| + 1
  {
    && (forall i :: i in at ==> IsMoment(states, labels, i, at[i]))
    && (forall i: nat, p: nat :: IsMoment(states, labels, i, p) ==> i in at)
  }

  ghost predicate HasMoment(states: seq<State>, labels: seq<(Tid, Label)>, i: nat)
    requires |states| == |labels| + 1
  {
    exists p: nat :: IsMoment(states, labels, i, p)
  }

  ghost function MomentOf(states: seq<State>, labels: seq<(Tid, Label)>, i: nat): (p: nat)
    requires |states| == |labels| + 1 && HasMoment(states, labels, i)
    ensures IsMoment(states, labels, i, p)
  {
    var p: nat :| IsMoment(states, labels, i, p);
    p
  }

  lemma Moments(states: seq<State>, labels: seq<(Tid, Label)>) returns (at: map<nat, nat>)
    requires |states| == |labels| + 1
    ensures AreMoments(states, labels, at)
  {
    hide IsMoment;
    at := map i: nat | 0 <= i < |labels| && HasMoment(states, labels, i) :: MomentOf(states, labels, i);
    forall i: nat, p: nat | IsMoment(states, labels, i, p) ensures i in at {
      MomentIndex(states, labels, i, p);
      assert HasMoment(states, labels, i);
    }
  }

  lemma MomentIndex(states: seq<State>, labels: seq<(Tid, Label)>, i: nat, p: nat)
    requires |states| == |labels| + 1 && IsMoment(states, labels, i, p)
    ensures IsInvocation(labels, i) && i < |labels|
  {
    hide AnswersIn, TakesEffect;
  }

  // ---- Replaying ----

  /** Where no step takes effect the abstract map stays. */
  lemma {:induction false} StaysQuiet(states: seq<State>, labels: seq<(Tid, Label)>, a: nat, b: nat)
    requires IsRun(states, labels) && |states| == |labels| + 1 && a <= b <= |labels|
    requires forall q: nat :: a <= q < b ==> !CommitsAt(labels, labels[q].0, q)
    ensures Abs(states[a].sh) == Abs(states[b].sh)
    decreases b
  {
    hide *;
    if a < b {
      StaysQuiet(states, labels, a, b - 1);
      OnlyEffectsChange(states, labels, b - 1);
    }
  }

  /** The state after the first `n` calls of the list. */
  function After(at: map<nat, nat>, lin: seq<nat>, n: nat): nat
    requires n <= |lin| && forall i :: i in lin ==> i in at
  {
    if n == 0 then 0 else (at[lin[n - 1]] + 1) / 2
  }

  /** No step takes effect from the state after the first `n` calls to `b`, if the next call's moment is not before. */
  lemma QuietBetween(states: seq<State>, labels: seq<(Tid, Label)>, at: map<nat, nat>, lin: seq<nat>, n: nat, b: nat)
    requires IsRun(states, labels) && |states| == |labels| + 1 && AreMoments(states, labels, at) && Ascends(at.Keys, at, lin)
    requires n <= |lin| && b <= |labels| && (n < |lin| ==> 2 * b <= at[lin[n]])
    ensures forall q: nat :: After(at, lin, n) <= q < b ==> !CommitsAt(labels, labels[q].0, q)
  {
    hide IsRun, Abs, AnswersIn, CommitsAt, TakesEffect, SpecMap;
    forall q: nat | After(at, lin, n) <= q < b ensures !CommitsAt(labels, labels[q].0, q) {
      if CommitsAt(labels, labels[q].0, q) {
        var i := EffectHasCall(states, labels, q);
        assert IsMoment(states, labels, i, 2 * q + 1);
        EffectMoment(states, labels, i, q, at[i]);
        MomentOutside(at, lin, n, i);
      }
    }
  }

  /** A call's moment is no later than those of the first `n` calls, or no earlier than the next call's. */
  lemma MomentOutside(at: map<nat, nat>, lin: seq<nat>, n: nat, i: nat)
    requires Ascends(at.Keys, at, lin) && n <= |lin| && i in at
    ensures at[i] <= 2 * After(at, lin, n) || (n < |lin| && at[lin[n]] <= at[i])
  {
    var x :| 0 <= x < |lin| && lin[x] == i;
    assert forall y :: 0 <= y < |lin| ==> lin[y] in lin;
  }

  lemma EffectMoment(states: seq<State>, labels: seq<(Tid, Label)>, i: nat, q: nat, p: nat)
    requires IsRun(states, labels) && |states| == |labels| + 1 && TakesEffect(labels, i, q) && IsMoment(states, labels, i, p)
    ensures p == 2 * q + 1
  {
    hide IsRun, AnswersIn, TakesEffect;
    if p % 2 == 1 {
      if q <= p / 2 { EffectOnce(states, labels, i, q, p / 2); } else { EffectOnce(states, labels, i, p / 2, q); }
    }
  }

  /** Two calls do not take effect at the same step. */
  lemma MomentsDiffer(states: seq<State>, labels: seq<(Tid, Label)>, i: nat, i': nat, p: nat)
    requires |states| == |labels| + 1 && IsMoment(states, labels, i, p) && IsMoment(states, labels, i', p) && i != i'
    ensures p % 2 == 0
  {
    hide AnswersIn, TakesEffect;
    if p % 2 == 1 { EffectOfOne(labels, i, i', p / 2); }
  }

  /** The calls before the one at `n` lead to the state of its moment. */
  lemma ReachesMoment(states: seq<State>, labels: seq<(Tid, Label)>, at: map<nat, nat>, lin: seq<nat>, n: nat)
    requires IsRun(states, labels) && |states| == |labels| + 1 && AreMoments(states, labels, at) && Ascends(at.Keys, at, lin)
    requires n < |lin|
    ensures After(at, lin, n) <= at[lin[n]] / 2 < |states|
    ensures Abs(states[After(at, lin, n)].sh) == Abs(states[at[lin[n]] / 2].sh)
  {
    hide IsRun, Abs, IsMoment, CommitsAt;
    var p := at[lin[n]];
    assert lin[n] in lin;
    MomentInside(states, labels, lin[n], p, 0, Stored);
    if n > 0 {
      assert lin[n - 1] in lin && at[lin[n - 1]] <= p;
      if at[lin[n - 1]] == p { MomentsDiffer(states, labels, lin[n - 1], lin[n], p); }
    }
    QuietBetween(states, labels, at, lin, n, p / 2);
    StaysQuiet(states, labels, After(at, lin, n), p / 2);
  }

  lemma {:induction false} ReplayReaches(states: seq<State>, labels: seq<(Tid, Label)>, at: map<nat, nat>, lin: seq<nat>, n: nat)
    requires IsRun(states, labels) && |states| == |labels| + 1 && AreMoments(states, labels, at) && Ascends(at.Keys, at, lin)
    requires n <= |lin|
    ensures forall i :: i in lin[..n] ==> IsInvocation(labels, i)
    ensures After(at, lin, n) < |states| && Replay(labels, lin[..n]) == Abs(states[After(at, lin, n)].sh)
  {
    hide IsRun, Abs, IsMoment, SpecMap, OpOf;
    AllInvocations(states, labels, at, lin);
    if n == 0 {
      StartsEmpty(states, labels);
    } else {
      ReplayReaches(states, labels, at, lin, n - 1);
      ReachesMoment(states, labels, at, lin, n - 1);
      assert lin[n - 1] in lin;
      MomentChanges(states, labels, lin[n - 1], at[lin[n - 1]]);
      assert lin[..n][..n - 1] == lin[..n - 1] && lin[..n][n - 1] == lin[n - 1];
    }
  }

  lemma StartsEmpty(states: seq<State>, labels: seq<(Tid, Label)>)
    requires IsRun(states, labels)
    ensures Abs(states[0].sh) == map[]
  {
    EmptyAbs();
    hide Abs, Step;
  }

  lemma AllInvocations(states: seq<State>, labels: seq<(Tid, Label)>, at: map<nat, nat>, lin: seq<nat>)
    requires |states| == |labels| + 1 && AreMoments(states, labels, at) && Ascends(at.Keys, at, lin)
    ensures forall i :: i in lin ==> i in at && IsInvocation(labels, i)
  {
    hide IsMoment;
    forall i | i in lin ensures i in at && IsInvocation(labels, i) {
      MomentIndex(states, labels, i, at[i]);
    }
  }

  // ---- The theorem ----

  /** Linearizability of the whole run: one list of the calls, each once, that explains every result and keeps the order
      of calls that do not overlap; replayed to its end it leaves the map that the run leaves. */
  lemma Linearization(states: seq<State>, labels: seq<(Tid, Label)>) returns (lin: seq<nat>)
    requires IsRun(states, labels)
    ensures ListsCalls(labels, lin) && Explains(labels, lin) && RespectsTime(labels, lin)
    ensures Replay(labels, lin) == Abs(states[|states| - 1].sh)
  {
    hide *;
    NoneAtFirst(states, labels);
    var at := Moments(states, labels);
    lin := List(at.Keys, at);
    AllListed(states, labels, at, lin);
    AllExplained(states, labels, at, lin);
    TimeRespected(states, labels, at, lin);
    ReplayEnds(states, labels, at, lin);
  }

  lemma AllListed(states: seq<State>, labels: seq<(Tid, Label)>, at: map<nat, nat>, lin: seq<nat>)
    requires IsRun(states, labels) && |states| == |labels| + 1 && AreMoments(states, labels, at) && Ascends(at.Keys, at, lin)
    ensures ListsCalls(labels, lin)
  {
    hide IsRun, IsMoment, Returns;
    AllInvocations(states, labels, at, lin);
    forall i, j, r | Returns(labels, i, j, r) ensures i in lin {
      var p := ReturnedHasMoment(states, labels, i, j, r);
      assert i in at.Keys;
    }
  }

  lemma AllExplained(states: seq<State>, labels: seq<(Tid, Label)>, at: map<nat, nat>, lin: seq<nat>)
    requires IsRun(states, labels) && |states| == |labels| + 1 && AreMoments(states, labels, at) && Ascends(at.Keys, at, lin)
    requires ListsCalls(labels, lin)
    ensures Explains(labels, lin)
  {
    hide IsRun, IsMoment, Returns, Abs, SpecResult, Replay;
    forall x, j, r | 0 <= x < |lin| && Returns(labels, lin[x], j, r)
      ensures SpecResult(OpOf(labels, lin[x]), Replay(labels, lin[..x])) == r
    {
      assert lin[x] in lin;
      ReplayReaches(states, labels, at, lin, x);
      ReachesMoment(states, labels, at, lin, x);
      MomentAnswers(states, labels, lin[x], at[lin[x]], j, r);
    }
  }

  lemma TimeRespected(states: seq<State>, labels: seq<(Tid, Label)>, at: map<nat, nat>, lin: seq<nat>)
    requires |states| == |labels| + 1 && AreMoments(states, labels, at) && Ascends(at.Keys, at, lin)
    ensures RespectsTime(labels, lin)
  {
    hide IsMoment, Returns;
    forall x, y, j, r | 0 <= x < |lin| && 0 <= y < |lin| && Returns(labels, lin[x], j, r) && j < lin[y] ensures x < y {
      assert lin[x] in lin && lin[y] in lin;
      MomentInside(states, labels, lin[x], at[lin[x]], j, r);
      MomentInside(states, labels, lin[y], at[lin[y]], 0, Stored);
    }
  }

  lemma ReplayEnds(states: seq<State>, labels: seq<(Tid, Label)>, at: map<nat, nat>, lin: seq<nat>)
    requires IsRun(states, labels) && |states| == |labels| + 1 && AreMoments(states, labels, at) && Ascends(at.Keys, at, lin)
    requires ListsCalls(labels, lin)
    ensures Replay(labels, lin) == Abs(states[|labels|].sh)
  {
    hide IsRun, IsMoment, Returns, Abs, Replay, CommitsAt;
    ReplayReaches(states, labels, at, lin, |lin|);
    assert lin[..|lin|] == lin;
    QuietBetween(states, labels, at, lin, |lin|, |labels|);
    StaysQuiet(states, labels, After(at, lin, |lin|), |labels|);
  }
}
