/**
 The main results on the concurrent map, each for every run of any number of threads.
 */
module MapTheorems {
  import opened Options
  import opened MapSpec
  import opened MapProtocol
  import opened MapShared
  import opened MapThreads
  import opened MapSteps
  import opened MapMoves
  import opened MapRuns

  lemma {:induction false} RunInvariant(states: seq<State>, labels: seq<(Tid, Label)>, i: nat)
    requires IsRun(states, labels) && i < |states|
    ensures StateInv(states[i])
    ensures |states[i].hist| == i + 1
    ensures forall m :: 0 <= m <= i ==> states[i].hist[m] == Abs(states[m].sh)
  {
    hide StateInv, Abs, LocalStep, Apply;
    if i == 0 {
      InitKeeps(states[0]);
      assert Abs(EmptyShared) == map[] by { EmptyAbs(); }
    } else {
      RunInvariant(states, labels, i - 1);
      StepKeeps(states[i - 1], labels[i - 1].0, labels[i - 1].1, states[i]);
    }
  }

  lemma EmptyAbs()
    ensures Abs(EmptyShared) == map[]
  {
  }

  // ---- Structure ----

  /** No run assigns to an entry of the nil map, and a tryLoadOrStore made under the lock, whose `ok` the
      code ignores, never meets an expunged entry. */
  lemma NeverPanics(states: seq<State>, labels: seq<(Tid, Label)>, i: nat, t: Tid)
    requires IsRun(states, labels) && i < |states|
    ensures !states[i].sh.panicked
    ensures t in states[i].threads && states[i].threads[t].pc.TryLoadOrStore? && states[i].threads[t].pc.site != Fast
            ==> !IsExpunged(states[i].sh, states[i].threads[t].pc.e)
  {
    hide IsRun, InPhase, Abs;
    RunInvariant(states, labels, i);
  }

  /** With the lock free, the dirty map exists exactly when the read map is amended, and then it has an
      entry of the read map exactly when that entry is not expunged; it never has an expunged one. */
  lemma QuietStructure(states: seq<State>, labels: seq<(Tid, Label)>, i: nat)
    requires IsRun(states, labels) && i < |states| && states[i].sh.lock == None
    ensures var sh := states[i].sh;
            && (sh.dirty.Some? <==> sh.amended)
            && (forall k :: k in sh.read ==> (IsExpunged(sh, sh.read[k]) <==> sh.dirty.Some? && k !in DirtyMap(sh)))
            && (forall k :: k in sh.read && k in DirtyMap(sh) ==> DirtyMap(sh)[k] == sh.read[k])
            && (forall k :: k in DirtyMap(sh) ==> !IsExpunged(sh, DirtyMap(sh)[k]))
  {
    hide IsRun, ThreadInv, Abs;
    RunInvariant(states, labels, i);
  }

  /** A step keeps a retired entry retired. */
  lemma StepRetires(s: State, t: Tid, l: Label, s': State, e: Eid)
    requires StateInv(s) && Step(s, t, l, s')
    requires e in s.sh.published && !Current(s.sh, e)
    ensures e in s'.sh.published && !Current(s'.sh, e) && IsExpunged(s'.sh, e)
  {
    if l.Advance? {
      hide InPhase, ThreadInv, LocalStep, Apply, Abs, AbsAfter, Ready, Allowed;
      AdvanceFacts(s, t, l.act, l.pc);
      assert !Attached(s.sh, e);
      assert !Attached(s'.sh, e);
      assert s'.sh.heap[e].p == s.sh.heap[e].p;
    }
  }

  /** Once an entry that was in a read map is no longer the read map's entry for its key, it is expunged
      and stays so, out of every later read map. */
  lemma {:induction false} RetiredForever(states: seq<State>, labels: seq<(Tid, Label)>, i: nat, j: nat, e: Eid)
    requires IsRun(states, labels) && i <= j < |states|
    requires e in states[i].sh.published && !Current(states[i].sh, e)
    ensures e in states[j].sh.published && !Current(states[j].sh, e) && IsExpunged(states[j].sh, e)
    decreases j
  {
    hide StateInv, Step, Current, IsExpunged;
    RunInvariant(states, labels, i);
    if i < j {
      RetiredForever(states, labels, i, j - 1, e);
      RunInvariant(states, labels, j - 1);
      StepRetires(states[j - 1], labels[j - 1].0, labels[j - 1].1, states[j], e);
    } else {
      RetiredNow(states[i], e);
    }
  }

  lemma RetiredNow(s: State, e: Eid)
    requires StateInv(s) && e in s.sh.published && !Current(s.sh, e)
    ensures IsExpunged(s.sh, e)
  {
    hide InPhase, ThreadInv, Abs;
  }

  // ---- Calls ----

  /** Thread `t` runs one call of `op` from step `i`, its invocation, to step `j`, its return with `r`. */
  ghost predicate IsCall(labels: seq<(Tid, Label)>, t: Tid, op: Op, i: nat, j: nat, r: Result) {
    && i < j < |labels|
    && labels[i] == (t, Invoke(op)) && labels[j] == (t, Return(r))
    && forall m :: i < m < j && labels[m].0 == t ==> labels[m].1.Advance?
  }

  /** Step `m` is one at which thread `t` changes the abstract map. */
  predicate CommitsAt(labels: seq<(Tid, Label)>, t: Tid, m: int) {
    0 <= m < |labels| && labels[m].0 == t && labels[m].1.Advance? && Commits(labels[m].1.act)
  }

  /** The call takes effect at one step of its own, which does what `op` does and decides the result; or
      it takes no effect, and its result is what `op` gives, without changing the map, in some state
      between its invocation and its return. */
  ghost predicate IsAtomic(states: seq<State>, labels: seq<(Tid, Label)>, t: Tid, op: Op, i: nat, j: nat, r: Result)
    requires |states| == |labels| + 1 && i < j < |labels| && !op.Range?
  {
    || (exists m :: i < m < j && CommitsAt(labels, t, m) && EffectIs(states, op, m, r)
                 && (forall q :: i < q < j && CommitsAt(labels, t, q) ==> q == m))
    || ((forall q :: i < q < j ==> !CommitsAt(labels, t, q))
        && exists m :: i < m <= j && AnswerIs(states, op, m, r))
  }

  ghost predicate EffectIs(states: seq<State>, op: Op, m: int, r: Result)
    requires 0 <= m < |states| - 1 && !op.Range?
  {
    SpecMap(op, Abs(states[m].sh)) == Abs(states[m + 1].sh) && SpecResult(op, Abs(states[m].sh)) == r
  }

  ghost predicate AnswerIs(states: seq<State>, op: Op, m: int, r: Result)
    requires 0 <= m < |states| && !op.Range?
  {
    SpecMap(op, Abs(states[m].sh)) == Abs(states[m].sh) && SpecResult(op, Abs(states[m].sh)) == r
  }

  /** An effect comes before the result is settled. */
  lemma CommitsFirst(sh: Shared, op: Op, pc: Pc, act: Action, pc': Pc)
    requires LocalStep(sh, op, pc, act, pc') && Commits(act)
    ensures Outcome(pc) == None && Outcome(pc').Some?
  {
    hide EnterStep, LoadStep, MissLockedStep, StoreStep, LockedWriteStep, TryLoadOrStoreStep, DeleteStep, RangeStep, DirtyLockedStep, Outcome;
    match GroupOf(pc)
    case Entering => QuietEnter(sh, op, pc, act, pc');
    case Loading => QuietLoad(sh, op, pc, act, pc');
    case MissLocked => QuietMiss(sh, pc, act, pc');
    case Storing => StoreCommits(sh, op, pc, act, pc');
    case LockedWrite => InsertCommits(sh, op, pc, act, pc');
    case TryingLoadOrStore => LosCommits(sh, op, pc, act, pc');
    case Deleting => DeleteCommits(sh, op, pc, act, pc');
    case Ranging => QuietRange(sh, op, pc, act, pc');
    case DirtyLocked => QuietCopy(sh, pc, act, pc');
  }

  lemma QuietEnter(sh: Shared, op: Op, pc: Pc, act: Action, pc': Pc)
    requires EnterStep(sh, op, pc, act, pc')
    ensures !Commits(act) && !act.Publish?
  {
    hide AfterStart, AfterReread, AfterUnlock;
  }

  lemma QuietLoad(sh: Shared, op: Op, pc: Pc, act: Action, pc': Pc)
    requires LoadStep(sh, op, pc, act, pc')
    ensures !Commits(act) && !act.Publish?
  {
  }

  lemma QuietMiss(sh: Shared, pc: Pc, act: Action, pc': Pc)
    requires MissLockedStep(sh, pc, act, pc')
    ensures !Commits(act) && (act.Publish? ==> pc.MissPublish?)
  {
  }

  lemma QuietRange(sh: Shared, op: Op, pc: Pc, act: Action, pc': Pc)
    requires RangeStep(sh, op, pc, act, pc')
    ensures !Commits(act)
  {
    if pc.Iterate? { IterateStays(sh, op, pc, act, pc'); }
  }

  lemma QuietCopy(sh: Shared, pc: Pc, act: Action, pc': Pc)
    requires DirtyLockedStep(sh, pc, act, pc')
    ensures !Commits(act)
  {
    if pc.CopyNext? { CopyNextMoves(sh, pc, act, pc'); }
  }

  lemma StoreCommits(sh: Shared, op: Op, pc: Pc, act: Action, pc': Pc)
    requires StoreStep(sh, op, pc, act, pc') && Commits(act)
    ensures Outcome(pc) == None && Outcome(pc').Some?
  {
  }

  lemma InsertCommits(sh: Shared, op: Op, pc: Pc, act: Action, pc': Pc)
    requires LockedWriteStep(sh, op, pc, act, pc') && Commits(act)
    ensures Outcome(pc) == None && Outcome(pc').Some?
  {
  }

  lemma LosCommits(sh: Shared, op: Op, pc: Pc, act: Action, pc': Pc)
    requires TryLoadOrStoreStep(sh, op, pc, act, pc') && Commits(act)
    ensures Outcome(pc) == None && Outcome(pc').Some?
  {
  }

  lemma DeleteCommits(sh: Shared, op: Op, pc: Pc, act: Action, pc': Pc)
    requires DeleteStep(sh, op, pc, act, pc') && Commits(act)
    ensures Outcome(pc) == None && Outcome(pc').Some?
  {
  }

  /** In the middle of a call the thread is running it, and remembers whether and where it took effect. */
  lemma {:induction false} CallInProgress(states: seq<State>, labels: seq<(Tid, Label)>, t: Tid, op: Op, i: nat, j: nat, r: Result, m: nat)
    requires IsRun(states, labels) && IsCall(labels, t, op, i, j, r) && i < m <= j
    ensures t in states[m].threads
    ensures var th := states[m].threads[t];
            && th.op == op && th.start == i + 1
            && (th.effect == None ==> forall q :: i < q < m ==> !CommitsAt(labels, t, q))
            && (th.effect.Some? ==>
                  && i < th.effect.value < m
                  && forall q :: i < q < m ==> (CommitsAt(labels, t, q) <==> q == th.effect.value))
    decreases m
  {
    hide StateInv, Abs, LocalStep, Apply;
    RunInvariant(states, labels, m - 1);
    assert Step(states[m - 1], labels[m - 1].0, labels[m - 1].1, states[m]);
    if m > i + 1 {
      CallInProgress(states, labels, t, op, i, j, r, m - 1);
      if CommitsAt(labels, t, m - 1) {
        EffectFree(states[m - 1], t, labels[m - 1].1, states[m]);
      }
    }
  }

  lemma EffectFree(s: State, t: Tid, l: Label, s': State)
    requires StateInv(s) && Step(s, t, l, s') && l.Advance? && Commits(l.act)
    ensures s.threads[t].effect == None
  {
    hide SharedInv, Apply, Abs, Justified, PcInv, LocalStep, Outcome;
    CommitsFirst(s.sh, s.threads[t].op, s.threads[t].pc, l.act, l.pc);
  }

  /** Linearizability: every completed Load, Store, LoadOrStore and Delete of every run is atomic. */
  lemma Linearizable(states: seq<State>, labels: seq<(Tid, Label)>, t: Tid, op: Op, i: nat, j: nat, r: Result)
    requires IsRun(states, labels) && IsCall(labels, t, op, i, j, r) && !op.Range?
    ensures IsAtomic(states, labels, t, op, i, j, r)
  {
    hide Abs, PcInv, SharedInv;
    CallInProgress(states, labels, t, op, i, j, r, j);
    RunInvariant(states, labels, j);
    assert Step(states[j], labels[j].0, labels[j].1, states[j + 1]);
    var s := states[j];
    var th := s.threads[t];
    assert Justified(op, r, i + 1, th.effect, s.hist);
    if th.effect.Some? {
      var m := th.effect.value;
      assert CommitsAt(labels, t, m) && EffectIs(states, op, m, r);
    } else {
      var m :| i + 1 <= m < |s.hist| && SpecMap(op, s.hist[m]) == s.hist[m] && SpecResult(op, s.hist[m]) == r;
      assert AnswerIs(states, op, m, r);
    }
  }

  /** The other half of linearizability: the abstract map starts empty and changes only where a call takes
      effect, and then as that call's operation changes it. */
  lemma OnlyEffectsChange(states: seq<State>, labels: seq<(Tid, Label)>, m: nat)
    requires IsRun(states, labels) && m < |labels|
    ensures Abs(states[0].sh) == map[]
    ensures if CommitsAt(labels, labels[m].0, m) then
              && labels[m].0 in states[m].threads
              && Abs(states[m + 1].sh) == SpecMap(states[m].threads[labels[m].0].op, Abs(states[m].sh))
            else Abs(states[m + 1].sh) == Abs(states[m].sh)
  {
    EmptyAbs();
    RunInvariant(states, labels, m);
    RunInvariant(states, labels, m + 1);
    StepEffect(states[m], labels[m].0, labels[m].1, states[m + 1]);
  }

  lemma StepEffect(s: State, t: Tid, l: Label, s': State)
    requires StateInv(s) && Step(s, t, l, s') && StateInv(s')
    ensures if l.Advance? && Commits(l.act) then t in s.threads && Abs(s'.sh) == SpecMap(s.threads[t].op, Abs(s.sh))
            else Abs(s'.sh) == Abs(s.sh)
  {
    hide SharedInv, LocalStep, Abs, Apply, PcInv, Ready, Allowed, Outcome, SpecResult;
    if l.Advance? {
      AdvanceFacts(s, t, l.act, l.pc);
      if Commits(l.act) {
        CommitsFirst(s.sh, s.threads[t].op, s.threads[t].pc, l.act, l.pc);
        assert ThreadInv(s'.sh, s'.hist, s'.threads[t]);
        assert s'.hist[|s.hist| - 1] == s.hist[|s.hist| - 1] == Abs(s.sh);
      }
    }
  }

  // ---- Range ----

  /** Range under concurrency: no key twice, every pair a binding of the map at some moment of the call, every key
      that was present throughout the call unless Range stopped, and it stopped exactly at a pair that `f` refused. */
  lemma RangeFaithful(states: seq<State>, labels: seq<(Tid, Label)>, t: Tid, f: Callback, i: nat, j: nat, pairs: seq<(Key, Value)>, stopped: bool)
    requires IsRun(states, labels) && IsCall(labels, t, Range(f), i, j, Ranged(pairs, stopped))
    ensures forall a, b :: 0 <= a < b < |pairs| ==> pairs[a].0 != pairs[b].0
    ensures forall a :: 0 <= a < |pairs| ==> BoundDuring(states, i, j, pairs[a])
    ensures !stopped ==> forall k :: PresentThroughout(states, i, j, k) ==> Lists(pairs, k)
    ensures Consulted(f, pairs, stopped)
  {
    RangeResult(states, labels, t, f, i, j, pairs, stopped);
    hide StateInv, Step, Abs;
    var hist := states[j].hist;
    forall a | 0 <= a < |pairs|
      ensures BoundDuring(states, i, j, pairs[a])
    {
      assert Saw(hist, i + 1, pairs[a].0, Some(pairs[a].1));
      var m :| i + 1 <= m < |hist| && Get(hist[m], pairs[a].0) == Some(pairs[a].1);
      assert i < m <= j && BoundIn(states, m, pairs[a]);
    }
    forall k | !stopped && PresentThroughout(states, i, j, k)
      ensures Lists(pairs, k)
    {
      assert Throughout(hist, i + 1, k);
    }
  }

  /** An `f` that refuses nothing is called on every key that was present throughout. */
  lemma RangeUninterrupted(states: seq<State>, labels: seq<(Tid, Label)>, t: Tid, f: Callback, i: nat, j: nat, r: Result)
    requires IsRun(states, labels) && IsCall(labels, t, Range(f), i, j, r)
    requires forall seen, k, v :: f(seen, k, v)
    ensures r.Ranged? && !r.stopped && forall k :: PresentThroughout(states, i, j, k) ==> Lists(r.pairs, k)
  {
    RangeRanges(states, labels, t, f, i, j, r);
    hide IsRun, PresentThroughout, Lists;
    RangeFaithful(states, labels, t, f, i, j, r.pairs, r.stopped);
    LastRefused(f, r.pairs, r.stopped);
  }

  lemma LastRefused(f: Callback, pairs: seq<(Key, Value)>, stopped: bool)
    requires Consulted(f, pairs, stopped)
    ensures stopped ==> exists seen, k, v :: !f(seen, k, v)
  {
    if stopped {
      var n := |pairs| - 1;
      assert !f(pairs[..n], pairs[n].0, pairs[n].1);
    }
  }

  lemma RangeRanges(states: seq<State>, labels: seq<(Tid, Label)>, t: Tid, f: Callback, i: nat, j: nat, r: Result)
    requires IsRun(states, labels) && IsCall(labels, t, Range(f), i, j, r)
    ensures |states| == |labels| + 1 && r.Ranged?
  {
    hide Abs, PcInv, SharedInv, RangeOk, Consulted;
    CallInProgress(states, labels, t, Range(f), i, j, r, j);
    RunInvariant(states, labels, j);
    assert Step(states[j], labels[j].0, labels[j].1, states[j + 1]);
  }

  ghost predicate PresentThroughout(states: seq<State>, i: nat, j: nat, k: Key)
    requires i < j < |states|
  {
    forall m :: i < m <= j ==> k in Abs(states[m].sh)
  }

  lemma RangeResult(states: seq<State>, labels: seq<(Tid, Label)>, t: Tid, f: Callback, i: nat, j: nat, pairs: seq<(Key, Value)>, stopped: bool)
    requires IsRun(states, labels) && IsCall(labels, t, Range(f), i, j, Ranged(pairs, stopped))
    ensures |states[j].hist| == j + 1
    ensures forall m :: 0 <= m <= j ==> states[j].hist[m] == Abs(states[m].sh)
    ensures RangeOk(states[j].hist, i + 1, pairs, stopped) && Consulted(f, pairs, stopped)
  {
    hide Abs, PcInv, SharedInv, RangeOk, Consulted;
    CallInProgress(states, labels, t, Range(f), i, j, Ranged(pairs, stopped), j);
    RunInvariant(states, labels, j);
    assert Step(states[j], labels[j].0, labels[j].1, states[j + 1]);
  }

  ghost predicate BoundDuring(states: seq<State>, i: nat, j: nat, pair: (Key, Value))
    requires i < j < |states|
  {
    exists m :: i < m <= j && BoundIn(states, m, pair)
  }

  ghost predicate BoundIn(states: seq<State>, m: int, pair: (Key, Value))
    requires 0 <= m < |states|
  {
    pair.0 in Abs(states[m].sh) && Abs(states[m].sh)[pair.0] == pair.1
  }

  /** While nothing changes the map, Range enumerates it, or the part of it that `f` wants. */
  lemma RangeAlone(states: seq<State>, labels: seq<(Tid, Label)>, t: Tid, f: Callback, i: nat, j: nat, pairs: seq<(Key, Value)>, stopped: bool, m: AbsMap)
    requires IsRun(states, labels) && IsCall(labels, t, Range(f), i, j, Ranged(pairs, stopped))
    requires forall q :: i < q <= j ==> Abs(states[q].sh) == m
    ensures Consulted(f, pairs, stopped) && if stopped then ListsSome(pairs, m) else Enumerates(pairs, m)
  {
    hide Abs;
    RangeFaithful(states, labels, t, f, i, j, pairs, stopped);
    forall a | 0 <= a < |pairs|
      ensures pairs[a].0 in m && m[pairs[a].0] == pairs[a].1
    {
      var q :| i < q <= j && BoundIn(states, q, pairs[a]);
    }
    if !stopped {
      forall k | k in m
        ensures exists a :: 0 <= a < |pairs| && pairs[a].0 == k
      {
        assert PresentThroughout(states, i, j, k);
        assert Lists(pairs, k);
      }
    }
  }

  // ---- Cost ----

  /** Entries that dirtyLocked may still have to copy before the next promotion. */
  function Owed(sh: Shared, ph: Phase): nat {
    match ph
    case Copying(rest) => |rest|
    case Quiet => if sh.dirty == None then |sh.read| else 0
    case Relinking(_) => 0
    case Promoted => |sh.read|
    case Emptied => |sh.read|
  }

  /** Misses not yet spent on a promotion. */
  function Unspent(sh: Shared, ph: Phase): nat {
    if ph == Promoted || ph == Emptied then 0 else sh.misses
  }

  predicate CostOk(sh: Shared, ph: Phase) {
    sh.copied + Owed(sh, ph) + Unspent(sh, ph) <= sh.missCalls + sh.rangePromoted
  }

  lemma ActionCost(sh: Shared, t: Tid, ph: Phase, act: Action, ph': Phase)
    requires InPhase(sh, ph) && Allowed(sh, ph, act, ph') && CostOk(sh, ph)
    requires act == Publish(false) ==> |DirtyMap(sh)| <= sh.misses
    ensures CostOk(Apply(sh, t, act), ph')
  {
    hide *;
    if act.Expunge? || act.CopyPut? { CopyCost(sh, t, ph, act, ph'); }
    else if act.MakeDirtyMap? || act.Publish? { PromotionCost(sh, t, ph, act, ph'); }
    else { OtherCost(sh, t, ph, act, ph'); }
  }

  lemma CopyCost(sh: Shared, t: Tid, ph: Phase, act: Action, ph': Phase)
    requires Allowed(sh, ph, act, ph') && CostOk(sh, ph) && (act.Expunge? || act.CopyPut?)
    ensures CostOk(Apply(sh, t, act), ph')
  {
    assert ph.rest == ph'.rest + {sh.heap[act.e].key};
  }

  lemma PromotionCost(sh: Shared, t: Tid, ph: Phase, act: Action, ph': Phase)
    requires InPhase(sh, ph) && Allowed(sh, ph, act, ph') && CostOk(sh, ph) && (act.MakeDirtyMap? || act.Publish?)
    requires act == Publish(false) ==> |DirtyMap(sh)| <= sh.misses
    ensures CostOk(Apply(sh, t, act), ph')
  {
    hide MissingAreExpunged, NoneExpunged;
    assert |sh.read.Keys| == |sh.read|;
  }

  lemma OtherCost(sh: Shared, t: Tid, ph: Phase, act: Action, ph': Phase)
    requires InPhase(sh, ph) && Allowed(sh, ph, act, ph') && CostOk(sh, ph)
    requires !act.Expunge? && !act.CopyPut? && !act.MakeDirtyMap? && !act.Publish?
    ensures CostOk(Apply(sh, t, act), ph')
  {
    hide MissingAreExpunged, NoneExpunged, Attached, IsExpunged;
  }

  /** Only missLocked and Range promote, and missLocked only when the misses cover the dirty map. */
  lemma PromotionIsPaid(s: State, t: Tid, act: Action, pc': Pc)
    requires StateInv(s) && t in s.threads && LocalStep(s.sh, s.threads[t].op, s.threads[t].pc, act, pc')
    ensures act == Publish(false) ==> |DirtyMap(s.sh)| <= s.sh.misses
  {
    var sh, op, pc := s.sh, s.threads[t].op, s.threads[t].pc;
    hide SharedInv, LockOk, Abs, Justified, NextInv;
    hide EnterStep, LoadStep, MissLockedStep, StoreStep, LockedWriteStep, TryLoadOrStoreStep, DeleteStep, RangeStep, DirtyLockedStep;
    if act == Publish(false) {
      OnlyMissesPublish(sh, op, pc, act, pc');
      assert ThreadInv(sh, s.hist, s.threads[t]);
    }
  }

  lemma OnlyMissesPublish(sh: Shared, op: Op, pc: Pc, act: Action, pc': Pc)
    requires LocalStep(sh, op, pc, act, pc') && act == Publish(false)
    ensures pc.MissPublish?
  {
    hide EnterStep, LoadStep, MissLockedStep, StoreStep, LockedWriteStep, TryLoadOrStoreStep, DeleteStep, RangeStep, DirtyLockedStep;
    match GroupOf(pc)
    case Entering => QuietEnter(sh, op, pc, act, pc');
    case Loading => QuietLoad(sh, op, pc, act, pc');
    case MissLocked => QuietMiss(sh, pc, act, pc');
    case Storing => PublishB(sh, op, pc, act, pc');
    case LockedWrite => PublishB(sh, op, pc, act, pc');
    case TryingLoadOrStore => PublishC(sh, op, pc, act, pc');
    case Deleting => PublishC(sh, op, pc, act, pc');
    case Ranging => if pc.Iterate? { IterateStays(sh, op, pc, act, pc'); } else { PublishD(sh, op, pc, act, pc'); }
    case DirtyLocked => if pc.CopyNext? { CopyNextMoves(sh, pc, act, pc'); } else { PublishE(sh, pc, act, pc'); }
  }

  lemma PublishB(sh: Shared, op: Op, pc: Pc, act: Action, pc': Pc)
    requires StoreStep(sh, op, pc, act, pc') || LockedWriteStep(sh, op, pc, act, pc')
    ensures !act.Publish?
  {
  }

  lemma PublishC(sh: Shared, op: Op, pc: Pc, act: Action, pc': Pc)
    requires TryLoadOrStoreStep(sh, op, pc, act, pc') || DeleteStep(sh, op, pc, act, pc')
    ensures !act.Publish?
  {
  }

  lemma PublishD(sh: Shared, op: Op, pc: Pc, act: Action, pc': Pc)
    requires RangeStep(sh, op, pc, act, pc') && !pc.Iterate?
    ensures act != Publish(false)
  {
  }

  lemma PublishE(sh: Shared, pc: Pc, act: Action, pc': Pc)
    requires DirtyLockedStep(sh, pc, act, pc') && !pc.CopyNext?
    ensures !act.Publish?
  {
  }

  lemma StepCost(s: State, t: Tid, l: Label, s': State)
    requires StateInv(s) && Step(s, t, l, s') && CostOk(s.sh, PhaseIn(s))
    ensures CostOk(s'.sh, PhaseIn(s'))
  {
    hide ThreadInv, Base, InPhase, LocalStep, Abs, Allowed, CostOk;
    if l.Advance? {
      AdvanceCost(s, t, l, s');
    } else {
      assert PhaseIn(s') == PhaseIn(s) by {
        IdlePhase();
        if l.Return? { DoneIsIdle(s.threads[t].pc); }
      }
    }
  }

  lemma DoneIsIdle(pc: Pc)
    ensures pc.Done? ==> !Holds(pc)
  {
  }

  lemma AdvanceCost(s: State, t: Tid, l: Label, s': State)
    requires StateInv(s) && Step(s, t, l, s') && CostOk(s.sh, PhaseIn(s)) && l.Advance?
    ensures CostOk(s'.sh, PhaseIn(s'))
  {
    hide ThreadInv, Base, InPhase, LocalStep, Apply, Abs, Holds, PcPhase, Evolves, Allowed, AbsAfter, CostOk;
    var act, pc' := l.act, l.pc;
    AdvanceFacts(s, t, act, pc');
    PromotionIsPaid(s, t, act, pc');
    var ph' := NextPhase(PhaseIn(s), s.threads[t].pc, pc');
    ActionCost(s.sh, t, PhaseIn(s), act, ph');
    LockDiscipline(s.sh, s.threads[t].op, s.threads[t].pc, act, pc');
    LockAfter(s.sh, t, act);
    assert PhaseIn(s') == ph' by { IdlePhase(); }
  }

  lemma InitCost(s: State)
    requires Init(s)
    ensures CostOk(s.sh, PhaseIn(s))
  {
  }

  /** Amortised cost: in every run, the entries that dirtyLocked visits are no more than the calls of
      missLocked plus the total size of the dirty maps that Range promoted. */
  lemma {:induction false} CopyingIsPaidFor(states: seq<State>, labels: seq<(Tid, Label)>, i: nat)
    requires IsRun(states, labels) && i < |states|
    ensures CostOk(states[i].sh, PhaseIn(states[i]))
    ensures states[i].sh.copied <= states[i].sh.missCalls + states[i].sh.rangePromoted
    decreases i
  {
    hide StateInv, Step, PhaseIn, Init, Owed, Unspent;
    if i > 0 {
      CopyingIsPaidFor(states, labels, i - 1);
      RunInvariant(states, labels, i - 1);
      StepCost(states[i - 1], labels[i - 1].0, labels[i - 1].1, states[i]);
    } else {
      InitCost(states[0]);
    }
  }
}
