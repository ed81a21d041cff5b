/**
 When missLocked runs: once for every lookup that had to look in the dirty map, and it leaves no dirty map
 that the misses have paid for.
 */
module MapMisses {
  import opened Options
  import opened MapSpec
  import opened MapProtocol
  import opened MapThreads
  import opened MapShared
  import opened MapMoves
  import opened MapSteps
  import opened MapRuns
  import opened MapTheorems

  /** The step ends a lookup in the dirty map: Load's, or that of a LoadOrStore that found its key only there. */
  predicate EndsLookup(pc: Pc, pc': Pc) {
    pc.LoadDirty? || (InLos(pc) && pc.site == InDirty && !InLos(pc'))
  }

  predicate EndsLookupAt(states: seq<State>, labels: seq<(Tid, Label)>, m: nat)
    requires m < |labels| && m < |states|
  {
    var (t, l) := labels[m];
    l.Advance? && t in states[m].threads && EndsLookup(states[m].threads[t].pc, l.pc)
  }

  /** The lookups in the dirty map that the first `i` steps end. */
  function Lookups(states: seq<State>, labels: seq<(Tid, Label)>, i: nat): nat
    requires i <= |labels| && i <= |states|
  {
    if i == 0 then 0 else Lookups(states, labels, i - 1) + if EndsLookupAt(states, labels, i - 1) then 1 else 0
  }

  /** The lock holder is about to count a miss. */
  predicate MissDue(s: State) {
    s.sh.lock.Some? && s.sh.lock.value in s.threads && s.threads[s.sh.lock.value].pc.MissCount?
  }

  lemma CountGroups(sh: Shared, op: Op, pc: Pc, act: Action, pc': Pc)
    requires LocalStep(sh, op, pc, act, pc')
    ensures pc'.MissCount? <==> EndsLookup(pc, pc')
    ensures act == CountMiss <==> pc.MissCount?
  {
    hide EndsLookup, EnterStep, LoadStep, MissLockedStep, StoreStep, LockedWriteStep, TryLoadOrStoreStep, DeleteStep, RangeStep, DirtyLockedStep;
    match GroupOf(pc)
    case Entering => CountEnter(sh, op, pc, act, pc');
    case Loading => CountLoad(sh, op, pc, act, pc');
    case MissLocked => CountMissLocked(sh, pc, act, pc');
    case Storing => CountStore(sh, op, pc, act, pc');
    case LockedWrite => CountWrite(sh, op, pc, act, pc');
    case TryingLoadOrStore => CountLos(sh, op, pc, act, pc');
    case Deleting => CountDelete(sh, op, pc, act, pc');
    case Ranging => CountRange(sh, op, pc, act, pc');
    case DirtyLocked => CountCopy(sh, pc, act, pc');
  }

  lemma CountEnter(sh: Shared, op: Op, pc: Pc, act: Action, pc': Pc)
    requires EnterStep(sh, op, pc, act, pc')
    ensures !pc'.MissCount? && !EndsLookup(pc, pc') && act != CountMiss
  {
  }

  lemma CountLoad(sh: Shared, op: Op, pc: Pc, act: Action, pc': Pc)
    requires LoadStep(sh, op, pc, act, pc')
    ensures (pc'.MissCount? <==> EndsLookup(pc, pc')) && act != CountMiss
  {
  }

  lemma CountMissLocked(sh: Shared, pc: Pc, act: Action, pc': Pc)
    requires MissLockedStep(sh, pc, act, pc')
    ensures !pc'.MissCount? && !EndsLookup(pc, pc') && (act == CountMiss <==> pc.MissCount?)
  {
  }

  lemma CountStore(sh: Shared, op: Op, pc: Pc, act: Action, pc': Pc)
    requires StoreStep(sh, op, pc, act, pc')
    ensures !pc'.MissCount? && !EndsLookup(pc, pc') && act != CountMiss
  {
  }

  lemma CountWrite(sh: Shared, op: Op, pc: Pc, act: Action, pc': Pc)
    requires LockedWriteStep(sh, op, pc, act, pc')
    ensures !pc'.MissCount? && !EndsLookup(pc, pc') && act != CountMiss
  {
  }

  lemma CountLos(sh: Shared, op: Op, pc: Pc, act: Action, pc': Pc)
    requires TryLoadOrStoreStep(sh, op, pc, act, pc')
    ensures (pc'.MissCount? <==> EndsLookup(pc, pc')) && act != CountMiss
  {
  }

  lemma CountDelete(sh: Shared, op: Op, pc: Pc, act: Action, pc': Pc)
    requires DeleteStep(sh, op, pc, act, pc')
    ensures !pc'.MissCount? && !EndsLookup(pc, pc') && act != CountMiss
  {
  }

  lemma CountRange(sh: Shared, op: Op, pc: Pc, act: Action, pc': Pc)
    requires RangeStep(sh, op, pc, act, pc')
    ensures !pc'.MissCount? && !EndsLookup(pc, pc') && act != CountMiss
  {
  }

  lemma CountCopy(sh: Shared, pc: Pc, act: Action, pc': Pc)
    requires DirtyLockedStep(sh, pc, act, pc')
    ensures !pc'.MissCount? && !EndsLookup(pc, pc') && act != CountMiss
  {
  }

  /** Only CountMiss counts. */
  lemma OnlyCountMissCounts(sh: Shared, t: Tid, act: Action)
    ensures Apply(sh, t, act).missCalls == sh.missCalls + if act == CountMiss then 1 else 0
    ensures act != Acquire && act != Release ==> Apply(sh, t, act).lock == sh.lock
    ensures act == Acquire ==> Apply(sh, t, act).lock == Some(t)
    ensures act == Release ==> Apply(sh, t, act).lock == None
  {
  }

  function OneIf(b: bool): nat {
    if b then 1 else 0
  }

  lemma StepCounts(s: State, t: Tid, l: Label, s': State)
    requires StateInv(s) && Step(s, t, l, s') && StateInv(s')
    ensures var ends := l.Advance? && t in s.threads && EndsLookup(s.threads[t].pc, l.pc);
            s'.sh.missCalls + OneIf(MissDue(s')) == s.sh.missCalls + OneIf(MissDue(s)) + OneIf(ends)
  {
    Locks(s);
    Locks(s');
    hide StateInv, LocalStep, Apply, Abs, EndsLookup;
    if l.Advance? {
      var th := s.threads[t];
      CountGroups(s.sh, th.op, th.pc, l.act, l.pc);
      LockDiscipline(s.sh, th.op, th.pc, l.act, l.pc);
      OnlyCountMissCounts(s.sh, t, l.act);
    }
  }

  lemma Locks(s: State)
    requires StateInv(s)
    ensures LockOk(s)
  {
  }

  /** In every run missLocked has been called once for each lookup in the dirty map that has ended, but for the one
      whose call is due while the lock is held. */
  lemma {:induction false} MissesCounted(states: seq<State>, labels: seq<(Tid, Label)>, i: nat)
    requires IsRun(states, labels) && i < |states|
    ensures |states| == |labels| + 1 && Lookups(states, labels, i) == states[i].sh.missCalls + OneIf(MissDue(states[i]))
    ensures states[i].sh.lock == None ==> Lookups(states, labels, i) == states[i].sh.missCalls
  {
    hide StateInv, Step, EndsLookup;
    if i == 0 {
      assert Init(states[0]);
    } else {
      MissesCounted(states, labels, i - 1);
      RunInvariant(states, labels, i - 1);
      RunInvariant(states, labels, i);
      StepCounts(states[i - 1], labels[i - 1].0, labels[i - 1].1, states[i]);
    }
  }

  /** missLocked ends with the misses below the size of the dirty map, or with no dirty map and no misses. */
  lemma MissLockedEnds(sh: Shared, t: Tid, ph: Phase, hist: seq<AbsMap>, th: Thread, act: Action, pc': Pc)
    requires Ready(sh, ph, hist, th) && GroupOf(th.pc) == MissLocked && LocalStep(sh, th.op, th.pc, act, pc') && !(GroupOf(pc') == MissLocked)
    ensures var sh' := Apply(sh, t, act);
            sh'.misses < |DirtyMap(sh')| || (sh'.dirty == None && sh'.misses == 0)
  {
    hide Abs, Justified, NextInv, Base;
  }
}
