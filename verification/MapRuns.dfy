/**
 One step of the whole system: the moving thread, the others, the shared memory and the lock together,
 and the proof that the step keeps their joint invariant.
 */
module MapRuns {
  import opened Options
  import opened MapSpec
  import opened MapProtocol
  import opened MapShared
  import opened MapThreads
  import opened MapSteps
  import opened MapMoves

  function PhaseIn(s: State): Phase {
    if s.sh.lock.Some? && s.sh.lock.value in s.threads then PcPhase(s.threads[s.sh.lock.value].pc) else Quiet
  }

  ghost predicate LockOk(s: State) {
    && (s.sh.lock.Some? ==> s.sh.lock.value in s.threads)
    && (forall t :: t in s.threads ==> (Holds(s.threads[t].pc) <==> s.sh.lock == Some(t)))
  }

  ghost predicate StateInv(s: State) {
    && s.hist != [] && s.hist[|s.hist| - 1] == Abs(s.sh)
    && SharedInv(s.sh, PhaseIn(s))
    && LockOk(s)
    && (forall t :: t in s.threads ==> ThreadInv(s.sh, s.hist, s.threads[t]))
  }

  // ---- One step ----

  /** Only `Lock` acquires and only `Unlock` releases; a thread without the lock writes pointers at most. */
  ghost predicate Disciplined(sh: Shared, pc: Pc, act: Action, pc': Pc) {
    && (act == Acquire ==> pc == Lock && sh.lock == None && Holds(pc'))
    && (act == Release ==> Holds(pc) && !Holds(pc'))
    && (act != Acquire && act != Release ==> (Holds(pc') <==> Holds(pc)))
    && (!Holds(pc) ==> act == Stutter || act.WritePtr? || act == Acquire)
  }

  lemma LockDiscipline(sh: Shared, op: Op, pc: Pc, act: Action, pc': Pc)
    requires LocalStep(sh, op, pc, act, pc')
    ensures Disciplined(sh, pc, act, pc')
  {
    hide Disciplined, EnterStep, LoadStep, MissLockedStep, StoreStep, LockedWriteStep, TryLoadOrStoreStep, DeleteStep, RangeStep, DirtyLockedStep;
    match GroupOf(pc)
    case Entering => EnterDiscipline(sh, op, pc, act, pc');
    case Loading => LoadDiscipline(sh, op, pc, act, pc');
    case MissLocked => MissDiscipline(sh, pc, act, pc');
    case Storing => WriteDiscipline(sh, op, pc, act, pc');
    case LockedWrite => WriteDiscipline(sh, op, pc, act, pc');
    case TryingLoadOrStore => LosDiscipline(sh, op, pc, act, pc');
    case Deleting => DeleteDiscipline(sh, op, pc, act, pc');
    case Ranging => RangeDiscipline(sh, op, pc, act, pc');
    case DirtyLocked => CopyDiscipline(sh, pc, act, pc');
  }

  lemma EnterDiscipline(sh: Shared, op: Op, pc: Pc, act: Action, pc': Pc)
    requires EnterStep(sh, op, pc, act, pc')
    ensures Disciplined(sh, pc, act, pc')
  {
  }

  lemma LoadDiscipline(sh: Shared, op: Op, pc: Pc, act: Action, pc': Pc)
    requires LoadStep(sh, op, pc, act, pc')
    ensures Disciplined(sh, pc, act, pc')
  {
  }

  lemma MissDiscipline(sh: Shared, pc: Pc, act: Action, pc': Pc)
    requires MissLockedStep(sh, pc, act, pc')
    ensures Disciplined(sh, pc, act, pc')
  {
  }

  lemma DeleteDiscipline(sh: Shared, op: Op, pc: Pc, act: Action, pc': Pc)
    requires DeleteStep(sh, op, pc, act, pc')
    ensures Disciplined(sh, pc, act, pc')
  {
  }

  lemma WriteDiscipline(sh: Shared, op: Op, pc: Pc, act: Action, pc': Pc)
    requires StoreStep(sh, op, pc, act, pc') || LockedWriteStep(sh, op, pc, act, pc')
    ensures Disciplined(sh, pc, act, pc')
  {
  }

  lemma LosDiscipline(sh: Shared, op: Op, pc: Pc, act: Action, pc': Pc)
    requires TryLoadOrStoreStep(sh, op, pc, act, pc')
    ensures Disciplined(sh, pc, act, pc')
  {
  }

  lemma RangeDiscipline(sh: Shared, op: Op, pc: Pc, act: Action, pc': Pc)
    requires RangeStep(sh, op, pc, act, pc')
    ensures Disciplined(sh, pc, act, pc')
  {
    if pc.Iterate? { IterateStays(sh, op, pc, act, pc'); }
  }

  lemma CopyDiscipline(sh: Shared, pc: Pc, act: Action, pc': Pc)
    requires DirtyLockedStep(sh, pc, act, pc')
    ensures Disciplined(sh, pc, act, pc')
  {
    if pc.CopyNext? { CopyNextMoves(sh, pc, act, pc'); }
  }

  lemma OthersStructure(sh: Shared, t: Tid, ph: Phase, act: Action)
    requires act == Stutter || act.WritePtr?
    requires SharedInv(sh, ph) && Allowed(sh, ph, act, ph)
    ensures SameStructure(sh, Apply(sh, t, act))
  {
    hide SharedInv;
    if act.WritePtr? {
      WrittenSame(sh, Apply(sh, t, act), act.e);
    }
  }

  lemma OwnMoves(sh: Shared, t: Tid, ph: Phase, ph': Phase, hist: seq<AbsMap>, th: Thread, act: Action, pc': Pc)
    requires Ready(sh, ph, hist, th) && LocalStep(sh, th.op, th.pc, act, pc')
    requires MoveContext(sh, Apply(sh, t, act), ph, hist, th, act)
    requires SharedInv(Apply(sh, t, act), ph')
    ensures ThreadInv(Apply(sh, t, act), hist + [Abs(Apply(sh, t, act))], Moved(th, act, pc', |hist| - 1))
  {
    hide SharedInv, MoveContext, Justified, NextInv, Apply, Abs, Moved;
    hide EnterStep, LoadStep, MissLockedStep, StoreStep, LockedWriteStep, TryLoadOrStoreStep, DeleteStep, RangeStep, DirtyLockedStep;
    hide LoadInv, MissLockedInv, StoreInv, LockedWriteInv, LosInv, DeleteInv, DirtyLockedInv, RangeInv;
    var sh' := Apply(sh, t, act);
    match GroupOf(th.pc)
    case Entering =>
      if th.pc.Start? { StartMoves(sh, sh', t, ph, hist, th, act, pc'); }
      else if th.pc.Reread? { RereadMoves(sh, sh', t, ph, hist, th, act, pc'); }
      else { UnlockMoves(sh, sh', t, ph, hist, th, act, pc'); }
    case Loading => LoadMoves(sh, sh', t, ph, hist, th, act, pc');
    case MissLocked => MissLockedMoves(sh, sh', t, ph, hist, th, act, pc', th.pc.n);
    case Storing =>
      if Commits(act) { StoreWrites(sh, sh', t, ph, hist, th, act, pc'); }
      else { StoreMoves(sh, sh', t, ph, hist, th, act, pc'); }
    case LockedWrite =>
      if th.pc.LookupDirty? { LookupMoves(sh, sh', t, ph, hist, th, act, pc'); }
      else if th.pc.InsertNew? { InsertMoves(sh, sh', t, ph, hist, th, act, pc'); }
      else { RelinkMoves(sh, sh', t, ph, hist, th, act, pc'); }
    case TryingLoadOrStore =>
      if act == Stutter { TryLoadOrStoreMoves(sh, sh', t, ph, hist, th, act, pc'); }
      else { TryLoadOrStoreWrites(sh, sh', t, ph, hist, th, act, pc'); }
    case Deleting =>
      if Commits(act) { DeleteWrites(sh, sh', t, ph, hist, th, act, pc'); }
      else { DeleteMoves(sh, sh', t, ph, hist, th, act, pc'); }
    case Ranging =>
      if th.pc.Iterate? { IterateMoves(sh, sh', t, ph, hist, th, act, pc'); }
      else { RangeMoves(sh, sh', t, ph, ph', hist, th, act, pc'); }
    case DirtyLocked => DirtyLockedMoves(sh, sh', t, ph, hist, th, act, pc');
  }

  lemma SameMemory(sh: Shared)
    ensures Evolves(sh, sh) && SameStructure(sh, sh)
  {
  }

  /** Threads that do not move keep their invariant when the shared memory stays as it is. */
  lemma Waiting(sh: Shared, hist: seq<AbsMap>, th: Thread)
    requires hist != [] && hist[|hist| - 1] == Abs(sh) && ThreadInv(sh, hist, th)
    ensures ThreadInv(sh, hist + [Abs(sh)], th)
  {
    hide ThreadInv;
    SameMemory(sh);
    if Holds(th.pc) { OtherHolder(sh, sh, hist, th); } else { OthersUnlocked(sh, sh, hist, th); }
  }

  lemma InvokeKeeps(s: State, t: Tid, l: Label, s': State)
    requires StateInv(s) && Step(s, t, l, s') && l.Invoke?
    ensures StateInv(s')
  {
    hide Justified, NextInv, Base, InPhase, Abs;
    forall u | u in s'.threads
      ensures ThreadInv(s'.sh, s'.hist, s'.threads[u])
    {
      if u != t { Waiting(s.sh, s.hist, s.threads[u]); }
    }
  }

  lemma ReturnKeeps(s: State, t: Tid, l: Label, s': State)
    requires StateInv(s) && Step(s, t, l, s') && l.Return?
    ensures StateInv(s')
  {
    hide ThreadInv, Base, InPhase, Abs;
    forall u | u in s'.threads
      ensures ThreadInv(s'.sh, s'.hist, s'.threads[u])
    {
      Waiting(s.sh, s.hist, s.threads[u]);
    }
  }

  lemma AdvanceFacts(s: State, t: Tid, act: Action, pc': Pc)
    requires StateInv(s) && t in s.threads && LocalStep(s.sh, s.threads[t].op, s.threads[t].pc, act, pc')
    ensures Ready(s.sh, PhaseIn(s), s.hist, s.threads[t])
    ensures var ph' := NextPhase(PhaseIn(s), s.threads[t].pc, pc');
            && Allowed(s.sh, PhaseIn(s), act, ph')
            && SharedInv(Apply(s.sh, t, act), ph')
    ensures MoveContext(s.sh, Apply(s.sh, t, act), PhaseIn(s), s.hist, s.threads[t], act)
  {
    hide Base, InPhase, PcInv, Outcome, LocalStep, Allowed, Apply, Abs, AbsAfter, NextPhase;
    var ph := PhaseIn(s);
    StepAllowed(s.sh, ph, s.hist, s.threads[t], act, pc');
    var ph' := NextPhase(ph, s.threads[t].pc, pc');
    ActionKeeps(s.sh, t, ph, act, ph');
    ActionEffect(s.sh, t, ph, act, ph');
    ActionEvolves(s.sh, t, ph, act, ph');
  }

  lemma OthersKeep(s: State, t: Tid, act: Action, pc': Pc, u: Tid)
    requires StateInv(s) && t in s.threads && LocalStep(s.sh, s.threads[t].op, s.threads[t].pc, act, pc')
    requires u in s.threads && u != t
    ensures ThreadInv(Apply(s.sh, t, act), s.hist + [Abs(Apply(s.sh, t, act))], s.threads[u])
  {
    hide Base, InPhase, ThreadInv, LocalStep, Allowed, Apply, Abs, Holds, SameStructure, Evolves, Ready, AbsAfter;
    AdvanceFacts(s, t, act, pc');
    if Holds(s.threads[u].pc) {
      LockDiscipline(s.sh, s.threads[t].op, s.threads[t].pc, act, pc');
      OthersStructure(s.sh, t, PhaseIn(s), act);
      OtherHolder(s.sh, Apply(s.sh, t, act), s.hist, s.threads[u]);
    } else {
      OthersUnlocked(s.sh, Apply(s.sh, t, act), s.hist, s.threads[u]);
    }
  }

  lemma AdvanceKeeps(s: State, t: Tid, l: Label, s': State)
    requires StateInv(s) && Step(s, t, l, s') && l.Advance?
    ensures StateInv(s')
  {
    hide Base, InPhase, ThreadInv, LocalStep, Apply, Abs, Holds, PcPhase, Evolves, Allowed, AbsAfter;
    var act, pc' := l.act, l.pc;
    AdvanceFacts(s, t, act, pc');
    LockDiscipline(s.sh, s.threads[t].op, s.threads[t].pc, act, pc');
    LockAfter(s.sh, t, act);
    assert LockOk(s');
    var ph' := NextPhase(PhaseIn(s), s.threads[t].pc, pc');
    assert PhaseIn(s') == ph' by { IdlePhase(); }
    OwnMoves(s.sh, t, PhaseIn(s), ph', s.hist, s.threads[t], act, pc');
    forall u | u in s'.threads
      ensures ThreadInv(s'.sh, s'.hist, s'.threads[u])
    {
      if u != t { OthersKeep(s, t, act, pc', u); }
    }
  }

  lemma LockAfter(sh: Shared, t: Tid, act: Action)
    ensures Apply(sh, t, act).lock == if act == Acquire then Some(t) else if act == Release then None else sh.lock
  {
  }

  /** A program counter outside the lock says nothing about the phase. */
  lemma IdlePhase()
    ensures forall pc :: !Holds(pc) ==> PcPhase(pc) == Quiet
  {
  }

  lemma StepKeeps(s: State, t: Tid, l: Label, s': State)
    requires StateInv(s) && Step(s, t, l, s')
    ensures StateInv(s')
  {
    hide StateInv, Step;
    match l
    case Invoke(_) => InvokeKeeps(s, t, l, s');
    case Advance(_, _) => AdvanceKeeps(s, t, l, s');
    case Return(_) => ReturnKeeps(s, t, l, s');
  }

  lemma InitKeeps(s: State)
    requires Init(s)
    ensures StateInv(s)
  {
    assert Abs(EmptyShared) == map[];
  }
}
