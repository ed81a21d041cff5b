/**
 What the threads that do not move know survives a step of another, and the action of every step is one
 that the shared memory's invariant allows.
 */
module MapSteps {
  import opened Options
  import opened MapSpec
  import opened MapProtocol
  import opened MapShared
  import opened MapThreads

  // ---- Knowledge survives the passing of time ----

  lemma HeldLater(sh: Shared, sh': Shared, hist: seq<AbsMap>, start: nat, k: Key, e: Eid)
    requires Evolves(sh, sh') && hist != [] && hist[|hist| - 1] == Abs(sh) && start < |hist|
    requires HeldFor(sh, hist, start, k, e)
    ensures HeldFor(sh', hist + [Abs(sh')], start, k, e)
  {
    var hist' := hist + [Abs(sh')];
    assert sh'.heap[e].key == sh.heap[e].key;
    if !Attached(sh', e) {
      assert sh'.heap[e].p == sh.heap[e].p;
      if Attached(sh, e) {
        assert Get(Abs(sh), k) == AbsAt(sh, k);
        assert Get(hist[|hist| - 1], k) == Deref(sh.heap[e].p);
      }
      SawLater(hist, Abs(sh'), start, k, Deref(sh.heap[e].p));
    }
  }

  lemma ReportedLater(hist: seq<AbsMap>, now: AbsMap, start: nat, out: seq<(Key, Value)>)
    requires Reported(hist, start, out)
    ensures Reported(hist + [now], start, out)
  {
    forall i | 0 <= i < |out|
      ensures Saw(hist + [now], start, out[i].0, Some(out[i].1))
    {
      SawLater(hist, now, start, out[i].0, Some(out[i].1));
    }
  }

  lemma ThroughoutEarlier(hist: seq<AbsMap>, now: AbsMap, start: nat, k: Key)
    requires Throughout(hist + [now], start, k)
    ensures Throughout(hist, start, k)
    ensures start <= |hist| ==> k in now
  {
    var hist' := hist + [now];
    assert forall m :: start <= m < |hist| ==> hist[m] == hist'[m];
    if start <= |hist| {
      assert hist'[|hist|] == now;
    }
  }

  lemma SnapLater(sh: Shared, sh': Shared, hist: seq<AbsMap>, start: nat, snap: map<Key, Eid>, rest: set<Key>, out: seq<(Key, Value)>)
    requires Evolves(sh, sh') && hist != [] && hist[|hist| - 1] == Abs(sh) && start < |hist|
    requires SnapOk(sh, hist, start, snap, rest, out)
    ensures SnapOk(sh', hist + [Abs(sh')], start, snap, rest, out)
  {
    var hist' := hist + [Abs(sh')];
    forall k | k in snap
      ensures HeldRead(sh', hist', start, k, snap[k])
    {
      HeldLater(sh, sh', hist, start, k, snap[k]);
    }
    ReportedLater(hist, Abs(sh'), start, out);
    forall k | Throughout(hist', start, k)
      ensures k in rest || Lists(out, k)
    {
      ThroughoutEarlier(hist, Abs(sh'), start, k);
    }
  }

  lemma JustifiedLater(op: Op, r: Result, start: nat, effect: Option<nat>, hist: seq<AbsMap>, now: AbsMap)
    requires Justified(op, r, start, effect, hist)
    ensures Justified(op, r, start, effect, hist + [now])
  {
    var hist' := hist + [now];
    assert forall m :: 0 <= m < |hist| ==> hist'[m] == hist[m];
    if op.Range? {
      ReportedLater(hist, now, start, r.pairs);
      forall k | Throughout(hist', start, k)
        ensures Throughout(hist, start, k)
      {
        ThroughoutEarlier(hist, now, start, k);
      }
    } else if effect == None {
      var m :| start <= m < |hist| && SpecMap(op, hist[m]) == hist[m] && SpecResult(op, hist[m]) == r;
      assert hist'[m] == hist[m];
    }
  }

  lemma NextLater(sh: Shared, sh': Shared, hist: seq<AbsMap>, start: nat, op: Op, n: Next)
    requires Evolves(sh, sh') && hist != [] && hist[|hist| - 1] == Abs(sh) && start < |hist|
    requires NextInv(sh, hist, start, op, n)
    ensures NextInv(sh', hist + [Abs(sh')], start, op, n)
  {
    match n
    case ToEntry(e) => HeldLater(sh, sh', hist, start, op.key, e);
    case ToIterate(snap) => SnapLater(sh, sh', hist, start, snap, snap.Keys, []);
    case ToDone(_) =>
  }

  // ---- Other threads ----

  /** A thread without the lock is undisturbed by any allowed action of another. */
  lemma OthersUnlocked(sh: Shared, sh': Shared, hist: seq<AbsMap>, th: Thread)
    requires Evolves(sh, sh') && hist != [] && hist[|hist| - 1] == Abs(sh)
    requires ThreadInv(sh, hist, th) && !Holds(th.pc)
    ensures ThreadInv(sh', hist + [Abs(sh')], th)
  {
    match th.pc {
      case EntryLoad(e) => HeldLater(sh, sh', hist, th.start, th.op.key, e);
      case TryStore(e) => HeldLater(sh, sh', hist, th.start, th.op.key, e);
      case TryStoreCas(e, _) => HeldLater(sh, sh', hist, th.start, th.op.key, e);
      case TryLoadOrStore(e, _) => HeldLater(sh, sh', hist, th.start, th.op.key, e);
      case TryLoadOrStoreCas(e, _) => HeldLater(sh, sh', hist, th.start, th.op.key, e);
      case DeleteLoad(e) => HeldLater(sh, sh', hist, th.start, th.op.key, e);
      case DeleteCas(e, _) => HeldLater(sh, sh', hist, th.start, th.op.key, e);
      case Iterate(snap, rest, out) => SnapLater(sh, sh', hist, th.start, snap, rest, out);
      case _ =>
    }
    if Outcome(th.pc).Some? {
      JustifiedLater(th.op, Outcome(th.pc).value, th.start, th.effect, hist, Abs(sh'));
    }
  }

  /** What a thread without the lock leaves alone. */
  ghost predicate SameStructure(sh: Shared, sh': Shared) {
    && sh'.read == sh.read && sh'.amended == sh.amended && sh'.dirty == sh.dirty && sh'.misses == sh.misses
    && |sh'.heap| == |sh.heap|
    && (forall e: Eid {:trigger sh'.heap[e]} :: e < |sh.heap| ==> sh'.heap[e].key == sh.heap[e].key)
    && (forall e: Eid {:trigger IsExpunged(sh', e)} :: IsExpunged(sh', e) <==> IsExpunged(sh, e))
  }

  /** The thread with the lock is undisturbed by a thread without it. */
  lemma OtherHolder(sh: Shared, sh': Shared, hist: seq<AbsMap>, th: Thread)
    requires Evolves(sh, sh') && hist != [] && hist[|hist| - 1] == Abs(sh)
    requires SameStructure(sh, sh')
    requires ThreadInv(sh, hist, th) && Holds(th.pc)
    ensures ThreadInv(sh', hist + [Abs(sh')], th)
  {
    assert forall e: Eid :: Attached(sh', e) <==> Attached(sh, e);
    assert forall e: Eid :: Current(sh', e) <==> Current(sh, e);
    match th.pc {
      case MissCount(n) => NextLater(sh, sh', hist, th.start, th.op, n);
      case MissPublish(n) => NextLater(sh, sh', hist, th.start, th.op, n);
      case MissDrop(n) => NextLater(sh, sh', hist, th.start, th.op, n);
      case MissReset(n) => NextLater(sh, sh', hist, th.start, th.op, n);
      case Unlock(n) => NextLater(sh, sh', hist, th.start, th.op, n);
      case RangeDrop(snap) => SnapLater(sh, sh', hist, th.start, snap, snap.Keys, []);
      case RangeReset(snap) => SnapLater(sh, sh', hist, th.start, snap, snap.Keys, []);
      case _ =>
    }
    if Outcome(th.pc).Some? {
      JustifiedLater(th.op, Outcome(th.pc).value, th.start, th.effect, hist, Abs(sh'));
    }
  }

  // ---- The thread's own step: what it does is allowed ----

  /** The phase after a step from `pc` to `pc'`. */
  function NextPhase(ph: Phase, pc: Pc, pc': Pc): Phase {
    if Holds(pc') then PcPhase(pc') else if Holds(pc) then Quiet else ph
  }

  ghost predicate Ready(sh: Shared, ph: Phase, hist: seq<AbsMap>, th: Thread) {
    && SharedInv(sh, ph)
    && hist != [] && hist[|hist| - 1] == Abs(sh)
    && ThreadInv(sh, hist, th)
    && (Holds(th.pc) ==> ph == PcPhase(th.pc))
    && (th.pc == Lock && sh.lock == None ==> ph == Quiet)
  }

  lemma StepAllowed(sh: Shared, ph: Phase, hist: seq<AbsMap>, th: Thread, act: Action, pc': Pc)
    requires Ready(sh, ph, hist, th) && LocalStep(sh, th.op, th.pc, act, pc')
    ensures Allowed(sh, ph, act, NextPhase(ph, th.pc, pc'))
  {
    hide SharedInv, Justified, Allowed, NextPhase;
    hide EnterStep, LoadStep, MissLockedStep, StoreStep, LockedWriteStep, TryLoadOrStoreStep, DeleteStep, RangeStep, DirtyLockedStep;
    hide LoadInv, MissLockedInv, StoreInv, LockedWriteInv, LosInv, DeleteInv, DirtyLockedInv, NextInv;
    match GroupOf(th.pc)
    case Entering => EnterAllowed(sh, ph, th.op, th.pc, act, pc');
    case Loading => LoadAllowed(sh, ph, th.op, th.pc, act, pc');
    case MissLocked => MissLockedAllowed(sh, ph, hist, th, act, pc');
    case Storing => StoreAllowed(sh, ph, hist, th, act, pc');
    case LockedWrite => LockedWriteAllowed(sh, ph, th, act, pc');
    case TryingLoadOrStore => TryLoadOrStoreAllowed(sh, ph, hist, th, act, pc');
    case Deleting => DeleteAllowed(sh, ph, hist, th, act, pc');
    case Ranging => RangeAllowed(sh, ph, th.op, th.pc, act, pc');
    case DirtyLocked => DirtyLockedAllowed(sh, ph, th, act, pc');
  }

  lemma EnterAllowed(sh: Shared, ph: Phase, op: Op, pc: Pc, act: Action, pc': Pc)
    requires EnterStep(sh, op, pc, act, pc')
    requires (Holds(pc) ==> ph == PcPhase(pc)) && (pc == Lock && sh.lock == None ==> ph == Quiet)
    ensures Allowed(sh, ph, act, NextPhase(ph, pc, pc'))
  {
  }

  lemma LoadAllowed(sh: Shared, ph: Phase, op: Op, pc: Pc, act: Action, pc': Pc)
    requires LoadStep(sh, op, pc, act, pc')
    requires Holds(pc) ==> ph == PcPhase(pc)
    ensures Allowed(sh, ph, act, NextPhase(ph, pc, pc'))
  {
  }

  lemma MissLockedAllowed(sh: Shared, ph: Phase, hist: seq<AbsMap>, th: Thread, act: Action, pc': Pc)
    requires MissLockedStep(sh, th.pc, act, pc') && MissLockedInv(sh, hist, th)
    requires ph == PcPhase(th.pc)
    ensures Allowed(sh, ph, act, NextPhase(ph, th.pc, pc'))
  {
  }

  /** An entry that was ever in a read map is either the read map's entry for its key, or expunged. */
  lemma PublishedIsCurrent(sh: Shared, ph: Phase, e: Eid)
    requires SharedInv(sh, ph) && e in sh.published && !IsExpunged(sh, e)
    ensures Attached(sh, e)
  {
  }

  lemma StoreAllowed(sh: Shared, ph: Phase, hist: seq<AbsMap>, th: Thread, act: Action, pc': Pc)
    requires SharedInv(sh, ph) && StoreInv(sh, hist, th) && StoreStep(sh, th.op, th.pc, act, pc')
    requires Holds(th.pc) ==> ph == PcPhase(th.pc)
    ensures Allowed(sh, ph, act, NextPhase(ph, th.pc, pc'))
  {
    if th.pc.TryStoreCas? && act.WritePtr? { PublishedIsCurrent(sh, ph, th.pc.e); }
  }

  lemma TryLoadOrStoreAllowed(sh: Shared, ph: Phase, hist: seq<AbsMap>, th: Thread, act: Action, pc': Pc)
    requires SharedInv(sh, ph) && LosInv(sh, hist, th) && TryLoadOrStoreStep(sh, th.op, th.pc, act, pc')
    requires Holds(th.pc) ==> ph == PcPhase(th.pc)
    ensures Allowed(sh, ph, act, NextPhase(ph, th.pc, pc'))
  {
    hide SharedInv, HeldFor;
    if th.pc.site == Fast && act.WritePtr? { PublishedIsCurrent(sh, ph, th.pc.e); }
  }

  lemma DeleteAllowed(sh: Shared, ph: Phase, hist: seq<AbsMap>, th: Thread, act: Action, pc': Pc)
    requires SharedInv(sh, ph) && DeleteInv(sh, hist, th) && DeleteStep(sh, th.op, th.pc, act, pc')
    requires Holds(th.pc) ==> ph == PcPhase(th.pc)
    ensures Allowed(sh, ph, act, NextPhase(ph, th.pc, pc'))
  {
    if th.pc.DeleteCas? && act.WritePtr? { PublishedIsCurrent(sh, ph, th.pc.e); }
  }

  lemma LockedWriteAllowed(sh: Shared, ph: Phase, th: Thread, act: Action, pc': Pc)
    requires SharedInv(sh, ph) && LockedWriteInv(sh, th) && LockedWriteStep(sh, th.op, th.pc, act, pc')
    requires ph == PcPhase(th.pc)
    ensures Allowed(sh, ph, act, NextPhase(ph, th.pc, pc'))
  {
  }

  lemma RangeAllowed(sh: Shared, ph: Phase, op: Op, pc: Pc, act: Action, pc': Pc)
    requires SharedInv(sh, ph) && RangeStep(sh, op, pc, act, pc')
    requires (Holds(pc) ==> ph == PcPhase(pc)) && (pc == RangePublish ==> sh.amended)
    ensures Allowed(sh, ph, act, NextPhase(ph, pc, pc'))
  {
    hide Base;
    if pc.Iterate? { IterateStays(sh, op, pc, act, pc'); }
  }

  lemma IterateStays(sh: Shared, op: Op, pc: Pc, act: Action, pc': Pc)
    requires pc.Iterate? && RangeStep(sh, op, pc, act, pc')
    ensures act == Stutter && !Holds(pc')
  {
  }

  lemma DirtyLockedAllowed(sh: Shared, ph: Phase, th: Thread, act: Action, pc': Pc)
    requires SharedInv(sh, ph) && DirtyLockedInv(sh, th) && DirtyLockedStep(sh, th.pc, act, pc')
    requires ph == PcPhase(th.pc)
    ensures Allowed(sh, ph, act, NextPhase(ph, th.pc, pc'))
  {
    if th.pc.CopyLoad? || th.pc.CopyCas? || th.pc.CopyLink? {
      CopyOneAllowed(sh, ph, th, act, pc');
    } else {
      hide Base;
    }
  }

  lemma CopyOneAllowed(sh: Shared, ph: Phase, th: Thread, act: Action, pc': Pc)
    requires SharedInv(sh, ph) && DirtyLockedInv(sh, th) && DirtyLockedStep(sh, th.pc, act, pc')
    requires th.pc.CopyLoad? || th.pc.CopyCas? || th.pc.CopyLink?
    requires ph == PcPhase(th.pc)
    ensures Allowed(sh, ph, act, NextPhase(ph, th.pc, pc'))
  {
    var e := sh.read[th.pc.k];
    assert Current(sh, e) && sh.heap[e].key == th.pc.k;
    assert !IsExpunged(sh, e);
  }
}
