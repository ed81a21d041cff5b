/**
 The stepping thread's own invariant after each of its steps, one lemma for each function of the code.
 */
module MapMoves {
  import opened Options
  import opened MapSpec
  import opened MapProtocol
  import opened MapShared
  import opened MapThreads
  import opened MapSteps

  /** The moving thread afterwards. */
  function Moved(th: Thread, act: Action, pc': Pc, now: nat): Thread {
    th.(pc := pc', effect := if Commits(act) then Some(now) else th.effect)
  }

  ghost predicate MoveContext(sh: Shared, sh': Shared, ph: Phase, hist: seq<AbsMap>, th: Thread, act: Action) {
    && SharedInv(sh, ph)
    && hist != [] && hist[|hist| - 1] == Abs(sh) && th.start < |hist|
    && Evolves(sh, sh') && Abs(sh') == AbsAfter(sh, act)
    && (Holds(th.pc) ==> ph == PcPhase(th.pc))
  }

  lemma ContextParts(sh: Shared, sh': Shared, ph: Phase, hist: seq<AbsMap>, th: Thread, act: Action)
    requires MoveContext(sh, sh', ph, hist, th, act)
    ensures hist != [] && hist[|hist| - 1] == Abs(sh) && th.start < |hist| && Evolves(sh, sh')
  {
    hide SharedInv, Evolves;
  }

  lemma MovedOnly(th: Thread, act: Action, pc': Pc, now: nat)
    requires !Commits(act)
    ensures Moved(th, act, pc', now) == th.(pc := pc')
  {
  }

  // ---- Justifying results ----

  /** The answer that the abstract map gives now, for a call that changes nothing now. */
  lemma JustifyNow(op: Op, r: Result, start: nat, hist: seq<AbsMap>, now: AbsMap)
    requires !op.Range? && start <= |hist|
    requires SpecMap(op, now) == now && SpecResult(op, now) == r
    ensures Justified(op, r, start, None, hist + [now])
  {
    var hist' := hist + [now];
    assert hist'[|hist|] == now;
  }

  lemma JustifyEffect(op: Op, r: Result, start: nat, hist: seq<AbsMap>, now: AbsMap)
    requires !op.Range? && hist != [] && start < |hist|
    requires SpecMap(op, hist[|hist| - 1]) == now && SpecResult(op, hist[|hist| - 1]) == r
    ensures Justified(op, r, start, Some(|hist| - 1), hist + [now])
  {
    var hist' := hist + [now];
    assert hist'[|hist| - 1] == hist[|hist| - 1] && hist'[|hist|] == now;
  }

  lemma JustifySaw(op: Op, r: Result, start: nat, hist: seq<AbsMap>, x: Option<Value>)
    requires (op.Load? && r == Loaded(x)) || (op.Delete? && r == Deleted && x == None)
    requires Saw(hist, start, op.key, x)
    ensures Justified(op, r, start, None, hist)
  {
    var m :| start <= m < |hist| && Get(hist[m], op.key) == x;
    assert op.Delete? ==> hist[m] - {op.key} == hist[m];
    assert SpecMap(op, hist[m]) == hist[m] && SpecResult(op, hist[m]) == r;
  }

  /** A value read from a held entry was the key's value during the call. */
  lemma HeldValue(sh: Shared, sh': Shared, hist: seq<AbsMap>, start: nat, k: Key, e: Eid)
    requires Evolves(sh, sh') && hist != [] && hist[|hist| - 1] == Abs(sh) && start < |hist|
    requires HeldFor(sh, hist, start, k, e)
    ensures Saw(hist + [Abs(sh')], start, k, Deref(PtrOf(sh, e)))
  {
    if Attached(sh, e) {
      assert Get(Abs(sh), k) == AbsAt(sh, k);
      assert Get(hist[|hist| - 1], k) == Deref(PtrOf(sh, e));
    }
    SawLater(hist, Abs(sh'), start, k, Deref(PtrOf(sh, e)));
  }

  // ---- Snapshots ----

  /** While the read map is not amended, it has every key. */
  lemma Unamended(sh: Shared, ph: Phase, k: Key)
    requires SharedInv(sh, ph) && !sh.amended && k !in sh.read
    ensures k !in DirtyMap(sh) && AbsAt(sh, k) == None && k !in Abs(sh)
  {
    assert Get(Abs(sh), k) == AbsAt(sh, k);
  }

  lemma FreshHeld(sh: Shared, ph: Phase, hist: seq<AbsMap>, start: nat, k: Key)
    requires SharedInv(sh, ph) && k in sh.read
    ensures HeldRead(sh, hist, start, k, sh.read[k])
  {
    assert Attached(sh, sh.read[k]);
  }

  lemma FreshSnap(sh: Shared, ph: Phase, hist: seq<AbsMap>, start: nat)
    requires SharedInv(sh, ph) && !sh.amended
    requires hist != [] && hist[|hist| - 1] == Abs(sh) && start < |hist|
    ensures SnapOk(sh, hist, start, sh.read, sh.read.Keys, [])
  {
    forall k | k in sh.read
      ensures HeldRead(sh, hist, start, k, sh.read[k])
    {
      FreshHeld(sh, ph, hist, start, k);
    }
    forall k | Throughout(hist, start, k)
      ensures k in sh.read
    {
      assert k in hist[|hist| - 1];
      if k !in sh.read { Unamended(sh, ph, k); }
    }
  }

  // ---- Moves ----

  lemma StartMoves(sh: Shared, sh': Shared, t: Tid, ph: Phase, hist: seq<AbsMap>, th: Thread, act: Action, pc': Pc)
    requires MoveContext(sh, sh', ph, hist, th, act) && ThreadInv(sh, hist, th)
    requires th.pc.Start? && EnterStep(sh, th.op, th.pc, act, pc') && sh' == Apply(sh, t, act)
    ensures ThreadInv(sh', hist + [Abs(sh')], Moved(th, act, pc', |hist| - 1))
  {
    hide SharedInv, Justified, Evolves, SnapOk, HeldFor, AbsAfter;
    var op := th.op;
    var hist' := hist + [Abs(sh')];
    if op.Range? {
      if !sh.amended { FreshSnap(sh, ph, hist', th.start); }
    } else if op.key in sh.read {
      FreshHeld(sh, ph, hist', th.start, op.key);
    } else if !sh.amended && !Writes(op) {
      JustifyAbsent(sh, ph, hist, th.start, op, pc'.r);
    }
  }

  lemma RereadMoves(sh: Shared, sh': Shared, t: Tid, ph: Phase, hist: seq<AbsMap>, th: Thread, act: Action, pc': Pc)
    requires MoveContext(sh, sh', ph, hist, th, act) && ThreadInv(sh, hist, th)
    requires th.pc.Reread? && EnterStep(sh, th.op, th.pc, act, pc') && sh' == Apply(sh, t, act)
    ensures ThreadInv(sh', hist + [Abs(sh')], Moved(th, act, pc', |hist| - 1))
  {
    hide SharedInv, Justified, Evolves, SnapOk, AbsAfter;
    var op := th.op;
    var hist' := hist + [Abs(sh')];
    if op.Range? {
      if !sh.amended { FreshSnap(sh, ph, hist', th.start); }
    } else if op.key in sh.read {
      FreshHeld(sh, ph, hist', th.start, op.key);
    } else if !sh.amended && !Writes(op) {
      JustifyAbsent(sh, ph, hist, th.start, op, pc'.n.r);
    }
  }

  /** A key missing from a read map that is not amended is absent. */
  lemma JustifyAbsent(sh: Shared, ph: Phase, hist: seq<AbsMap>, start: nat, op: Op, r: Result)
    requires SharedInv(sh, ph) && start <= |hist| && !sh.amended
    requires (op.Load? && r == Loaded(None)) || (op.Delete? && r == Deleted)
    requires op.key !in sh.read
    ensures Justified(op, r, start, None, hist + [Abs(sh)])
  {
    hide SharedInv, Justified;
    Unamended(sh, ph, op.key);
    assert op.Delete? ==> Abs(sh) - {op.key} == Abs(sh);
    JustifyNow(op, r, start, hist, Abs(sh));
  }

  lemma UnlockMoves(sh: Shared, sh': Shared, t: Tid, ph: Phase, hist: seq<AbsMap>, th: Thread, act: Action, pc': Pc)
    requires MoveContext(sh, sh', ph, hist, th, act) && ThreadInv(sh, hist, th)
    requires EnterStep(sh, th.op, th.pc, act, pc') && sh' == Apply(sh, t, act)
    requires th.pc.Unlock? || th.pc.Lock?
    ensures ThreadInv(sh', hist + [Abs(sh')], Moved(th, act, pc', |hist| - 1))
  {
    hide SharedInv, Justified, Evolves, SnapOk, HeldRead, HeldFor, AbsAfter;
    if th.pc.Unlock? {
      NextLater(sh, sh', hist, th.start, th.op, th.pc.n);
      if th.pc.n.ToDone? {
        JustifiedLater(th.op, th.pc.n.r, th.start, th.effect, hist, Abs(sh'));
      }
    }
  }

  lemma LoadMoves(sh: Shared, sh': Shared, t: Tid, ph: Phase, hist: seq<AbsMap>, th: Thread, act: Action, pc': Pc)
    requires MoveContext(sh, sh', ph, hist, th, act) && LoadInv(sh, hist, th) && th.effect == None
    requires LoadStep(sh, th.op, th.pc, act, pc') && sh' == Apply(sh, t, act)
    ensures ThreadInv(sh', hist + [Abs(sh')], Moved(th, act, pc', |hist| - 1))
  {
    hide SharedInv, Justified, Evolves, Abs, HeldFor;
    if th.pc.EntryLoad? {
      HeldValue(sh, sh', hist, th.start, th.op.key, th.pc.e);
      JustifySaw(th.op, pc'.r, th.start, hist + [Abs(sh')], Deref(PtrOf(sh, th.pc.e)));
    } else {
      DirtyFinds(sh, ph, hist, th.start, th.op.key);
      if th.op.key !in DirtyMap(sh) {
        JustifyNow(th.op, Loaded(None), th.start, hist, Abs(sh'));
      }
    }
  }

  /** What m.dirty has for a key that the read map lacks. */
  lemma DirtyFinds(sh: Shared, ph: Phase, hist: seq<AbsMap>, start: nat, k: Key)
    requires SharedInv(sh, ph) && ph == Quiet && sh.amended && k !in sh.read
    ensures sh.dirty.Some?
    ensures if k in DirtyMap(sh) then HeldFor(sh, hist + [Abs(sh)], start, k, DirtyMap(sh)[k])
            else Get(Abs(sh), k) == None
  {
    assert Get(Abs(sh), k) == AbsAt(sh, k);
    if k in DirtyMap(sh) {
      assert Attached(sh, DirtyMap(sh)[k]);
    }
  }

  lemma MissLockedMoves(sh: Shared, sh': Shared, t: Tid, ph: Phase, hist: seq<AbsMap>, th: Thread, act: Action, pc': Pc, n: Next)
    requires MoveContext(sh, sh', ph, hist, th, act) && ThreadInv(sh, hist, th)
    requires InMissLocked(th.pc, n) && MissLockedStep(sh, th.pc, act, pc') && sh' == Apply(sh, t, act)
    ensures ThreadInv(sh', hist + [Abs(sh')], Moved(th, act, pc', |hist| - 1))
  {
    hide *;
    ContextParts(sh, sh', ph, hist, th, act);
    MissOpen(sh, hist, th, n);
    MissStepFacts(sh, t, hist, th, act, pc', n);
    MovedOnly(th, act, pc', |hist| - 1);
    NextLater(sh, sh', hist, th.start, th.op, n);
    if n.ToDone? {
      JustifiedLater(th.op, n.r, th.start, th.effect, hist, Abs(sh'));
    }
    MissClose(sh', hist + [Abs(sh')], Moved(th, act, pc', |hist| - 1), n);
  }

  /** Inside missLocked, with `n` to follow. */
  predicate InMissLocked(pc: Pc, n: Next) {
    pc == MissCount(n) || pc == MissPublish(n) || pc == MissDrop(n) || pc == MissReset(n)
  }

  lemma MissOpen(sh: Shared, hist: seq<AbsMap>, th: Thread, n: Next)
    requires ThreadInv(sh, hist, th) && InMissLocked(th.pc, n)
    ensures th.start < |hist| && MissLockedInv(sh, hist, th) && NextInv(sh, hist, th.start, th.op, n)
    ensures if n.ToDone? then Justified(th.op, n.r, th.start, th.effect, hist) else th.effect == None
  {
    hide Justified, NextInv;
  }

  lemma MissStepFacts(sh: Shared, t: Tid, hist: seq<AbsMap>, th: Thread, act: Action, pc': Pc, n: Next)
    requires InMissLocked(th.pc, n) && MissLockedInv(sh, hist, th) && MissLockedStep(sh, th.pc, act, pc')
    ensures !Commits(act) && (pc' == Unlock(n) || (InMissLocked(pc', n) && !pc'.MissCount?))
    ensures pc'.MissPublish? ==>
      var sh' := Apply(sh, t, act);
      sh'.dirty.Some? && |DirtyMap(sh')| <= sh'.misses
  {
    hide NextInv;
  }

  lemma MissClose(sh: Shared, hist: seq<AbsMap>, th: Thread, n: Next)
    requires th.pc == Unlock(n) || (InMissLocked(th.pc, n) && !th.pc.MissCount?)
    requires th.pc.MissPublish? ==> sh.dirty.Some? && |DirtyMap(sh)| <= sh.misses
    requires th.start < |hist| && NextInv(sh, hist, th.start, th.op, n)
    requires if n.ToDone? then Justified(th.op, n.r, th.start, th.effect, hist) else th.effect == None
    ensures ThreadInv(sh, hist, th)
  {
    hide Justified, NextInv;
  }

  lemma StoreMoves(sh: Shared, sh': Shared, t: Tid, ph: Phase, hist: seq<AbsMap>, th: Thread, act: Action, pc': Pc)
    requires MoveContext(sh, sh', ph, hist, th, act) && StoreInv(sh, hist, th) && th.effect == None
    requires StoreStep(sh, th.op, th.pc, act, pc') && sh' == Apply(sh, t, act)
    requires !Commits(act)
    ensures ThreadInv(sh', hist + [Abs(sh')], Moved(th, act, pc', |hist| - 1))
  {
    hide SharedInv, Justified, Evolves, HeldFor;
    HeldLater(sh, sh', hist, th.start, th.op.key, th.pc.e);
  }

  lemma StoreWrites(sh: Shared, sh': Shared, t: Tid, ph: Phase, hist: seq<AbsMap>, th: Thread, act: Action, pc': Pc)
    requires MoveContext(sh, sh', ph, hist, th, act) && StoreInv(sh, hist, th) && th.effect == None
    requires StoreStep(sh, th.op, th.pc, act, pc') && sh' == Apply(sh, t, act)
    requires Commits(act)
    ensures ThreadInv(sh', hist + [Abs(sh')], Moved(th, act, pc', |hist| - 1))
  {
    hide SharedInv, Justified, Evolves, StoreInv, StoreStep, Apply;
    StoreWritesMap(sh, hist, th, act, pc');
    JustifyEffect(th.op, Stored, th.start, hist, Abs(sh'));
  }

  lemma StoreWritesMap(sh: Shared, hist: seq<AbsMap>, th: Thread, act: Action, pc': Pc)
    requires StoreInv(sh, hist, th) && StoreStep(sh, th.op, th.pc, act, pc') && Commits(act)
    ensures th.op.Store? && AbsAfter(sh, act) == Abs(sh)[th.op.key := th.op.value]
    ensures pc' == Done(Stored) || pc' == Unlock(ToDone(Stored))
  {
  }

  lemma LookupMoves(sh: Shared, sh': Shared, t: Tid, ph: Phase, hist: seq<AbsMap>, th: Thread, act: Action, pc': Pc)
    requires MoveContext(sh, sh', ph, hist, th, act) && LockedWriteInv(sh, th) && th.effect == None
    requires LockedWriteStep(sh, th.op, th.pc, act, pc') && sh' == Apply(sh, t, act)
    requires th.pc.LookupDirty?
    ensures ThreadInv(sh', hist + [Abs(sh')], Moved(th, act, pc', |hist| - 1))
  {
    hide InPhase, Justified, Evolves;
    if th.op.key in DirtyMap(sh) {
      assert HeldLocked(sh, th.op.key, DirtyMap(sh)[th.op.key]);
    }
  }

  lemma InsertMoves(sh: Shared, sh': Shared, t: Tid, ph: Phase, hist: seq<AbsMap>, th: Thread, act: Action, pc': Pc)
    requires MoveContext(sh, sh', ph, hist, th, act) && LockedWriteInv(sh, th) && th.effect == None
    requires LockedWriteStep(sh, th.op, th.pc, act, pc') && sh' == Apply(sh, t, act)
    requires th.pc.InsertNew?
    ensures ThreadInv(sh', hist + [Abs(sh')], Moved(th, act, pc', |hist| - 1))
  {
    hide SharedInv, Justified, Evolves;
    assert Get(Abs(sh), th.op.key) == AbsAt(sh, th.op.key);
    JustifyEffect(th.op, pc'.n.r, th.start, hist, Abs(sh'));
  }

  lemma RelinkMoves(sh: Shared, sh': Shared, t: Tid, ph: Phase, hist: seq<AbsMap>, th: Thread, act: Action, pc': Pc)
    requires MoveContext(sh, sh', ph, hist, th, act) && LockedWriteInv(sh, th) && th.effect == None
    requires LockedWriteStep(sh, th.op, th.pc, act, pc') && sh' == Apply(sh, t, act)
    requires th.pc.TryUnexpunge? || th.pc.Relink?
    ensures ThreadInv(sh', hist + [Abs(sh')], Moved(th, act, pc', |hist| - 1))
  {
    hide SharedInv, Justified, Evolves, LockedWriteStep, Apply, Current, HeldLocked, AbsAfter;
    RelinkFacts(sh, t, ph, th, act, pc');
  }

  lemma RelinkFacts(sh: Shared, t: Tid, ph: Phase, th: Thread, act: Action, pc': Pc)
    requires SharedInv(sh, ph) && ph == PcPhase(th.pc) && LockedWriteInv(sh, th)
    requires LockedWriteStep(sh, th.op, th.pc, act, pc')
    requires th.pc.TryUnexpunge? || th.pc.Relink?
    ensures !Commits(act) && (pc' == Relink(th.pc.e) || pc' == OnReadEntry(th.op, th.pc.e))
    ensures var sh' := Apply(sh, t, act);
            && th.pc.e < |sh'.heap| && sh'.heap[th.pc.e].key == th.op.key
            && Current(sh', th.pc.e) && HeldLocked(sh', th.op.key, th.pc.e)
  {
    hide Base;
  }

  lemma DirtyLockedMoves(sh: Shared, sh': Shared, t: Tid, ph: Phase, hist: seq<AbsMap>, th: Thread, act: Action, pc': Pc)
    requires MoveContext(sh, sh', ph, hist, th, act) && DirtyLockedInv(sh, th) && th.effect == None
    requires DirtyLockedStep(sh, th.pc, act, pc') && sh' == Apply(sh, t, act)
    ensures ThreadInv(sh', hist + [Abs(sh')], Moved(th, act, pc', |hist| - 1))
  {
    hide Evolves, AbsAfter, SharedInv;
    if th.pc == MarkAmended {
      hide DirtyLockedStep;
      AmendMoves(sh, t, ph, th.op.key, th.pc, act, pc');
    } else {
      hide DirtyLockedStep, Apply;
      CopyMoves(sh, t, th.pc, act, pc');
    }
  }

  lemma AmendMoves(sh: Shared, t: Tid, ph: Phase, k: Key, pc: Pc, act: Action, pc': Pc)
    requires SharedInv(sh, ph) && ph == PcPhase(pc) && pc == MarkAmended && DirtyLockedStep(sh, pc, act, pc') && k !in sh.read
    ensures pc' == InsertNew && act == Amend
    ensures k !in DirtyMap(sh)
  {
    hide Base;
  }

  lemma CopyMoves(sh: Shared, t: Tid, pc: Pc, act: Action, pc': Pc)
    requires pc != MarkAmended && DirtyLockedStep(sh, pc, act, pc')
    requires pc.CopyLoad? || pc.CopyCas? || pc.CopyLink? ==> pc.k in pc.rest
    ensures Apply(sh, t, act).read == sh.read && !Commits(act)
    ensures pc'.CopyNext? || ((pc'.CopyLoad? || pc'.CopyCas? || pc'.CopyLink?) && pc'.k in pc'.rest) || pc' == MarkAmended
  {
    if pc.CopyNext? {
      CopyNextMoves(sh, pc, act, pc');
    } else if pc != MakeDirty {
      CopyOneMoves(sh, t, pc, act, pc');
    }
  }

  lemma CopyOneMoves(sh: Shared, t: Tid, pc: Pc, act: Action, pc': Pc)
    requires pc.CopyLoad? || pc.CopyCas? || pc.CopyLink?
    requires DirtyLockedStep(sh, pc, act, pc')
    ensures Apply(sh, t, act).read == sh.read && !Commits(act)
    ensures pc'.CopyNext? || ((pc'.CopyLoad? || pc'.CopyCas? || pc'.CopyLink?) && pc'.rest == pc.rest && pc'.k == pc.k)
  {
  }

  lemma CopyNextMoves(sh: Shared, pc: Pc, act: Action, pc': Pc)
    requires pc.CopyNext? && DirtyLockedStep(sh, pc, act, pc')
    ensures act == Stutter
    ensures pc' == MarkAmended || (pc'.CopyLoad? && pc'.k in pc'.rest)
  {
  }

  lemma TryLoadOrStoreMoves(sh: Shared, sh': Shared, t: Tid, ph: Phase, hist: seq<AbsMap>, th: Thread, act: Action, pc': Pc)
    requires MoveContext(sh, sh', ph, hist, th, act) && LosInv(sh, hist, th) && th.effect == None
    requires TryLoadOrStoreStep(sh, th.op, th.pc, act, pc') && sh' == Apply(sh, t, act)
    requires act == Stutter && InLos(th.pc)
    ensures ThreadInv(sh', hist + [Abs(sh')], Moved(th, act, pc', |hist| - 1))
  {
    hide SharedInv, Justified, Evolves, HeldFor, LosInv, LosHeld, ThreadInv, TryLoadOrStoreStep, Abs;
    var e, site := th.pc.e, th.pc.site;
    LosHeldLater(sh, hist, th);
    LosStepFacts(sh, hist, th, pc');
    if th.pc.TryLoadOrStore? && PtrOf(sh, e).Val? {
      var r := LoadedOrStored(Some(PtrOf(sh, e).v.value), true);
      LosFinds(sh, ph, hist, th);
      JustifyNow(th.op, r, th.start, hist, Abs(sh));
      LosExits(sh, hist + [Abs(sh)], Moved(th, act, pc', |hist| - 1), site, r);
    } else {
      LosGoesOn(sh, hist + [Abs(sh)], Moved(th, act, pc', |hist| - 1), e, site);
    }
  }

  predicate InLos(pc: Pc) {
    pc.TryLoadOrStore? || pc.TryLoadOrStoreCas?
  }

  /** An entry that is in use holds the key's value, if any. */
  lemma LosFinds(sh: Shared, ph: Phase, hist: seq<AbsMap>, th: Thread)
    requires SharedInv(sh, ph) && LosInv(sh, hist, th) && InLos(th.pc) && PtrOf(sh, th.pc.e) != Expunged
    ensures th.op.LoadOrStore? && th.pc.e < |sh.heap| && sh.heap[th.pc.e].key == th.op.key
    ensures Get(Abs(sh), th.op.key) == Deref(PtrOf(sh, th.pc.e))
  {
    hide SharedInv;
    if th.pc.site == Fast { PublishedIsCurrent(sh, ph, th.pc.e); }
    assert Get(Abs(sh), th.op.key) == AbsAt(sh, th.op.key);
  }

  lemma LosHeldLater(sh: Shared, hist: seq<AbsMap>, th: Thread)
    requires LosInv(sh, hist, th) && InLos(th.pc) && Evolves(sh, sh)
    requires hist != [] && hist[|hist| - 1] == Abs(sh) && th.start < |hist|
    ensures th.op.LoadOrStore? && LosHeld(sh, hist + [Abs(sh)], th.start, th.op.key, th.pc.e, th.pc.site)
    ensures th.pc.site == InDirty ==> sh.dirty.Some?
  {
    hide Evolves, HeldFor, Abs;
    if th.pc.site == Fast { HeldLater(sh, sh, hist, th.start, th.op.key, th.pc.e); }
  }

  lemma LosStepFacts(sh: Shared, hist: seq<AbsMap>, th: Thread, pc': Pc)
    requires LosInv(sh, hist, th) && InLos(th.pc) && TryLoadOrStoreStep(sh, th.op, th.pc, Stutter, pc')
    ensures var e, site := th.pc.e, th.pc.site;
            if th.pc.TryLoadOrStore? && PtrOf(sh, e).Val? then pc' == LosExit(site, LoadedOrStored(Some(PtrOf(sh, e).v.value), true))
            else pc' == TryLoadOrStoreCas(e, site) || pc' == TryLoadOrStore(e, site) || pc' == Lock
  {
    hide HeldFor;
  }

  lemma LosExits(sh: Shared, hist: seq<AbsMap>, th: Thread, site: Site, r: Result)
    requires th.start < |hist| && th.pc == LosExit(site, r) && Justified(th.op, r, th.start, th.effect, hist)
    requires site == InDirty ==> sh.dirty.Some?
    ensures ThreadInv(sh, hist, th)
  {
    hide Justified;
  }

  lemma LosGoesOn(sh: Shared, hist: seq<AbsMap>, th: Thread, e: Eid, site: Site)
    requires th.op.LoadOrStore? && th.start < |hist| && th.effect == None
    requires LosHeld(sh, hist, th.start, th.op.key, e, site)
    requires th.pc == TryLoadOrStoreCas(e, site) || th.pc == TryLoadOrStore(e, site) || th.pc == Lock
    ensures ThreadInv(sh, hist, th)
  {
    hide LosHeld;
  }

  lemma TryLoadOrStoreWrites(sh: Shared, sh': Shared, t: Tid, ph: Phase, hist: seq<AbsMap>, th: Thread, act: Action, pc': Pc)
    requires MoveContext(sh, sh', ph, hist, th, act) && LosInv(sh, hist, th) && th.effect == None
    requires TryLoadOrStoreStep(sh, th.op, th.pc, act, pc') && sh' == Apply(sh, t, act)
    requires act != Stutter && InLos(th.pc)
    ensures ThreadInv(sh', hist + [Abs(sh')], Moved(th, act, pc', |hist| - 1))
  {
    hide SharedInv, Justified, Evolves, HeldFor, LosInv, LosHeld, ThreadInv, TryLoadOrStoreStep, Abs, Apply;
    LosWriteFacts(sh, t, hist, th, act, pc');
    var r := LoadedOrStored(Some(th.op.value), false);
    LosFinds(sh, ph, hist, th);
    JustifyEffect(th.op, r, th.start, hist, Abs(sh'));
    LosExits(sh', hist + [Abs(sh')], Moved(th, act, pc', |hist| - 1), th.pc.site, r);
  }

  lemma LosWriteFacts(sh: Shared, t: Tid, hist: seq<AbsMap>, th: Thread, act: Action, pc': Pc)
    requires LosInv(sh, hist, th) && InLos(th.pc) && TryLoadOrStoreStep(sh, th.op, th.pc, act, pc') && act != Stutter
    ensures th.op.LoadOrStore? && PtrOf(sh, th.pc.e) == Nil
    ensures act == WritePtr(th.pc.e, Some(th.op.value))
    ensures pc' == LosExit(th.pc.site, LoadedOrStored(Some(th.op.value), false))
    ensures th.pc.site == InDirty ==> Apply(sh, t, act).dirty.Some?
  {
    hide HeldFor;
  }

  lemma DeleteMoves(sh: Shared, sh': Shared, t: Tid, ph: Phase, hist: seq<AbsMap>, th: Thread, act: Action, pc': Pc)
    requires MoveContext(sh, sh', ph, hist, th, act) && DeleteInv(sh, hist, th) && th.effect == None
    requires DeleteStep(sh, th.op, th.pc, act, pc') && sh' == Apply(sh, t, act)
    requires !Commits(act)
    ensures ThreadInv(sh', hist + [Abs(sh')], Moved(th, act, pc', |hist| - 1))
  {
    hide SharedInv, Justified, Evolves, HeldFor;
    HeldLater(sh, sh', hist, th.start, th.op.key, th.pc.e);
    if pc'.Done? {
      HeldValue(sh, sh', hist, th.start, th.op.key, th.pc.e);
      JustifySaw(th.op, Deleted, th.start, hist + [Abs(sh')], None);
    }
  }

  lemma DeleteWrites(sh: Shared, sh': Shared, t: Tid, ph: Phase, hist: seq<AbsMap>, th: Thread, act: Action, pc': Pc)
    requires MoveContext(sh, sh', ph, hist, th, act) && DeleteInv(sh, hist, th) && th.effect == None
    requires DeleteStep(sh, th.op, th.pc, act, pc') && sh' == Apply(sh, t, act)
    requires Commits(act)
    ensures ThreadInv(sh', hist + [Abs(sh')], Moved(th, act, pc', |hist| - 1))
  {
    hide SharedInv, Justified, Evolves, DeleteInv, DeleteStep, Apply, Abs;
    DeleteWritesMap(sh, hist, th, act, pc');
    JustifyEffect(th.op, Deleted, th.start, hist, Abs(sh'));
  }

  lemma DeleteWritesMap(sh: Shared, hist: seq<AbsMap>, th: Thread, act: Action, pc': Pc)
    requires DeleteInv(sh, hist, th) && DeleteStep(sh, th.op, th.pc, act, pc') && Commits(act)
    ensures th.op.Delete? && AbsAfter(sh, act) == Abs(sh) - {th.op.key}
    ensures pc' == Done(Deleted) || pc' == Unlock(ToDone(Deleted))
  {
    hide Abs;
  }

  // ---- Range ----

  lemma RangeMoves(sh: Shared, sh': Shared, t: Tid, ph: Phase, ph': Phase, hist: seq<AbsMap>, th: Thread, act: Action, pc': Pc)
    requires MoveContext(sh, sh', ph, hist, th, act) && RangeInv(sh, hist, th) && th.effect == None
    requires RangeStep(sh, th.op, th.pc, act, pc') && sh' == Apply(sh, t, act)
    requires SharedInv(sh', ph')
    requires !th.pc.Iterate?
    ensures ThreadInv(sh', hist + [Abs(sh')], Moved(th, act, pc', |hist| - 1))
  {
    hide SharedInv, Justified, Evolves, AbsAfter, SnapOk, RangeInv, RangeStep, ThreadInv, Apply, Abs;
    var hist' := hist + [Abs(sh')];
    RangeStepFacts(sh, t, hist, th, act, pc');
    if th.pc == RangePublish {
      FreshSnap(sh', ph', hist', th.start);
    } else {
      SnapLater(sh, sh', hist, th.start, th.pc.snap, th.pc.snap.Keys, []);
    }
    RangeClose(sh', hist', Moved(th, act, pc', |hist| - 1), if th.pc == RangePublish then sh'.read else th.pc.snap);
  }

  lemma RangeStepFacts(sh: Shared, t: Tid, hist: seq<AbsMap>, th: Thread, act: Action, pc': Pc)
    requires RangeInv(sh, hist, th) && RangeStep(sh, th.op, th.pc, act, pc') && !th.pc.Iterate?
    ensures th.op.Range? && !Commits(act)
    ensures if th.pc == RangePublish then pc' == RangeDrop(Apply(sh, t, act).read) && !Apply(sh, t, act).amended
            else
              && (th.pc.RangeDrop? || th.pc.RangeReset?) && SnapOk(sh, hist, th.start, th.pc.snap, th.pc.snap.Keys, [])
              && (pc' == RangeReset(th.pc.snap) || pc' == Unlock(ToIterate(th.pc.snap)))
  {
    hide SnapOk;
  }

  lemma RangeClose(sh: Shared, hist: seq<AbsMap>, th: Thread, snap: map<Key, Eid>)
    requires th.op.Range? && th.start < |hist| && th.effect == None
    requires th.pc == RangeDrop(snap) || th.pc == RangeReset(snap) || th.pc == Unlock(ToIterate(snap))
    requires SnapOk(sh, hist, th.start, snap, snap.Keys, [])
    ensures ThreadInv(sh, hist, th)
  {
    hide SnapOk;
  }

  lemma IterateMoves(sh: Shared, sh': Shared, t: Tid, ph: Phase, hist: seq<AbsMap>, th: Thread, act: Action, pc': Pc)
    requires MoveContext(sh, sh', ph, hist, th, act) && RangeInv(sh, hist, th) && th.effect == None
    requires RangeStep(sh, th.op, th.pc, act, pc') && sh' == Apply(sh, t, act)
    requires th.pc.Iterate?
    ensures ThreadInv(sh', hist + [Abs(sh')], Moved(th, act, pc', |hist| - 1))
  {
    var snap, rest, out := th.pc.snap, th.pc.rest, th.pc.out;
    hide SharedInv, Evolves, AbsAfter, HeldRead, Reported;
    SnapLater(sh, sh', hist, th.start, snap, rest, out);
    if rest == {} {
      hide SnapOk;
      IterateEnds(sh', hist + [Abs(sh')], th.start, snap, out);
      assert ThreadInv(sh', hist + [Abs(sh')], Moved(th, act, pc', |hist| - 1)) by { hide RangeOk; }
    } else {
      hide Justified;
      var k :| k in rest && IterateOne(sh, th.op.f, snap, rest, out, k, pc');
      hide RangeStep;
      IterateKeyMoves(sh, sh', ph, hist, th, k, pc');
    }
  }

  lemma IterateEnds(sh: Shared, hist: seq<AbsMap>, start: nat, snap: map<Key, Eid>, out: seq<(Key, Value)>)
    requires SnapOk(sh, hist, start, snap, {}, out)
    ensures RangeOk(hist, start, out, false)
  {
  }

  /** The pairs after one more turn. */
  function OutAfter(sh: Shared, snap: map<Key, Eid>, out: seq<(Key, Value)>, k: Key): seq<(Key, Value)>
    requires k in snap
  {
    var p := PtrOf(sh, snap[k]);
    if p.Val? then out + [(k, p.v.value)] else out
  }

  /** One turn: a live value was the key's value during the call, and a key found dead was absent at some moment of it. */
  lemma TurnKeeps(sh: Shared, hist: seq<AbsMap>, start: nat, snap: map<Key, Eid>, rest: set<Key>, out: seq<(Key, Value)>, k: Key)
    requires SnapOk(sh, hist, start, snap, rest, out) && k in rest
    requires Saw(hist, start, k, Deref(PtrOf(sh, snap[k])))
    ensures SnapOk(sh, hist, start, snap, rest - {k}, OutAfter(sh, snap, out, k))
  {
    hide HeldRead;
    var out' := OutAfter(sh, snap, out, k);
    forall k' | Throughout(hist, start, k')
      ensures k' in rest - {k} || Lists(out', k')
    {
      if k' == k {
        var m :| start <= m < |hist| && Get(hist[m], k) == Deref(PtrOf(sh, snap[k]));
        assert out'[|out'| - 1].0 == k;
      } else if k' !in rest {
        var i :| 0 <= i < |out| && out[i].0 == k';
        assert out'[i].0 == k';
      }
    }
  }

  lemma SnapReports(sh: Shared, hist: seq<AbsMap>, start: nat, snap: map<Key, Eid>, rest: set<Key>, out: seq<(Key, Value)>)
    requires SnapOk(sh, hist, start, snap, rest, out)
    ensures RangeOk(hist, start, out, true)
  {
  }

  lemma TurnFacts(sh: Shared, hist: seq<AbsMap>, start: nat, snap: map<Key, Eid>, rest: set<Key>, out: seq<(Key, Value)>, k: Key)
    requires hist != [] && hist[|hist| - 1] == Abs(sh) && start < |hist|
    requires SnapOk(sh, hist, start, snap, rest, out) && k in rest
    ensures SnapOk(sh, hist + [Abs(sh)], start, snap, rest - {k}, OutAfter(sh, snap, out, k))
    ensures RangeOk(hist + [Abs(sh)], start, OutAfter(sh, snap, out, k), true)
  {
    var hist' := hist + [Abs(sh)];
    assert HeldRead(sh, hist, start, k, snap[k]);
    hide SnapOk;
    SnapLater(sh, sh, hist, start, snap, rest, out);
    HeldValue(sh, sh, hist, start, k, snap[k]);
    TurnKeeps(sh, hist', start, snap, rest, out, k);
    SnapReports(sh, hist', start, snap, rest - {k}, OutAfter(sh, snap, out, k));
  }

  /** One turn calls `f` at most once, and goes on exactly if `f` wants more. */
  lemma TurnConsults(sh: Shared, f: Callback, snap: map<Key, Eid>, rest: set<Key>, out: seq<(Key, Value)>, k: Key, pc': Pc)
    requires IterateOne(sh, f, snap, rest, out, k, pc') && Consulted(f, out, false)
    ensures var out' := OutAfter(sh, snap, out, k);
            || (pc' == Iterate(snap, rest - {k}, out') && Consulted(f, out', false))
            || (pc' == Done(Ranged(out', true)) && Consulted(f, out', true))
  {
    var out' := OutAfter(sh, snap, out, k);
    assert forall i :: 0 <= i < |out| ==> out'[..i] == out[..i] && out'[i] == out[i];
    if |out'| > |out| { assert out'[..|out|] == out; }
  }

  lemma IterateKeyMoves(sh: Shared, sh': Shared, ph: Phase, hist: seq<AbsMap>, th: Thread, k: Key, pc': Pc)
    requires th.pc.Iterate? && th.op.Range? && th.effect == None
    requires MoveContext(sh, sh', ph, hist, th, Stutter) && sh' == sh
    requires SnapOk(sh, hist, th.start, th.pc.snap, th.pc.rest, th.pc.out) && Consulted(th.op.f, th.pc.out, false)
    requires k in th.pc.rest && IterateOne(sh, th.op.f, th.pc.snap, th.pc.rest, th.pc.out, k, pc')
    ensures ThreadInv(sh', hist + [Abs(sh')], Moved(th, Stutter, pc', |hist| - 1))
  {
    hide SharedInv, Evolves, SnapOk, RangeOk, AbsAfter, Abs;
    hide LoadInv, StoreInv, LosInv, DeleteInv, DirtyLockedInv, LockedWriteInv, MissLockedInv, NextInv;
    var out' := OutAfter(sh, th.pc.snap, th.pc.out, k);
    TurnConsults(sh, th.op.f, th.pc.snap, th.pc.rest, th.pc.out, k, pc');
    assert pc' == Iterate(th.pc.snap, th.pc.rest - {k}, out') || pc' == Done(Ranged(out', true));
    hide IterateOne, OutAfter;
    TurnFacts(sh, hist, th.start, th.pc.snap, th.pc.rest, th.pc.out, k);
  }
}
