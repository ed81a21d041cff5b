/**
 The concurrent map as a step system.  Every atomic load, compare-and-swap, lock, unlock and locked
 statement of Load, Store, LoadOrStore, Delete and Range is one step, and any number of threads
 interleave.  The shared memory changes only through an `Action`; a thread's `Pc` says where it is and
 what its local variables hold.

 `Shared.published`, the three cost counters, `State.hist` and `Thread.start`/`Thread.effect` are
 bookkeeping that no step reads.  `Entry.key` is the key under which the entry was created; the
 code does not store it.
 */
module MapProtocol {
  import opened Options
  import opened MapSpec

  type Tid = nat
  type Eid = nat

  /** Each stored value lives at an address of its own, so comparing pointers is not comparing values. */
  datatype Cell = Cell(addr: nat, value: Value)

  type Ptr = Pointer<Cell>

  datatype Entry = Entry(key: Key, p: Ptr)

  function Deref(p: Ptr): Option<Value> {
    if p.Val? then Some(p.v.value) else None
  }

  datatype Shared = Shared(
    heap: seq<Entry>,                // entries are never freed
    nextAddr: nat,
    read: map<Key, Eid>,             // readOnly.m
    amended: bool,                   // readOnly.amended
    dirty: Option<map<Key, Eid>>,    // None is the nil map
    misses: nat,
    lock: Option<Tid>,
    panicked: bool,                  // an assignment to an entry of the nil map
    published: set<Eid>,             // entries that were ever in a read map
    copied: nat,                     // entries iterated by dirtyLocked
    missCalls: nat,                  // calls of missLocked
    rangePromoted: nat)              // total size of the dirty maps promoted by Range

  const EmptyShared := Shared([], 0, map[], false, None, 0, None, false, {}, 0, 0, 0)

  function DirtyMap(sh: Shared): map<Key, Eid> {
    if sh.dirty.Some? then sh.dirty.value else map[]
  }

  datatype Action =
    | Stutter                                // only local variables change
    | Acquire
    | Release
    | WritePtr(e: Eid, v: Option<Value>)     // a successful swap to nil or to a new value, or a plain store
    | Unexpunge(e: Eid)
    | Expunge(e: Eid)
    | CopySkip                               // dirtyLocked passes over an entry found expunged
    | CopyPut(k: Key, e: Eid)                // dirtyLocked links an entry
    | Relinked(k: Key, e: Eid)               // an unexpunged entry is linked again
    | MakeDirtyMap
    | Amend
    | Insert(k: Key, val: Value)             // a new entry is linked
    | Remove(k: Key)                         // a key leaves dirty
    | CountMiss
    | Publish(byRange: bool)                 // dirty becomes the read map
    | DropDirty
    | ResetMisses

  function SetPtr(sh: Shared, e: Eid, p: Ptr): Shared {
    if e < |sh.heap| then sh.(heap := sh.heap[e := sh.heap[e].(p := p)]) else sh
  }

  function SetDirty(sh: Shared, k: Key, e: Eid): Shared {
    if sh.dirty.Some? then sh.(dirty := Some(sh.dirty.value[k := e])) else sh.(panicked := true)
  }

  /** The effect of an action of thread `t` on the shared memory. */
  function Apply(sh: Shared, t: Tid, act: Action): Shared {
    match act
    case Stutter => sh
    case Acquire => sh.(lock := Some(t))
    case Release => sh.(lock := None)
    case WritePtr(e, None) => SetPtr(sh, e, Nil)
    case WritePtr(e, Some(v)) => SetPtr(sh, e, Val(Cell(sh.nextAddr, v))).(nextAddr := sh.nextAddr + 1)
    case Unexpunge(e) => SetPtr(sh, e, Nil)
    case Expunge(e) => SetPtr(sh, e, Expunged).(copied := sh.copied + 1)
    case CopySkip => sh.(copied := sh.copied + 1)
    case CopyPut(k, e) => SetDirty(sh, k, e).(copied := sh.copied + 1)
    case Relinked(k, e) => SetDirty(sh, k, e)
    case MakeDirtyMap => sh.(dirty := Some(map[]))
    case Amend => sh.(amended := true)
    case Insert(k, v) =>
      SetDirty(sh.(heap := sh.heap + [Entry(k, Val(Cell(sh.nextAddr, v)))], nextAddr := sh.nextAddr + 1), k, |sh.heap|)
    case Remove(k) => if sh.dirty.Some? then sh.(dirty := Some(sh.dirty.value - {k})) else sh
    case CountMiss => sh.(misses := sh.misses + 1, missCalls := sh.missCalls + 1)
    case Publish(byRange) =>
      var d := DirtyMap(sh);
      sh.(read := d, amended := false, published := sh.published + d.Values,
          rangePromoted := sh.rangePromoted + if byRange then |d| else 0)
    case DropDirty => sh.(dirty := None)
    case ResetMisses => sh.(misses := 0)
  }

  /** What a call does once it has released the lock. */
  datatype Next =
    | ToEntry(e: Eid)
    | ToIterate(snap: map<Key, Eid>)
    | ToDone(r: Result)

  /** Where tryLoadOrStore was called from. */
  datatype Site = Fast | InRead | InDirty

  datatype Pc =
    | Start                                    // the first look at read
    | Lock
    | Reread                                   // the second look, under the lock
    | LoadDirty                                // Load looks in dirty
    | EntryLoad(e: Eid)                        // the pointer is read
    | MissCount(n: Next) | MissPublish(n: Next) | MissDrop(n: Next) | MissReset(n: Next)
    | TryStore(e: Eid) | TryStoreCas(e: Eid, p: Ptr)
    | StoreLocked(e: Eid)
    | TryUnexpunge(e: Eid) | Relink(e: Eid)
    | LookupDirty(amended: bool)               // Store and LoadOrStore look in dirty
    | MakeDirty | CopyNext(rest: set<Key>) | CopyLoad(rest: set<Key>, k: Key)
    | CopyCas(rest: set<Key>, k: Key) | CopyLink(rest: set<Key>, k: Key)
    | MarkAmended | InsertNew
    | TryLoadOrStore(e: Eid, site: Site) | TryLoadOrStoreCas(e: Eid, site: Site)
    | DeleteDirty | DeleteLoad(e: Eid) | DeleteCas(e: Eid, p: Ptr)
    | RangePublish | RangeDrop(snap: map<Key, Eid>) | RangeReset(snap: map<Key, Eid>)
    | Iterate(snap: map<Key, Eid>, rest: set<Key>, out: seq<(Key, Value)>)
    | Unlock(n: Next)
    | Done(r: Result)

  /** After the entry in the read map is known not to be expunged. */
  function OnReadEntry(op: Op, e: Eid): Pc {
    if op.Store? then StoreLocked(e) else TryLoadOrStore(e, InRead)
  }

  /** Where tryLoadOrStore's answer goes. */
  function LosExit(site: Site, r: Result): Pc {
    match site
    case Fast => Done(r)
    case InRead => Unlock(ToDone(r))
    case InDirty => MissCount(ToDone(r))
  }

  function AfterStart(op: Op, read: map<Key, Eid>, amended: bool): Pc {
    match op
    case Load(k) =>
      if k in read then EntryLoad(read[k]) else if amended then Lock else Done(Loaded(None))
    case Store(k, _) => if k in read then TryStore(read[k]) else Lock
    case LoadOrStore(k, _) => if k in read then TryLoadOrStore(read[k], Fast) else Lock
    case Delete(k) =>
      if k in read then DeleteLoad(read[k]) else if amended then Lock else Done(Deleted)
    case Range(_) => if amended then Lock else Iterate(read, read.Keys, [])
  }

  function AfterReread(op: Op, read: map<Key, Eid>, amended: bool): Pc {
    match op
    case Load(k) =>
      if k in read then Unlock(ToEntry(read[k])) else if amended then LoadDirty else Unlock(ToDone(Loaded(None)))
    case Store(k, _) => if k in read then TryUnexpunge(read[k]) else LookupDirty(amended)
    case LoadOrStore(k, _) => if k in read then TryUnexpunge(read[k]) else LookupDirty(amended)
    case Delete(k) =>
      if k in read then Unlock(ToEntry(read[k])) else if amended then DeleteDirty else Unlock(ToDone(Deleted))
    case Range(_) => if amended then RangePublish else Unlock(ToIterate(read))
  }

  function AfterUnlock(op: Op, n: Next): Pc {
    match n
    case ToEntry(e) => if op.Delete? then DeleteLoad(e) else EntryLoad(e)
    case ToIterate(snap) => Iterate(snap, snap.Keys, [])
    case ToDone(r) => Done(r)
  }

  /** The pointer that a thread reads through entry `e`. */
  function PtrOf(sh: Shared, e: Eid): Ptr {
    if e < |sh.heap| then sh.heap[e].p else Nil
  }

  /** The function of the code that a program counter belongs to. */
  datatype Group = Entering | Loading | MissLocked | Storing | LockedWrite | TryingLoadOrStore | Deleting | Ranging | DirtyLocked | Ended

  function GroupOf(pc: Pc): Group {
    if pc.Start? || pc.Lock? || pc.Reread? || pc.Unlock? then Entering
    else if pc.LoadDirty? || pc.EntryLoad? then Loading
    else if pc.MissCount? || pc.MissPublish? || pc.MissDrop? || pc.MissReset? then MissLocked
    else if pc.TryStore? || pc.TryStoreCas? || pc.StoreLocked? then Storing
    else if pc.TryUnexpunge? || pc.Relink? || pc.LookupDirty? || pc.InsertNew? then LockedWrite
    else if pc.TryLoadOrStore? || pc.TryLoadOrStoreCas? then TryingLoadOrStore
    else if pc.DeleteDirty? || pc.DeleteLoad? || pc.DeleteCas? then Deleting
    else if pc.RangePublish? || pc.RangeDrop? || pc.RangeReset? || pc.Iterate? then Ranging
    else if pc.Done? then Ended
    else DirtyLocked
  }

  /** A thread running `op` at `pc` may do `act` and continue at `pc'`. */
  ghost predicate LocalStep(sh: Shared, op: Op, pc: Pc, act: Action, pc': Pc) {
    match GroupOf(pc)
    case Entering => EnterStep(sh, op, pc, act, pc')
    case Loading => LoadStep(sh, op, pc, act, pc')
    case MissLocked => MissLockedStep(sh, pc, act, pc')
    case Storing => StoreStep(sh, op, pc, act, pc')
    case LockedWrite => LockedWriteStep(sh, op, pc, act, pc')
    case TryingLoadOrStore => TryLoadOrStoreStep(sh, op, pc, act, pc')
    case Deleting => DeleteStep(sh, op, pc, act, pc')
    case Ranging => RangeStep(sh, op, pc, act, pc')
    case DirtyLocked => DirtyLockedStep(sh, pc, act, pc')
    case Ended => false
  }

  predicate EnterStep(sh: Shared, op: Op, pc: Pc, act: Action, pc': Pc) {
    match pc
    case Start => act == Stutter && pc' == AfterStart(op, sh.read, sh.amended)
    case Lock => sh.lock == None && act == Acquire && pc' == Reread
    case Reread => act == Stutter && pc' == AfterReread(op, sh.read, sh.amended)
    case Unlock(n) => act == Release && pc' == AfterUnlock(op, n)
    case _ => false
  }

  predicate LoadStep(sh: Shared, op: Op, pc: Pc, act: Action, pc': Pc) {
    match pc
    case LoadDirty =>
      && op.Load? && act == Stutter
      && pc' == MissCount(if op.key in DirtyMap(sh) then ToEntry(DirtyMap(sh)[op.key]) else ToDone(Loaded(None)))
    case EntryLoad(e) => act == Stutter && pc' == Done(Loaded(Deref(PtrOf(sh, e))))
    case _ => false
  }

  predicate MissLockedStep(sh: Shared, pc: Pc, act: Action, pc': Pc) {
    match pc
    case MissCount(n) =>
      && act == CountMiss
      && pc' == if sh.misses + 1 < |DirtyMap(sh)| then Unlock(n) else MissPublish(n)
    case MissPublish(n) => act == Publish(false) && pc' == MissDrop(n)
    case MissDrop(n) => act == DropDirty && pc' == MissReset(n)
    case MissReset(n) => act == ResetMisses && pc' == Unlock(n)
    case _ => false
  }

  /** tryStore, with its retry loop, and storeLocked. */
  predicate StoreStep(sh: Shared, op: Op, pc: Pc, act: Action, pc': Pc) {
    op.Store? &&
    match pc
    case TryStore(e) =>
      && act == Stutter
      && pc' == if PtrOf(sh, e) == Expunged then Lock else TryStoreCas(e, PtrOf(sh, e))
    case TryStoreCas(e, p) =>
      if PtrOf(sh, e) == p then act == WritePtr(e, Some(op.value)) && pc' == Done(Stored)
      else act == Stutter && pc' == TryStore(e)
    case StoreLocked(e) => act == WritePtr(e, Some(op.value)) && pc' == Unlock(ToDone(Stored))
    case _ => false
  }

  predicate Writes(op: Op) {
    op.Store? || op.LoadOrStore?
  }

  /** The locked part that Store and LoadOrStore share. */
  predicate LockedWriteStep(sh: Shared, op: Op, pc: Pc, act: Action, pc': Pc) {
    Writes(op) &&
    match pc
    case TryUnexpunge(e) =>
      if PtrOf(sh, e) == Expunged then act == Unexpunge(e) && pc' == Relink(e)
      else act == Stutter && pc' == OnReadEntry(op, e)
    case Relink(e) => act == Relinked(op.key, e) && pc' == OnReadEntry(op, e)
    case LookupDirty(amended) =>
      && act == Stutter
      && pc' == (if op.key in DirtyMap(sh) then
                   var e := DirtyMap(sh)[op.key];
                   if op.Store? then StoreLocked(e) else TryLoadOrStore(e, InDirty)
                 else if amended then InsertNew else MakeDirty)
    case InsertNew =>
      && act == Insert(op.key, op.value)
      && pc' == Unlock(ToDone(if op.Store? then Stored else LoadedOrStored(Some(op.value), false)))
    case _ => false
  }

  /** dirtyLocked with tryExpungeLocked's retry loop, then the store of the amended read map. */
  ghost predicate DirtyLockedStep(sh: Shared, pc: Pc, act: Action, pc': Pc) {
    match pc
    case MakeDirty =>
      if sh.dirty.Some? then act == Stutter && pc' == MarkAmended
      else act == MakeDirtyMap && pc' == CopyNext(sh.read.Keys)
    case CopyNext(rest) =>
      && act == Stutter
      && if rest == {} then pc' == MarkAmended else exists k :: k in rest && pc' == CopyLoad(rest, k)
    case CopyLoad(rest, k) =>
      k in sh.read &&
      (match PtrOf(sh, sh.read[k])
       case Nil => act == Stutter && pc' == CopyCas(rest, k)
       case Expunged => act == CopySkip && pc' == CopyNext(rest - {k})
       case Val(_) => act == Stutter && pc' == CopyLink(rest, k))
    case CopyCas(rest, k) =>
      k in sh.read &&
      (if PtrOf(sh, sh.read[k]) == Nil then act == Expunge(sh.read[k]) && pc' == CopyNext(rest - {k})
       else act == Stutter && pc' == CopyLoad(rest, k))
    case CopyLink(rest, k) =>
      k in sh.read && act == CopyPut(k, sh.read[k]) && pc' == CopyNext(rest - {k})
    case MarkAmended => act == Amend && pc' == InsertNew
    case _ => false
  }

  /** tryLoadOrStore, with its retry loop. */
  predicate TryLoadOrStoreStep(sh: Shared, op: Op, pc: Pc, act: Action, pc': Pc) {
    op.LoadOrStore? &&
    match pc
    case TryLoadOrStore(e, site) =>
      && act == Stutter
      && (match PtrOf(sh, e)
          case Nil => pc' == TryLoadOrStoreCas(e, site)
          case Expunged => pc' == if site == Fast then Lock else LosExit(site, LoadedOrStored(None, false))
          case Val(c) => pc' == LosExit(site, LoadedOrStored(Some(c.value), true)))
    case TryLoadOrStoreCas(e, site) =>
      if PtrOf(sh, e) == Nil then
        act == WritePtr(e, Some(op.value)) && pc' == LosExit(site, LoadedOrStored(Some(op.value), false))
      else act == Stutter && pc' == TryLoadOrStore(e, site)
    case _ => false
  }

  predicate DeleteStep(sh: Shared, op: Op, pc: Pc, act: Action, pc': Pc) {
    op.Delete? &&
    match pc
    case DeleteDirty => act == Remove(op.key) && pc' == Unlock(ToDone(Deleted))
    case DeleteLoad(e) =>
      && act == Stutter
      && pc' == if PtrOf(sh, e).Val? then DeleteCas(e, PtrOf(sh, e)) else Done(Deleted)
    case DeleteCas(e, p) =>
      if PtrOf(sh, e) == p then act == WritePtr(e, None) && pc' == Done(Deleted)
      else act == Stutter && pc' == DeleteLoad(e)
    case _ => false
  }

  ghost predicate RangeStep(sh: Shared, op: Op, pc: Pc, act: Action, pc': Pc) {
    op.Range? &&
    match pc
    case RangePublish => act == Publish(true) && pc' == RangeDrop(DirtyMap(sh))
    case RangeDrop(snap) => act == DropDirty && pc' == RangeReset(snap)
    case RangeReset(snap) => act == ResetMisses && pc' == Unlock(ToIterate(snap))
    case Iterate(snap, rest, out) =>
      && act == Stutter
      && if rest == {} then pc' == Done(Ranged(out, false))
         else exists k :: k in rest && IterateOne(sh, op.f, snap, rest, out, k, pc')
    case _ => false
  }

  /** One turn of Range's loop: load the entry of `k`, report a live value, and stop if `f` says so. */
  predicate IterateOne(sh: Shared, f: Callback, snap: map<Key, Eid>, rest: set<Key>, out: seq<(Key, Value)>, k: Key, pc': Pc) {
    k in snap &&
    (match PtrOf(sh, snap[k])
     case Val(c) =>
       if f(out, k, c.value) then pc' == Iterate(snap, rest - {k}, out + [(k, c.value)])
       else pc' == Done(Ranged(out + [(k, c.value)], true))
     case _ => pc' == Iterate(snap, rest - {k}, out))
  }

  /** Does this action carry out the call's effect on the abstract map? */
  predicate Commits(act: Action) {
    act.WritePtr? || act.Insert? || act.Remove?
  }

  // ---- The abstract map ----

  function AbsAt(sh: Shared, k: Key): Option<Value> {
    if k in sh.read then Deref(PtrOf(sh, sh.read[k]))
    else if k in DirtyMap(sh) then Deref(PtrOf(sh, DirtyMap(sh)[k]))
    else None
  }

  /** The map that the shared memory stands for. */
  function Abs(sh: Shared): (m: AbsMap)
    ensures forall k :: Get(m, k) == AbsAt(sh, k)
  {
    map k | k in sh.read.Keys + DirtyMap(sh).Keys && AbsAt(sh, k).Some? :: AbsAt(sh, k).value
  }

  // ---- States and runs ----

  /** `start` is the index in the history at which the call was invoked, `effect` the index of the
      step, if any, at which it changed the abstract map. */
  datatype Thread = Thread(op: Op, pc: Pc, start: nat, effect: Option<nat>)

  /** `hist` lists the abstract map of every state so far, the present one last. */
  datatype State = State(sh: Shared, threads: map<Tid, Thread>, hist: seq<AbsMap>)

  ghost predicate Init(s: State) {
    s == State(EmptyShared, map[], [map[]])
  }

  datatype Label = Invoke(op: Op) | Advance(act: Action, pc: Pc) | Return(r: Result)

  ghost predicate Step(s: State, t: Tid, l: Label, s': State) {
    && s'.hist == s.hist + [Abs(s'.sh)]
    && match l
       case Invoke(op) =>
         && t !in s.threads && s'.sh == s.sh
         && s'.threads == s.threads[t := Thread(op, Start, |s.hist|, None)]
       case Advance(act, pc') =>
         && t in s.threads
         && var th := s.threads[t];
            && LocalStep(s.sh, th.op, th.pc, act, pc')
            && s'.sh == Apply(s.sh, t, act)
            && |s.hist| > 0
            && s'.threads == s.threads[t := th.(pc := pc',
                                                effect := if Commits(act) then Some(|s.hist| - 1) else th.effect)]
       case Return(r) =>
         && t in s.threads && s.threads[t].pc == Done(r)
         && s'.sh == s.sh && s'.threads == s.threads - {t}
  }

  /** `labels[i]` takes `states[i]` to `states[i+1]`. */
  ghost predicate IsRun(states: seq<State>, labels: seq<(Tid, Label)>) {
    && |states| == |labels| + 1
    && Init(states[0])
    && forall i :: 0 <= i < |labels| ==> Step(states[i], labels[i].0, labels[i].1, states[i + 1])
  }
}
