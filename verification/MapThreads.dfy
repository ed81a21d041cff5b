/**
 What each thread of the concurrent map knows at each program point: a thread that holds an entry either
 holds the one the map uses for its key, or has seen the entry's value as the key's abstract value since
 its call began.
 */
module MapThreads {
  import opened Options
  import opened MapSpec
  import opened MapProtocol
  import opened MapShared

  /** Between `Lock` and the end of `Unlock`. */
  predicate Holds(pc: Pc) {
    match pc
    case Reread => true
    case LoadDirty => true
    case MissCount(_) => true
    case MissPublish(_) => true
    case MissDrop(_) => true
    case MissReset(_) => true
    case StoreLocked(_) => true
    case TryUnexpunge(_) => true
    case Relink(_) => true
    case LookupDirty(_) => true
    case MakeDirty => true
    case CopyNext(_) => true
    case CopyLoad(_, _) => true
    case CopyCas(_, _) => true
    case CopyLink(_, _) => true
    case MarkAmended => true
    case InsertNew => true
    case TryLoadOrStore(_, site) => site != Fast
    case TryLoadOrStoreCas(_, site) => site != Fast
    case DeleteDirty => true
    case RangePublish => true
    case RangeDrop(_) => true
    case RangeReset(_) => true
    case Unlock(_) => true
    case _ => false
  }

  function PcPhase(pc: Pc): Phase {
    match pc
    case Relink(e) => Relinking(e)
    case CopyNext(rest) => Copying(rest)
    case CopyLoad(rest, _) => Copying(rest)
    case CopyCas(rest, _) => Copying(rest)
    case CopyLink(rest, _) => Copying(rest)
    case MarkAmended => Copying({})
    case MissDrop(_) => Promoted
    case RangeDrop(_) => Promoted
    case MissReset(_) => Emptied
    case RangeReset(_) => Emptied
    case _ => Quiet
  }

  // ---- Observations since the call began ----

  ghost predicate Saw(hist: seq<AbsMap>, start: nat, k: Key, x: Option<Value>) {
    exists m :: start <= m < |hist| && Get(hist[m], k) == x
  }

  lemma SawLater(hist: seq<AbsMap>, now: AbsMap, start: nat, k: Key, x: Option<Value>)
    requires Saw(hist, start, k, x) || (start <= |hist| && Get(now, k) == x)
    ensures Saw(hist + [now], start, k, x)
  {
    var hist' := hist + [now];
    if Saw(hist, start, k, x) {
      var m :| start <= m < |hist| && Get(hist[m], k) == x;
      assert hist'[m] == hist[m];
    } else {
      assert hist'[|hist|] == now;
    }
  }

  ghost predicate Throughout(hist: seq<AbsMap>, start: nat, k: Key) {
    forall m :: start <= m < |hist| ==> k in hist[m]
  }

  predicate Lists(out: seq<(Key, Value)>, k: Key) {
    exists i :: 0 <= i < |out| && out[i].0 == k
  }

  /** Distinct keys, each with a value it had during the call. */
  ghost predicate Reported(hist: seq<AbsMap>, start: nat, out: seq<(Key, Value)>) {
    && (forall i, j :: 0 <= i < j < |out| ==> out[i].0 != out[j].0)
    && (forall i :: 0 <= i < |out| ==> Saw(hist, start, out[i].0, Some(out[i].1)))
  }

  /** What Range promises of the pairs it handed to `f`. */
  ghost predicate RangeOk(hist: seq<AbsMap>, start: nat, out: seq<(Key, Value)>, stopped: bool) {
    && Reported(hist, start, out)
    && (!stopped ==> forall k :: Throughout(hist, start, k) ==> Lists(out, k))
  }

  /** Result `r` is that of an atomic `op` at an instant of the call: the instant of the call's own
      change of the map if it made one, an instant at which `op` changes nothing otherwise. */
  ghost predicate Justified(op: Op, r: Result, start: nat, effect: Option<nat>, hist: seq<AbsMap>) {
    if op.Range? then
      && r.Ranged? && effect == None && RangeOk(hist, start, r.pairs, r.stopped)
      && Consulted(op.f, r.pairs, r.stopped)
    else if effect.Some? then
      && start <= effect.value && effect.value + 1 < |hist|
      && SpecMap(op, hist[effect.value]) == hist[effect.value + 1]
      && SpecResult(op, hist[effect.value]) == r
    else
      exists m :: start <= m < |hist| && SpecMap(op, hist[m]) == hist[m] && SpecResult(op, hist[m]) == r
  }

  // ---- Thread invariants ----

  ghost predicate HeldFor(sh: Shared, hist: seq<AbsMap>, start: nat, k: Key, e: Eid) {
    && e < |sh.heap| && sh.heap[e].key == k
    && (Attached(sh, e) || Saw(hist, start, k, Deref(sh.heap[e].p)))
  }

  /** An entry taken from a read map without the lock. */
  ghost predicate HeldRead(sh: Shared, hist: seq<AbsMap>, start: nat, k: Key, e: Eid) {
    HeldFor(sh, hist, start, k, e) && e in sh.published
  }

  /** An entry found under the lock and about to be used under it. */
  predicate HeldLocked(sh: Shared, k: Key, e: Eid) {
    Attached(sh, e) && sh.heap[e].key == k && !IsExpunged(sh, e)
  }

  ghost predicate SnapOk(sh: Shared, hist: seq<AbsMap>, start: nat, snap: map<Key, Eid>, rest: set<Key>, out: seq<(Key, Value)>) {
    && rest <= snap.Keys
    && (forall k :: k in snap ==> HeldRead(sh, hist, start, k, snap[k]))
    && Reported(hist, start, out)
    && (forall i :: 0 <= i < |out| ==> out[i].0 !in rest)
    && (forall k :: Throughout(hist, start, k) ==> k in rest || Lists(out, k))
  }

  ghost predicate NextInv(sh: Shared, hist: seq<AbsMap>, start: nat, op: Op, n: Next) {
    match n
    case ToEntry(e) =>
      || (op.Load? && HeldFor(sh, hist, start, op.key, e))
      || (op.Delete? && HeldRead(sh, hist, start, op.key, e))
    case ToIterate(snap) => op.Range? && SnapOk(sh, hist, start, snap, snap.Keys, [])
    case ToDone(r) => true
  }

  ghost predicate PcInv(sh: Shared, hist: seq<AbsMap>, th: Thread) {
    match GroupOf(th.pc)
    case Entering => th.pc.Unlock? ==> NextInv(sh, hist, th.start, th.op, th.pc.n)
    case Loading => LoadInv(sh, hist, th)
    case MissLocked => MissLockedInv(sh, hist, th)
    case Storing => StoreInv(sh, hist, th)
    case LockedWrite => LockedWriteInv(sh, th)
    case TryingLoadOrStore => LosInv(sh, hist, th)
    case Deleting => DeleteInv(sh, hist, th)
    case Ranging => RangeInv(sh, hist, th)
    case DirtyLocked => DirtyLockedInv(sh, th)
    case Ended => true
  }

  ghost predicate LoadInv(sh: Shared, hist: seq<AbsMap>, th: Thread) {
    th.op.Load? &&
    match th.pc
    case LoadDirty => th.op.key !in sh.read && sh.amended
    case EntryLoad(e) => HeldFor(sh, hist, th.start, th.op.key, e)
    case _ => false
  }

  ghost predicate MissLockedInv(sh: Shared, hist: seq<AbsMap>, th: Thread) {
    match th.pc
    case MissCount(n) => NextInv(sh, hist, th.start, th.op, n) && sh.dirty.Some?
    case MissPublish(n) => NextInv(sh, hist, th.start, th.op, n) && sh.dirty.Some? && |DirtyMap(sh)| <= sh.misses
    case MissDrop(n) => NextInv(sh, hist, th.start, th.op, n)
    case MissReset(n) => NextInv(sh, hist, th.start, th.op, n)
    case _ => false
  }

  ghost predicate StoreInv(sh: Shared, hist: seq<AbsMap>, th: Thread) {
    th.op.Store? &&
    match th.pc
    case TryStore(e) => HeldRead(sh, hist, th.start, th.op.key, e)
    case TryStoreCas(e, p) => HeldRead(sh, hist, th.start, th.op.key, e) && p != Expunged
    case StoreLocked(e) => HeldLocked(sh, th.op.key, e)
    case _ => false
  }

  predicate LockedWriteInv(sh: Shared, th: Thread) {
    Writes(th.op) &&
    match th.pc
    case TryUnexpunge(e) => Current(sh, e) && sh.heap[e].key == th.op.key
    case Relink(e) => Current(sh, e) && sh.heap[e].key == th.op.key
    case LookupDirty(amended) => th.op.key !in sh.read && amended == sh.amended
    case InsertNew => th.op.key !in sh.read && th.op.key !in DirtyMap(sh) && sh.amended
    case _ => false
  }

  predicate DirtyLockedInv(sh: Shared, th: Thread) {
    Writes(th.op) && th.op.key !in sh.read &&
    match th.pc
    case MakeDirty => !sh.amended
    case CopyLoad(rest, k) => k in rest
    case CopyCas(rest, k) => k in rest
    case CopyLink(rest, k) => k in rest
    case _ => true
  }

  ghost predicate LosInv(sh: Shared, hist: seq<AbsMap>, th: Thread) {
    th.op.LoadOrStore? &&
    match th.pc
    case TryLoadOrStore(e, site) => LosHeld(sh, hist, th.start, th.op.key, e, site)
    case TryLoadOrStoreCas(e, site) => LosHeld(sh, hist, th.start, th.op.key, e, site)
    case _ => false
  }

  ghost predicate DeleteInv(sh: Shared, hist: seq<AbsMap>, th: Thread) {
    th.op.Delete? &&
    match th.pc
    case DeleteDirty => th.op.key !in sh.read && sh.amended
    case DeleteLoad(e) => HeldRead(sh, hist, th.start, th.op.key, e)
    case DeleteCas(e, p) => HeldRead(sh, hist, th.start, th.op.key, e) && p.Val?
    case _ => false
  }

  ghost predicate RangeInv(sh: Shared, hist: seq<AbsMap>, th: Thread) {
    th.op.Range? &&
    match th.pc
    case RangePublish => sh.amended
    case RangeDrop(snap) => SnapOk(sh, hist, th.start, snap, snap.Keys, [])
    case RangeReset(snap) => SnapOk(sh, hist, th.start, snap, snap.Keys, [])
    case Iterate(snap, rest, out) => SnapOk(sh, hist, th.start, snap, rest, out) && Consulted(th.op.f, out, false)
    case _ => false
  }

  ghost predicate LosHeld(sh: Shared, hist: seq<AbsMap>, start: nat, k: Key, e: Eid, site: Site) {
    if site == Fast then HeldRead(sh, hist, start, k, e)
    else HeldLocked(sh, k, e) && (site == InDirty ==> sh.dirty.Some?)
  }

  function NextResult(n: Next): Option<Result> {
    if n.ToDone? then Some(n.r) else None
  }

  /** The call's result, once it is settled. */
  function Outcome(pc: Pc): Option<Result> {
    match pc
    case Done(r) => Some(r)
    case Unlock(n) => NextResult(n)
    case MissCount(n) => NextResult(n)
    case MissPublish(n) => NextResult(n)
    case MissDrop(n) => NextResult(n)
    case MissReset(n) => NextResult(n)
    case _ => None
  }

  ghost predicate ThreadInv(sh: Shared, hist: seq<AbsMap>, th: Thread) {
    && th.start < |hist|
    && PcInv(sh, hist, th)
    && (match Outcome(th.pc)
        case Some(r) => Justified(th.op, r, th.start, th.effect, hist)
        case None => th.effect == None)
  }
}
