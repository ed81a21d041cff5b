/**
 The invariant of the concurrent map's shared memory, kept by every action that its guard allows,
 together with what each action does to the abstract map and to entries that threads still hold.
 */
module MapShared {
  import opened Options
  import opened MapSpec
  import opened MapProtocol

  /** What the lock holder is in the middle of. */
  datatype Phase =
    | Quiet
    | Relinking(e: Eid)          // the entry is unexpunged but not yet back in the dirty map
    | Copying(rest: set<Key>)    // dirtyLocked has still to visit `rest`
    | Promoted                   // the dirty map is published and still referenced by m.dirty
    | Emptied                    // m.dirty is nil again, m.misses still to be reset

  /** `e` is the read map's entry for its key. */
  predicate Current(sh: Shared, e: Eid) {
    e < |sh.heap| && sh.heap[e].key in sh.read && sh.read[sh.heap[e].key] == e
  }

  /** `e` is the entry through which the map finds its key. */
  predicate Attached(sh: Shared, e: Eid) {
    && e < |sh.heap|
    && var k := sh.heap[e].key;
       if k in sh.read then sh.read[k] == e else k in DirtyMap(sh) && DirtyMap(sh)[k] == e
  }

  predicate IsExpunged(sh: Shared, e: Eid) {
    e < |sh.heap| && sh.heap[e].p == Expunged
  }

  ghost predicate KeysMatch(sh: Shared, m: map<Key, Eid>) {
    forall k :: k in m ==> m[k] < |sh.heap| && sh.heap[m[k]].key == k
  }

  /** What holds in every phase. */
  ghost predicate Base(sh: Shared) {
    && !sh.panicked
    && KeysMatch(sh, sh.read)
    && KeysMatch(sh, DirtyMap(sh))
    && (forall k :: k in sh.read ==> sh.read[k] in sh.published)
    && (forall k :: k in DirtyMap(sh) ==> !IsExpunged(sh, DirtyMap(sh)[k]))
    && (forall k :: k in DirtyMap(sh) ==>
          if k in sh.read then DirtyMap(sh)[k] == sh.read[k] else DirtyMap(sh)[k] !in sh.published)
    && (forall e :: e in sh.published ==> e < |sh.heap| && (Current(sh, e) || IsExpunged(sh, e)))
  }

  /** A read entry whose key the dirty map lacks is expunged. */
  ghost predicate MissingAreExpunged(sh: Shared, except: set<Key>) {
    forall k :: k in sh.read && k !in DirtyMap(sh) && k !in except ==> IsExpunged(sh, sh.read[k])
  }

  ghost predicate NoneExpunged(sh: Shared, keys: set<Key>) {
    forall k :: k in keys && k in sh.read ==> !IsExpunged(sh, sh.read[k])
  }

  ghost predicate InPhase(sh: Shared, ph: Phase) {
    match ph
    case Quiet =>
      && (sh.dirty.Some? <==> sh.amended)
      && (sh.dirty.Some? ==> MissingAreExpunged(sh, {}))
      && (sh.dirty == None ==> NoneExpunged(sh, sh.read.Keys) && sh.misses == 0)
    case Relinking(e) =>
      && sh.dirty.Some? && sh.amended
      && Current(sh, e) && !IsExpunged(sh, e) && sh.heap[e].key !in DirtyMap(sh)
      && MissingAreExpunged(sh, {sh.heap[e].key})
    case Copying(rest) =>
      && sh.dirty.Some? && !sh.amended && sh.misses == 0
      && rest <= sh.read.Keys && DirtyMap(sh).Keys <= sh.read.Keys - rest
      && MissingAreExpunged(sh, rest)
      && NoneExpunged(sh, rest)
    case Promoted => sh.dirty == Some(sh.read) && !sh.amended
    case Emptied => sh.dirty == None && !sh.amended && NoneExpunged(sh, sh.read.Keys)
  }

  ghost predicate SharedInv(sh: Shared, ph: Phase) {
    Base(sh) && InPhase(sh, ph)
  }

  /** When `act` may happen in phase `ph`, and the phase it leads to. */
  ghost predicate Allowed(sh: Shared, ph: Phase, act: Action, ph': Phase) {
    match act
    case Stutter => ph' == ph
    case Acquire => ph' == ph
    case Release => ph' == ph
    case WritePtr(e, _) => ph' == ph && Attached(sh, e) && !IsExpunged(sh, e)
    case Unexpunge(e) => ph == Quiet && ph' == Relinking(e) && Current(sh, e) && IsExpunged(sh, e)
    case Relinked(k, e) => ph == Relinking(e) && ph' == Quiet && e < |sh.heap| && k == sh.heap[e].key
    case MakeDirtyMap => ph == Quiet && ph' == Copying(sh.read.Keys) && sh.dirty == None
    case Expunge(e) =>
      && ph.Copying? && Current(sh, e) && sh.heap[e].key in ph.rest && sh.heap[e].p == Nil
      && ph' == Copying(ph.rest - {sh.heap[e].key})
    case CopySkip => false
    case CopyPut(k, e) =>
      ph.Copying? && Current(sh, e) && k == sh.heap[e].key && k in ph.rest && ph' == Copying(ph.rest - {k})
    case Amend => ph == Copying({}) && ph' == Quiet
    case Insert(k, _) => ph == ph' == Quiet && sh.amended && k !in sh.read && k !in DirtyMap(sh)
    case Remove(k) => ph == ph' == Quiet && sh.dirty.Some? && k !in sh.read
    case CountMiss => ph == ph' == Quiet && sh.dirty.Some?
    case Publish(_) => ph == Quiet && ph' == Promoted && sh.dirty.Some?
    case DropDirty => ph == Promoted && ph' == Emptied
    case ResetMisses => ph == Emptied && ph' == Quiet
  }

  // ---- The invariant is kept ----

  /** `sh'` is `sh` with the pointer of `e` replaced. */
  ghost predicate Written(sh: Shared, sh': Shared, e: Eid) {
    && e < |sh.heap| == |sh'.heap|
    && sh'.heap[e].key == sh.heap[e].key
    && (forall i: Eid {:trigger sh'.heap[i]} :: i < |sh.heap| && i != e ==> sh'.heap[i] == sh.heap[i])
    && sh'.read == sh.read && sh'.amended == sh.amended && sh'.dirty == sh.dirty && sh'.misses == sh.misses
    && sh'.published == sh.published && sh'.panicked == sh.panicked
  }

  lemma WrittenSame(sh: Shared, sh': Shared, e: Eid)
    requires Written(sh, sh', e)
    ensures forall i: Eid :: Current(sh', i) <==> Current(sh, i)
    ensures forall i: Eid :: Attached(sh', i) <==> Attached(sh, i)
    ensures forall i: Eid :: i != e ==> (IsExpunged(sh', i) <==> IsExpunged(sh, i))
  {
    forall i: Eid
      ensures Current(sh', i) <==> Current(sh, i)
      ensures Attached(sh', i) <==> Attached(sh, i)
      ensures i != e ==> (IsExpunged(sh', i) <==> IsExpunged(sh, i))
    {
      if i < |sh.heap| && i != e { assert sh'.heap[i] == sh.heap[i]; }
    }
  }

  lemma WrittenBase(sh: Shared, sh': Shared, e: Eid)
    requires Base(sh) && Written(sh, sh', e)
    requires IsExpunged(sh', e) ==> sh.heap[e].key !in DirtyMap(sh)
    requires IsExpunged(sh, e) ==> Current(sh, e) || IsExpunged(sh', e)
    ensures Base(sh')
  {
    WrittenSame(sh, sh', e);
    assert forall i: Eid :: i < |sh.heap| ==> sh'.heap[i].key == sh.heap[i].key;
  }

  lemma WritePtrKeeps(sh: Shared, t: Tid, ph: Phase, act: Action)
    requires SharedInv(sh, ph) && Allowed(sh, ph, act, ph) && act.WritePtr?
    ensures SharedInv(Apply(sh, t, act), ph)
  {
    var sh' := Apply(sh, t, act);
    WrittenSame(sh, sh', act.e);
    WrittenBase(sh, sh', act.e);
    assert forall i: Eid :: IsExpunged(sh', i) <==> IsExpunged(sh, i);
    assert forall i: Eid :: i < |sh.heap| ==> sh'.heap[i].key == sh.heap[i].key;
  }

  lemma UnexpungeKeeps(sh: Shared, t: Tid, ph: Phase, act: Action, ph': Phase)
    requires SharedInv(sh, ph) && Allowed(sh, ph, act, ph') && act.Unexpunge?
    ensures SharedInv(Apply(sh, t, act), ph')
  {
    var sh' := Apply(sh, t, act);
    WrittenSame(sh, sh', act.e);
    WrittenBase(sh, sh', act.e);
    assert forall k :: k in sh.read && sh.read[k] == act.e ==> k == sh.heap[act.e].key;
  }

  lemma ExpungeKeeps(sh: Shared, t: Tid, ph: Phase, act: Action, ph': Phase)
    requires SharedInv(sh, ph) && Allowed(sh, ph, act, ph') && act.Expunge?
    ensures SharedInv(Apply(sh, t, act), ph')
  {
    var sh' := Apply(sh, t, act);
    WrittenSame(sh, sh', act.e);
    WrittenBase(sh, sh', act.e);
    assert forall k :: k in sh.read && sh.read[k] == act.e ==> k == sh.heap[act.e].key;
  }

  lemma RelinkKeeps(sh: Shared, t: Tid, ph: Phase, act: Action, ph': Phase)
    requires SharedInv(sh, ph) && Allowed(sh, ph, act, ph') && act.Relinked?
    ensures SharedInv(Apply(sh, t, act), ph')
  {
    var sh' := Apply(sh, t, act);
    assert forall e: Eid :: Current(sh', e) <==> Current(sh, e);
    assert DirtyMap(sh') == DirtyMap(sh)[act.k := act.e];
  }

  lemma CopyPutKeeps(sh: Shared, t: Tid, ph: Phase, act: Action, ph': Phase)
    requires SharedInv(sh, ph) && Allowed(sh, ph, act, ph') && act.CopyPut?
    ensures SharedInv(Apply(sh, t, act), ph')
  {
    var sh' := Apply(sh, t, act);
    assert forall e: Eid :: Current(sh', e) <==> Current(sh, e);
    assert DirtyMap(sh') == DirtyMap(sh)[act.k := act.e];
    assert forall e: Eid :: IsExpunged(sh', e) <==> IsExpunged(sh, e);
  }

  lemma MakeKeeps(sh: Shared, t: Tid, ph: Phase, act: Action, ph': Phase)
    requires SharedInv(sh, ph) && Allowed(sh, ph, act, ph') && (act.MakeDirtyMap? || act.Amend?)
    ensures SharedInv(Apply(sh, t, act), ph')
  {
    var sh' := Apply(sh, t, act);
    assert forall e: Eid :: Current(sh', e) <==> Current(sh, e);
    assert forall e: Eid :: IsExpunged(sh', e) <==> IsExpunged(sh, e);
  }

  lemma InsertKeeps(sh: Shared, t: Tid, ph: Phase, act: Action, ph': Phase)
    requires SharedInv(sh, ph) && Allowed(sh, ph, act, ph') && act.Insert?
    ensures SharedInv(Apply(sh, t, act), ph')
  {
    var sh' := Apply(sh, t, act);
    assert forall e: Eid :: e < |sh.heap| ==> sh'.heap[e] == sh.heap[e];
    assert forall e: Eid :: e < |sh.heap| ==> (Current(sh', e) <==> Current(sh, e));
  }

  lemma DirtyKeeps(sh: Shared, t: Tid, ph: Phase, act: Action, ph': Phase)
    requires SharedInv(sh, ph) && Allowed(sh, ph, act, ph') && (act.Remove? || act.DropDirty?)
    ensures SharedInv(Apply(sh, t, act), ph')
  {
    var sh' := Apply(sh, t, act);
    assert forall e: Eid :: Current(sh', e) <==> Current(sh, e);
    assert forall e: Eid :: IsExpunged(sh', e) <==> IsExpunged(sh, e);
  }

  lemma CountersKeep(sh: Shared, t: Tid, ph: Phase, act: Action, ph': Phase)
    requires SharedInv(sh, ph) && Allowed(sh, ph, act, ph') && (act.CountMiss? || act.ResetMisses?)
    ensures SharedInv(Apply(sh, t, act), ph')
  {
    var sh' := Apply(sh, t, act);
    assert forall e: Eid :: Current(sh', e) <==> Current(sh, e);
    assert forall e: Eid :: IsExpunged(sh', e) <==> IsExpunged(sh, e);
  }

  lemma PublishKeeps(sh: Shared, t: Tid, ph: Phase, act: Action, ph': Phase)
    requires SharedInv(sh, ph) && Allowed(sh, ph, act, ph') && act.Publish?
    ensures SharedInv(Apply(sh, t, act), ph')
  {
    var sh' := Apply(sh, t, act);
    forall e | e in sh'.published
      ensures e < |sh'.heap| && (Current(sh', e) || IsExpunged(sh', e))
    {
      if e in DirtyMap(sh).Values {
        var k :| k in DirtyMap(sh) && DirtyMap(sh)[k] == e;
        assert Current(sh', e);
      } else if Current(sh, e) {
        assert sh.heap[e].key !in DirtyMap(sh);
      }
    }
  }

  lemma ActionKeeps(sh: Shared, t: Tid, ph: Phase, act: Action, ph': Phase)
    requires SharedInv(sh, ph) && Allowed(sh, ph, act, ph')
    ensures SharedInv(Apply(sh, t, act), ph')
  {
    match act
    case WritePtr(_, _) => WritePtrKeeps(sh, t, ph, act);
    case Unexpunge(_) => UnexpungeKeeps(sh, t, ph, act, ph');
    case Expunge(_) => ExpungeKeeps(sh, t, ph, act, ph');
    case Relinked(_, _) => RelinkKeeps(sh, t, ph, act, ph');
    case CopyPut(_, _) => CopyPutKeeps(sh, t, ph, act, ph');
    case MakeDirtyMap => MakeKeeps(sh, t, ph, act, ph');
    case Amend => MakeKeeps(sh, t, ph, act, ph');
    case Publish(_) => PublishKeeps(sh, t, ph, act, ph');
    case Insert(_, _) => InsertKeeps(sh, t, ph, act, ph');
    case Remove(_) => DirtyKeeps(sh, t, ph, act, ph');
    case CountMiss => CountersKeep(sh, t, ph, act, ph');
    case DropDirty => DirtyKeeps(sh, t, ph, act, ph');
    case ResetMisses => CountersKeep(sh, t, ph, act, ph');
    case Stutter => SameMaps(sh, Apply(sh, t, act), ph);
    case Acquire => SameMaps(sh, Apply(sh, t, act), ph);
    case Release => SameMaps(sh, Apply(sh, t, act), ph);
    case CopySkip =>
  }

  lemma SameMaps(sh: Shared, sh': Shared, ph: Phase)
    requires SharedInv(sh, ph)
    requires sh' == sh.(lock := sh'.lock)
    ensures SharedInv(sh', ph)
  {
    assert forall e: Eid :: Current(sh', e) <==> Current(sh, e);
  }

  // ---- Effects on the abstract map ----

  /** What an allowed action does to the abstract map. */
  function AbsAfter(sh: Shared, act: Action): AbsMap {
    match act
    case WritePtr(e, v) =>
      if e >= |sh.heap| then Abs(sh)
      else if v.Some? then Abs(sh)[sh.heap[e].key := v.value] else Abs(sh) - {sh.heap[e].key}
    case Insert(k, v) => Abs(sh)[k := v]
    case Remove(k) => Abs(sh) - {k}
    case _ => Abs(sh)
  }

  lemma ActionEffect(sh: Shared, t: Tid, ph: Phase, act: Action, ph': Phase)
    requires SharedInv(sh, ph) && Allowed(sh, ph, act, ph')
    ensures Abs(Apply(sh, t, act)) == AbsAfter(sh, act)
  {
    var sh' := Apply(sh, t, act);
    forall k
      ensures AbsAt(sh', k) == Get(AbsAfter(sh, act), k)
    {
      ActionEffectAt(sh, t, ph, act, ph', k);
    }
    SameMap(Abs(sh'), AbsAfter(sh, act));
  }

  lemma SameMap(a: AbsMap, b: AbsMap)
    requires forall k :: Get(a, k) == Get(b, k)
    ensures a == b
  {
    assert forall k :: k in a <==> Get(a, k).Some?;
    assert forall k :: k in b <==> Get(b, k).Some?;
    assert forall k :: k in a ==> Get(a, k) == Some(a[k]) && Get(b, k) == Some(b[k]);
  }

  lemma ActionEffectAt(sh: Shared, t: Tid, ph: Phase, act: Action, ph': Phase, k: Key)
    requires SharedInv(sh, ph) && Allowed(sh, ph, act, ph')
    ensures AbsAt(Apply(sh, t, act), k) == Get(AbsAfter(sh, act), k)
  {
    assert Get(Abs(sh), k) == AbsAt(sh, k);
    if act.WritePtr? {
      WriteEffectAt(sh, t, ph, act, k);
    } else if act.Unexpunge? || act.Expunge? {
      WrittenSame(sh, Apply(sh, t, act), act.e);
      MarkEffectAt(sh, t, ph, act, ph', k);
    } else if act.Relinked? || act.CopyPut? || act.Insert? || act.Remove? {
      SetDirtyEffectAt(sh, t, ph, act, ph', k);
    } else {
      PromoteEffectAt(sh, t, ph, act, ph', k);
    }
  }

  lemma WriteEffectAt(sh: Shared, t: Tid, ph: Phase, act: Action, k: Key)
    requires SharedInv(sh, ph) && Allowed(sh, ph, act, ph) && act.WritePtr?
    ensures AbsAt(Apply(sh, t, act), k) == Get(AbsAfter(sh, act), k)
  {
    hide InPhase, Current;
    var sh' := Apply(sh, t, act);
    assert Get(Abs(sh), k) == AbsAt(sh, k);
    assert Attached(sh, act.e);
    if k != sh.heap[act.e].key {
      assert forall i: Eid :: i < |sh.heap| && i != act.e ==> sh'.heap[i] == sh.heap[i];
    }
  }

  lemma MarkEffectAt(sh: Shared, t: Tid, ph: Phase, act: Action, ph': Phase, k: Key)
    requires SharedInv(sh, ph) && Allowed(sh, ph, act, ph') && (act.Unexpunge? || act.Expunge?)
    ensures AbsAt(Apply(sh, t, act), k) == AbsAt(sh, k)
  {
    var sh' := Apply(sh, t, act);
    assert forall i: Eid :: i < |sh.heap| && i != act.e ==> sh'.heap[i] == sh.heap[i];
  }

  lemma SetDirtyEffectAt(sh: Shared, t: Tid, ph: Phase, act: Action, ph': Phase, k: Key)
    requires SharedInv(sh, ph) && Allowed(sh, ph, act, ph')
    requires act.Relinked? || act.CopyPut? || act.Insert? || act.Remove?
    ensures AbsAt(Apply(sh, t, act), k) == Get(AbsAfter(sh, act), k)
  {
    var sh' := Apply(sh, t, act);
    assert Get(Abs(sh), k) == AbsAt(sh, k);
    assert forall i: Eid :: i < |sh.heap| ==> sh'.heap[i] == sh.heap[i];
  }

  lemma PromoteEffectAt(sh: Shared, t: Tid, ph: Phase, act: Action, ph': Phase, k: Key)
    requires SharedInv(sh, ph) && Allowed(sh, ph, act, ph')
    requires !act.WritePtr? && !act.Unexpunge? && !act.Expunge?
    requires !act.Relinked? && !act.CopyPut? && !act.Insert? && !act.Remove?
    ensures AbsAt(Apply(sh, t, act), k) == AbsAt(sh, k)
  {
  }

  // ---- Entries that threads still hold ----

  /** Attachment is lost only between two actions that leave the entry alone, and never regained. */
  ghost predicate Evolves(sh: Shared, sh': Shared) {
    && |sh.heap| <= |sh'.heap|
    && sh.published <= sh'.published
    && (forall e: Eid {:trigger sh'.heap[e]} :: e < |sh.heap| ==> sh'.heap[e].key == sh.heap[e].key)
    && (forall e: Eid {:trigger Attached(sh', e)} :: e < |sh.heap| && !Attached(sh', e) ==> sh'.heap[e].p == sh.heap[e].p)
    && (forall e: Eid {:trigger Attached(sh', e)} :: e < |sh.heap| && Attached(sh', e) ==> Attached(sh, e))
  }

  lemma ActionEvolves(sh: Shared, t: Tid, ph: Phase, act: Action, ph': Phase)
    requires SharedInv(sh, ph) && Allowed(sh, ph, act, ph')
    ensures Evolves(sh, Apply(sh, t, act))
  {
    var sh' := Apply(sh, t, act);
    if act.WritePtr? || act.Unexpunge? || act.Expunge? {
      WrittenSame(sh, sh', act.e);
      assert Attached(sh', act.e);
    } else if act.Publish? {
      PublishEvolves(sh, t, ph, act, ph');
    } else {
      MapsEvolve(sh, t, ph, act, ph');
    }
  }

  lemma PublishEvolves(sh: Shared, t: Tid, ph: Phase, act: Action, ph': Phase)
    requires SharedInv(sh, ph) && Allowed(sh, ph, act, ph') && act.Publish?
    ensures Evolves(sh, Apply(sh, t, act))
  {
  }

  lemma MapsEvolve(sh: Shared, t: Tid, ph: Phase, act: Action, ph': Phase)
    requires SharedInv(sh, ph) && Allowed(sh, ph, act, ph')
    requires !act.WritePtr? && !act.Unexpunge? && !act.Expunge? && !act.Publish?
    ensures Evolves(sh, Apply(sh, t, act))
  {
    var sh' := Apply(sh, t, act);
    assert forall i: Eid :: i < |sh.heap| ==> sh'.heap[i] == sh.heap[i];
  }
}
