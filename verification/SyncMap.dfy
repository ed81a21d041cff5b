/**
 The concurrent map as one goroutine uses it: its fields and entries, changed in place, refine a plain map.
 What other goroutines may do in between is the subject of MapProtocol and MapTheorems.
 */
module SyncMap {
  import opened Options
  import opened MapSpec
  import MapReference

  class Entry {
    var p: Pointer<Value>

    /** The key that the entry is for. */
    ghost const key: Key

    constructor (key: Key, v: Value)
      ensures p == Val(v) && this.key == key
    {
      p := Val(v);
      this.key := key;
    }

    /** A compare-and-swap of the pointer. */
    method CompareAndSwap(before: Pointer<Value>, after: Pointer<Value>) returns (swapped: bool)
      modifies this
      ensures swapped == (old(p) == before) && p == if swapped then after else old(p)
    {
      swapped := p == before;
      if swapped { p := after; }
    }

    method Load() returns (value: Option<Value>)
      ensures value == if p.Val? then Some(p.v) else None
    {
      if p == Nil || p == Expunged { return None; }
      value := Some(p.v);
    }

    /** tryStore: alone, the first compare-and-swap succeeds. */
    method TryStore(v: Value) returns (ok: bool)
      modifies this
      ensures ok == (old(p) != Expunged) && p == if ok then Val(v) else old(p)
    {
      var q := p;
      if q == Expunged { return false; }
      ok := CompareAndSwap(q, Val(v));
    }

    method UnexpungeLocked() returns (wasExpunged: bool)
      modifies this
      ensures wasExpunged == (old(p) == Expunged) && p == if wasExpunged then Nil else old(p)
    {
      wasExpunged := CompareAndSwap(Expunged, Nil);
    }

    method StoreLocked(v: Value)
      modifies this
      ensures p == Val(v)
    {
      p := Val(v);
    }

    method TryLoadOrStore(v: Value) returns (actual: Option<Value>, loaded: bool, ok: bool)
      modifies this
      ensures ok == (old(p) != Expunged)
      ensures ok ==> loaded == old(p).Val? && p == (if loaded then old(p) else Val(v)) && actual == Some(p.v)
      ensures !ok ==> p == old(p)
    {
      var q := p;
      if q == Expunged { return None, false, false; }
      if q != Nil { return Some(q.v), true, true; }
      var swapped := CompareAndSwap(Nil, Val(v));
      return Some(v), false, swapped;
    }

    method Delete() returns (hadValue: bool)
      modifies this
      ensures hadValue == old(p).Val? && p == if hadValue then Nil else old(p)
    {
      var q := p;
      if q == Nil || q == Expunged { return false; }
      hadValue := CompareAndSwap(q, Nil);
    }

    method TryExpungeLocked() returns (isExpunged: bool)
      modifies this
      ensures p == (if old(p) == Nil then Expunged else old(p)) && isExpunged == (p == Expunged)
    {
      var q := p;
      if q == Nil {
        var swapped := CompareAndSwap(Nil, Expunged);
        return swapped;
      }
      isExpunged := q == Expunged;
    }
  }

  type Table = map<Key, Entry>
  type Pointers = map<Entry, Pointer<Value>>

  // ---- The fields as values ----

  function DirtyOf(dirty: Option<Table>): Table {
    if dirty.Some? then dirty.value else map[]
  }

  /** The entry that a locked call finds for the key. */
  function Find(read: Table, dirty: Option<Table>, k: Key): Option<Entry> {
    if k in read then Some(read[k]) else Get(DirtyOf(dirty), k)
  }

  /** The dirty map has the entries of the read map but for the expunged ones, and no expunged ones; without it
      nothing is expunged.  Each entry is for one key. */
  ghost predicate Good(read: Table, dirty: Option<Table>, p: Pointers) {
    && (forall k :: k in read ==> read[k] in p && read[k].key == k)
    && (forall k :: k in read ==> (p[read[k]] == Expunged <==> dirty.Some? && k !in DirtyOf(dirty)))
    && (forall k :: k in DirtyOf(dirty) ==> DirtyOf(dirty)[k] in p && DirtyOf(dirty)[k].key == k)
    && (forall k :: k in DirtyOf(dirty) ==> p[DirtyOf(dirty)[k]] != Expunged && (k in read ==> DirtyOf(dirty)[k] == read[k]))
  }

  /** What the pointers say about one key. */
  ghost function At(read: Table, dirty: Option<Table>, p: Pointers, k: Key): Option<Value> {
    match Find(read, dirty, k)
    case None => None
    case Some(e) => if e in p && p[e].Val? then Some(p[e].v) else None
  }

  /** The plain map that the fields stand for. */
  ghost function Meaning(read: Table, dirty: Option<Table>, p: Pointers): AbsMap {
    map k | k in read.Keys + DirtyOf(dirty).Keys && At(read, dirty, p, k).Some? :: At(read, dirty, p, k).value
  }

  lemma MeaningAt(read: Table, dirty: Option<Table>, p: Pointers, k: Key)
    ensures Get(Meaning(read, dirty, p), k) == At(read, dirty, p, k)
  {
  }

  /** Two states mean the same when they say the same about every key. */
  lemma SameMeaning(read: Table, dirty: Option<Table>, p: Pointers, m: AbsMap)
    requires forall k :: At(read, dirty, p, k) == Get(m, k)
    ensures Meaning(read, dirty, p) == m
  {
    hide At;
    forall k ensures k in Meaning(read, dirty, p) <==> k in m {
      MeaningAt(read, dirty, p, k);
      assert At(read, dirty, p, k) == Get(m, k);
    }
    forall k | k in m ensures Meaning(read, dirty, p)[k] == m[k] {
      MeaningAt(read, dirty, p, k);
      assert At(read, dirty, p, k) == Get(m, k);
    }
  }

  function With(m: AbsMap, key: Key, q: Pointer<Value>): AbsMap {
    if q.Val? then m[key := q.v] else m - {key}
  }

  /** A pointer changes, neither from nor to expunged. */
  lemma SetKeeps(read: Table, dirty: Option<Table>, p: Pointers, key: Key, e: Entry, q: Pointer<Value>)
    requires Good(read, dirty, p) && Find(read, dirty, key) == Some(e) && p[e] != Expunged && q != Expunged
    ensures Good(read, dirty, p[e := q])
    ensures Meaning(read, dirty, p[e := q]) == With(Meaning(read, dirty, p), key, q)
  {
    forall k ensures At(read, dirty, p[e := q], k) == Get(With(Meaning(read, dirty, p), key, q), k) {
      MeaningAt(read, dirty, p, k);
    }
    hide At, Meaning;
    SameMeaning(read, dirty, p[e := q], With(Meaning(read, dirty, p), key, q));
  }

  /** An expunged entry becomes nil and enters the dirty map. */
  lemma UnexpungeKeeps(read: Table, dirty: Option<Table>, p: Pointers, key: Key, e: Entry)
    requires Good(read, dirty, p) && key in read && read[key] == e && p[e] == Expunged
    ensures dirty.Some? && key !in dirty.value
    ensures Good(read, Some(dirty.value[key := e]), p[e := Nil])
    ensures Meaning(read, Some(dirty.value[key := e]), p[e := Nil]) == Meaning(read, dirty, p)
  {
    var dirty' := Some(dirty.value[key := e]);
    forall k ensures At(read, dirty', p[e := Nil], k) == Get(Meaning(read, dirty, p), k) {
      MeaningAt(read, dirty, p, k);
    }
    hide At, Meaning;
    SameMeaning(read, dirty', p[e := Nil], Meaning(read, dirty, p));
  }

  /** A new entry in the dirty map. */
  lemma AddKeeps(read: Table, dirty: Table, p: Pointers, key: Key, e: Entry, v: Value)
    requires Good(read, Some(dirty), p) && Find(read, Some(dirty), key) == None && e !in p && e.key == key
    ensures Good(read, Some(dirty[key := e]), p[e := Val(v)])
    ensures Meaning(read, Some(dirty[key := e]), p[e := Val(v)]) == Meaning(read, Some(dirty), p)[key := v]
  {
    var dirty', p', m := Some(dirty[key := e]), p[e := Val(v)], Meaning(read, Some(dirty), p)[key := v];
    forall k ensures At(read, dirty', p', k) == Get(m, k) {
      MeaningAt(read, Some(dirty), p, k);
    }
    hide At, Meaning;
    SameMeaning(read, dirty', p', m);
  }

  lemma DropKeeps(read: Table, dirty: Table, p: Pointers, key: Key)
    requires Good(read, Some(dirty), p) && key !in read
    ensures Good(read, Some(dirty - {key}), p)
    ensures Meaning(read, Some(dirty - {key}), p) == Meaning(read, Some(dirty), p) - {key}
  {
    forall k ensures At(read, Some(dirty - {key}), p, k) == Get(Meaning(read, Some(dirty), p) - {key}, k) {
      MeaningAt(read, Some(dirty), p, k);
    }
    hide At, Meaning;
    SameMeaning(read, Some(dirty - {key}), p, Meaning(read, Some(dirty), p) - {key});
  }

  lemma PromoteKeeps(read: Table, dirty: Table, p: Pointers)
    requires Good(read, Some(dirty), p)
    ensures Good(dirty, None, p) && Meaning(dirty, None, p) == Meaning(read, Some(dirty), p)
  {
    forall k ensures At(dirty, None, p, k) == Get(Meaning(read, Some(dirty), p), k) {
      MeaningAt(read, Some(dirty), p, k);
    }
    hide At, Meaning;
    SameMeaning(dirty, None, p, Meaning(read, Some(dirty), p));
  }

  /** The dirty map is made anew: nil entries become expunged and stay out of it. */
  lemma CopyKeeps(read: Table, p: Pointers, dirty: Table, p': Pointers)
    requires Good(read, None, p)
    requires forall k :: k in read ==> read[k] in p' && p'[read[k]] == if p[read[k]] == Nil then Expunged else p[read[k]]
    requires forall k :: k in dirty <==> k in read && p'[read[k]] != Expunged
    requires forall k :: k in dirty ==> dirty[k] == read[k]
    ensures Good(read, Some(dirty), p') && Meaning(read, Some(dirty), p') == Meaning(read, None, p)
  {
    forall k ensures At(read, Some(dirty), p', k) == Get(Meaning(read, None, p), k) {
      MeaningAt(read, None, p, k);
    }
    hide At, Meaning;
    SameMeaning(read, Some(dirty), p', Meaning(read, None, p));
  }

  /** Only the pointers of entries in use matter. */
  lemma SamePointers(read: Table, dirty: Option<Table>, p: Pointers, p': Pointers)
    requires Good(read, dirty, p)
    requires forall k :: k in read ==> read[k] in p' && p'[read[k]] == p[read[k]]
    requires forall k :: k in DirtyOf(dirty) ==> DirtyOf(dirty)[k] in p' && p'[DirtyOf(dirty)[k]] == p[DirtyOf(dirty)[k]]
    ensures Good(read, dirty, p') && Meaning(read, dirty, p') == Meaning(read, dirty, p)
  {
    forall k ensures At(read, dirty, p', k) == Get(Meaning(read, dirty, p), k) {
      MeaningAt(read, dirty, p, k);
    }
    hide At, Meaning;
    SameMeaning(read, dirty, p', Meaning(read, dirty, p));
  }

  // ---- The map ----

  class Map {
    var read: Table
    var amended: bool
    var dirty: Option<Table> // nil at first
    var misses: nat

    function Entries(): set<Entry>
      reads this`read, this`dirty
    {
      read.Values + DirtyOf(dirty).Values
    }

    ghost function Pointers(): Pointers
      reads this`read, this`dirty, Entries()
    {
      map e | e in Entries() :: e.p
    }

    ghost predicate Valid()
      reads this`read, this`dirty, this`amended, Entries()
    {
      (amended <==> dirty.Some?) && Good(read, dirty, Pointers())
    }

    ghost function Contents(): AbsMap
      reads this`read, this`dirty, Entries()
    {
      Meaning(read, dirty, Pointers())
    }

    constructor ()
      ensures Valid() && Contents() == map[] && Entries() == {}
    {
      read, amended, dirty, misses := map[], false, None, 0;
    }

    /** dirty becomes the read map, and there is no dirty map and no miss any more. */
    method Promote()
      requires Valid() && dirty.Some?
      modifies this
      ensures Valid() && read == old(dirty.value) && dirty == None && misses == 0
      ensures Entries() <= old(Entries()) && Contents() == old(Contents())
    {
      ghost var p := Pointers();
      PromoteKeeps(read, dirty.value, p);
      read := dirty.value;
      amended := false;
      dirty := None;
      misses := 0;
      hide Good, Meaning;
      SamePointers(read, dirty, p, Pointers());
    }

    method MissLocked()
      requires Valid() && dirty.Some?
      modifies this
      ensures Valid() && Entries() <= old(Entries()) && Contents() == old(Contents())
      ensures if old(misses) + 1 < |old(dirty.value)| then misses == old(misses) + 1 && dirty == old(dirty) && read == old(read)
              else misses == 0 && dirty == None && read == old(dirty.value)
    {
      hide Good, Meaning;
      misses := misses + 1;
      assert Pointers() == old(Pointers());
      if misses < |dirty.value| { return; }
      Promote();
    }

    /** What the entry of a key says about the plain map. */
    lemma Lookup(key: Key)
      requires Valid()
      ensures match Find(read, dirty, key)
              case None => key !in Contents()
              case Some(e) => e in Entries() && Get(Contents(), key) == if e.p.Val? then Some(e.p.v) else None
      ensures !amended ==> Find(read, dirty, key) == Get(read, key)
      ensures key in read ==> (read[key].p == Expunged ==> dirty.Some?)
    {
      MeaningAt(read, dirty, Pointers(), key);
      hide Meaning;
    }

    method Load(key: Key) returns (value: Option<Value>)
      requires Valid()
      modifies this
      ensures Valid() && Entries() <= old(Entries()) && Contents() == old(Contents())
      ensures Loaded(value) == SpecResult(Op.Load(key), old(Contents()))
    {
      hide Good, Meaning, Pointers;
      Lookup(key);
      var e := Get(read, key);
      if e == None && amended {
        e := Get(dirty.value, key);
        // Found or not, it was a miss.
        MissLocked();
      }
      if e == None { return None; }
      value := e.value.Load();
    }

    /** A change of the pointer that leaves the entry unexpunged. */
    lemma PointerSet(p: Pointers, key: Key, e: Entry)
      requires Good(read, dirty, p) && Find(read, dirty, key) == Some(e) && p.Keys == Entries() && p[e] != Expunged && e.p != Expunged
      requires forall x :: x in Entries() && x != e ==> x.p == p[x]
      ensures Good(read, dirty, Pointers()) && Contents() == With(Meaning(read, dirty, p), key, e.p)
    {
      SetKeeps(read, dirty, p, key, e, e.p);
      assert Pointers() == p[e := e.p];
    }

    method Delete(key: Key)
      requires Valid()
      modifies this, Entries()
      ensures Valid() && Entries() <= old(Entries())
      ensures Contents() == SpecMap(Op.Delete(key), old(Contents()))
    {
      hide Good, Meaning;
      Lookup(key);
      var e := Get(read, key);
      if e == None && amended {
        DropKeeps(read, dirty.value, Pointers(), key);
        ghost var p := Pointers();
        dirty := Some(dirty.value - {key});
        SamePointers(read, dirty, p, Pointers());
      }
      if e.Some? {
        ghost var p := Pointers();
        var hadValue := e.value.Delete();
        if hadValue {
          PointerSet(p, key, e.value);
        } else {
          assert Pointers() == p;
        }
      }
    }

    /** An expunged entry is made nil and linked into dirty again. */
    method Unexpunge(key: Key, e: Entry)
      requires Valid() && key in read && read[key] == e
      modifies this`dirty, e
      ensures Valid() && Entries() == old(Entries()) && e.p != Expunged && Contents() == old(Contents())
      ensures Find(read, dirty, key) == Some(e)
    {
      hide Good, Meaning;
      Lookup(key);
      ghost var p := Pointers();
      var wasExpunged := e.UnexpungeLocked();
      if wasExpunged {
        UnexpungeKeeps(read, dirty, p, key, e);
        SameEntries(read, dirty.value, key, e);
        dirty := Some(dirty.value[key := e]);
        assert Pointers() == p[e := Nil];
      } else {
        assert Pointers() == p;
      }
    }

    /** The path without the lock: a key of the read map whose entry takes the value. */
    method TryStoreEntry(key: Key, e: Entry, value: Value) returns (ok: bool)
      requires Valid() && Find(read, dirty, key) == Some(e) && e in Entries()
      modifies e
      ensures Valid() && ok == (old(e.p) != Expunged)
      ensures if ok then Contents() == SpecMap(Op.Store(key, value), old(Contents())) else e.p == old(e.p) && Contents() == old(Contents())
    {
      hide Good, Meaning;
      ghost var p := Pointers();
      ok := e.TryStore(value);
      if ok {
        PointerSet(p, key, e);
      } else {
        assert Pointers() == p;
      }
    }

    /** A plain store into an entry that is not expunged. */
    method StoreEntry(key: Key, e: Entry, value: Value)
      requires Valid() && Find(read, dirty, key) == Some(e) && e in Entries() && e.p != Expunged
      modifies e
      ensures Valid() && Contents() == SpecMap(Op.Store(key, value), old(Contents()))
    {
      hide Good, Meaning;
      ghost var p := Pointers();
      e.StoreLocked(value);
      PointerSet(p, key, e);
    }

    /** dirtyLocked: a dirty map with every entry of read that is not deleted, for the caller to amend. */
    method DirtyLocked()
      requires Good(read, dirty, Pointers())
      modifies this`dirty, read.Values
      ensures dirty.Some? && Good(read, dirty, Pointers()) && Contents() == old(Contents())
      ensures Entries() <= old(Entries())
      ensures if old(dirty).Some? then dirty == old(dirty) else dirty.value.Keys <= read.Keys
    {
      hide Good, Meaning, Pointers;
      if dirty.Some? { return; }
      ghost var p := Pointers();
      PointersAre();
      OwnKeys(read, dirty, p);
      dirty := Some(map[]);
      var left := read.Keys;
      while left != {}
        invariant Copying(left, p)
        decreases |left|
      {
        var k :| k in left;
        CopyEntry(k, left, p);
        left := left - {k};
      }
      CopyDone(p);
    }

    /** The entries for `left` are still to be copied. */
    ghost predicate Copying(left: set<Key>, p: Pointers)
      reads this`read, this`dirty, read.Values
    {
      && dirty.Some? && left <= read.Keys
      && (forall k :: k in read ==> read[k] in p && read[k].key == k)
      && (forall k :: k in read ==> read[k].p == if k in left then p[read[k]] else Copied(p[read[k]]))
      && (forall k :: k in dirty.value ==> k in read && dirty.value[k] == read[k])
      && (forall k :: k in read ==> (k in dirty.value <==> k !in left && Copied(p[read[k]]) != Expunged))
    }

    /** One turn of the copy: nil becomes expunged, and anything but expunged is linked into dirty. */
    method CopyEntry(k: Key, ghost left: set<Key>, ghost p: Pointers)
      requires Copying(left, p) && k in left
      modifies this`dirty, read[k]
      ensures Copying(left - {k}, p)
    {
      var e := read[k];
      assert forall x :: x in read && x != k ==> read[x] != e;
      var isExpunged := e.TryExpungeLocked();
      if !isExpunged {
        dirty := Some(dirty.value[k := e]);
      }
    }

    lemma PointersAre()
      ensures forall k :: k in read ==> read[k] in Entries() && read[k] in Pointers() && Pointers()[read[k]] == read[k].p
    {
    }

    lemma CopyDone(p: Pointers)
      requires Copying({}, p) && Good(read, None, p)
      ensures Good(read, dirty, Pointers()) && Contents() == Meaning(read, None, p)
    {
      hide Meaning;
      CopyKeeps(read, p, dirty.value, Pointers());
    }

    /** The last branch of Store and LoadOrStore: a key that is in neither map. */
    method AddNew(key: Key, value: Value)
      requires Valid() && Find(read, dirty, key) == None
      modifies this`dirty, this`amended, read.Values
      ensures Valid() && fresh(Entries() - old(Entries()))
      ensures Contents() == SpecMap(Op.Store(key, value), old(Contents()))
    {
      hide Good, Meaning, Pointers;
      if !amended {
        // dirty is made, and read marked as missing a key of it.
        DirtyLocked();
        amended := true;
      }
      AddEntry(key, value);
    }

    /** A new entry in dirty. */
    method AddEntry(key: Key, value: Value)
      requires dirty.Some? && Good(read, dirty, Pointers()) && Find(read, dirty, key) == None
      modifies this`dirty
      ensures dirty.Some? && Good(read, dirty, Pointers()) && fresh(Entries() - old(Entries()))
      ensures Contents() == SpecMap(Op.Store(key, value), old(Contents()))
    {
      hide Good, Meaning;
      ghost var p, before := Pointers(), dirty.value;
      var e := new Entry(key, value);
      AddKeeps(read, before, p, key, e, value);
      NewEntry(before, key, e);
      dirty := Some(dirty.value[key := e]);
      assert Pointers() == p[e := Val(value)];
    }

    method Store(key: Key, value: Value)
      requires Valid()
      modifies this, Entries()
      ensures Valid() && fresh(Entries() - old(Entries()))
      ensures Contents() == SpecMap(Op.Store(key, value), old(Contents()))
    {
      hide Good, Meaning, Pointers;
      Lookup(key);
      if key in read {
        var ok := TryStoreEntry(key, read[key], value);
        if ok { return; }
      }
      if key in read {
        Unexpunge(key, read[key]);
        StoreEntry(key, read[key], value);
      } else if dirty.Some? && key in dirty.value {
        NotExpunged(key);
        StoreEntry(key, dirty.value[key], value);
      } else {
        AddNew(key, value);
      }
    }

    lemma NotExpunged(key: Key)
      requires Valid() && key in DirtyOf(dirty)
      ensures DirtyOf(dirty)[key].p != Expunged
    {
      assert DirtyOf(dirty)[key] in Entries();
    }

    /** tryLoadOrStore on the entry of the key. */
    method LoadOrStoreEntry(key: Key, e: Entry, value: Value) returns (actual: Option<Value>, loaded: bool, ok: bool)
      requires Valid() && Find(read, dirty, key) == Some(e) && e in Entries()
      modifies e
      ensures Valid() && ok == (old(e.p) != Expunged)
      ensures ok ==> LoadedOrStored(actual, loaded) == SpecResult(Op.LoadOrStore(key, value), old(Contents()))
      ensures if ok then Contents() == SpecMap(Op.LoadOrStore(key, value), old(Contents()))
              else e.p == old(e.p) && Contents() == old(Contents())
    {
      hide Good, Meaning;
      Lookup(key);
      ghost var p := Pointers();
      actual, loaded, ok := e.TryLoadOrStore(value);
      if ok && !loaded {
        PointerSet(p, key, e);
      } else {
        assert Pointers() == p;
      }
    }

    method LoadOrStore(key: Key, value: Value) returns (actual: Option<Value>, loaded: bool)
      requires Valid()
      modifies this, Entries()
      ensures Valid() && fresh(Entries() - old(Entries()))
      ensures LoadedOrStored(actual, loaded) == SpecResult(Op.LoadOrStore(key, value), old(Contents()))
      ensures Contents() == SpecMap(Op.LoadOrStore(key, value), old(Contents()))
    {
      hide Good, Meaning, Pointers;
      Lookup(key);
      // A key of the read map needs no lock.
      var ok := false;
      if key in read {
        actual, loaded, ok := LoadOrStoreEntry(key, read[key], value);
        if ok { return; }
      }
      if key in read {
        Unexpunge(key, read[key]);
        actual, loaded, ok := LoadOrStoreEntry(key, read[key], value);
      } else if dirty.Some? && key in dirty.value {
        NotExpunged(key);
        actual, loaded, ok := LoadOrStoreEntry(key, dirty.value[key], value);
        MissLocked();
      } else {
        AddNew(key, value);
        actual, loaded := Some(value), false;
      }
    }

    /** Range: `f` is called on every binding, in some order, until it answers with false. */
    method Range(f: (Key, Value) -> bool) returns (pairs: seq<(Key, Value)>, stopped: bool)
      requires Valid()
      modifies this
      ensures Valid() && Entries() <= old(Entries()) && Contents() == old(Contents())
      ensures MapReference.Visited(pairs, stopped, f, Contents())
    {
      hide Good, Meaning, MapReference.Visited;
      if amended { Promote(); }
      ghost var m, p := Contents(), Pointers();
      OnlyRead(m);
      pairs, stopped := Visit(read, m, f);
      assert Pointers() == p;
    }

    /** What the entries of the read map say, when it is all there is. */
    lemma OnlyRead(m: AbsMap)
      requires Valid() && dirty == None && m == Contents()
      ensures forall k :: k in m ==> k in read
      ensures forall k :: k in read ==> Get(m, k) == if read[k].p.Val? then Some(read[k].p.v) else None
    {
      forall k | k in read ensures Get(m, k) == if read[k].p.Val? then Some(read[k].p.v) else None {
        Lookup(k);
      }
    }
  }

  /** The loop of Range over the read map, whose entries say what `m` holds. */
  method Visit(read: Table, ghost m: AbsMap, f: (Key, Value) -> bool) returns (pairs: seq<(Key, Value)>, stopped: bool)
    requires forall k :: k in m ==> k in read
    requires forall k :: k in read ==> Get(m, k) == if read[k].p.Val? then Some(read[k].p.v) else None
    ensures MapReference.Visited(pairs, stopped, f, m)
  {
    pairs, stopped := [], false;
    var left := read.Keys;
    while left != {}
      invariant left <= read.Keys && ListsSome(pairs, m)
      invariant forall k :: k in m && k !in left ==> exists i :: 0 <= i < |pairs| && pairs[i].0 == k
      invariant forall i :: 0 <= i < |pairs| ==> pairs[i].0 !in left && f(pairs[i].0, pairs[i].1)
      decreases |left|
    {
      var k :| k in left;
      left := left - {k};
      var v := read[k].Load();
      if v == None { continue; }
      ListsMore(pairs, m, left, k, v.value);
      pairs := pairs + [(k, v.value)];
      if !f(k, v.value) {
        stopped := true;
        return;
      }
    }
  }

  /** One more binding is listed. */
  lemma ListsMore(pairs: seq<(Key, Value)>, m: AbsMap, left: set<Key>, k: Key, v: Value)
    requires ListsSome(pairs, m) && k in m && m[k] == v && k !in left
    requires forall i :: 0 <= i < |pairs| ==> pairs[i].0 !in left && pairs[i].0 != k
    requires forall x :: x in m && x !in left && x != k ==> exists i :: 0 <= i < |pairs| && pairs[i].0 == x
    ensures ListsSome(pairs + [(k, v)], m)
    ensures forall x :: x in m && x !in left ==> exists i :: 0 <= i < |pairs + [(k, v)]| && (pairs + [(k, v)])[i].0 == x
  {
    var more := pairs + [(k, v)];
    assert more[|pairs|].0 == k;
    forall x | x in m && x !in left ensures exists i :: 0 <= i < |more| && more[i].0 == x {
      if x != k {
        var i :| 0 <= i < |pairs| && pairs[i].0 == x;
        assert more[i].0 == x;
      }
    }
  }

  lemma NewEntry(before: Table, key: Key, e: Entry)
    requires key !in before
    ensures before[key := e].Values == before.Values + {e}
  {
    forall x | x in before.Values ensures x in before[key := e].Values {
      var k :| k in before && before[k] == x;
      assert before[key := e][k] == x;
    }
    assert before[key := e][key] == e;
  }

  /** What tryExpungeLocked leaves behind. */
  function Copied(q: Pointer<Value>): Pointer<Value> {
    if q == Nil then Expunged else q
  }

  lemma OwnKeys(read: Table, dirty: Option<Table>, p: Pointers)
    requires Good(read, dirty, p)
    ensures forall k :: k in read ==> read[k] in p && read[k].key == k
  {
  }

  /** An entry of the read map that is copied to the dirty map is no new entry. */
  lemma SameEntries(read: Table, dirty: Table, key: Key, e: Entry)
    requires key in read && read[key] == e && key !in dirty
    ensures read.Values + dirty[key := e].Values == read.Values + dirty.Values
  {
    forall x | x in dirty.Values ensures x in dirty[key := e].Values {
      var k :| k in dirty && dirty[k] == x;
      assert dirty[key := e][k] == x;
    }
  }
}
