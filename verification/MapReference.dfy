/**
 The two reference maps of the test suite, a map behind one lock and a map copied on every write, each
 proved to be the abstract map.  A call that holds the lock from start to end is one step; the one that
 looks first and locks then is told what happened in between.
 */
module MapReference {
  import opened Options
  import opened MapSpec

  /** `f` is called on the pairs in turn, and stops the iteration at the first one it answers with false. */
  ghost predicate Visited(pairs: seq<(Key, Value)>, stopped: bool, f: (Key, Value) -> bool, m: AbsMap) {
    && (if stopped then ListsSome(pairs, m) else Enumerates(pairs, m))
    && (stopped ==> pairs != [])
    && forall i :: 0 <= i < |pairs| ==> (f(pairs[i].0, pairs[i].1) <==> !(stopped && i == |pairs| - 1))
  }

  /** `f` on each binding, in some order, until it answers false. */
  method Iterate(m: map<Key, Value>, f: (Key, Value) -> bool) returns (pairs: seq<(Key, Value)>, stopped: bool)
    ensures Visited(pairs, stopped, f, m)
  {
    pairs, stopped := [], false;
    var left := m.Keys;
    while left != {}
      invariant left <= m.Keys && ListsSome(pairs, m)
      invariant forall k :: k in m && k !in left ==> exists i :: 0 <= i < |pairs| && pairs[i].0 == k
      invariant forall i :: 0 <= i < |pairs| ==> pairs[i].0 !in left && f(pairs[i].0, pairs[i].1)
      decreases |left|
    {
      var k :| k in left;
      left := left - {k};
      ghost var before := pairs;
      pairs := pairs + [(k, m[k])];
      assert pairs[|before|].0 == k;
      forall x | x in m && x !in left ensures exists i :: 0 <= i < |pairs| && pairs[i].0 == x {
        if x != k {
          var i :| 0 <= i < |before| && before[i].0 == x;
          assert pairs[i].0 == x;
        }
      }
      if !f(k, m[k]) {
        stopped := true;
        return;
      }
    }
  }

  class RWMutexMap {
    var dirty: Option<map<Key, Value>> // nil at first

    function Contents(): AbsMap
      reads this
    {
      if dirty.Some? then dirty.value else map[]
    }

    constructor ()
      ensures Contents() == map[]
    {
      dirty := None;
    }

    method Load(key: Key) returns (value: Option<Value>)
      ensures Loaded(value) == SpecResult(Op.Load(key), Contents())
    {
      value := if dirty.Some? && key in dirty.value then Some(dirty.value[key]) else None;
    }

    method Store(key: Key, value: Value)
      modifies this
      ensures Contents() == SpecMap(Op.Store(key, value), old(Contents()))
    {
      if dirty == None {
        dirty := Some(map[]);
      }
      dirty := Some(dirty.value[key := value]);
    }

    method LoadOrStore(key: Key, value: Value) returns (actual: Value, loaded: bool)
      modifies this
      ensures LoadedOrStored(Some(actual), loaded) == SpecResult(Op.LoadOrStore(key, value), old(Contents()))
      ensures Contents() == SpecMap(Op.LoadOrStore(key, value), old(Contents()))
    {
      loaded := dirty.Some? && key in dirty.value;
      if loaded {
        actual := dirty.value[key];
      } else {
        actual := value;
        if dirty == None {
          dirty := Some(map[]);
        }
        dirty := Some(dirty.value[key := value]);
      }
    }

    method Delete(key: Key)
      modifies this
      ensures Contents() == SpecMap(Op.Delete(key), old(Contents()))
    {
      if dirty.Some? {
        dirty := Some(dirty.value - {key});
      }
    }

    method Range(f: (Key, Value) -> bool) returns (pairs: seq<(Key, Value)>, stopped: bool)
      ensures Visited(pairs, stopped, f, Contents())
    {
      pairs, stopped := Iterate(Contents(), f);
    }
  }

  /** The map that an atomic value holds; empty before the first store. */
  function Published(clean: Option<map<Key, Value>>): AbsMap {
    if clean.Some? then clean.value else map[]
  }

  /** The map that is published is never changed: every write publishes a changed copy. */
  class DeepCopyMap {
    var clean: Option<map<Key, Value>>

    function Contents(): AbsMap
      reads this
    {
      Published(clean)
    }

    constructor ()
      ensures Contents() == map[]
    {
      clean := None;
    }

    method Load(key: Key) returns (value: Option<Value>)
      ensures Loaded(value) == SpecResult(Op.Load(key), Contents())
    {
      value := if clean.Some? && key in clean.value then Some(clean.value[key]) else None;
    }

    /** dirty: a copy, made binding by binding. */
    method Dirty() returns (dirty: map<Key, Value>)
      ensures dirty == Contents()
    {
      dirty := map[];
      var m := Contents();
      var left := m.Keys;
      while left != {}
        invariant left <= m.Keys && dirty.Keys == m.Keys - left
        invariant forall k :: k in dirty ==> dirty[k] == m[k]
        decreases |left|
      {
        var k :| k in left;
        dirty := dirty[k := m[k]];
        left := left - {k};
      }
    }

    method Store(key: Key, value: Value)
      modifies this
      ensures Contents() == SpecMap(Op.Store(key, value), old(Contents()))
    {
      var dirty := Dirty();
      dirty := dirty[key := value];
      clean := Some(dirty);
    }

    /** The call is atomic at one of its two looks: the first, without the lock, if that finds the key, and else the
        one under the lock. `meanwhile` is what other goroutines have published when the lock is taken. */
    method LoadOrStore(key: Key, value: Value, meanwhile: Option<map<Key, Value>>) returns (actual: Value, loaded: bool)
      modifies this
      ensures var at := if key in old(Contents()) then old(Contents()) else Published(meanwhile);
              && LoadedOrStored(Some(actual), loaded) == SpecResult(Op.LoadOrStore(key, value), at)
              && Contents() == SpecMap(Op.LoadOrStore(key, value), at)
    {
      if clean.Some? && key in clean.value {
        return clean.value[key], true;
      }

      // m.mu.Lock(): others may have written since the first look.
      clean := meanwhile;
      loaded := clean.Some? && key in clean.value;
      if loaded {
        actual := clean.value[key];
      } else {
        var dirty := Dirty();
        dirty := dirty[key := value];
        actual := value;
        clean := Some(dirty);
      }
    }

    method Delete(key: Key)
      modifies this
      ensures Contents() == SpecMap(Op.Delete(key), old(Contents()))
    {
      var dirty := Dirty();
      dirty := dirty - {key};
      clean := Some(dirty);
    }

    method Range(f: (Key, Value) -> bool) returns (pairs: seq<(Key, Value)>, stopped: bool)
      ensures Visited(pairs, stopped, f, Contents())
    {
      pairs, stopped := Iterate(Contents(), f);
    }
  }
}
