/**
 The abstract map behind every implementation of the repository's map interface: what each operation
 does to it and answers.
 */
module MapSpec {
  import opened Options

  type Key(==, !new)
  type Value(==, !new)

  type AbsMap = map<Key, Value>

  /** What an entry's pointer can be. */
  datatype Pointer<+T> = Nil | Expunged | Val(v: T)

  /** What Range calls on each pair: it may answer by the pairs that it was given before. */
  type Callback = (seq<(Key, Value)>, Key, Value) -> bool

  datatype Op =
    | Load(key: Key)
    | Store(key: Key, value: Value)
    | LoadOrStore(key: Key, value: Value)
    | Delete(key: Key)
    | Range(f: Callback)

  /** What a call hands back.  `actual` is None where the code returns a nil interface. */
  datatype Result =
    | Loaded(found: Option<Value>)
    | Stored
    | LoadedOrStored(actual: Option<Value>, loaded: bool)
    | Deleted
    | Ranged(pairs: seq<(Key, Value)>, stopped: bool)

  function Get<K, V>(m: map<K, V>, k: K): Option<V> {
    if k in m then Some(m[k]) else None
  }

  /** The map after an atomic `op`. */
  function SpecMap(op: Op, m: AbsMap): AbsMap {
    match op
    case Store(k, v) => m[k := v]
    case LoadOrStore(k, v) => if k in m then m else m[k := v]
    case Delete(k) => m - {k}
    case _ => m
  }

  /** The answer of an atomic `op`; Range's answer is not determined by the map and is specified by
      `Enumerates`. */
  function SpecResult(op: Op, m: AbsMap): Result
    requires !op.Range?
  {
    match op
    case Load(k) => Loaded(Get(m, k))
    case Store(_, _) => Stored
    case LoadOrStore(k, v) => if k in m then LoadedOrStored(Some(m[k]), true) else LoadedOrStored(Some(v), false)
    case Delete(_) => Deleted
  }

  /** `pairs` lists every binding of `m` exactly once. */
  ghost predicate Enumerates(pairs: seq<(Key, Value)>, m: AbsMap) {
    && (forall i, j :: 0 <= i < j < |pairs| ==> pairs[i].0 != pairs[j].0)
    && (forall i :: 0 <= i < |pairs| ==> pairs[i].0 in m && m[pairs[i].0] == pairs[i].1)
    && (forall k :: k in m ==> exists i :: 0 <= i < |pairs| && pairs[i].0 == k)
  }

  /** `f` was called on the pairs in turn and wanted more after each, but for the last one if that stopped Range. */
  predicate Consulted(f: Callback, pairs: seq<(Key, Value)>, stopped: bool) {
    && (stopped ==> pairs != [])
    && forall i :: 0 <= i < |pairs| ==> (f(pairs[..i], pairs[i].0, pairs[i].1) <==> !(stopped && i == |pairs| - 1))
  }

  /** `pairs` lists distinct bindings of `m`, possibly not all of them. */
  ghost predicate ListsSome(pairs: seq<(Key, Value)>, m: AbsMap) {
    && (forall i, j :: 0 <= i < j < |pairs| ==> pairs[i].0 != pairs[j].0)
    && (forall i :: 0 <= i < |pairs| ==> pairs[i].0 in m && m[pairs[i].0] == pairs[i].1)
  }
}
