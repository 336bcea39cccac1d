/** `CaseInsensitiveMap` (src/helpers/map.ts): a `Map` whose string keys are
    identified by their lower-case form. It composes two insertion-ordered
    maps that always move together: the value store (folded key to value)
    and the display map (folded key to the key most recently passed to
    `set`). */
module CaseInsensitiveMap {
  import opened Wrappers
  import opened JsStrings
  import opened Ordering
  import JsMap

  datatype CIMap<V> = CIMap(keysMap: JsMap.OrderedMap<string>, store: JsMap.OrderedMap<V>)

  /** The representation invariant: both maps are well formed, list the same
      folded keys in the same order (which is what lets `entries` walk them in
      parallel), every stored key is folded, and every display key folds to
      the key it is filed under. */
  ghost predicate Valid<V>(m: CIMap<V>) {
    && JsMap.Valid(m.keysMap)
    && JsMap.Valid(m.store)
    && m.keysMap.order == m.store.order
    && (forall f :: f in m.store.entries ==> Fold(f) == f && Fold(m.keysMap.entries[f]) == f)
  }

  /** Number of distinct case-folded identities (`size`). */
  function Size<V>(m: CIMap<V>): nat {
    |m.store.order|
  }

  /** `has`. */
  predicate Has<V>(m: CIMap<V>, key: string) {
    Fold(key) in m.store.entries
  }

  /** `get`. */
  function Get<V>(m: CIMap<V>, key: string): (r: Option<V>)
    ensures r.Some? <==> Has(m, key)
  {
    if Has(m, key) then Some(m.store.entries[Fold(key)]) else None
  }

  /** `keys()`: the display keys, one per identity, in insertion order. */
  function Keys<V>(m: CIMap<V>): (r: seq<string>)
    requires Valid(m)
    ensures |r| == Size(m)
    ensures forall i :: 0 <= i < |r| ==> Fold(r[i]) == m.store.order[i] && Has(m, r[i])
  {
    JsMap.Values(m.keysMap)
  }

  /** `values()`, in the same order as `keys()`. */
  function Values<V>(m: CIMap<V>): (r: seq<V>)
    requires Valid(m)
    ensures |r| == Size(m)
    ensures forall i :: 0 <= i < |r| ==> Get(m, Keys(m)[i]) == Some(r[i])
  {
    JsMap.Values(m.store)
  }

  /** Place of a present identity in the iteration order. */
  function Position<V>(m: CIMap<V>, key: string): (i: nat)
    requires Valid(m) && Has(m, key)
    ensures i < Size(m) && Fold(Keys(m)[i]) == Fold(key)
  {
    JsMap.Position(m.store, Fold(key))
  }

  /** The casing under which a present identity is shown by `keys()`. */
  function DisplayKey<V>(m: CIMap<V>, key: string): (d: string)
    requires Valid(m) && Has(m, key)
    ensures Fold(d) == Fold(key)
  {
    m.keysMap.entries[Fold(key)]
  }

  /** Distinct positions of `keys()` hold distinct identities. */
  lemma IdentitiesDistinct<V>(m: CIMap<V>, i: nat, j: nat)
    requires Valid(m) && i < j < Size(m)
    ensures Fold(Keys(m)[i]) != Fold(Keys(m)[j])
  {
  }

  /** Two display keys with the same lower-case form are the same key. */
  lemma KeyFoldsUnique<V>(m: CIMap<V>, x: string, y: string)
    requires Valid(m) && x in Keys(m) && y in Keys(m) && Fold(x) == Fold(y)
    ensures x == y
  {
    var keys := Keys(m);
    var a :| 0 <= a < |keys| && keys[a] == x;
    var b :| 0 <= b < |keys| && keys[b] == y;
    assert m.store.order[a] == m.store.order[b];
  }

  /** `keys()` never repeats a display key. */
  lemma KeysDistinct<V>(m: CIMap<V>)
    requires Valid(m)
    ensures Distinct(Keys(m))
  {
    forall i, j | 0 <= i < j < Size(m)
      ensures Keys(m)[i] != Keys(m)[j]
    {
      IdentitiesDistinct(m, i, j);
    }
  }

  /** The constructor with no argument. */
  function Empty<V>(): (r: CIMap<V>)
    ensures Valid(r) && Size(r) == 0
    ensures forall k :: !Has(r, k)
  {
    CIMap(JsMap.Empty(), JsMap.Empty())
  }

  /** `set(key, value)`: files `value` under the folded key and makes `key`
      that identity's display key. A new identity goes to the end of the
      order; an existing one keeps its place. */
  function Set<V>(m: CIMap<V>, key: string, v: V): (r: CIMap<V>)
    requires Valid(m)
    ensures Valid(r)
    ensures Get(r, key) == Some(v)
    ensures forall k :: Fold(k) != Fold(key) ==> Get(r, k) == Get(m, k)
    ensures Size(r) == if Has(m, key) then Size(m) else Size(m) + 1
  {
    var f := Fold(key);
    FoldIdempotent(key);
    var r := CIMap(JsMap.Put(m.keysMap, f, key), JsMap.Put(m.store, f, v));
    assert Valid(r);
    r
  }

  /** After `set(key, value)` the identity is displayed as `key`; every
      other identity keeps its display key. */
  lemma SetDisplay<V>(m: CIMap<V>, key: string, v: V)
    requires Valid(m)
    ensures DisplayKey(Set(m, key, v), key) == key
    ensures forall k :: Fold(k) != Fold(key) && Has(m, k) ==> DisplayKey(Set(m, key, v), k) == DisplayKey(m, k)
  {
  }

  /** `keys()` after `set(key, value)`: `key` takes the place of the old
      display key of its identity, or is appended for a new identity; nothing
      else moves. */
  lemma SetKeysOrder<V>(m: CIMap<V>, key: string, v: V)
    requires Valid(m)
    ensures Has(m, key) ==> Keys(Set(m, key, v)) == Keys(m)[Position(m, key) := key]
    ensures !Has(m, key) ==> Keys(Set(m, key, v)) == Keys(m) + [key]
  {
    var f := Fold(key);
    assert Set(m, key, v).keysMap == JsMap.Put(m.keysMap, f, key);
    JsMap.PutValues(m.keysMap, f, key);
    if Has(m, key) {
      assert Position(m, key) == JsMap.Position(m.keysMap, f);
    }
  }

  /** The effect of mutating, in place, the object that `get(key)` returned
      for a present identity: the stored value changes, the display key and
      the order do not. */
  function UpdateInPlace<V>(m: CIMap<V>, key: string, v: V): (r: CIMap<V>)
    requires Valid(m) && Has(m, key)
    ensures Valid(r)
    ensures Get(r, key) == Some(v)
    ensures forall k :: Fold(k) != Fold(key) ==> Get(r, k) == Get(m, k)
    ensures r.keysMap == m.keysMap
    ensures Size(r) == Size(m) && Keys(r) == Keys(m)
  {
    CIMap(m.keysMap, JsMap.Put(m.store, Fold(key), v))
  }

  /** Setting two casings of one identity leaves a single entry holding the
      second value and displayed under the second casing. */
  lemma SetTwiceOneEntry<V>(m: CIMap<V>, k1: string, a: V, k2: string, b: V)
    requires Valid(m) && Fold(k1) == Fold(k2)
    ensures Size(Set(Set(m, k1, a), k2, b)) == Size(Set(m, k1, a))
    ensures Get(Set(Set(m, k1, a), k2, b), k1) == Some(b)
    ensures DisplayKey(Set(Set(m, k1, a), k2, b), k1) == k2
  {
    SetDisplay(Set(m, k1, a), k2, b);
  }

  /** `delete(key)`: removes the identity from both maps, whatever casing is
      used, and reports whether it was there. */
  function Delete<V>(m: CIMap<V>, key: string): (r: (CIMap<V>, bool))
    requires Valid(m)
    ensures Valid(r.0)
    ensures r.1 == Has(m, key)
    ensures !Has(r.0, key)
    ensures forall k :: Fold(k) != Fold(key) ==> Get(r.0, k) == Get(m, k)
    ensures Size(r.0) == if Has(m, key) then Size(m) - 1 else Size(m)
    ensures !Has(m, key) ==> r.0 == m
  {
    var f := Fold(key);
    var (keysMap, _) := JsMap.Remove(m.keysMap, f);
    var (store, existed) := JsMap.Remove(m.store, f);
    (CIMap(keysMap, store), existed)
  }

  /** What `keys()` shows after `delete(key)`: the identity's display key
      leaves its place and every other identity keeps its display key and
      relative order. */
  lemma DeleteDisplay<V>(m: CIMap<V>, key: string)
    requires Valid(m)
    ensures forall k :: Fold(k) != Fold(key) && Has(m, k) ==> DisplayKey(Delete(m, key).0, k) == DisplayKey(m, k)
    ensures Has(m, key) ==> Keys(Delete(m, key).0) == Keys(m)[..Position(m, key)] + Keys(m)[Position(m, key) + 1..]
  {
    var f := Fold(key);
    assert Delete(m, key).0.keysMap == JsMap.Remove(m.keysMap, f).0;
    if Has(m, key) {
      JsMap.RemoveValues(m.keysMap, f);
      assert Position(m, key) == JsMap.Position(m.keysMap, f);
    }
  }

  /** `clear()`: empties the value store and the display map. */
  function Clear<V>(m: CIMap<V>): (r: CIMap<V>)
    requires Valid(m)
    ensures Valid(r) && Size(r) == 0
    ensures Keys(r) == [] && Values(r) == []
    ensures forall k :: !Has(r, k)
  {
    Empty()
  }

  /** `entries()`: walks the display map and the value store side by side for
      `size` steps, pairing each display key with the value filed under its
      identity. */
  method Entries<V>(m: CIMap<V>) returns (es: seq<(string, V)>)
    requires Valid(m)
    ensures |es| == Size(m)
    ensures forall i :: 0 <= i < |es| ==> es[i].0 == Keys(m)[i] && Get(m, es[i].0) == Some(es[i].1)
  {
    var keys := JsMap.Values(m.keysMap);
    var values := JsMap.Values(m.store);
    es := [];
    var i := 0;
    while i < Size(m)
      invariant 0 <= i <= Size(m)
      invariant |es| == i
      invariant forall j :: 0 <= j < i ==> es[j] == (keys[j], values[j])
    {
      es := es + [(keys[i], values[i])];
      i := i + 1;
    }
    assert forall j :: 0 <= j < |es| ==> Get(m, Keys(m)[j]) == Some(values[j]);
  }

  /** Applies `set` to each pair in turn. */
  function SetAll<V>(m: CIMap<V>, items: seq<(string, V)>): (r: CIMap<V>)
    requires Valid(m)
    ensures Valid(r)
  {
    if items == [] then m
    else Set(SetAll(m, items[..|items| - 1]), items[|items| - 1].0, items[|items| - 1].1)
  }

  /** The constructor: an absent iterable gives the empty map, otherwise
      every pair is `set` in order. */
  function FromIterable<V>(iterable: Option<seq<(string, V)>>): (r: CIMap<V>)
    ensures Valid(r)
  {
    match iterable
    case None => Empty()
    case Some(items) => SetAll(Empty(), items)
  }

  /** The folded form of every key of a list of pairs. */
  function FoldedKeys<V>(items: seq<(string, V)>): (r: seq<string>)
    ensures |r| == |items|
    ensures forall i :: 0 <= i < |items| ==> r[i] == Fold(items[i].0)
  {
    seq(|items|, i requires 0 <= i < |items| => Fold(items[i].0))
  }

  /** The constructor keeps one identity per distinct folded key, ordered by
      each identity's first appearance among the pairs. */
  lemma {:induction false} ConstructorOrder<V>(items: seq<(string, V)>)
    ensures Size(FromIterable(Some(items))) == |Dedup(FoldedKeys(items))|
    ensures forall i :: 0 <= i < Size(FromIterable(Some(items))) ==>
      Fold(Keys(FromIterable(Some(items)))[i]) == Dedup(FoldedKeys(items))[i]
  {
    SetAllOrder(items);
  }

  lemma {:induction false} SetAllOrder<V>(items: seq<(string, V)>)
    ensures SetAll(Empty(), items).store.order == Dedup(FoldedKeys(items))
  {
    if items != [] {
      var init := items[..|items| - 1];
      var last := items[|items| - 1];
      var m := SetAll(Empty(), init);
      var f := Fold(last.0);
      SetAllOrder(init);
      assert SetAll(Empty(), items).store == JsMap.Put(m.store, f, last.1);
      assert f in m.store.entries <==> f in Dedup(FoldedKeys(init));
      FoldedKeysSnoc(items);
    }
  }

  lemma FoldedKeysSnoc<V>(items: seq<(string, V)>)
    requires items != []
    ensures FoldedKeys(items) == FoldedKeys(items[..|items| - 1]) + [Fold(items[|items| - 1].0)]
  {
    var a := FoldedKeys(items);
    var b := FoldedKeys(items[..|items| - 1]) + [Fold(items[|items| - 1].0)];
    forall i | 0 <= i < |a|
      ensures a[i] == b[i]
    {
      if i < |items| - 1 {
        assert items[..|items| - 1][i] == items[i];
      }
    }
  }

  /** One step of a history of calls on the map. */
  datatype MapOp<V> = SetOp(key: string, value: V) | DeleteOp(key: string) | ClearOp

  function Apply<V>(m: CIMap<V>, op: MapOp<V>): (r: CIMap<V>)
    requires Valid(m)
    ensures Valid(r)
  {
    match op
    case SetOp(k, v) => Set(m, k, v)
    case DeleteOp(k) => Delete(m, k).0
    case ClearOp => Clear(m)
  }

  /** The map a fresh `CaseInsensitiveMap` holds after the calls `ops`. */
  function Replay<V>(ops: seq<MapOp<V>>): (r: CIMap<V>)
    ensures Valid(r)
  {
    if ops == [] then Empty() else Apply(Replay(ops[..|ops| - 1]), ops[|ops| - 1])
  }

  /** Reference reading of a history, independent of the representation: the
      latest `set` of identity `f` (its key and value), provided no `delete`
      of that identity and no `clear` came after it. */
  function LatestWrite<V>(ops: seq<MapOp<V>>, f: string): Option<(string, V)>
  {
    if ops == [] then None
    else
      var op := ops[|ops| - 1];
      match op
      case SetOp(k, v) => if Fold(k) == f then Some((k, v)) else LatestWrite(ops[..|ops| - 1], f)
      case DeleteOp(k) => if Fold(k) == f then None else LatestWrite(ops[..|ops| - 1], f)
      case ClearOp => None
  }

  /** After any history of calls: `has(k)` holds exactly when some casing of
      `k` was set and not deleted or cleared since; `get(k)` returns the value
      of that latest `set`; and `keys()` shows that identity under the key
      passed to that latest `set`. */
  lemma {:induction false} ReplayMatchesHistory<V>(ops: seq<MapOp<V>>, k: string)
    ensures Has(Replay(ops), k) <==> LatestWrite(ops, Fold(k)).Some?
    ensures Has(Replay(ops), k) ==> Get(Replay(ops), k) == Some(LatestWrite(ops, Fold(k)).value.1)
    ensures Has(Replay(ops), k) ==> DisplayKey(Replay(ops), k) == LatestWrite(ops, Fold(k)).value.0
  {
    if ops != [] {
      var init := ops[..|ops| - 1];
      ReplayMatchesHistory(init, k);
      match ops[|ops| - 1]
      case SetOp(key, v) =>
        SetDisplay(Replay(init), key, v);
        if Fold(key) == Fold(k) {
          assert DisplayKey(Replay(ops), k) == DisplayKey(Replay(ops), key);
        }
      case DeleteOp(key) =>
        DeleteDisplay(Replay(init), key);
      case ClearOp =>
    }
  }
}
