/** JavaScript's built-in `Map`: a finite map that remembers the order in
    which keys were first inserted. Setting an existing key keeps its place;
    deleting a key removes it from the order. Keys are strings, the only
    key type the modelled code uses. */
module JsMap {
  import opened Ordering

  datatype OrderedMap<V> = OrderedMap(order: seq<string>, entries: map<string, V>)

  /** The order lists every key of the map exactly once. */
  ghost predicate Valid<V>(m: OrderedMap<V>) {
    && Distinct(m.order)
    && (forall k :: k in m.order <==> k in m.entries)
  }

  function Empty<V>(): (r: OrderedMap<V>)
    ensures Valid(r) && |r.order| == 0
  {
    OrderedMap([], map[])
  }

  /** `Map.prototype.set`. */
  function Put<V>(m: OrderedMap<V>, k: string, v: V): (r: OrderedMap<V>)
    requires Valid(m)
    ensures Valid(r)
    ensures r.entries == m.entries[k := v]
    ensures r.order == if k in m.entries then m.order else m.order + [k]
  {
    if k in m.entries then OrderedMap(m.order, m.entries[k := v])
    else OrderedMap(m.order + [k], m.entries[k := v])
  }

  /** Position of a present key in the insertion order. */
  function Position<V>(m: OrderedMap<V>, k: string): (i: nat)
    requires Valid(m) && k in m.entries
    ensures i < |m.order| && m.order[i] == k
  {
    PositionIn(m.order, k)
  }

  function PositionIn(xs: seq<string>, k: string): (i: nat)
    requires k in xs
    ensures i < |xs| && xs[i] == k
  {
    if xs[0] == k then 0 else 1 + PositionIn(xs[1..], k)
  }

  /** `Map.prototype.delete`: the map without `k`, and whether `k` was there. */
  function Remove<V>(m: OrderedMap<V>, k: string): (r: (OrderedMap<V>, bool))
    requires Valid(m)
    ensures Valid(r.0)
    ensures r.1 == (k in m.entries)
    ensures r.0.entries == m.entries - {k}
    ensures k in m.entries ==> r.0.order == m.order[..Position(m, k)] + m.order[Position(m, k) + 1..]
    ensures k !in m.entries ==> r.0.order == m.order
  {
    if k in m.entries then
      var i := Position(m, k);
      var order := m.order[..i] + m.order[i + 1..];
      DropAtFacts(m.order, i);
      (OrderedMap(order, m.entries - {k}), true)
    else
      (m, false)
  }

  /** Dropping the element at `i` from a duplicate-free sequence removes
      exactly that value and keeps the rest duplicate-free. */
  lemma DropAtFacts(xs: seq<string>, i: nat)
    requires Distinct(xs) && i < |xs|
    ensures Distinct(xs[..i] + xs[i + 1..])
    ensures forall x :: x in xs[..i] + xs[i + 1..] <==> x in xs && x != xs[i]
  {
    var ys := xs[..i] + xs[i + 1..];
    assert forall j :: 0 <= j < |ys| ==> ys[j] == xs[if j < i then j else j + 1];
    forall x | x in xs && x != xs[i]
      ensures x in ys
    {
      var j :| 0 <= j < |xs| && xs[j] == x;
      assert ys[if j < i then j else j - 1] == x;
    }
  }

  /** `Map.prototype.values()` (or `keys()`), in insertion order. */
  function Values<V>(m: OrderedMap<V>): (r: seq<V>)
    requires Valid(m)
    ensures |r| == |m.order|
    ensures forall i :: 0 <= i < |r| ==> r[i] == m.entries[m.order[i]]
  {
    seq(|m.order|, i requires 0 <= i < |m.order| => m.entries[m.order[i]])
  }

  /** `set` overwrites an existing key's value in place and appends a new
      key's value. */
  lemma PutValues<V>(m: OrderedMap<V>, k: string, v: V)
    requires Valid(m)
    ensures k in m.entries ==> Values(Put(m, k, v)) == Values(m)[Position(m, k) := v]
    ensures k !in m.entries ==> Values(Put(m, k, v)) == Values(m) + [v]
  {
    var r := Put(m, k, v);
    if k in m.entries {
      var p := Position(m, k);
      forall i | 0 <= i < |m.order|
        ensures Values(r)[i] == Values(m)[p := v][i]
      {
        if i != p {
          assert m.order[i] != m.order[p];
        }
      }
    } else {
      forall i | 0 <= i < |m.order|
        ensures Values(r)[i] == Values(m)[i]
      {
        assert m.order[i] in m.entries;
      }
    }
  }

  /** `delete` takes the key's value out of its place; the others close up
      in order. */
  lemma RemoveValues<V>(m: OrderedMap<V>, k: string)
    requires Valid(m) && k in m.entries
    ensures Values(Remove(m, k).0) == Values(m)[..Position(m, k)] + Values(m)[Position(m, k) + 1..]
  {
    var r := Remove(m, k).0;
    var p := Position(m, k);
    var vs := Values(m)[..p] + Values(m)[p + 1..];
    forall i | 0 <= i < |vs|
      ensures Values(r)[i] == vs[i]
    {
      if i < p {
        assert r.order[i] == m.order[i];
      } else {
        assert r.order[i] == m.order[i + 1];
      }
    }
  }
}
