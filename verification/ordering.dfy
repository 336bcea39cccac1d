/** Ordinal string order (comparison by code unit, a shorter prefix first),
    the order of JavaScript's default `Array.prototype.sort` and, under the
    model's assumption of a locale-neutral collation, of `localeCompare`.
    Sorting by a key, and `[...new Set(xs)]` de-duplication. */
module Ordering {

  /** `a` sorts no later than `b`. */
  predicate Below(a: string, b: string)
    decreases |a|
  {
    |a| == 0 || (|b| > 0 && (a[0] < b[0] || (a[0] == b[0] && Below(a[1..], b[1..]))))
  }

  lemma BelowReflexive(a: string)
    ensures Below(a, a)
    decreases |a|
  {
    if |a| > 0 {
      BelowReflexive(a[1..]);
    }
  }

  lemma BelowTotal(a: string, b: string)
    ensures Below(a, b) || Below(b, a)
    decreases |a|
  {
    if |a| > 0 && |b| > 0 && a[0] == b[0] {
      BelowTotal(a[1..], b[1..]);
    }
  }

  lemma BelowAntisymmetric(a: string, b: string)
    requires Below(a, b) && Below(b, a)
    ensures a == b
    decreases |a|
  {
    if |a| > 0 {
      BelowAntisymmetric(a[1..], b[1..]);
      assert a == [a[0]] + a[1..];
      assert b == [b[0]] + b[1..];
    }
  }

  lemma BelowTransitive(a: string, b: string, c: string)
    requires Below(a, b) && Below(b, c)
    ensures Below(a, c)
    decreases |a|
  {
    if |a| > 0 && a[0] == b[0] && b[0] == c[0] {
      BelowTransitive(a[1..], b[1..], c[1..]);
    }
  }

  /** Every earlier element's key sorts no later than every later one's. */
  ghost predicate SortedBy(xs: seq<string>, key: string -> string) {
    forall i, j :: 0 <= i < j < |xs| ==> Below(key(xs[i]), key(xs[j]))
  }

  ghost predicate Sorted(xs: seq<string>) {
    forall i, j :: 0 <= i < j < |xs| ==> Below(xs[i], xs[j])
  }

  /** The key of the default `sort()`: the string itself. */
  function Identity(s: string): string {
    s
  }

  ghost predicate Distinct<T>(xs: seq<T>) {
    forall i, j :: 0 <= i < j < |xs| ==> xs[i] != xs[j]
  }

  /** Places `x` before the first element whose key sorts after its own. */
  function Insert(x: string, xs: seq<string>, key: string -> string): (r: seq<string>)
    requires SortedBy(xs, key)
    ensures SortedBy(r, key)
    ensures multiset(r) == multiset(xs) + multiset{x}
  {
    if xs == [] then [x]
    else if Below(key(x), key(xs[0])) then
      assert forall j :: 0 < j < |xs| ==> Below(key(x), key(xs[j])) by {
        forall j | 0 < j < |xs| {
          BelowTransitive(key(x), key(xs[0]), key(xs[j]));
        }
      }
      [x] + xs
    else
      var rest := Insert(x, xs[1..], key);
      assert forall j :: 0 <= j < |rest| ==> Below(key(xs[0]), key(rest[j])) by {
        BelowTotal(key(x), key(xs[0]));
        assert forall j :: 0 <= j < |xs[1..]| ==> Below(key(xs[0]), key(xs[1..][j]));
        LowerBoundKept(rest, xs[1..], x, key, key(xs[0]));
      }
      assert xs == [xs[0]] + xs[1..];
      [xs[0]] + rest
  }

  /** A lower bound of every key of `xs` and of `x` bounds every key of a
      permutation of `xs` plus `x`. */
  lemma LowerBoundKept(r: seq<string>, xs: seq<string>, x: string, key: string -> string, lo: string)
    requires multiset(r) == multiset(xs) + multiset{x}
    requires Below(lo, key(x)) && forall j :: 0 <= j < |xs| ==> Below(lo, key(xs[j]))
    ensures forall j :: 0 <= j < |r| ==> Below(lo, key(r[j]))
  {
    forall j | 0 <= j < |r|
      ensures Below(lo, key(r[j]))
    {
      assert r[j] in multiset(r);
      if r[j] != x {
        assert r[j] in multiset(xs);
        var i :| 0 <= i < |xs| && xs[i] == r[j];
      }
    }
  }

  /** Inserting a new value into a duplicate-free sequence keeps it free of
      duplicates. */
  lemma {:induction false} InsertDistinct(x: string, xs: seq<string>, key: string -> string)
    requires SortedBy(xs, key) && Distinct(xs) && x !in xs
    ensures Distinct(Insert(x, xs, key))
  {
    if xs != [] && !Below(key(x), key(xs[0])) {
      InsertDistinct(x, xs[1..], key);
      var rest := Insert(x, xs[1..], key);
      assert xs[0] !in multiset(rest);
    }
  }

  /** Insertion sort of `xs` by `key`: a permutation of `xs`, sorted by key. */
  function SortBy(xs: seq<string>, key: string -> string): (r: seq<string>)
    ensures SortedBy(r, key)
    ensures multiset(r) == multiset(xs)
  {
    if xs == [] then []
    else
      var init := xs[..|xs| - 1];
      assert xs == init + [xs[|xs| - 1]];
      var sorted := SortBy(init, key);
      Insert(xs[|xs| - 1], sorted, key)
  }

  /** Sorting a duplicate-free sequence keeps it duplicate-free. */
  lemma {:induction false} SortByDistinct(xs: seq<string>, key: string -> string)
    requires Distinct(xs)
    ensures Distinct(SortBy(xs, key))
  {
    if xs != [] {
      var init := xs[..|xs| - 1];
      var last := xs[|xs| - 1];
      assert Distinct(init);
      assert last !in init;
      SortByDistinct(init, key);
      assert last !in multiset(SortBy(init, key));
      InsertDistinct(last, SortBy(init, key), key);
    }
  }

  /** `[...new Set(xs)]`: the first occurrence of each value, in order. */
  function Dedup(xs: seq<string>): (r: seq<string>)
    ensures Distinct(r)
    ensures forall x :: x in r <==> x in xs
    ensures Sorted(xs) ==> Sorted(r)
  {
    if xs == [] then []
    else
      var init := xs[..|xs| - 1];
      var last := xs[|xs| - 1];
      var rest := Dedup(init);
      assert forall x :: x in xs <==> x in init || x == last by {
        assert xs == init + [last];
      }
      assert Sorted(xs) ==> Sorted(init);
      if last in rest then rest
      else
        assert Sorted(xs) ==> forall k :: 0 <= k < |rest| ==> Below(rest[k], last) by {
          if Sorted(xs) {
            forall k | 0 <= k < |rest|
              ensures Below(rest[k], last)
            {
              assert rest[k] in init;
              var i :| 0 <= i < |init| && init[i] == rest[k];
              assert xs[i] == rest[k];
            }
          }
        }
        rest + [last]
  }

  /** A sorted duplicate-free sequence is strictly increasing. */
  lemma SortedDistinctIsStrict(xs: seq<string>, i: int, j: int)
    requires Sorted(xs) && Distinct(xs)
    requires 0 <= i < j < |xs|
    ensures Below(xs[i], xs[j]) && !Below(xs[j], xs[i])
  {
    if Below(xs[j], xs[i]) {
      BelowAntisymmetric(xs[i], xs[j]);
    }
  }

  /** Two sorted duplicate-free sequences with the same elements are equal:
      sorting a set has exactly one outcome. */
  lemma {:induction false} SortedSetUnique(xs: seq<string>, ys: seq<string>)
    requires Sorted(xs) && Distinct(xs) && Sorted(ys) && Distinct(ys)
    requires forall x :: x in xs <==> x in ys
    ensures xs == ys
    decreases |xs|
  {
    assert |xs| == 0 <==> |ys| == 0 by {
      if |xs| > 0 {
        assert xs[0] in ys;
      }
      if |ys| > 0 {
        assert ys[0] in xs;
      }
    }
    if xs != [] {
      assert xs[0] in ys && ys[0] in xs;
      if xs[0] != ys[0] {
        var i :| 0 <= i < |ys| && ys[i] == xs[0];
        var j :| 0 <= j < |xs| && xs[j] == ys[0];
        assert i > 0 && j > 0;
        SortedDistinctIsStrict(ys, 0, i);
        SortedDistinctIsStrict(xs, 0, j);
        assert false;
      }
      forall x
        ensures x in xs[1..] <==> x in ys[1..]
      {
        if x in xs[1..] {
          var k :| 0 <= k < |xs| - 1 && xs[1..][k] == x;
          assert xs[k + 1] == x && x != xs[0];
          assert x in ys;
          var m :| 0 <= m < |ys| && ys[m] == x;
          assert m != 0 && ys[1..][m - 1] == x;
        }
        if x in ys[1..] {
          var k :| 0 <= k < |ys| - 1 && ys[1..][k] == x;
          assert ys[k + 1] == x && x != ys[0];
          assert x in xs;
          var m :| 0 <= m < |xs| && xs[m] == x;
          assert m != 0 && xs[1..][m - 1] == x;
        }
      }
      SortedSetUnique(xs[1..], ys[1..]);
      assert xs == [xs[0]] + xs[1..];
      assert ys == [ys[0]] + ys[1..];
    }
  }
}
