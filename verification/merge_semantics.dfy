/** What a whole merge computes. Feeding (name, member) pairs to a fresh
    `PackageController` leaves, for every category, the set of trimmed
    members accepted under any casing of its name, collapsed to `{"*"}` when
    the wildcard is among them. Only the display casing of a category
    depends on the order of the pairs; its members do not. */
module MergeSemantics {
  import opened Wrappers
  import opened JsStrings
  import CI = CaseInsensitiveMap
  import PC = PackageController
  import Manifest

  /** A pair `addMemberItem` accepts into the category of `n`. */
  predicate AcceptedFor(p: Manifest.Pair, n: string) {
    PC.Present(p.0) && PC.Present(p.1) && Fold(Trim(p.0.value)) == Fold(n)
  }

  /** The trimmed members of the accepted pairs for the category of `n`. */
  function Admitted(pairs: seq<Manifest.Pair>, n: string): set<string> {
    if pairs == [] then {}
    else
      var last := pairs[|pairs| - 1];
      Admitted(pairs[..|pairs| - 1], n) + (if AcceptedFor(last, n) then {Trim(last.1.value)} else {})
  }

  /** A pair `p` contributes member `x` to the category of `n`. */
  predicate Yields(p: Manifest.Pair, n: string, x: string) {
    AcceptedFor(p, n) && Trim(p.1.value) == x
  }

  /** Every admitted member comes from some pair. */
  lemma {:induction false} AdmittedHasSource(pairs: seq<Manifest.Pair>, n: string, x: string)
    requires x in Admitted(pairs, n)
    ensures exists i :: 0 <= i < |pairs| && Yields(pairs[i], n, x)
  {
    var init := pairs[..|pairs| - 1];
    if x in Admitted(init, n) {
      AdmittedHasSource(init, n, x);
      var i :| 0 <= i < |init| && Yields(init[i], n, x);
      assert pairs[i] == init[i];
    } else {
      assert Yields(pairs[|pairs| - 1], n, x);
    }
  }

  /** Every pair's accepted member is admitted. */
  lemma {:induction false} SourceIsAdmitted(pairs: seq<Manifest.Pair>, n: string, x: string, i: nat)
    requires i < |pairs| && Yields(pairs[i], n, x)
    ensures x in Admitted(pairs, n)
  {
    var init := pairs[..|pairs| - 1];
    if i < |init| {
      assert init[i] == pairs[i];
      SourceIsAdmitted(init, n, x, i);
    }
  }

  /** `Admitted` collects exactly the trimmed members of the accepted pairs,
      whatever their order. */
  lemma AdmittedIsSetOfAccepted(pairs: seq<Manifest.Pair>, n: string, x: string)
    ensures x in Admitted(pairs, n) <==> exists p :: p in pairs && AcceptedFor(p, n) && Trim(p.1.value) == x
  {
    if x in Admitted(pairs, n) {
      AdmittedHasSource(pairs, n, x);
      var i :| 0 <= i < |pairs| && Yields(pairs[i], n, x);
      assert pairs[i] in pairs;
    }
    if exists p :: p in pairs && AcceptedFor(p, n) && Trim(p.1.value) == x {
      var p :| p in pairs && AcceptedFor(p, n) && Trim(p.1.value) == x;
      var i :| 0 <= i < |pairs| && pairs[i] == p;
      SourceIsAdmitted(pairs, n, x, i);
    }
  }

  /** Absorbing before or after adding one more member is the same. */
  lemma AbsorbAdd(s: set<string>, x: string)
    ensures PC.Absorb(PC.Absorb(s) + {x}) == PC.Absorb(s + {x})
  {
  }

  /** What the category of `n` holds, given the members admitted so far. */
  ghost predicate Holds(m: CI.CIMap<seq<string>>, n: string, a: set<string>) {
    && (CI.Has(m, n) <==> a != {})
    && (CI.Has(m, n) ==> PC.Elems(CI.Get(m, n).value) == PC.Absorb(a))
  }

  /** A category that received member `x` holds the admitted members plus `x`. */
  lemma HoldsAfterAdd(m: CI.CIMap<seq<string>>, r: CI.CIMap<seq<string>>, n: string, a: set<string>, x: string)
    requires Holds(m, n, a) && CI.Has(r, n)
    requires PC.Elems(CI.Get(r, n).value) == PC.Absorb((if CI.Has(m, n) then PC.Elems(CI.Get(m, n).value) else {}) + {x})
    ensures Holds(r, n, a + {x})
  {
    AbsorbAdd(a, x);
  }

  /** One more pair moves the category of `n` from holding `a` to holding
      `a` plus that pair's contribution. */
  lemma MergeStep(prev: PC.Controller, last: Manifest.Pair, n: string, a: set<string>)
    requires PC.Invariant(prev) && Holds(prev.members, n, a)
    ensures Holds(PC.AddMemberItem(prev, last.0, last.1).members, n,
                  a + (if AcceptedFor(last, n) then {Trim(last.1.value)} else {}))
  {
    var r := PC.AddMemberItem(prev, last.0, last.1).members;
    if PC.Present(last.0) && PC.Present(last.1) {
      var nm := Trim(last.0.value);
      var x := Trim(last.1.value);
      assert CI.Has(r, nm) && PC.Elems(CI.Get(r, nm).value) == PC.Absorb(PC.OldElems(prev, nm) + {x})
          && forall k :: Fold(k) != Fold(nm) ==> CI.Get(r, k) == CI.Get(prev.members, k) by {
        PC.AddEffect(prev, last.0, last.1);
      }
      if Fold(nm) == Fold(n) {
        assert CI.Get(r, n) == CI.Get(r, nm) && CI.Get(prev.members, n) == CI.Get(prev.members, nm);
        HoldsAfterAdd(prev.members, r, n, a, x);
      } else {
        assert CI.Get(r, n) == CI.Get(prev.members, n);
      }
    }
  }

  /** After a merge of `pairs`, a category exists exactly when some pair
      was accepted into it, and holds the absorbed set of admitted members. */
  lemma {:induction false} MergedMembers(version: string, pairs: seq<Manifest.Pair>, n: string)
    ensures CI.Has(PC.AddAll(PC.New(version), pairs).members, n) <==> Admitted(pairs, n) != {}
    ensures CI.Has(PC.AddAll(PC.New(version), pairs).members, n) ==>
      PC.Elems(CI.Get(PC.AddAll(PC.New(version), pairs).members, n).value) == PC.Absorb(Admitted(pairs, n))
  {
    var c0 := PC.New(version);
    if pairs != [] {
      var init := pairs[..|pairs| - 1];
      var last := pairs[|pairs| - 1];
      MergedMembers(version, init, n);
      var prev := PC.AddAll(c0, init);
      assert PC.AddAll(c0, pairs) == PC.AddMemberItem(prev, last.0, last.1);
      MergeStep(prev, last, n, Admitted(init, n));
      assert Admitted(pairs, n) == Admitted(init, n) + (if AcceptedFor(last, n) then {Trim(last.1.value)} else {});
    }
  }

  /** Merging the same pairs in any order, or with repetitions, yields the
      same categories with the same members. */
  lemma MergeIsOrderFree(version: string, a: seq<Manifest.Pair>, b: seq<Manifest.Pair>, n: string)
    requires forall p :: p in a <==> p in b
    ensures CI.Has(PC.AddAll(PC.New(version), a).members, n) <==> CI.Has(PC.AddAll(PC.New(version), b).members, n)
    ensures CI.Has(PC.AddAll(PC.New(version), a).members, n) ==>
      PC.Elems(CI.Get(PC.AddAll(PC.New(version), a).members, n).value)
        == PC.Elems(CI.Get(PC.AddAll(PC.New(version), b).members, n).value)
  {
    forall x
      ensures x in Admitted(a, n) <==> x in Admitted(b, n)
    {
      AdmittedIsSetOfAccepted(a, n, x);
      AdmittedIsSetOfAccepted(b, n, x);
    }
    assert Admitted(a, n) == Admitted(b, n);
    MergedMembers(version, a, n);
    MergedMembers(version, b, n);
  }
}
