/** `PackageController` (src/helpers/package.ts): accumulates (category,
    member) pairs from manifests into a `CaseInsensitiveMap` of member sets
    and renders the merged `<types>` list. A JavaScript `Set<string>` is a
    duplicate-free sequence in insertion order. */
module PackageController {
  import opened Wrappers
  import opened JsStrings
  import opened Ordering
  import CI = CaseInsensitiveMap
  import Manifest

  const Wildcard: string := "*"

  /** One rendered `<types>` block. */
  datatype PackageType = PackageType(members: seq<string>, name: string)

  /** The `file` object handed to the XML encoder: the fixed XML declaration
      is not represented; `version` is the configured API version. */
  datatype ManifestFile = ManifestFile(types: seq<PackageType>, version: string)

  datatype Controller = Controller(file: ManifestFile, members: CI.CIMap<seq<string>>)

  /** A fresh controller for the given API version. */
  function New(version: string): (c: Controller)
    ensures CI.Valid(c.members) && CI.Size(c.members) == 0
    ensures c.file == ManifestFile([], version)
  {
    Controller(ManifestFile([], version), CI.Empty())
  }

  /** A fresh controller has no category, so it trivially keeps the
      member-set shape. */
  lemma NewIsEmpty(version: string)
    ensures Invariant(New(version))
    ensures forall k :: !CI.Has(New(version).members, k)
  {
  }

  /** The elements of a member set. */
  function Elems(s: seq<string>): set<string> {
    set x | x in s
  }

  /** The wildcard absorbs every other member. */
  function Absorb(s: set<string>): set<string> {
    if Wildcard in s then {Wildcard} else s
  }

  /** `set.add(x)` on an insertion-ordered set. */
  function SetAdd(s: seq<string>, x: string): (r: seq<string>)
    ensures Elems(r) == Elems(s) + {x}
    ensures Distinct(s) ==> Distinct(r)
    ensures s <= r
  {
    if x in s then s else s + [x]
  }

  /** The shape every stored member set keeps: non-empty, free of
      duplicates, and exactly `["*"]` once it holds the wildcard. */
  ghost predicate MemberSetOk(s: seq<string>) {
    |s| > 0 && Distinct(s) && (Wildcard in s ==> s == [Wildcard])
  }

  ghost predicate Invariant(c: Controller) {
    && CI.Valid(c.members)
    && forall k :: CI.Has(c.members, k) ==> MemberSetOk(CI.Get(c.members, k).value)
  }

  /** JavaScript truthiness of a string argument: defined and non-empty. */
  predicate Present(s: Option<string>) {
    s.Some? && |s.value| > 0
  }

  /** `if (!members.has(n)) members.set(n, new Set())`. */
  function EnsureCategory(m: CI.CIMap<seq<string>>, n: string): (r: CI.CIMap<seq<string>>)
    requires CI.Valid(m)
    ensures CI.Valid(r) && CI.Has(r, n)
    ensures CI.Has(m, n) ==> r == m
    ensures !CI.Has(m, n) ==> CI.Get(r, n) == Some([])
    ensures forall k :: Fold(k) != Fold(n) ==> CI.Get(r, k) == CI.Get(m, k)
  {
    if CI.Has(m, n) then m else CI.Set(m, n, [])
  }

  /** `addMemberItem(metadataName, metadataItem)`. The emptiness guard looks
      at the raw arguments; both are trimmed only after it. A new category is
      first `set` to an empty set; a category holding the wildcard is left
      alone; a trimmed `"*"` replaces the set through a second `set` (which
      also makes this casing the display key); any other item is added to
      the stored set in place. */
  function AddMemberItem(c: Controller, name: Option<string>, item: Option<string>): (r: Controller)
    requires CI.Valid(c.members)
    ensures CI.Valid(r.members)
    ensures r.file == c.file
    ensures !(Present(name) && Present(item)) ==> r == c
  {
    if !(Present(name) && Present(item)) then c
    else
      var n := Trim(name.value);
      var i := Trim(item.value);
      var m := EnsureCategory(c.members, n);
      var member := CI.Get(m, n).value;
      if Wildcard in member then c.(members := m)
      else if i == Wildcard then c.(members := CI.Set(m, n, [Wildcard]))
      else c.(members := CI.UpdateInPlace(m, n, SetAdd(member, i)))
  }

  /** The set stored under the trimmed name after an accepted insert. */
  function StoredAfter(before: seq<string>, i: string): seq<string> {
    if Wildcard in before then before
    else if i == Wildcard then [Wildcard]
    else SetAdd(before, i)
  }

  /** An accepted insert touches only the category found under the trimmed
      name, which then holds `StoredAfter` of its previous set. */
  lemma AddStep(c: Controller, name: Option<string>, item: Option<string>)
    requires CI.Valid(c.members) && Present(name) && Present(item)
    ensures CI.Get(AddMemberItem(c, name, item).members, Trim(name.value))
      == Some(StoredAfter(CI.Get(c.members, Trim(name.value)).GetOr([]), Trim(item.value)))
    ensures forall k :: Fold(k) != Fold(Trim(name.value)) ==>
      CI.Get(AddMemberItem(c, name, item).members, k) == CI.Get(c.members, k)
  {
  }

  /** Every stored member set stays non-empty and duplicate-free, and a set
      holding the wildcard stays exactly `["*"]`. */
  lemma AddPreservesInvariant(c: Controller, name: Option<string>, item: Option<string>)
    requires Invariant(c)
    ensures Invariant(AddMemberItem(c, name, item))
  {
    if Present(name) && Present(item) {
      var n := Trim(name.value);
      var r := AddMemberItem(c, name, item).members;
      var before := CI.Get(c.members, n).GetOr([]);
      var after := StoredAfter(before, Trim(item.value));
      assert CI.Get(r, n) == Some(after) && forall k :: Fold(k) != Fold(n) ==> CI.Get(r, k) == CI.Get(c.members, k) by {
        AddStep(c, name, item);
      }
      assert MemberSetOk(after) by {
        StoredShape(c, n);
        StoredAfterOk(before, Trim(item.value));
      }
      InvariantFromParts(c.members, r, n);
    }
  }

  /** The set stored after an insert keeps the member-set shape. */
  lemma StoredAfterOk(before: seq<string>, i: string)
    requires before == [] || MemberSetOk(before)
    ensures MemberSetOk(StoredAfter(before, i))
  {
    if Wildcard !in before && i != Wildcard {
      assert Wildcard !in SetAdd(before, i);
    }
  }

  /** A change confined to one identity keeps the invariant if the new set
      stored under that identity keeps it. */
  lemma InvariantFromParts(m: CI.CIMap<seq<string>>, r: CI.CIMap<seq<string>>, n: string)
    requires CI.Valid(m) && CI.Valid(r)
    requires forall k :: CI.Has(m, k) ==> MemberSetOk(CI.Get(m, k).value)
    requires CI.Has(r, n) && MemberSetOk(CI.Get(r, n).value)
    requires forall k :: Fold(k) != Fold(n) ==> CI.Get(r, k) == CI.Get(m, k)
    ensures forall k :: CI.Has(r, k) ==> MemberSetOk(CI.Get(r, k).value)
  {
    forall k | CI.Has(r, k)
      ensures MemberSetOk(CI.Get(r, k).value)
    {
      if Fold(k) != Fold(n) {
        assert CI.Get(r, k) == CI.Get(m, k);
      } else {
        assert CI.Get(r, k) == CI.Get(r, n);
      }
    }
  }

  /** The elements stored for a category before an insert, `{}` if absent. */
  function OldElems(c: Controller, n: string): set<string>
    requires CI.Valid(c.members)
  {
    if CI.Has(c.members, n) then Elems(CI.Get(c.members, n).value) else {}
  }

  /** What an accepted insert does, as sets: the category found
      case-insensitively now holds the old members plus the trimmed item,
      absorbed by the wildcard; every other category is untouched. */
  lemma AddEffect(c: Controller, name: Option<string>, item: Option<string>)
    requires Invariant(c) && Present(name) && Present(item)
    ensures CI.Has(AddMemberItem(c, name, item).members, Trim(name.value))
    ensures Elems(CI.Get(AddMemberItem(c, name, item).members, Trim(name.value)).value)
      == Absorb(OldElems(c, Trim(name.value)) + {Trim(item.value)})
    ensures forall k :: Fold(k) != Fold(Trim(name.value)) ==>
      CI.Get(AddMemberItem(c, name, item).members, k) == CI.Get(c.members, k)
  {
    var n := Trim(name.value);
    var r := AddMemberItem(c, name, item).members;
    var before := CI.Get(c.members, n).GetOr([]);
    var after := StoredAfter(before, Trim(item.value));
    assert CI.Get(r, n) == Some(after) && forall k :: Fold(k) != Fold(n) ==> CI.Get(r, k) == CI.Get(c.members, k) by {
      AddStep(c, name, item);
    }
    assert Elems(after) == Absorb(OldElems(c, n) + {Trim(item.value)}) by {
      StoredShape(c, n);
      StoredAfterElems(before, Trim(item.value));
    }
  }

  /** The set stored for a category, `[]` if absent, has the member-set
      shape or is empty. */
  lemma StoredShape(c: Controller, n: string)
    requires Invariant(c)
    ensures var before := CI.Get(c.members, n).GetOr([]);
      (before == [] || MemberSetOk(before))
      && Elems(before) == OldElems(c, n)
  {
  }

  lemma StoredAfterElems(before: seq<string>, i: string)
    requires before == [] || MemberSetOk(before)
    ensures Elems(StoredAfter(before, i)) == Absorb(Elems(before) + {i})
  {
    if Wildcard in before {
      assert Elems(before) == {Wildcard};
    }
  }

  /** Once a category holds the wildcard, no insert into it, under any
      casing and with any item, changes anything. */
  lemma WildcardIsFinal(c: Controller, name: Option<string>, item: Option<string>)
    requires Invariant(c) && Present(name)
    requires CI.Has(c.members, Trim(name.value))
    requires Wildcard in CI.Get(c.members, Trim(name.value)).value
    ensures AddMemberItem(c, name, item) == c
  {
  }

  /** Inserting `"*"` (after trimming) into a category without the wildcard
      replaces its set by `["*"]`, discarding earlier members, and makes the
      trimmed name the display key; other categories are untouched. */
  lemma WildcardReplaces(c: Controller, name: Option<string>, item: Option<string>)
    requires CI.Valid(c.members) && Present(name) && Present(item)
    requires Trim(item.value) == Wildcard
    requires !CI.Has(c.members, Trim(name.value)) || Wildcard !in CI.Get(c.members, Trim(name.value)).value
    ensures CI.Get(AddMemberItem(c, name, item).members, Trim(name.value)) == Some([Wildcard])
    ensures CI.DisplayKey(AddMemberItem(c, name, item).members, Trim(name.value)) == Trim(name.value)
    ensures forall k :: Fold(k) != Fold(Trim(name.value)) ==>
      CI.Get(AddMemberItem(c, name, item).members, k) == CI.Get(c.members, k)
  {
    var n := Trim(name.value);
    var m := if CI.Has(c.members, n) then c.members else CI.Set(c.members, n, []);
    CI.SetDisplay(m, n, [Wildcard]);
  }

  /** Inserting a concrete item into a category without the wildcard adds
      the trimmed item, compared case-sensitively, to the category found
      case-insensitively. An existing category keeps its display key; a new
      one is displayed under the trimmed name. Other categories are untouched. */
  lemma ConcreteInsert(c: Controller, name: Option<string>, item: Option<string>)
    requires CI.Valid(c.members) && Present(name) && Present(item)
    requires Trim(item.value) != Wildcard
    requires !CI.Has(c.members, Trim(name.value)) || Wildcard !in CI.Get(c.members, Trim(name.value)).value
    ensures CI.Get(AddMemberItem(c, name, item).members, Trim(name.value))
      == Some(SetAdd(CI.Get(c.members, Trim(name.value)).GetOr([]), Trim(item.value)))
    ensures CI.Has(c.members, Trim(name.value)) ==>
      CI.DisplayKey(AddMemberItem(c, name, item).members, Trim(name.value)) == CI.DisplayKey(c.members, Trim(name.value))
    ensures !CI.Has(c.members, Trim(name.value)) ==>
      CI.DisplayKey(AddMemberItem(c, name, item).members, Trim(name.value)) == Trim(name.value)
    ensures forall k :: Fold(k) != Fold(Trim(name.value)) ==>
      CI.Get(AddMemberItem(c, name, item).members, k) == CI.Get(c.members, k)
  {
    var n := Trim(name.value);
    if !CI.Has(c.members, n) {
      CI.SetDisplay(c.members, n, []);
    }
  }

  /** The emptiness guard runs before trimming: an item made only of white
      space is accepted and stored as the empty string. */
  lemma BlankItemIsStored(c: Controller, name: Option<string>, item: Option<string>)
    requires CI.Valid(c.members) && Present(name) && Present(item)
    requires AllWhiteSpace(item.value)
    requires !CI.Has(c.members, Trim(name.value)) || Wildcard !in CI.Get(c.members, Trim(name.value)).value
    ensures "" in CI.Get(AddMemberItem(c, name, item).members, Trim(name.value)).value
  {
    TrimSpec(item.value);
    AddStep(c, name, item);
  }

  /** `hasItens`: `[...values()].flat()` does not open `Set` objects, so the
      length counted is the number of categories. */
  function HasItens(c: Controller): (r: bool)
    requires CI.Valid(c.members)
    ensures r <==> CI.Size(c.members) > 0
  {
    |CI.Values(c.members)| > 0
  }

  /** Under the invariant, counting categories and counting members agree:
      there is a category exactly when some category has a member. */
  lemma HasItensCountsMembers(c: Controller)
    requires Invariant(c)
    ensures HasItens(c) <==> exists k :: CI.Has(c.members, k) && |CI.Get(c.members, k).value| > 0
  {
    if HasItens(c) {
      var k := CI.Keys(c.members)[0];
      assert CI.Has(c.members, k);
    }
  }

  /** `membersNames`: the display keys ordered by their lower-case forms. */
  function MembersNames(c: Controller): (r: seq<string>)
    requires CI.Valid(c.members)
    ensures multiset(r) == multiset(CI.Keys(c.members))
    ensures SortedBy(r, Fold)
  {
    SortBy(CI.Keys(c.members), Fold)
  }

  /** The names are strictly increasing by lower-case form: no two names of
      `membersNames` fold to the same key. */
  lemma MembersNamesStrict(c: Controller, i: nat, j: nat)
    requires CI.Valid(c.members)
    requires i < j < |MembersNames(c)|
    ensures Below(Fold(MembersNames(c)[i]), Fold(MembersNames(c)[j]))
    ensures Fold(MembersNames(c)[i]) != Fold(MembersNames(c)[j])
  {
    var names := MembersNames(c);
    var keys := CI.Keys(c.members);
    assert names[i] != names[j] by {
      CI.KeysDistinct(c.members);
      SortByDistinct(keys, Fold);
    }
    assert names[i] in keys && names[j] in keys by {
      assert names[i] in multiset(names) && names[j] in multiset(names);
    }
    if Fold(names[i]) == Fold(names[j]) {
      CI.KeyFoldsUnique(c.members, names[i], names[j]);
    }
  }

  /** One category's rendered member list: the default code-unit `sort()`,
      collapsed to `["*"]` when the wildcard is among them. */
  function RenderMembers(items: seq<string>): (r: seq<string>)
    ensures |items| > 0 ==> |r| > 0
    ensures Wildcard in items ==> r == [Wildcard]
    ensures Wildcard !in items ==> Sorted(r) && multiset(r) == multiset(items)
  {
    var sorted := SortBy(items, Identity);
    assert Wildcard in items <==> Wildcard in multiset(sorted);
    assert SortedBy(sorted, Identity) ==> Sorted(sorted);
    if Wildcard in sorted then [Wildcard] else sorted
  }

  /** The `<types>` blocks rendered for `names`, in order, skipping a
      category whose set is empty. */
  function TypesFor(m: CI.CIMap<seq<string>>, names: seq<string>): (r: seq<PackageType>)
    requires CI.Valid(m)
    requires forall j :: 0 <= j < |names| ==> CI.Has(m, names[j])
    ensures |r| <= |names|
  {
    if names == [] then []
    else
      var items := CI.Get(m, names[0]).value;
      var rest := TypesFor(m, names[1..]);
      if |items| > 0 then [PackageType(RenderMembers(items), names[0])] + rest else rest
  }

  /** When no listed category is empty, one block is rendered per name, in
      the order of `names`. */
  lemma {:induction false} TypesForAllNonEmpty(m: CI.CIMap<seq<string>>, names: seq<string>)
    requires CI.Valid(m)
    requires forall j :: 0 <= j < |names| ==> CI.Has(m, names[j]) && |CI.Get(m, names[j]).value| > 0
    ensures |TypesFor(m, names)| == |names|
    ensures forall i :: 0 <= i < |names| ==>
      TypesFor(m, names)[i] == PackageType(RenderMembers(CI.Get(m, names[i]).value), names[i])
  {
    if names != [] {
      TypesForAllNonEmpty(m, names[1..]);
    }
  }

  /** The names `buildFile` walks are exactly the registered categories. */
  lemma NamesAreKeys(c: Controller)
    requires CI.Valid(c.members)
    ensures |MembersNames(c)| == CI.Size(c.members)
    ensures forall j :: 0 <= j < |MembersNames(c)| ==> CI.Has(c.members, MembersNames(c)[j])
  {
    var names := MembersNames(c);
    var keys := CI.Keys(c.members);
    assert |multiset(names)| == |multiset(keys)|;
    forall j | 0 <= j < |names|
      ensures CI.Has(c.members, names[j])
    {
      assert names[j] in multiset(keys);
    }
  }

  /** The blocks `buildFile` appends for the current registry. */
  function Rendered(c: Controller): (r: seq<PackageType>)
    requires CI.Valid(c.members)
    ensures |r| <= CI.Size(c.members)
  {
    NamesAreKeys(c);
    TypesFor(c.members, MembersNames(c))
  }

  /** `buildFile()` up to the XML encoding: appends one block per non-empty
      category to `file.Package.types`, which it never clears. */
  function BuildFile(c: Controller): (r: Controller)
    requires CI.Valid(c.members)
    ensures r.members == c.members && r.file.version == c.file.version
    ensures |r.file.types| >= |c.file.types|
    ensures r.file.types[..|c.file.types|] == c.file.types
  {
    c.(file := c.file.(types := c.file.types + Rendered(c)))
  }

  /** What `buildFile` appends, under the invariant: one block per category,
      in `membersNames` order; block `i` is named by the display key and
      renders that category's stored set, which is well formed (so, by
      `RenderMembersOfSet`, its members come out sorted by code unit, free of
      duplicates and with the stored elements, or exactly `["*"]`). */
  lemma BuildFileContents(c: Controller, i: nat)
    requires Invariant(c) && i < CI.Size(c.members)
    ensures |BuildFile(c).file.types| == |c.file.types| + CI.Size(c.members)
    ensures BuildFile(c).file.types[|c.file.types| + i]
      == PackageType(RenderMembers(GetMemberItens(c, MembersNames(c)[i])), MembersNames(c)[i])
    ensures MemberSetOk(GetMemberItens(c, MembersNames(c)[i]))
  {
    var names := MembersNames(c);
    NamesAreKeys(c);
    RenderedAll(c);
    var items := CI.Get(c.members, names[i]).value;
    assert MemberSetOk(items);
  }

  /** Under the invariant every category renders one block, in
      `membersNames` order. */
  lemma RenderedAll(c: Controller)
    requires Invariant(c)
    ensures |Rendered(c)| == |MembersNames(c)|
    ensures forall i :: 0 <= i < |MembersNames(c)| ==>
      && CI.Has(c.members, MembersNames(c)[i])
      && Rendered(c)[i] == PackageType(RenderMembers(CI.Get(c.members, MembersNames(c)[i]).value), MembersNames(c)[i])
  {
    var names := MembersNames(c);
    NamesAreKeys(c);
    assert forall j :: 0 <= j < |names| ==> MemberSetOk(CI.Get(c.members, names[j]).value);
    TypesForAllNonEmpty(c.members, names);
  }

  /** Rendering a well-formed member set keeps its elements, sorts them and
      repeats none. */
  lemma RenderMembersOfSet(items: seq<string>)
    requires MemberSetOk(items)
    ensures Sorted(RenderMembers(items)) && Distinct(RenderMembers(items))
    ensures Elems(RenderMembers(items)) == Elems(items)
  {
    var r := RenderMembers(items);
    if Wildcard !in items {
      SortByDistinct(items, Identity);
      assert forall x :: x in r <==> x in multiset(items);
    }
  }

  /** `buildFile` does not reset `file.Package.types`: a second call appends
      the same blocks again. */
  lemma BuildFileTwiceDuplicates(c: Controller)
    requires CI.Valid(c.members)
    ensures BuildFile(BuildFile(c)).file.types == c.file.types + Rendered(c) + Rendered(c)
  {
  }

  /** `getMemberItens(name)`: the stored set, or a fresh empty one. */
  function GetMemberItens(c: Controller, name: string): (r: seq<string>)
    requires CI.Valid(c.members)
    ensures Invariant(c) ==> (|r| == 0 <==> !CI.Has(c.members, name))
    ensures CI.Has(c.members, name) ==> Some(r) == CI.Get(c.members, name)
  {
    CI.Get(c.members, name).GetOr([])
  }

  /** Feeds pairs to `addMemberItem` in order. */
  function AddAll(c: Controller, pairs: seq<Manifest.Pair>): (r: Controller)
    requires CI.Valid(c.members)
    ensures CI.Valid(r.members) && r.file == c.file
    ensures Invariant(c) ==> Invariant(r)
  {
    if pairs == [] then c
    else
      var last := pairs[|pairs| - 1];
      var prev := AddAll(c, pairs[..|pairs| - 1]);
      assert Invariant(prev) ==> Invariant(AddMemberItem(prev, last.0, last.1)) by {
        if Invariant(prev) {
          AddPreservesInvariant(prev, last.0, last.1);
        }
      }
      AddMemberItem(prev, last.0, last.1)
  }

  /** One input of `concatFile`: its path, whether it exists on disk, and the
      decoded document, absent when the XML decoder throws. */
  datatype InputFile = InputFile(path: string, onDisk: bool, decoded: Option<Manifest.RawDocument>)

  /** Why `concatFile` stopped; each is an exception in the source. */
  datatype ConcatError =
    | NotFound(path: string)
    | ParseFailed(path: string)
    | BadShape(path: string, shape: Manifest.ShapeError)

  /** `concatFile(filePaths)`'s list normalisation: a missing argument and
      the empty path (both falsy) are no file, any other single path is a
      one-element list, and an array is kept as it is. */
  function FileList(files: Field<InputFile>): (r: seq<InputFile>)
    ensures files.One? && files.item.path != "" ==> r == [files.item]
    ensures files.Absent? || (files.One? && files.item.path == "") ==> r == []
    ensures files.Many? ==> r == files.items
  {
    match files
    case Absent => []
    case One(f) => if f.path == "" then [] else [f]
    case Many(fs) => fs
  }

  /** `concatFile(filePaths)`: merges the files in order. The first missing,
      undecodable or ill-shaped file ends the walk with an error; what the
      earlier files contributed stays merged. */
  function ConcatFile(c: Controller, files: seq<InputFile>): (r: (Controller, Option<ConcatError>))
    requires CI.Valid(c.members)
    ensures CI.Valid(r.0.members) && r.0.file == c.file
    ensures Invariant(c) ==> Invariant(r.0)
    decreases |files|
  {
    if files == [] then (c, None)
    else
      var f := files[0];
      if !f.onDisk then (c, Some(NotFound(f.path)))
      else if f.decoded.None? then (c, Some(ParseFailed(f.path)))
      else
        match Manifest.DocumentPairs(f.decoded.value)
        case Failure(e) => (c, Some(BadShape(f.path, e)))
        case Success(pairs) => ConcatFile(AddAll(c, pairs), files[1..])
  }

  /** A file that can be merged: present, decodable and well shaped. */
  predicate Mergeable(f: InputFile) {
    f.onDisk && f.decoded.Some? && Manifest.DocumentPairs(f.decoded.value).Success?
  }

  /** All pairs of a list of mergeable files, in order. */
  function AllPairs(files: seq<InputFile>): seq<Manifest.Pair>
    requires forall i :: 0 <= i < |files| ==> Mergeable(files[i])
  {
    if files == [] then []
    else
      assert Mergeable(files[0]);
      Manifest.DocumentPairs(files[0].decoded.value).value + AllPairs(files[1..])
  }

  /** Dropping the last element of an append drops it from the second
      part. */
  lemma AppendInit<T>(a: seq<T>, b: seq<T>)
    requires |b| > 0
    ensures (a + b)[..|a + b| - 1] == a + b[..|b| - 1]
    ensures (a + b)[|a + b| - 1] == b[|b| - 1]
  {
  }

  lemma {:induction false} AddAllAppend(c: Controller, a: seq<Manifest.Pair>, b: seq<Manifest.Pair>)
    requires CI.Valid(c.members)
    ensures AddAll(c, a + b) == AddAll(AddAll(c, a), b)
    decreases |b|
  {
    if b != [] {
      var init := b[..|b| - 1];
      var last := b[|b| - 1];
      AddAllAppend(c, a, init);
      AppendInit(a, b);
    } else {
      assert a + b == a;
    }
  }

  /** When every file is mergeable, `concatFile` feeds every (name, member)
      pair of the files to `addMemberItem` in document order. */
  lemma {:induction false} ConcatFileMergesAll(c: Controller, files: seq<InputFile>)
    requires CI.Valid(c.members)
    requires forall i :: 0 <= i < |files| ==> Mergeable(files[i])
    ensures ConcatFile(c, files) == (AddAll(c, AllPairs(files)), None)
    decreases |files|
  {
    if files != [] {
      assert Mergeable(files[0]);
      var head := Manifest.DocumentPairs(files[0].decoded.value).value;
      ConcatFileMergesAll(AddAll(c, head), files[1..]);
      AddAllAppend(c, head, AllPairs(files[1..]));
    }
  }

  /** `concatFile` reports no error only when every file was mergeable. */
  lemma {:induction false} ConcatFileSucceedsOnlyIfMergeable(c: Controller, files: seq<InputFile>)
    requires CI.Valid(c.members)
    requires ConcatFile(c, files).1.None?
    ensures forall i :: 0 <= i < |files| ==> Mergeable(files[i])
    decreases |files|
  {
    if files != [] {
      var f := files[0];
      assert f.onDisk && f.decoded.Some?;
      var d := Manifest.DocumentPairs(f.decoded.value);
      assert d.Success?;
      var head := d.value;
      assert ConcatFile(c, files) == ConcatFile(AddAll(c, head), files[1..]);
      ConcatFileSucceedsOnlyIfMergeable(AddAll(c, head), files[1..]);
      forall i | 0 < i < |files|
        ensures Mergeable(files[i])
      {
        assert files[i] == files[1..][i - 1];
      }
    }
  }

  /** When file `j` is the first that cannot be merged, `concatFile` reports
      an error and keeps exactly what files `0..j-1` contributed. */
  lemma {:induction false} ConcatFileStopsAtFailure(c: Controller, files: seq<InputFile>, j: nat)
    requires CI.Valid(c.members)
    requires j < |files| && !Mergeable(files[j])
    requires forall i :: 0 <= i < j ==> Mergeable(files[i])
    ensures ConcatFile(c, files).0 == AddAll(c, AllPairs(files[..j]))
    ensures ConcatFile(c, files).1.Some?
    decreases j
  {
    if j > 0 {
      assert Mergeable(files[0]);
      var head := Manifest.DocumentPairs(files[0].decoded.value).value;
      assert files[1..][..j - 1] == files[..j][1..];
      assert files[1..][j - 1] == files[j];
      ConcatFileStopsAtFailure(AddAll(c, head), files[1..], j - 1);
      AddAllAppend(c, head, AllPairs(files[1..][..j - 1]));
      assert AllPairs(files[..j]) == head + AllPairs(files[..j][1..]);
    } else {
      assert AllPairs(files[..0]) == [];
    }
  }

  /** The standalone `xml2json(filePath)`: a fresh controller fed with the
      decoded document, throwing where the unguarded reads throw. */
  function Xml2Json(version: string, doc: Manifest.RawDocument): (r: Result<Controller, Manifest.ShapeError>)
    ensures r.Success? ==> Invariant(r.value) && r.value.file == ManifestFile([], version)
    ensures doc.package.None? ==> r.Failure?
  {
    var pairs :- Manifest.StrictDocumentPairs(doc);
    Success(AddAll(New(version), pairs))
  }

  /** Where `xml2json` succeeds, it builds the same controller that
      `concatFile` builds from the same document on disk, with no error. */
  lemma Xml2JsonAgreesWithConcat(version: string, doc: Manifest.RawDocument, path: string)
    requires Xml2Json(version, doc).Success?
    ensures ConcatFile(New(version), [InputFile(path, true, Some(doc))]) == (Xml2Json(version, doc).value, None)
  {
    Manifest.StrictAgreesWithGuarded(doc);
  }

  /** `concatFile("")` merges nothing and reports nothing: the empty path is
      falsy and becomes an empty list. */
  lemma EmptyPathMergesNothing(c: Controller, onDisk: bool, decoded: Option<Manifest.RawDocument>)
    requires CI.Valid(c.members)
    ensures ConcatFile(c, FileList(One(InputFile("", onDisk, decoded)))) == (c, None)
  {
  }
}
