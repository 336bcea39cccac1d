/** `removeOrgItemOption` (src/helpers/sfdx.ts): drops the choice for an org
    alias from a prompt's option list, in place. The list is returned
    instead of mutated; `None` stands for a `null` list or alias. */
module Sfdx {
  import opened Wrappers

  /** One prompt option: the label shown and the alias it selects. */
  datatype Choice = Choice(name: string, value: string)

  /** `findIndex(i => i.value === alias)`: the first matching position, or -1. */
  function FindIndex(xs: seq<Choice>, alias: string): (r: int)
    ensures -1 <= r < |xs|
    ensures r == -1 <==> forall i :: 0 <= i < |xs| ==> xs[i].value != alias
    ensures r >= 0 ==> xs[r].value == alias && forall i :: 0 <= i < r ==> xs[i].value != alias
  {
    if xs == [] then -1
    else if xs[0].value == alias then 0
    else
      var k := FindIndex(xs[1..], alias);
      assert forall i :: 1 <= i < |xs| ==> xs[i] == xs[1..][i - 1];
      if k == -1 then -1 else k + 1
  }

  /** The position `splice(start, 1)` actually starts at: a negative start
      counts from the end and is clamped at 0, a large one at the length. */
  function SpliceStart(len: nat, start: int): (r: nat)
    ensures r <= len
    ensures 0 <= start <= len ==> r == start
    ensures len > 0 && start == -1 ==> r == len - 1
  {
    if start < 0 then (if len + start < 0 then 0 else len + start)
    else if start > len then len
    else start
  }

  /** `xs.splice(start, 1)`: removes the element at the resolved position,
      if there is one. */
  function Splice1<T>(xs: seq<T>, start: int): (r: seq<T>)
    ensures var s := SpliceStart(|xs|, start);
      && (s < |xs| ==> |r| == |xs| - 1 && r[..s] == xs[..s] && r[s..] == xs[s + 1..])
      && (s == |xs| ==> r == xs)
  {
    var s := SpliceStart(|xs|, start);
    if s < |xs| then xs[..s] + xs[s + 1..] else xs
  }

  /** Removing one element keeps every other element, with its
      multiplicity. */
  lemma Splice1Multiset<T>(xs: seq<T>, start: int)
    requires SpliceStart(|xs|, start) < |xs|
    ensures multiset(Splice1(xs, start)) + multiset{xs[SpliceStart(|xs|, start)]} == multiset(xs)
  {
    var s := SpliceStart(|xs|, start);
    assert xs == xs[..s] + [xs[s]] + xs[s + 1..];
  }

  /** `removeOrgItemOption(orglistOption, orgALias)`. */
  function RemoveOrgItemOption(list: Option<seq<Choice>>, alias: Option<string>): (r: Option<seq<Choice>>)
    ensures r.None? <==> list.None?
    ensures list.None? || alias.None? || alias.value == [] ==> r == list
  {
    if list.Some? && alias.Some? && |alias.value| > 0 then
      Some(Splice1(list.value, FindIndex(list.value, alias.value)))
    else list
  }

  /** With an alias that is listed, exactly its first choice is removed and
      the others keep their order. */
  lemma RemovesFirstMatch(xs: seq<Choice>, alias: string)
    requires |alias| > 0
    requires exists i :: 0 <= i < |xs| && xs[i].value == alias
    ensures var k := FindIndex(xs, alias);
      && 0 <= k < |xs| && xs[k].value == alias
      && (forall i :: 0 <= i < k ==> xs[i].value != alias)
      && RemoveOrgItemOption(Some(xs), Some(alias)) == Some(xs[..k] + xs[k + 1..])
  {
  }

  /** With an alias that is not listed, `findIndex` yields -1 and the last
      choice is removed instead. */
  lemma UnlistedAliasDropsLast(xs: seq<Choice>, alias: string)
    requires |alias| > 0 && |xs| > 0
    requires forall i :: 0 <= i < |xs| ==> xs[i].value != alias
    ensures RemoveOrgItemOption(Some(xs), Some(alias)) == Some(xs[..|xs| - 1])
  {
    assert xs[..|xs| - 1] + xs[|xs|..] == xs[..|xs| - 1];
  }

  /** For a non-empty list and a non-empty alias, exactly one choice goes,
      whether or not it matched. */
  lemma RemovesExactlyOne(xs: seq<Choice>, alias: string)
    requires |alias| > 0 && |xs| > 0
    ensures var r := RemoveOrgItemOption(Some(xs), Some(alias)).value;
      && |r| == |xs| - 1
      && exists k :: 0 <= k < |xs| && multiset(r) + multiset{xs[k]} == multiset(xs)
  {
    var k := FindIndex(xs, alias);
    Splice1Multiset(xs, k);
  }
}
