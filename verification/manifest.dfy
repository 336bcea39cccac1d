/** The JSON-shaped intermediate that `xml-js` (compact mode) produces from a
    `package.xml` manifest, and the shape normalisation the merger applies to
    it before reading pairs out of it. The XML text itself and the decoder are
    not modelled: a decoded document is an input. */
module Manifest {
  import opened Wrappers

  /** A compact-mode element with text content, `{ _text: "..." }`; an empty
      element (`<members/>`) decodes without `_text`. */
  datatype TextNode = TextNode(text: Option<string>)

  /** One `<types>` block: its `<name>` and its `<members>`. */
  datatype RawType = RawType(name: Option<TextNode>, members: Field<TextNode>)

  /** The `<Package>` element. */
  datatype RawPackage = RawPackage(types: Field<RawType>)

  /** A decoded document; `package` is absent when the root is not `<Package>`. */
  datatype RawDocument = RawDocument(package: Option<RawPackage>)

  /** `if (!Array.isArray(x)) x = [x]`: a scalar becomes a one-element list and
      a missing value becomes a list holding one `undefined`. */
  function AsList<T>(f: Field<T>): (r: seq<Option<T>>)
    ensures f.Absent? ==> r == [None]
    ensures f.One? ==> r == [Some(f.item)]
    ensures f.Many? ==> |r| == |f.items| && forall i :: 0 <= i < |r| ==> r[i] == Some(f.items[i])
  {
    match f
    case Absent => [None]
    case One(x) => [Some(x)]
    case Many(xs) => seq(|xs|, i requires 0 <= i < |xs| => Some(xs[i]))
  }

  /** `node?._text`. */
  function TextOf(node: Option<TextNode>): Option<string> {
    match node
    case None => None
    case Some(n) => n.text
  }

  /** A (category, member) pair as handed to `addMemberItem`: either part may
      be `undefined`. */
  type Pair = (Option<string>, Option<string>)

  /** The pairs of one `<types>` block, in document order, with the guarded
      reads of `concatFile` (`typeItem.name?._text`, `memberItem?._text`). */
  function TypePairs(t: RawType): (r: seq<Pair>)
    ensures |r| == |AsList(t.members)|
    ensures forall i :: 0 <= i < |r| ==> r[i] == (TextOf(t.name), TextOf(AsList(t.members)[i]))
  {
    var ms := AsList(t.members);
    seq(|ms|, i requires 0 <= i < |ms| => (TextOf(t.name), TextOf(ms[i])))
  }

  function Concat<T>(xss: seq<seq<T>>): seq<T> {
    if xss == [] then [] else xss[0] + Concat(xss[1..])
  }

  /** The ways reading a document's shape can throw. */
  datatype ShapeError = NoPackage | NoTypes | NoName | NoMember

  /** The pairs `concatFile` feeds to `addMemberItem`, in document order. A
      missing `<Package>` throws on `rawFile.Package.types`; a package without
      `<types>` becomes `[undefined]` and throws on `typeItem.members`; a
      missing name or member only yields an `undefined` part. */
  function DocumentPairs(doc: RawDocument): (r: Result<seq<Pair>, ShapeError>)
    ensures doc.package.None? ==> r == Failure(NoPackage)
    ensures doc.package.Some? && doc.package.value.types.Absent? ==> r == Failure(NoTypes)
    ensures doc.package.Some? && doc.package.value.types.One? ==>
      r == Success(TypePairs(doc.package.value.types.item))
  ensures doc.package.Some? && doc.package.value.types.Many? ==>
    r == Success(AllTypePairs(doc.package.value.types.items))
  {
    match doc.package
    case None => Failure(NoPackage)
    case Some(p) =>
      match p.types
      case Absent => Failure(NoTypes)
      case One(t) => Success(TypePairs(t))
      case Many(ts) => Success(AllTypePairs(ts))
  }

  /** The stricter reads of the standalone `xml2json` helper, which uses no
      optional chaining: once it reads a member, a block without `<name>`
      throws, and so does a missing `<members>` (read as `undefined._text`). */
  function StrictTypePairs(t: RawType): (r: Result<seq<Pair>, ShapeError>)
    ensures r.Success? <==> |AsList(t.members)| == 0 || (t.name.Some? && !t.members.Absent?)
    ensures r.Success? ==> r.value == TypePairs(t)
  {
    if |AsList(t.members)| == 0 then Success([])
    else if t.name.None? then Failure(NoName)
    else if t.members.Absent? then Failure(NoMember)
    else Success(TypePairs(t))
  }

  /** All pairs of a document under the reads of `xml2json`: the first block
      that throws ends the walk. */
  function StrictDocumentPairs(doc: RawDocument): (r: Result<seq<Pair>, ShapeError>)
    ensures doc.package.None? ==> r == Failure(NoPackage)
    ensures doc.package.Some? && doc.package.value.types.Absent? ==> r == Failure(NoTypes)
  {
    match doc.package
    case None => Failure(NoPackage)
    case Some(p) =>
      match p.types
      case Absent => Failure(NoTypes)
      case One(t) => StrictTypePairs(t)
      case Many(ts) => StrictAll(ts)
  }

  function StrictAll(ts: seq<RawType>): (r: Result<seq<Pair>, ShapeError>)
    ensures (forall i :: 0 <= i < |ts| ==> StrictTypePairs(ts[i]).Success?) ==> r.Success?
  {
    if ts == [] then Success([])
    else
      var head :- StrictTypePairs(ts[0]);
      var tail :- StrictAll(ts[1..]);
      Success(head + tail)
  }

  /** The pairs of a list of blocks under the guarded reads. */
  function AllTypePairs(ts: seq<RawType>): seq<Pair> {
    Concat(seq(|ts|, i requires 0 <= i < |ts| => TypePairs(ts[i])))
  }

  /** Where the strict reads of a list of blocks succeed, they yield the
      same pairs as the guarded ones. */
  lemma {:induction false} StrictAllAgrees(ts: seq<RawType>)
    requires StrictAll(ts).Success?
    ensures StrictAll(ts).value == AllTypePairs(ts)
  {
    if ts != [] {
      StrictAllAgrees(ts[1..]);
      assert seq(|ts|, i requires 0 <= i < |ts| => TypePairs(ts[i]))[1..]
        == seq(|ts| - 1, i requires 0 <= i < |ts| - 1 => TypePairs(ts[1..][i]));
    }
  }

  /** Wherever the standalone `xml2json` reads a document without throwing,
      it feeds exactly the pairs `concatFile` would. */
  lemma StrictAgreesWithGuarded(doc: RawDocument)
    requires StrictDocumentPairs(doc).Success?
    ensures DocumentPairs(doc) == StrictDocumentPairs(doc)
  {
    if doc.package.Some? && doc.package.value.types.Many? {
      StrictAllAgrees(doc.package.value.types.items);
    }
  }
}
