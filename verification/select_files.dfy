/** The pure rules of the file picker (src/helpers/prompt/select-files.ts):
    the comparator that lists files before directories, the extension
    filter, the defaulting of `minimumSelection` and the prompt's `validate`
    callback. A directory entry (`fs.Dirent`) is reduced to its name and the
    two type tests the rules ask about. */
module SelectFiles {
  import opened Wrappers
  import opened JsStrings

  /** A directory entry; `name` is a file name, so it holds no `/`. */
  datatype Entry = Entry(name: string, isFile: bool, isDirectory: bool)

  /** `sortMethod(a, b)`: files before everything else, no other order. */
  function SortMethod(a: Entry, b: Entry): (r: int)
    ensures r == -1 <==> a.isFile && !b.isFile
    ensures r == 1 <==> b.isFile && !a.isFile
    ensures r == 0 <==> a.isFile == b.isFile
  {
    if a.isFile && !b.isFile then -1
    else if b.isFile && !a.isFile then 1
    else 0
  }

  /** The comparator is consistent: swapping the arguments negates it. */
  lemma SortMethodAntisymmetric(a: Entry, b: Entry)
    ensures SortMethod(a, b) == -SortMethod(b, a)
  {
  }

  function Files(xs: seq<Entry>): (r: seq<Entry>)
    ensures forall i :: 0 <= i < |r| ==> r[i].isFile
  {
    if xs == [] then []
    else (if xs[0].isFile then [xs[0]] else []) + Files(xs[1..])
  }

  function Others(xs: seq<Entry>): (r: seq<Entry>)
    ensures forall i :: 0 <= i < |r| ==> !r[i].isFile
  {
    if xs == [] then []
    else (if xs[0].isFile then [] else [xs[0]]) + Others(xs[1..])
  }

  /** The order a stable `sort(sortMethod)` produces: the files, then the
      other entries, each group in its original order. */
  function FilesFirst(xs: seq<Entry>): seq<Entry> {
    Files(xs) + Others(xs)
  }

  /** `FilesFirst` is ordered by the comparator and rearranges nothing but
      the order. */
  lemma {:induction false} FilesFirstIsSorted(xs: seq<Entry>)
    ensures forall i, j :: 0 <= i < j < |FilesFirst(xs)| ==> SortMethod(FilesFirst(xs)[i], FilesFirst(xs)[j]) <= 0
    ensures multiset(FilesFirst(xs)) == multiset(xs)
  {
    var r := FilesFirst(xs);
    forall i, j | 0 <= i < j < |r|
      ensures SortMethod(r[i], r[j]) <= 0
    {
      if i < |Files(xs)| {
        assert r[i] == Files(xs)[i];
      } else {
        assert r[i] == Others(xs)[i - |Files(xs)|];
        assert r[j] == Others(xs)[j - |Files(xs)|];
      }
    }
    FilesOthersSplit(xs);
  }

  lemma {:induction false} FilesOthersSplit(xs: seq<Entry>)
    ensures multiset(Files(xs)) + multiset(Others(xs)) == multiset(xs)
  {
    if xs != [] {
      FilesOthersSplit(xs[1..]);
      assert xs == [xs[0]] + xs[1..];
    }
  }

  /** Position of the last `.`, or -1. */
  function LastDot(s: string): (r: int)
    ensures -1 <= r < |s|
    ensures r == -1 <==> '.' !in s
    ensures r >= 0 ==> s[r] == '.' && '.' !in s[r + 1..]
  {
    if s == [] then -1
    else if s[|s| - 1] == '.' then |s| - 1
    else
      var k := LastDot(s[..|s| - 1]);
      assert forall c :: c in s <==> c in s[..|s| - 1] || c == s[|s| - 1] by {
        assert s == s[..|s| - 1] + [s[|s| - 1]];
      }
      assert k >= 0 ==> s[k + 1..] == s[..|s| - 1][k + 1..] + [s[|s| - 1]];
      k
  }

  /** `path.extname(name)` for a name without `/`: from the last `.` to the
      end, except that a name without a `.`, a name whose only leading part
      is that `.` (`.bashrc`) and the name `..` have no extension. */
  function ExtName(name: string): (r: string)
    ensures r == [] || (r[0] == '.' && EndsWith(name, r) && '.' !in r[1..])
    ensures '.' !in name ==> r == []
  {
    var k := LastDot(name);
    if k <= 0 || name == ".." then ""
    else
      assert name[k..][1..] == name[k + 1..];
      name[k..]
  }

  /** A name made of a stem and an extension yields that extension. */
  lemma ExtNameOfStem(stem: string, ext: string)
    requires stem != [] && stem != "." && '.' !in ext
    ensures ExtName(stem + "." + ext) == "." + ext
  {
    var name := stem + "." + ext;
    assert name[|stem|] == '.';
    assert name[|stem| + 1..] == ext;
    assert LastDot(name) == |stem|;
    assert name[|stem|..] == "." + ext;
    assert name[0] == stem[0];
    assert |stem| == 1 ==> stem == [stem[0]];
    assert name != "..";
  }

  /** `allowedExtensions` after the normalisation at the top of
      `filterMethod`: nothing, or an empty string, is no filter; one string
      is a one-element list. */
  function AllowedExtensions(filter: Field<string>): (r: seq<string>)
    ensures filter.One? && filter.item != [] ==> r == [filter.item]
    ensures filter.Absent? || filter == One([]) ==> r == []
    ensures filter.Many? ==> r == filter.items
  {
    match filter
    case Absent => []
    case One(x) => if x == [] then [] else [x]
    case Many(xs) => xs
  }

  /** `ext.replace('.', '')`: the first `.` removed. */
  function DropFirstDot(s: string): (r: string)
    ensures '.' !in s ==> r == s
    ensures |s| > 0 && s[0] == '.' ==> r == s[1..]
  {
    if '.' !in s then s
    else
      var i := IndexOf(s, '.');
      s[..i] + s[i + 1..]
  }

  /** `filterMethod(file, allowedExtensions)`. */
  function FilterMethod(e: Entry, filter: Field<string>): (r: bool)
    ensures e.isDirectory ==> r
    ensures AllowedExtensions(filter) == [] ==> r
  {
    var allowed := AllowedExtensions(filter);
    if e.isDirectory || |allowed| == 0 then true
    else
      var ext := ExtName(e.name);
      ext in allowed || DropFirstDot(ext) in allowed
  }

  /** A file named `stem.ext` passes a non-empty filter exactly when the
      filter lists `.ext` or `ext`. */
  lemma FilterByExtension(stem: string, ext: string, isFile: bool, filter: Field<string>)
    requires stem != [] && stem != "." && '.' !in ext
    requires AllowedExtensions(filter) != []
    ensures FilterMethod(Entry(stem + "." + ext, isFile, false), filter)
      <==> ("." + ext) in AllowedExtensions(filter) || ext in AllowedExtensions(filter)
  {
    ExtNameOfStem(stem, ext);
    assert ("." + ext)[1..] == ext;
  }

  /** A file without an extension passes a non-empty filter only when the
      filter lists the empty string. */
  lemma FilterWithoutExtension(name: string, isFile: bool, filter: Field<string>)
    requires '.' !in name
    requires AllowedExtensions(filter) != []
    ensures FilterMethod(Entry(name, isFile, false), filter) <==> "" in AllowedExtensions(filter)
  {
  }

  /** `minimumSelection` after defaulting: missing, zero or negative means 1. */
  function MinimumSelection(requested: Option<int>): (r: int)
    ensures r >= 1
    ensures requested.Some? && requested.value >= 1 ==> r == requested.value
    ensures requested.None? || requested.value <= 0 ==> r == 1
  {
    if requested.None? || requested.value == 0 || requested.value < 0 then 1 else requested.value
  }

  /** Applying the default twice changes nothing. */
  lemma MinimumSelectionIdempotent(requested: Option<int>)
    ensures MinimumSelection(Some(MinimumSelection(requested))) == MinimumSelection(requested)
  {
  }

  datatype Verdict = Accepted | Rejected(message: string)

  const MessageStart: string := "Select at least"

  /** The `Valid types: ...` tail, present when the filter is truthy and
      non-empty. */
  function ValidTypes(filter: Field<string>): (r: string)
    ensures filter.Absent? || filter == One([]) || filter == Many([]) ==> r == []
  {
    match filter
    case Absent => ""
    case One(x) => if |x| > 0 then "Valid types: " + x else ""
    case Many(xs) => if |xs| > 0 then "Valid types: " + Join(xs, ", ") else ""
  }

  /** The message body before trimming. */
  function RejectionText(minimum: int, rootDir: string, filter: Field<string>): string {
    MessageStart + " " + IntToString(minimum) + " file" + (if minimum > 1 then "s" else "") + " from " + rootDir + ". "
      + ValidTypes(filter)
  }

  /** The inner `validate(response)` of `selectFileOrDirPath`, with the
      defaulted minimum. */
  function Validate(count: nat, requested: Option<int>, rootDir: string, filter: Field<string>): (r: Verdict)
    ensures r == Accepted <==> count >= MinimumSelection(requested)
    ensures r.Rejected? ==> IsTrimmed(r.message) && StartsWith(r.message, MessageStart)
  {
    var minimum := MinimumSelection(requested);
    if count < minimum then
      var text := RejectionText(minimum, rootDir, filter);
      assert StartsWith(text, MessageStart) by {
        assert text[..|MessageStart|] == MessageStart;
      }
      assert !IsWhiteSpace(MessageStart[0]) && !IsWhiteSpace(MessageStart[|MessageStart| - 1]) by {
        assert MessageStart[0] == 'S' && MessageStart[|MessageStart| - 1] == 't';
      }
      TrimSpec(text);
      TrimKeepsPrefix(text, MessageStart);
      Rejected(Trim(text))
    else Accepted
  }
}
