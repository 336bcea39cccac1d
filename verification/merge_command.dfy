/** The pure parts of the `package merge` command
    (src/commands/package/merge.ts): output-name and input-list
    normalisation, and the order in which `run` consults them. The file
    system, the prompts and the working directory arrive as parameters;
    `path.join` is an arbitrary function and `path.sep` a character. */
module MergeCommand {
  import opened Wrappers
  import opened JsStrings
  import opened Ordering
  import PC = PackageController
  import CI = CaseInsensitiveMap

  const DefaultOutputName: string := "mergedPackage"
  const XmlSuffix: string := ".xml"
  const FileSeparator: char := ','

  /** `handleFlags`: the output flag, trimmed, or the default name when
      nothing is left. */
  function HandleFlags(output: Option<string>): (r: string)
    ensures |r| > 0 && IsTrimmed(r)
    ensures output.Some? && !AllWhiteSpace(output.value) ==> r == Trim(output.value)
    ensures output.None? || AllWhiteSpace(output.value) ==> r == DefaultOutputName
  {
    var s := output.GetOr("");
    var t := Trim(s);
    assert (|t| == 0 <==> AllWhiteSpace(s)) && IsTrimmed(t) by {
      TrimSpec(s);
    }
    assert IsTrimmed(DefaultOutputName) by {
      assert DefaultOutputName[0] == 'm' && DefaultOutputName[12] == 'e';
    }
    if |t| == 0 then DefaultOutputName else t
  }

  /** Feeding the resolved name back through `handleFlags` changes nothing. */
  lemma HandleFlagsIdempotent(output: Option<string>)
    ensures HandleFlags(Some(HandleFlags(output))) == HandleFlags(output)
  {
    var r := HandleFlags(output);
    TrimSpec(r);
    assert !AllWhiteSpace(r) by {
      assert !IsWhiteSpace(r[0]);
    }
  }

  /** The path before the suffix rule: a name with a single
      `path.sep`-separated segment is placed under the merged-manifest
      directory; any other name is kept. */
  function Placed(output: string, sep: char, mergedPath: string, join: (string, string) -> string): (r: string)
    ensures sep in output ==> r == output
    ensures sep !in output ==> r == join(mergedPath, output)
  {
    if |Split(output, sep)| == 1 then join(mergedPath, output) else output
  }

  /** The output path `handleOutputName` settles on. */
  function OutputPath(output: string, sep: char, mergedPath: string, join: (string, string) -> string): (r: string)
    ensures EndsWith(r, XmlSuffix)
    ensures EndsWith(Placed(output, sep, mergedPath, join), XmlSuffix) ==> r == Placed(output, sep, mergedPath, join)
    ensures !EndsWith(Placed(output, sep, mergedPath, join), XmlSuffix) ==>
      r == Placed(output, sep, mergedPath, join) + XmlSuffix
  {
    var placed := Placed(output, sep, mergedPath, join);
    if EndsWith(placed, XmlSuffix) then placed
    else
      assert (placed + XmlSuffix)[|placed|..] == XmlSuffix;
      placed + XmlSuffix
  }

  /** A path that already names a `.xml` file in some directory is a fixed
      point: running the rule again neither re-prefixes it nor adds a second
      suffix. */
  lemma OutputPathFixedPoint(output: string, sep: char, mergedPath: string, join: (string, string) -> string)
    requires sep in output && EndsWith(output, XmlSuffix)
    ensures OutputPath(output, sep, mergedPath, join) == output
  {
  }

  /** The rule is idempotent on paths with a directory part. */
  lemma OutputPathIdempotent(output: string, sep: char, mergedPath: string, join: (string, string) -> string)
    requires sep in output
    ensures OutputPath(OutputPath(output, sep, mergedPath, join), sep, mergedPath, join)
      == OutputPath(output, sep, mergedPath, join)
  {
    var r := OutputPath(output, sep, mergedPath, join);
    assert sep in r by {
      var k :| 0 <= k < |output| && output[k] == sep;
      assert r[k] == sep;
    }
  }

  /** The value of `replaceFile` as written: it starts false and is only
      assigned inside the branch for an existing output file. */
  function ProceedAsWritten(onDisk: bool, force: bool, confirmReplace: bool): bool {
    if onDisk then force || confirmReplace else false
  }

  /** The evidently intended answer: a new file needs no permission; an
      existing one needs `--force` or a confirmation. */
  function Proceed(onDisk: bool, force: bool, confirmReplace: bool): (r: bool)
    ensures !onDisk ==> r
    ensures onDisk ==> (r <==> force || confirmReplace)
  {
    !onDisk || force || confirmReplace
  }

  /** The two rules agree exactly when the output file already exists. */
  lemma ProceedDiffersOnlyForNewFiles(onDisk: bool, force: bool, confirmReplace: bool)
    ensures ProceedAsWritten(onDisk, force, confirmReplace) == Proceed(onDisk, force, confirmReplace) <==> onDisk
  {
  }

  /** `flatMap(i => i.split(','))`. */
  function SplitAll(files: seq<string>): (r: seq<string>)
    ensures forall i :: 0 <= i < |r| ==> FileSeparator !in r[i]
    ensures |r| >= |files|
  {
    if files == [] then []
    else SplitAll(files[..|files| - 1]) + Split(files[|files| - 1], FileSeparator)
  }

  /** Splitting loses nothing: the pieces of every flag value are among the
      split list, and every piece comes from some flag value. */
  lemma {:induction false} SplitAllPieces(files: seq<string>, p: string)
    ensures p in SplitAll(files) <==> exists f :: f in files && p in Split(f, FileSeparator)
  {
    if p in SplitAll(files) {
      PieceHasSource(files, p);
    }
    if exists f :: f in files && p in Split(f, FileSeparator) {
      var f :| f in files && p in Split(f, FileSeparator);
      SourceIsSplit(files, f, p);
    }
  }

  /** Every piece of the split list comes from some flag value. */
  lemma {:induction false} PieceHasSource(files: seq<string>, p: string)
    requires p in SplitAll(files)
    ensures exists f :: f in files && p in Split(f, FileSeparator)
  {
    var init := files[..|files| - 1];
    var last := files[|files| - 1];
    assert last in files;
    if p in SplitAll(init) {
      PieceHasSource(init, p);
      var f :| f in init && p in Split(f, FileSeparator);
      assert f in files by { assert files == init + [last]; }
    }
  }

  /** Every piece of every flag value is in the split list. */
  lemma {:induction false} SourceIsSplit(files: seq<string>, f: string, p: string)
    requires f in files && p in Split(f, FileSeparator)
    ensures p in SplitAll(files)
  {
    var init := files[..|files| - 1];
    var last := files[|files| - 1];
    if f != last {
      assert f in init by { assert files == init + [last]; }
      SourceIsSplit(init, f, p);
    }
  }

  /** Each flag value is recovered by joining its pieces with commas. */
  lemma SplitIsLossless(f: string)
    ensures Join(Split(f, FileSeparator), [FileSeparator]) == f
  {
    JoinSplit(f, FileSeparator);
  }

  /** Each piece joined to the working directory, in order. */
  function JoinEach(pieces: seq<string>, cwd: string, join: (string, string) -> string): (r: seq<string>)
    ensures |r| == |pieces|
    ensures forall i :: 0 <= i < |pieces| ==> r[i] == join(cwd, pieces[i])
  {
    seq(|pieces|, i requires 0 <= i < |pieces| => join(cwd, pieces[i]))
  }

  lemma JoinEachMembers(pieces: seq<string>, cwd: string, join: (string, string) -> string, y: string)
    ensures y in JoinEach(pieces, cwd, join) <==> exists p :: p in pieces && y == join(cwd, p)
  {
    var joined := JoinEach(pieces, cwd, join);
    if y in joined {
      var i :| 0 <= i < |joined| && joined[i] == y;
      assert pieces[i] in pieces;
    }
    if exists p :: p in pieces && y == join(cwd, p) {
      var p :| p in pieces && y == join(cwd, p);
      var i :| 0 <= i < |pieces| && pieces[i] == p;
      assert joined[i] == y;
    }
  }

  /** The list built from given `--files` flags: split on commas, each piece
      joined to the working directory, sorted by code unit, duplicates
      dropped. */
  function NormaliseFiles(files: seq<string>, cwd: string, join: (string, string) -> string): (r: seq<string>)
    ensures Sorted(r) && Distinct(r)
    ensures forall y :: y in r <==> exists p :: p in SplitAll(files) && y == join(cwd, p)
  {
    var pieces := SplitAll(files);
    var joined := JoinEach(pieces, cwd, join);
    var sorted := SortBy(joined, Identity);
    var r := Dedup(sorted);
    assert forall y :: y in r <==> exists p :: p in pieces && y == join(cwd, p) by {
      forall y
        ensures y in r <==> exists p :: p in pieces && y == join(cwd, p)
      {
        assert y in sorted <==> y in multiset(sorted);
        assert y in joined <==> y in multiset(joined);
        JoinEachMembers(pieces, cwd, join, y);
      }
    }
    r
  }

  /** The normalised list depends only on which pieces were given, not on
      their order, grouping or repetition. */
  lemma NormaliseFilesOrderFree(a: seq<string>, b: seq<string>, cwd: string, join: (string, string) -> string)
    requires forall p :: p in SplitAll(a) <==> p in SplitAll(b)
    ensures NormaliseFiles(a, cwd, join) == NormaliseFiles(b, cwd, join)
  {
    SortedSetUnique(NormaliseFiles(a, cwd, join), NormaliseFiles(b, cwd, join));
  }

  /** Why the command stops; each is an exception in the source except the
      cancellation, which is a logged message. */
  datatype MergeError =
    | NoOutputPath
    | NoInputFile
    | TooFewFiles
    | ConcatFailed(cause: PC.ConcatError)
    | ReportRejected

  /** `handleInputFiles`: given flags are normalised; with none, the files
      picked in the prompt are used unless `--force` suppresses the prompt;
      fewer than two files is an error. */
  function HandleInputFiles(files: Option<seq<string>>, force: bool, cwd: string,
                            join: (string, string) -> string, picked: seq<string>): (r: Result<seq<string>, MergeError>)
    ensures r.Success? ==> |r.value| >= 2
    ensures r.Failure? ==> r.error == TooFewFiles
    ensures files.Some? && |files.value| > 0 ==>
      (r.Success? ==> r.value == NormaliseFiles(files.value, cwd, join))
      && (r.Failure? <==> |NormaliseFiles(files.value, cwd, join)| < 2)
    ensures (files.None? || files.value == []) && force ==> r.Failure?
    ensures (files.None? || files.value == []) && !force ==> (r.Success? <==> |picked| >= 2) && (r.Success? ==> r.value == picked)
  {
    var given := files.GetOr([]);
    var chosen :=
      if |given| > 0 then NormaliseFiles(given, cwd, join)
      else if !force then picked
      else given;
    if |chosen| < 2 then Failure(TooFewFiles) else Success(chosen)
  }

  /** What the command's host supplies: the path separator, the configured
      merged-manifest directory, the working directory, `path.join`, the file
      system and the prompt answers. */
  datatype Host = Host(
    sep: char,
    mergedPath: string,
    cwd: string,
    join: (string, string) -> string,
    outputExists: bool,
    confirmReplace: bool,
    picked: seq<string>,
    load: string -> PC.InputFile,
    confirmCreate: bool,
    apiVersion: string)

  /** The flags `run` parses. */
  datatype Flags = Flags(files: Option<seq<string>>, force: bool, output: Option<string>)

  datatype Outcome =
    | Cancelled
    | Failed(error: MergeError)
    | Declined(merged: PC.Controller)
    | Written(path: string, merged: PC.Controller)

  /** The inputs `concatFile` reads: each normalised path, loaded. */
  function Inputs(files: seq<string>, load: string -> PC.InputFile): (r: seq<PC.InputFile>)
    ensures |r| == |files|
    ensures forall i :: 0 <= i < |files| ==> r[i] == load(files[i])
  {
    seq(|files|, i requires 0 <= i < |files| => load(files[i]))
  }

  /** The characters the `table` package refuses in a cell: U+0001 to
      U+0006, U+0008, U+0009 and U+000B to U+001A. Line feed is allowed. */
  predicate IsTableControl(ch: char) {
    (1 <= ch as int <= 6) || ch as int == 8 || ch as int == 9 || (11 <= ch as int <= 26)
  }

  /** A cell `table` refuses: it holds a refused character once every CR LF
      pair has been read as a single line feed. */
  predicate CellRejected(cell: string) {
    exists i :: 0 <= i < |cell| && IsTableControl(cell[i])
      && !(cell[i] == '\r' && i + 1 < |cell| && cell[i + 1] == '\n')
  }

  /** `table`'s check of its data before drawing: at least one row, and no
      refused cell. Every row here has two cells, so its column-count checks
      always pass; when this fails `table` throws. */
  predicate TableAccepts(rows: seq<(string, string)>) {
    |rows| > 0 && forall i :: 0 <= i < |rows| ==> !CellRejected(rows[i].0) && !CellRejected(rows[i].1)
  }

  /** The first table of `logResult`: where the manifest goes and which
      files were merged. */
  function SummaryRows(path: string, files: seq<string>, host: Host): (r: seq<(string, string)>)
    ensures |r| == 2 && r[1].1 == Join(files, "\n")
  {
    [("Manifest file saved at", host.join(host.cwd, path)), ("Merged files", Join(files, "\n"))]
  }

  /** One row of the member table: the category with its member count, and
      its members one per line, in insertion order. */
  function MemberRow(c: PC.Controller, name: string): (string, string)
    requires CI.Valid(c.members)
  {
    var items := PC.GetMemberItens(c, name);
    (name + " (" + NatToString(|items|) + ")", Join(items, "\n"))
  }

  /** The second table of `logResult`: one row per category, in
      `membersNames` order. It has no row exactly when the merge produced no
      category. */
  function MemberRows(c: PC.Controller): (r: seq<(string, string)>)
    requires CI.Valid(c.members)
    ensures var names := PC.MembersNames(c);
      && |r| == |names|
      && (|r| == 0 <==> !PC.HasItens(c))
      && forall i :: 0 <= i < |r| ==> r[i] == MemberRow(c, names[i])
  {
    var names := PC.MembersNames(c);
    NamesCountCategories(c);
    seq(|names|, i requires 0 <= i < |names| => MemberRow(c, names[i]))
  }

  /** `membersNames` lists each category once. */
  lemma NamesCountCategories(c: PC.Controller)
    requires CI.Valid(c.members)
    ensures |PC.MembersNames(c)| == CI.Size(c.members)
  {
    var names := PC.MembersNames(c);
    assert |multiset(names)| == |multiset(CI.Keys(c.members))|;
  }

  /** `logResult` draws both tables without throwing. */
  predicate ReportAccepted(c: PC.Controller, path: string, files: seq<string>, host: Host)
    requires CI.Valid(c.members)
  {
    TableAccepts(SummaryRows(path, files, host)) && TableAccepts(MemberRows(c))
  }

  /** A refused character inside a member name reaches its cell, so the
      member table is refused. */
  lemma MemberControlIsRejected(c: PC.Controller, k: nat, m: nat, j: nat)
    requires CI.Valid(c.members)
    requires k < |PC.MembersNames(c)|
    requires var items := PC.GetMemberItens(c, PC.MembersNames(c)[k]);
      m < |items| && j < |items[m]| && IsTableControl(items[m][j]) && items[m][j] != '\r'
    ensures !TableAccepts(MemberRows(c))
  {
    var items := PC.GetMemberItens(c, PC.MembersNames(c)[k]);
    var cell := MemberRows(c)[k].1;
    assert cell == Join(items, "\n");
    var i := JoinKeepsChars(items, "\n", m, j);
    assert IsTableControl(cell[i]);
  }

  /** What `run` does with the merged controller: log the result, which
      throws when `table` refuses it, then ask before writing and render. */
  function Finish(c: PC.Controller, path: string, files: seq<string>, force: bool, host: Host): (r: Outcome)
    requires PC.Invariant(c)
    ensures r.Failed? <==> !ReportAccepted(c, path, files, host)
    ensures r.Failed? ==> r.error == ReportRejected
    ensures r.Declined? ==> r.merged == c && !(force || host.confirmCreate)
    ensures r.Written? ==> r == Written(path, PC.BuildFile(c)) && (force || host.confirmCreate)
    ensures r != Cancelled
  {
    if !ReportAccepted(c, path, files, host) then Failed(ReportRejected)
    else if !(force || host.confirmCreate) then Declined(c)
    else Written(path, PC.BuildFile(c))
  }

  /** The last stage of `run`: merge the files, log the result, ask before
      writing, and render the merged manifest. */
  function MergeInto(path: string, files: seq<string>, force: bool, host: Host): (r: Outcome)
    requires |path| > 0 && |files| > 0
    ensures r.Written? ==> r.path == path && (force || host.confirmCreate)
    ensures r.Written? || r.Declined? ==> PC.Invariant(r.merged)
    ensures r.Failed? ==> r.error.ConcatFailed? || r.error == ReportRejected
    ensures r.Written? || r.Declined? ==> PC.HasItens(r.merged)
    ensures r != Cancelled
  {
    var c0 := PC.New(host.apiVersion);
    assert PC.Invariant(c0) by {
      PC.NewIsEmpty(host.apiVersion);
    }
    var concat := PC.ConcatFile(c0, Inputs(files, host.load));
    if concat.1.Some? then Failed(ConcatFailed(concat.1.value))
    else Finish(concat.0, path, files, force, host)
  }

  /** A merge that accepts no member at all leaves `logResult` an empty
      member table, which `table` refuses: nothing is asked and nothing is
      written. */
  lemma EmptyMergeIsRejected(path: string, files: seq<string>, force: bool, host: Host)
    requires |path| > 0 && |files| > 0
    requires var concat := PC.ConcatFile(PC.New(host.apiVersion), Inputs(files, host.load));
      concat.1.None? && !PC.HasItens(concat.0)
    ensures MergeInto(path, files, force, host) == Failed(ReportRejected)
  {
  }

  /** `run` after `handleOutputName` decided whether to go on. */
  function RunAfter(proceed: bool, flags: Flags, host: Host): (r: Outcome)
    ensures !proceed <==> r == Cancelled
    ensures r.Written? ==> EndsWith(r.path, XmlSuffix) && (flags.force || host.confirmCreate)
    ensures r.Written? || r.Declined? ==> PC.Invariant(r.merged)
    ensures r != Failed(NoOutputPath) && r != Failed(NoInputFile)
  {
    var path := OutputPath(HandleFlags(flags.output), host.sep, host.mergedPath, host.join);
    if !proceed then Cancelled
    else
      match HandleInputFiles(flags.files, flags.force, host.cwd, host.join, host.picked)
      case Failure(e) => Failed(e)
      case Success(files) => RunFiles(path, files, flags.force, host)
  }

  /** `run` once the output path and the input files are settled: the two
      guards that precede the merge, then the merge. */
  function RunFiles(path: string, files: seq<string>, force: bool, host: Host): (r: Outcome)
    ensures r == Failed(NoOutputPath) <==> |path| == 0
    ensures r == Failed(NoInputFile) <==> |path| > 0 && |files| == 0
    ensures r.Written? ==> r.path == path && (force || host.confirmCreate)
    ensures r.Written? || r.Declined? ==> PC.Invariant(r.merged)
    ensures r != Cancelled
  {
    if |path| == 0 then Failed(NoOutputPath)
    else if |files| == 0 then Failed(NoInputFile)
    else MergeInto(path, files, force, host)
  }

  /** `run` as written. */
  function RunAsWritten(flags: Flags, host: Host): Outcome {
    RunAfter(ProceedAsWritten(host.outputExists, flags.force, host.confirmReplace), flags, host)
  }

  /** `run` with the intended replace rule. */
  function Run(flags: Flags, host: Host): Outcome {
    RunAfter(Proceed(host.outputExists, flags.force, host.confirmReplace), flags, host)
  }

  /** As written, a merge into a path that does not exist yet is always
      cancelled, whatever the flags and inputs. */
  lemma RunAsWrittenNeverCreates(flags: Flags, host: Host)
    requires !host.outputExists
    ensures RunAsWritten(flags, host) == Cancelled
  {
  }

  /** With the intended rule a new output path is never a reason to cancel,
      and for an existing one both versions behave alike. */
  lemma RunCreatesNewOutput(flags: Flags, host: Host)
    ensures !host.outputExists ==> Run(flags, host) != Cancelled
    ensures host.outputExists ==> Run(flags, host) == RunAsWritten(flags, host)
  {
  }

  /** When the last stage writes, every input was mergeable and the written
      manifest renders all their pairs. */
  lemma MergeIntoWrites(path: string, files: seq<string>, force: bool, host: Host)
    requires |path| > 0 && |files| > 0
    requires MergeInto(path, files, force, host).Written?
    ensures var inputs := Inputs(files, host.load);
      && (forall i :: 0 <= i < |inputs| ==> PC.Mergeable(inputs[i]))
      && MergeInto(path, files, force, host).merged == PC.BuildFile(PC.AddAll(PC.New(host.apiVersion), PC.AllPairs(inputs)))
  {
    var inputs := Inputs(files, host.load);
    var c0 := PC.New(host.apiVersion);
    PC.ConcatFileSucceedsOnlyIfMergeable(c0, inputs);
    PC.ConcatFileMergesAll(c0, inputs);
  }

  /** A written manifest holds exactly the blocks rendered from a fresh
      controller fed with every normalised input file, in order. */
  lemma RunWritesEveryInput(flags: Flags, host: Host)
    requires flags.files.Some? && |flags.files.value| > 0
    requires Run(flags, host).Written?
    ensures var inputs := Inputs(NormaliseFiles(flags.files.value, host.cwd, host.join), host.load);
      && (forall i :: 0 <= i < |inputs| ==> PC.Mergeable(inputs[i]))
      && Run(flags, host).merged == PC.BuildFile(PC.AddAll(PC.New(host.apiVersion), PC.AllPairs(inputs)))
  {
    var files := NormaliseFiles(flags.files.value, host.cwd, host.join);
    var path := OutputPath(HandleFlags(flags.output), host.sep, host.mergedPath, host.join);
    RunReachesMerge(flags, host);
    MergeIntoWrites(path, files, flags.force, host);
  }

  /** A run that writes went through the merge of the normalised inputs
      into the resolved output path. */
  lemma RunReachesMerge(flags: Flags, host: Host)
    requires flags.files.Some? && |flags.files.value| > 0
    requires Run(flags, host).Written?
    ensures var files := NormaliseFiles(flags.files.value, host.cwd, host.join);
      var path := OutputPath(HandleFlags(flags.output), host.sep, host.mergedPath, host.join);
      && |path| > 0 && |files| > 0
      && Run(flags, host) == MergeInto(path, files, flags.force, host)
  {
    var files := NormaliseFiles(flags.files.value, host.cwd, host.join);
    var path := OutputPath(HandleFlags(flags.output), host.sep, host.mergedPath, host.join);
    assert HandleInputFiles(flags.files, flags.force, host.cwd, host.join, host.picked) == Success(files);
    assert Run(flags, host) == RunFiles(path, files, flags.force, host);
  }
}
