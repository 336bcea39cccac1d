# ApexCopilot manifest merger — a Dafny model

ApexCopilot is a command-line tool for Salesforce projects. Its core merges
several `package.xml` manifests into one. Each manifest lists metadata
categories (`<types>` with a `<name>`) and, per category, member names
(`<members>`). This project models that merger and the small pure rules
around it, and proves properties of the model:

- `CaseInsensitiveMap` (`case_insensitive_map.dfy`, built on the
  insertion-ordered `Map` of `js_map.dfy`). It is a map whose string keys
  are compared after lower-casing. A second map records, for each folded
  key, the casing last passed to `set`, which `keys()` shows.
- `PackageController` (`package_controller.dfy`). It covers
  `addMemberItem`, `hasItens`, `membersNames`, `buildFile` up to the XML
  encoder, `getMemberItens`, and `concatFile` / `xml2json`. Those two read
  the decoded manifest, whose shape `manifest.dfy` models.
- What a whole merge computes (`merge_semantics.dfy`). For each category,
  the result is the set of accepted members, and it does not depend on the
  order of the inputs.
- The `package merge` command (`merge_command.dfy`). It covers output-name
  and input-list normalisation, and the order in which `run` consults
  them.
- The `project config` flag resolution (`project_config.dfy`),
  `removeOrgItemOption` (`sfdx.dfy`), the file-picker rules
  (`select_files.dfy`), and `prettyNum` / `capitalize` (`utils.dfy`).
- Shared pieces:
  - `wrappers.dfy`: `Option`, `Result`, and the JavaScript "one value or
    an array" shape.
  - `js_strings.dfy`: `trim`, ASCII lower/upper case, `split`, `join`,
    `String(n)`.
  - `ordering.dfy`: the ordinal order of the default `sort()`, sorting by
    a key, and `[...new Set(xs)]`.

Modelling conventions:

- A JavaScript `Set<string>` is a duplicate-free sequence in insertion
  order.
- `undefined` and `null` are `None`.
- An exception the source throws (`logger.error(..., 'EXCEPTION')`, or a
  `TypeError` from reading a property of `undefined`) is a `Failure` or an
  error value.
- Mutation is modelled by returning the new value.
- The file system, prompts, the working directory and `path.join` are
  parameters.

## Behaviours worth knowing

Facts about the merger that a reader of its code might not expect:

- **Display casing.** A category is shown under the casing passed to the
  latest `set` for it (src/helpers/map.ts:47).
  - `addMemberItem` calls `set` when it creates a category, and again when
    a wildcard replaces its members (src/helpers/package.ts:57-65).
  - So a later `"*"` under another casing renames the category
    (`PackageController.WildcardReplaces`).
  - A concrete member keeps the existing casing
    (`PackageController.ConcreteInsert`).
- **Member comparison.** Members are compared case-sensitively
  (src/helpers/package.ts:67) and rendered with the code-unit `sort()`
  (src/helpers/package.ts:81).
  - Merging `ApexClass: Foo, Bar` with `ApexClass: bar, Baz` keeps both
    `Bar` and `bar`.
- **Empty-input guard.** The guard runs before trimming
  (src/helpers/package.ts:53-55). A member made only of white space is
  accepted and stored as the empty string
  (`PackageController.BlankItemIsStored`).
- **Input order.** The member sets do not depend on the order of the
  input files (`MergeSemantics.MergeIsOrderFree`); the display casing
  does.
- **Empty merges.** A merge that accepts no member (every `<types>`
  block without `<members>`, say) does not write an empty manifest.
  `logResult` hands `table` an empty list, which throws before the
  confirmation (`MergeCommand.EmptyMergeIsRejected`).
- **`hasItens`.** It counts categories rather than members
  (src/helpers/package.ts:45).

## Model

| member | source | states |
|---|---|---|
| CaseInsensitiveMap.Get | src/helpers/map.ts:33-39 | `get` finds a value exactly when `has` holds, under any casing of the key |
| CaseInsensitiveMap.Set | src/helpers/map.ts:45-50 | after `set(k, v)`, `get` of any casing of `k` gives `v`; every other identity is untouched; size grows only for a new identity |
| CaseInsensitiveMap.SetDisplay | src/helpers/map.ts:45-50 | after `set(k, v)` the identity is displayed as `k` (the latest casing); other display keys are unchanged |
| CaseInsensitiveMap.SetKeysOrder | src/helpers/map.ts:41-49 | `keys()` after `set`: an existing identity keeps its place with the new casing; a new one is appended; nothing is reordered |
| CaseInsensitiveMap.SetTwiceOneEntry | src/helpers/map.ts:45-50 | `set("Foo", a)` then `set("foo", b)` leaves one entry, holding `b`, displayed as `foo` |
| CaseInsensitiveMap.Keys | src/helpers/map.ts:41-43 | `keys()` yields one display key per stored identity, in the store's order |
| CaseInsensitiveMap.KeysDistinct | src/helpers/map.ts:41-47 | `keys()` never repeats a key |
| CaseInsensitiveMap.IdentitiesDistinct | src/helpers/map.ts:41-47 | no two keys of `keys()` fold to the same identity |
| CaseInsensitiveMap.KeyFoldsUnique | src/helpers/map.ts:41-47 | two keys of `keys()` with the same lower-case form are the same key |
| CaseInsensitiveMap.Values | src/helpers/map.ts:1-2 | the inherited `values()` pairs up with `keys()`: the i-th value is what `get` returns for the i-th key |
| CaseInsensitiveMap.Delete | src/helpers/map.ts:18-23 | `delete` under any casing removes the identity, reports whether it was there, leaves every other entry, and changes nothing when absent |
| CaseInsensitiveMap.DeleteDisplay | src/helpers/map.ts:18-23 | `delete` also removes the display key, so `keys()` loses exactly that position; other display keys are unchanged |
| CaseInsensitiveMap.Clear | src/helpers/map.ts:13-16 | `clear` empties both the values and the display keys |
| CaseInsensitiveMap.Entries | src/helpers/map.ts:25-31 | `entries()` yields exactly `size` pairs, each a display key with the value stored under it |
| CaseInsensitiveMap.Empty | src/helpers/map.ts:4-11 | the constructor without an iterable gives a map with no entries |
| CaseInsensitiveMap.ConstructorOrder | src/helpers/map.ts:4-11 | the constructor with pairs keeps one identity per distinct folded key, in first-occurrence order |
| CaseInsensitiveMap.ReplayMatchesHistory | src/helpers/map.ts:13-50 | after any sequence of `set`/`delete`/`clear`: `has(k)` holds iff some casing of `k` was set and not later deleted or cleared; `get` returns the latest such value; the display key is the latest such casing |
| CaseInsensitiveMap.UpdateInPlace | src/helpers/package.ts:61-67 | mutating the set that `get` returned changes that identity's value only, and neither the display keys nor their order |
| JsMap.Put | src/helpers/map.ts:47-49 | the built-in `Map.set` overwrites in place and appends only new keys |
| JsMap.Remove | src/helpers/map.ts:20-22 | the built-in `Map.delete` drops the key from the entries and from the order, and reports whether it was present |
| JsMap.PutValues | src/helpers/map.ts:47-49 | the built-in `Map.set` replaces an existing key's value at its place in `values()` and appends a new key's value |
| JsMap.RemoveValues | src/helpers/map.ts:20-22 | the built-in `Map.delete` takes the key's value out of `values()`, the rest closing up in order |
| JsStrings.TrimSpec | src/helpers/package.ts:54-55 | `trim()` leaves no white space at either end, never grows, is the identity on trimmed text, and yields `""` exactly for all-white-space text |
| JsStrings.JoinSplit | src/commands/package/merge.ts:96 | splitting on a character and joining back gives the input |
| JsStrings.SplitJoin | src/commands/package/merge.ts:96 | joining separator-free pieces and splitting again gives the pieces |
| JsStrings.ParsePrinted | src/helpers/utils.ts:6 | `String(n)` of a natural number below 10^21 (printed as a plain decimal) reads back as `n` |
| Ordering.SortBy | src/helpers/package.ts:48-50 | sorting by a key yields an ordered permutation of the input |
| Ordering.Dedup | src/commands/package/merge.ts:98 | `[...new Set(xs)]` keeps exactly the elements of `xs`, once each, and keeps a sorted list sorted |
| Ordering.SortedSetUnique | src/commands/package/merge.ts:98 | two sorted duplicate-free lists with the same elements are equal |
| Manifest.AsList | src/helpers/package.ts:114-120 | a scalar `types`/`members` becomes a one-element list, an array stays, a missing one becomes `[undefined]` |
| Manifest.TypePairs | src/helpers/package.ts:118-125 | each member of a block yields the pair (`name?._text`, `member?._text`), in order |
| Manifest.DocumentPairs | src/helpers/package.ts:114-125 | a missing `<Package>` or `<types>` throws; otherwise the pairs of the block(s) in document order |
| Manifest.StrictTypePairs | src/helpers/package.ts:143-146 | `xml2json`'s unguarded reads throw exactly when a block with members lacks `<name>` or `<members>` |
| Manifest.StrictAgreesWithGuarded | src/helpers/package.ts:135-151 | where `xml2json`'s reads succeed, they feed exactly the pairs `concatFile` feeds |
| PackageController.AddMemberItem | src/helpers/package.ts:52-71 | a missing or empty name or item (checked before trimming) changes nothing; the registry stays well formed |
| PackageController.AddStep | src/helpers/package.ts:52-71 | an accepted insert stores, under the trimmed name, the old set updated by the item (absorbed by the wildcard), and touches no other category |
| PackageController.AddPreservesInvariant | src/helpers/package.ts:57-68 | every stored member set stays non-empty and duplicate-free, and a set holding `"*"` stays exactly `["*"]` |
| PackageController.AddEffect | src/helpers/package.ts:57-68 | as sets: the category found case-insensitively holds old members ∪ {trimmed item}, collapsed to {"*"} when the wildcard is present |
| PackageController.WildcardIsFinal | src/helpers/package.ts:61-63 | once a category holds `"*"`, inserts under any casing and with any item change nothing |
| PackageController.WildcardReplaces | src/helpers/package.ts:64-65 | a trimmed `"*"` replaces the set by `["*"]`, makes the trimmed name the display key, and leaves other categories alone |
| PackageController.ConcreteInsert | src/helpers/package.ts:54-67 | a concrete item is added case-sensitively to the category found case-insensitively; an existing category keeps its display key |
| PackageController.BlankItemIsStored | src/helpers/package.ts:53-55 | the guard runs before the trim, so a white-space item is stored as `""` |
| PackageController.HasItens | src/helpers/package.ts:44-46 | `hasItens` is true iff there is at least one category |
| PackageController.HasItensCountsMembers | src/helpers/package.ts:44-46 | under the invariant this agrees with "some category has a member" |
| PackageController.MembersNames | src/helpers/package.ts:48-50 | `membersNames` is the display keys, reordered by their lower-case forms |
| PackageController.MembersNamesStrict | src/helpers/package.ts:48-50 | the names are strictly increasing by lower-case form |
| PackageController.RenderMembers | src/helpers/package.ts:81-85 | a block's members are the set sorted by code unit, or `["*"]` when the wildcard is present |
| PackageController.RenderMembersOfSet | src/helpers/package.ts:81-85 | for a well-formed set the rendered members are sorted, duplicate-free and the same elements |
| PackageController.TypesForAllNonEmpty | src/helpers/package.ts:76-89 | with no empty category, one block per name in the given order, named by that name |
| PackageController.BuildFile | src/helpers/package.ts:73-92 | `buildFile` appends to `file.Package.types` and keeps every earlier block |
| PackageController.BuildFileContents | src/helpers/package.ts:73-92 | under the invariant, it appends exactly one block per category, in `membersNames` order, rendering that category's stored set |
| PackageController.BuildFileTwiceDuplicates | src/helpers/package.ts:87 | a second `buildFile` appends the same blocks again |
| PackageController.GetMemberItens | src/helpers/package.ts:130-132 | `getMemberItens` returns the stored set, or an empty one exactly when the category is absent |
| PackageController.FileList | src/helpers/package.ts:95-96 | a missing argument or the empty path is no file, any other single path a one-element list, an array is kept as given |
| PackageController.EmptyPathMergesNothing | src/helpers/package.ts:95-98 | `concatFile("")` leaves the controller unchanged and reports no error |
| PackageController.ConcatFile | src/helpers/package.ts:94-128 | `concatFile` keeps the registry well formed; the first missing, undecodable or ill-shaped file stops it with an error |
| PackageController.ConcatFileMergesAll | src/helpers/package.ts:98-127 | with every file readable, the pairs of all files are fed to `addMemberItem` in order and no error is reported |
| PackageController.ConcatFileSucceedsOnlyIfMergeable | src/helpers/package.ts:98-112 | no error is reported only when every file exists, decodes and is well shaped |
| PackageController.ConcatFileStopsAtFailure | src/helpers/package.ts:98-112 | at the first bad file, exactly the earlier files' pairs have been merged and an error is reported |
| PackageController.AddAllAppend | src/helpers/package.ts:118-126 | feeding `a + b` is feeding `a`, then `b` |
| PackageController.Xml2Json | src/helpers/package.ts:135-151 | the standalone `xml2json` yields a well-formed fresh controller, or throws (always when `<Package>` is missing) |
| PackageController.Xml2JsonAgreesWithConcat | src/helpers/package.ts:135-151 | where `xml2json` succeeds it builds the same controller that `concatFile` builds from that document, with no error |
| MergeSemantics.MergedMembers | src/helpers/package.ts:52-71 | after merging any pairs, a category exists iff some pair was accepted into it, and holds the absorbed set of the accepted trimmed members |
| MergeSemantics.MergeIsOrderFree | src/helpers/package.ts:52-71 | merging the same pairs in any order or grouping gives the same categories with the same members |
| MergeSemantics.AdmittedIsSetOfAccepted | src/helpers/package.ts:53-55 | the accepted members of a category are those of the pairs that pass the guard, whatever their order |
| MergeCommand.HandleFlags | src/commands/package/merge.ts:80-89 | the output name is trimmed, or `mergedPackage` when nothing is left |
| MergeCommand.HandleFlagsIdempotent | src/commands/package/merge.ts:83-86 | resolving a resolved name changes nothing |
| MergeCommand.Placed | src/commands/package/merge.ts:115-117 | a single-segment name goes under `manifest.mergedPath`; a multi-segment one is kept |
| MergeCommand.OutputPath | src/commands/package/merge.ts:111-119 | the output ends with `.xml`, and `.xml` is added only when missing |
| MergeCommand.OutputPathIdempotent | src/commands/package/merge.ts:115-119 | a path with a directory part is neither re-prefixed nor suffixed twice |
| MergeCommand.OutputPathFixedPoint | src/commands/package/merge.ts:115-119 | a `.xml` path with a directory part is kept as it is |
| MergeCommand.SplitAll | src/commands/package/merge.ts:96 | no piece of the split file list contains a comma |
| MergeCommand.SplitAllPieces | src/commands/package/merge.ts:96 | the split list holds exactly the pieces of the given values |
| MergeCommand.NormaliseFiles | src/commands/package/merge.ts:94-98 | the file list is strictly sorted, duplicate-free, and holds exactly `join(cwd, piece)` for every comma-separated piece |
| MergeCommand.NormaliseFilesOrderFree | src/commands/package/merge.ts:94-98 | the list depends only on which pieces were given |
| MergeCommand.HandleInputFiles | src/commands/package/merge.ts:91-109 | given files are normalised, else the prompt's picks are used unless `--force`; fewer than 2 files is an error |
| MergeCommand.MergeInto | src/commands/package/merge.ts:59-75 | the merge stage never cancels; it fails only when `concatFile` fails or `logResult`'s tables throw, and it writes to the resolved path only when forced or confirmed; what it writes or declines always has a category |
| MergeCommand.MemberRows | src/commands/package/merge.ts:145-150 | one row per category in `membersNames` order, with its count and its members one per line; no row exactly when the merge produced no category |
| MergeCommand.Finish | src/commands/package/merge.ts:63-75 | `logResult` throws exactly when `table` refuses its data; otherwise the file is written when forced or confirmed, and the merge is declined otherwise |
| MergeCommand.EmptyMergeIsRejected | src/commands/package/merge.ts:145-152 | a merge that accepts no member ends in `table([])` throwing: nothing is asked and nothing is written |
| MergeCommand.MemberControlIsRejected | src/commands/package/merge.ts:149-152 | a control character such as a tab inside a member name reaches its cell, so the member table is refused |
| JsStrings.JoinKeepsChars | src/commands/package/merge.ts:149 | `join` keeps every character of every part at some position of the result |
| MergeCommand.MergeIntoWrites | src/commands/package/merge.ts:59-74 | when the stage writes, every input was mergeable and the written manifest renders all their pairs |
| MergeCommand.Proceed | src/commands/package/merge.ts:121-129 | intended rule: a new output proceeds; an existing one needs `--force` or confirmation |
| MergeCommand.ProceedDiffersOnlyForNewFiles | src/commands/package/merge.ts:112-129 | the written and intended rules agree exactly when the output exists |
| MergeCommand.RunAfter | src/commands/package/merge.ts:44-75 | `run` cancels iff told not to proceed; a written file ends in `.xml`, was confirmed or forced, and holds a well-formed merge; the empty-output and empty-list checks never fire |
| MergeCommand.RunAsWrittenNeverCreates | src/commands/package/merge.ts:44-47 | as written, a merge into a path that does not exist is always cancelled |
| MergeCommand.RunCreatesNewOutput | src/commands/package/merge.ts:44-47 | with the intended rule a new path is never a reason to cancel; for an existing path both rules agree |
| MergeCommand.RunWritesEveryInput | src/commands/package/merge.ts:59-74 | a written merge renders a fresh controller fed with every normalised input file, in order |
| ProjectConfig.CheckPathVar | src/commands/project/config.ts:81-93 | the result starts with `./`; a given value is trimmed, and nothing left means the default |
| ProjectConfig.CheckPathVarIdempotent | src/commands/project/config.ts:81-93 | feeding the result back in returns it unchanged |
| ProjectConfig.UnprefixedPathGainsPrefix | src/commands/project/config.ts:90-92 | a value without `./` gets it and is otherwise kept (`test/custom/loggin/path` → `./test/custom/loggin/path`) |
| ProjectConfig.AbsolutePathIsPrefixed | src/commands/project/config.ts:90-92 | an absolute path is prefixed too (`/var/log` → `.//var/log`) |
| ProjectConfig.ResolveWith | src/commands/project/config.ts:42-79 | every resolved path starts with `./` |
| ProjectConfig.PlainFlagsAreCopied | src/commands/project/config.ts:42-56 | without either mode, booleans are copied and each path comes from its own flag |
| ProjectConfig.QuietModeImpliesForce | src/commands/project/config.ts:58-61 | `quietMode` forces `force`, and sets `ignoreMissingPaths` only when undefined |
| ProjectConfig.AutoGenerateFixesFlags | src/commands/project/config.ts:63-77 | `autoGenerate` fixes every boolean and the three project paths, and keeps the resolved log path |
| ProjectConfig.LogPathNeverFallsBack | src/commands/project/config.ts:53-78 | in every mode the log path is exactly `checkPathVar`'s result: the `\|\| DEFAULT_LOG_PATH` fallback at line 73 never fires |
| ProjectConfig.BlankPackagePathAsWritten | src/commands/project/config.ts:53-56 | as written, a blank `--package-path` resolves to `./logs` |
| ProjectConfig.BlankPathsGetTheirDefaults | src/commands/project/config.ts:10-13 | with each path's own default, a blank path flag resolves to that default |
| Sfdx.FindIndex | src/helpers/sfdx.ts:21 | `findIndex` gives the first match, or -1 exactly when nothing matches |
| Sfdx.Splice1 | src/helpers/sfdx.ts:23 | `splice(start, 1)` removes the element at the resolved start (-1 is the last) and keeps the rest in order |
| Sfdx.Splice1Multiset | src/helpers/sfdx.ts:23 | the removal keeps every other element |
| Sfdx.RemoveOrgItemOption | src/helpers/sfdx.ts:19-25 | a null list, or a null or empty alias, leaves the list unchanged |
| Sfdx.RemovesFirstMatch | src/helpers/sfdx.ts:20-23 | with a listed alias exactly its first choice is removed, the others keep their order |
| Sfdx.UnlistedAliasDropsLast | src/helpers/sfdx.ts:21-23 | with an unlisted alias the last choice is removed |
| Sfdx.RemovesExactlyOne | src/helpers/sfdx.ts:23 | a non-empty list with a non-empty alias loses exactly one choice |
| SelectFiles.SortMethod | src/helpers/prompt/select-files.ts:27-36 | files sort before other entries, and entries of the same kind compare equal |
| SelectFiles.SortMethodAntisymmetric | src/helpers/prompt/select-files.ts:27-36 | swapping the arguments negates the result |
| SelectFiles.FilesFirstIsSorted | src/helpers/prompt/select-files.ts:27-36 | files then other entries, each in original order, is ordered by the comparator and a permutation |
| SelectFiles.ExtName | src/helpers/prompt/select-files.ts:44 | the extension is empty or a `.` plus a dot-free suffix of the name |
| SelectFiles.ExtNameOfStem | src/helpers/prompt/select-files.ts:44 | `stem.ext` has extension `.ext` |
| SelectFiles.AllowedExtensions | src/helpers/prompt/select-files.ts:39-40 | a missing or empty-string filter is no filter; a scalar becomes a one-element list |
| SelectFiles.FilterMethod | src/helpers/prompt/select-files.ts:38-47 | directories always pass, and everything passes an empty filter |
| SelectFiles.FilterByExtension | src/helpers/prompt/select-files.ts:44-46 | a file `stem.ext` passes iff the filter lists `.ext` or `ext` |
| SelectFiles.FilterWithoutExtension | src/helpers/prompt/select-files.ts:44-46 | a file without extension passes only a filter listing `""` |
| SelectFiles.MinimumSelection | src/helpers/prompt/select-files.ts:109 | a missing, zero or negative minimum becomes 1; a positive one is kept |
| SelectFiles.MinimumSelectionIdempotent | src/helpers/prompt/select-files.ts:109 | applying the default twice changes nothing |
| SelectFiles.Validate | src/helpers/prompt/select-files.ts:138-153 | `validate` accepts iff the selection reaches the minimum; a rejection is a trimmed message starting `Select at least` |
| Utils.PrettyNum | src/helpers/utils.ts:5-7 | below ten (from 0) a `0` and the digit; from ten on the plain decimal (which is what `String(n)` prints below 10^21) |
| Utils.PrettyNumRoundTrip | src/helpers/utils.ts:5-7 | every natural prints with at least two digits and reads back as itself (in JavaScript, below 10^21) |
| Utils.PrettyNumNegative | src/helpers/utils.ts:6 | a negative number gets a `0` in front of its minus sign |
| Utils.Capitalize | src/helpers/utils.ts:68-70 | length and every character after the first are kept; the first is upper-cased; `""` stays `""` |
| Utils.CapitalizeIdempotent | src/helpers/utils.ts:68-70 | capitalising twice is capitalising once |
| Utils.CapitalizeKeepsFold | src/helpers/utils.ts:68-70 | capitalising keeps the lower-case form |

## Left out

- Text handling:
  - `toLowerCase` and `toUpperCase` are ASCII-only.
  - `localeCompare` and `sort()` are ordinal comparison on characters.
  - Unicode case mappings, collation and the UTF-16 code-unit order of
    supplementary characters are not modelled.
- The XML encoder and decoder (`xml-js`, src/helpers/package.ts:91, 109,
  138) are not modelled:
  - a decoded document is an input;
  - `buildFile` stops at the object handed to `json2xml`;
  - the fixed `<?xml ...?>` declaration of `file` is not represented.
- File-system access is a parameter of the model:
  - existence checks, reads, writes and `mkdirSync` (src/helpers/package.ts:99-101,
    src/commands/package/merge.ts:67-74, 121);
  - `listFilesAsTree`;
  - `getMissingProjectRequiredPaths`.
- Prompts are answers given as parameters:
  - `confirm` and `selectFiles`;
  - `selectFileOrDirPath` apart from its defaulting and `validate`;
  - the `project config` wizard.
- Logging and console output are presentation.
  - `logger.error(..., 'EXCEPTION')` is an error result.
  - Of `logResult` (src/commands/package/merge.ts:131-152), the model keeps
    what can stop `run`. The `table` package throws on data with no row, or
    on a cell holding a control character (U+0001–U+0006, U+0008, U+0009 or
    U+000B–U+001A, after CR LF is read as LF). The table layout is not
    modelled. The `table` package is not part of this model; its data check
    is stated as that package's `validateTableData` performs it.
- External collaborators:
  - `listDeviceOrgsAsSelectOption` calls the Salesforce core library;
  - `cli-config.getConfig` reads a JSON file, so the API version and
    `manifest.mergedPath` are parameters;
  - `getTimeStamp` reads the clock.
- `path.join` is an arbitrary function, `path.sep` a character, and
  `process.cwd()` a string.
- `path.extname` is modelled for names without `/`, which directory entries
  always are.
- CaseInsensitiveMap: non-string keys are not modelled. The source passes
  them through unfolded, and every caller uses strings.
- PackageController.AddMemberItem: its own contract states only the guard
  and well-formedness. What an accepted insert does is stated by `AddStep`,
  `AddEffect`, `WildcardIsFinal`, `WildcardReplaces` and `ConcreteInsert`.
- PackageController.TypesFor: only the case with no empty category is
  characterised. Under the invariant every category is non-empty, so the
  empty-category skip never fires.
- Sfdx.RemoveOrgItemOption: an `undefined` alias throws a `TypeError` in
  the source (`undefined.length`). It is not modelled: `None` stands for
  `null` only.
- Sfdx: the `Prompt.Choice` interface is not part of this model. A choice
  is taken to be a `name` and a string `value`, as
  `listDeviceOrgsAsSelectOption` builds them.
- Utils.PrettyNum: numbers are integers below 10^21. From there `String(n)`
  uses exponent notation (`1e+21`), and above 2^53 a JavaScript number is
  not every integer, so the model's plain decimal holds only below 10^21.
  Fractions and `NaN` are not modelled. The only callers pass clock fields,
  which are below 60.
- Utils.PrettyNumRoundTrip: the read-back holds in JavaScript only below
  10^21, for the same reason.
- JsStrings.ParsePrinted: `NatToString` is JavaScript's `String(n)` only
  for integers below 10^21; above that the read-back is a fact about the
  model's decimal printer alone.
- Utils.Capitalize: special case mappings that change length (such as
  `ß` → `SS`) are not modelled.
- Boolean flags of `project config` are `Option<bool>`. The command's flag
  table gives every flag a default, so `undefined` arises only for direct
  callers of the constructor.

## Findings

| source | as written | input that shows it | evidently intended | confidence | as-written member | corrected member |
|---|---|---|---|---|---|---|
| src/commands/package/merge.ts:111-130 | `replaceFile` starts `false` and is assigned only when the output file exists, so `run` cancels at lines 44-47 | `package merge -f a.xml,b.xml -o new` where `manifest/merged/new.xml` does not exist: "Operation cancelled by user" and no file is written | a new output path proceeds; an existing one needs `--force` or confirmation | high (not executed) | MergeCommand.RunAsWrittenNeverCreates | MergeCommand.RunCreatesNewOutput |
| src/commands/project/config.ts:53-56 | all four `checkPathVar` calls pass `DEFAULT_LOG_PATH` as the default | `project config --package-path=" "` resolves the package path to `./logs` | each path falls back to its own default (`./package`, `./manifest`, `./manifest/merged`) | high (not executed) | ProjectConfig.BlankPackagePathAsWritten | ProjectConfig.BlankPathsGetTheirDefaults |
