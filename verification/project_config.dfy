/** Flag resolution of the `project config` command
    (`CommandScopeFlags` in src/commands/project/config.ts): every path flag
    is trimmed, defaulted and made to start with `./`; `--quiet-mode` and
    `--auto-generate` then override other flags. A boolean the caller left
    undefined is `None`. */
module ProjectConfig {
  import opened Wrappers
  import opened JsStrings

  const DefaultLogPath: string := "./logs"
  const DefaultManifestPath: string := "./manifest"
  const DefaultMergedPath: string := "./manifest/merged"
  const DefaultPackagePath: string := "./package"
  const CurrentDir: string := "./"

  /** JavaScript truthiness of a possibly undefined boolean. */
  predicate Truthy(b: Option<bool>) {
    b == Some(true)
  }

  /** Prefixes `./` unless the path already starts with it. */
  function Relative(p: string): (r: string)
    ensures StartsWith(r, CurrentDir)
    ensures StartsWith(p, CurrentDir) ==> r == p
    ensures !StartsWith(p, CurrentDir) ==> r == CurrentDir + p
  {
    if StartsWith(p, CurrentDir) then p
    else
      assert (CurrentDir + p)[..2] == CurrentDir;
      CurrentDir + p
  }

  /** `checkPathVar(varName, defaultValue, flagValue)`, starting from the
      field's initial `undefined`: a given flag is trimmed, nothing left means
      the default, and the result gets a `./` prefix when it lacks one. */
  function CheckPathVar(fallback: string, flag: Option<string>): (r: string)
    ensures StartsWith(r, CurrentDir)
    ensures flag.Some? && !AllWhiteSpace(flag.value) ==> r == Relative(Trim(flag.value))
    ensures flag.None? || AllWhiteSpace(flag.value) ==> r == Relative(fallback)
  {
    var given := if flag.Some? then Trim(flag.value) else "";
    assert flag.Some? ==> (|given| == 0 <==> AllWhiteSpace(flag.value)) by {
      if flag.Some? {
        TrimSpec(flag.value);
      }
    }
    var chosen := if |given| == 0 then fallback else given;
    Relative(chosen)
  }

  /** Feeding a resolved path back in returns it unchanged, for any trimmed
      default. */
  lemma CheckPathVarIdempotent(fallback: string, flag: Option<string>)
    requires IsTrimmed(fallback)
    ensures CheckPathVar(fallback, Some(CheckPathVar(fallback, flag))) == CheckPathVar(fallback, flag)
  {
    var r := CheckPathVar(fallback, flag);
    var chosen := if flag.Some? && !AllWhiteSpace(flag.value) then Trim(flag.value) else fallback;
    assert r == Relative(chosen);
    assert IsTrimmed(chosen) by {
      if flag.Some? {
        TrimSpec(flag.value);
      }
    }
    RelativeIsTrimmed(chosen);
    GivenPathResolves(fallback, r);
  }

  /** Prefixing a trimmed path keeps it trimmed. */
  lemma RelativeIsTrimmed(p: string)
    requires IsTrimmed(p)
    ensures IsTrimmed(Relative(p))
  {
    var r := Relative(p);
    assert r[0] == '.';
    if !StartsWith(p, CurrentDir) && |p| > 0 {
      assert r[|r| - 1] == p[|p| - 1];
    }
  }

  /** A given path that needs no trimming is used as it is, prefixed. */
  lemma GivenPathResolves(fallback: string, p: string)
    requires |p| > 0 && IsTrimmed(p)
    ensures CheckPathVar(fallback, Some(p)) == Relative(p)
  {
    TrimSpec(p);
    assert !AllWhiteSpace(p) by {
      assert !IsWhiteSpace(p[0]);
    }
  }

  /** A given path without the prefix gains it, and nothing else changes:
      `test/custom/loggin/path` resolves to `./test/custom/loggin/path`. */
  lemma UnprefixedPathGainsPrefix(fallback: string, p: string)
    requires |p| > 0 && IsTrimmed(p) && !StartsWith(p, CurrentDir)
    ensures CheckPathVar(fallback, Some(p)) == CurrentDir + p
  {
    GivenPathResolves(fallback, p);
  }

  /** The prefix test looks only for `./`: an absolute path is prefixed too,
      so `/var/log` resolves to `.//var/log`. */
  lemma AbsolutePathIsPrefixed(fallback: string, p: string)
    requires |p| > 0 && p[0] == '/' && IsTrimmed(p)
    ensures CheckPathVar(fallback, Some(p)) == CurrentDir + p
  {
    assert !StartsWith(p, CurrentDir) by {
      assert p[0] != '.';
    }
    UnprefixedPathGainsPrefix(fallback, p);
  }

  /** The flags the constructor reads. */
  datatype RawFlags = RawFlags(
    force: Option<bool>,
    autoGenerate: Option<bool>,
    quietMode: Option<bool>,
    keepLog: Option<bool>,
    ignoreMissingPaths: Option<bool>,
    overwriteFiles: Option<bool>,
    retrieveUseFullPath: Option<bool>,
    usePackageTimeStamp: Option<bool>,
    logsPath: Option<string>,
    packagePath: Option<string>,
    manifestPath: Option<string>,
    mergedPath: Option<string>)

  /** The resolved `CommandScopeFlags`. */
  datatype ScopeFlags = ScopeFlags(
    autoGenerate: Option<bool>,
    force: Option<bool>,
    ignoreMissingPaths: Option<bool>,
    keepLog: Option<bool>,
    logsPath: string,
    manifestPath: string,
    mergedPath: string,
    overwriteFiles: Option<bool>,
    packagePath: string,
    quietMode: Option<bool>,
    retrieveUseFullPath: Option<bool>,
    usePackageTimeStamp: Option<bool>)

  /** The default handed to `checkPathVar` for each path. */
  datatype PathDefaults = PathDefaults(logs: string, packages: string, manifest: string, merged: string)

  /** As written, every call passes the log directory's default. */
  const DefaultsAsWritten: PathDefaults := PathDefaults(DefaultLogPath, DefaultLogPath, DefaultLogPath, DefaultLogPath)

  /** Each path's own default. */
  const Defaults: PathDefaults := PathDefaults(DefaultLogPath, DefaultPackagePath, DefaultManifestPath, DefaultMergedPath)

  /** The constructor with the given per-path defaults: copy the flags,
      resolve the paths, then apply `quietMode`, then `autoGenerate`. */
  function ResolveWith(flags: RawFlags, d: PathDefaults): (r: ScopeFlags)
    ensures StartsWith(r.logsPath, CurrentDir) && StartsWith(r.packagePath, CurrentDir)
    ensures StartsWith(r.manifestPath, CurrentDir) && StartsWith(r.mergedPath, CurrentDir)
  {
    var copied := ScopeFlags(
      flags.autoGenerate, flags.force, flags.ignoreMissingPaths, flags.keepLog,
      CheckPathVar(d.logs, flags.logsPath),
      CheckPathVar(d.manifest, flags.manifestPath),
      CheckPathVar(d.merged, flags.mergedPath),
      flags.overwriteFiles,
      CheckPathVar(d.packages, flags.packagePath),
      flags.quietMode, flags.retrieveUseFullPath, flags.usePackageTimeStamp);
    var quiet :=
      if Truthy(copied.quietMode) then
        copied.(force := Some(true),
                ignoreMissingPaths := if copied.ignoreMissingPaths.None? then Some(true) else copied.ignoreMissingPaths)
      else copied;
    if Truthy(quiet.autoGenerate) then
      assert StartsWith(DefaultPackagePath, CurrentDir) && StartsWith(DefaultManifestPath, CurrentDir)
        && StartsWith(DefaultMergedPath, CurrentDir);
      quiet.(force := Some(true), ignoreMissingPaths := Some(true), quietMode := Some(true),
             keepLog := Some(true), retrieveUseFullPath := Some(false), usePackageTimeStamp := Some(false),
             overwriteFiles := Some(true),
             logsPath := if |quiet.logsPath| > 0 then quiet.logsPath else DefaultLogPath,
             packagePath := DefaultPackagePath, manifestPath := DefaultManifestPath, mergedPath := DefaultMergedPath)
    else quiet
  }

  /** The constructor as written. */
  function ResolveAsWritten(flags: RawFlags): ScopeFlags {
    ResolveWith(flags, DefaultsAsWritten)
  }

  /** The constructor with each path's own default. */
  function Resolve(flags: RawFlags): ScopeFlags {
    ResolveWith(flags, Defaults)
  }

  /** Without either mode, every flag is copied and every path is resolved
      from its own flag alone. */
  lemma PlainFlagsAreCopied(flags: RawFlags, d: PathDefaults)
    requires !Truthy(flags.quietMode) && !Truthy(flags.autoGenerate)
    ensures var r := ResolveWith(flags, d);
      && r.force == flags.force && r.ignoreMissingPaths == flags.ignoreMissingPaths
      && r.keepLog == flags.keepLog && r.overwriteFiles == flags.overwriteFiles
      && r.retrieveUseFullPath == flags.retrieveUseFullPath
      && r.usePackageTimeStamp == flags.usePackageTimeStamp
      && r.logsPath == CheckPathVar(d.logs, flags.logsPath)
      && r.packagePath == CheckPathVar(d.packages, flags.packagePath)
      && r.manifestPath == CheckPathVar(d.manifest, flags.manifestPath)
      && r.mergedPath == CheckPathVar(d.merged, flags.mergedPath)
  {
  }

  /** `--quiet-mode` implies `--force`, and sets `ignoreMissingPaths` only
      when it was left undefined. */
  lemma QuietModeImpliesForce(flags: RawFlags, d: PathDefaults)
    requires Truthy(flags.quietMode)
    ensures ResolveWith(flags, d).force == Some(true)
    ensures flags.ignoreMissingPaths.None? ==> ResolveWith(flags, d).ignoreMissingPaths == Some(true)
    ensures !Truthy(flags.autoGenerate) && flags.ignoreMissingPaths.Some? ==>
      ResolveWith(flags, d).ignoreMissingPaths == flags.ignoreMissingPaths
  {
  }

  /** `--auto-generate` fixes every boolean and the three project paths to
      their defaults, whatever else was given, and keeps the resolved log
      path. */
  lemma AutoGenerateFixesFlags(flags: RawFlags, d: PathDefaults)
    requires Truthy(flags.autoGenerate)
    ensures var r := ResolveWith(flags, d);
      && r.force == Some(true) && r.ignoreMissingPaths == Some(true) && r.quietMode == Some(true)
      && r.keepLog == Some(true) && r.overwriteFiles == Some(true)
      && r.retrieveUseFullPath == Some(false) && r.usePackageTimeStamp == Some(false)
      && r.packagePath == DefaultPackagePath && r.manifestPath == DefaultManifestPath
      && r.mergedPath == DefaultMergedPath
      && r.logsPath == CheckPathVar(d.logs, flags.logsPath)
  {
  }

  /** In every mode the log path is exactly what `checkPathVar` resolved:
      `autoGenerate` keeps it, and its `|| DEFAULT_LOG_PATH` fallback never
      fires because a resolved path is never empty. */
  lemma LogPathNeverFallsBack(flags: RawFlags, d: PathDefaults)
    ensures ResolveWith(flags, d).logsPath == CheckPathVar(d.logs, flags.logsPath)
  {
    assert |CheckPathVar(d.logs, flags.logsPath)| > 0;
  }

  /** Every default path already carries the `./` prefix. */
  lemma DefaultsArePrefixed()
    ensures StartsWith(DefaultLogPath, CurrentDir) && StartsWith(DefaultPackagePath, CurrentDir)
    ensures StartsWith(DefaultManifestPath, CurrentDir) && StartsWith(DefaultMergedPath, CurrentDir)
  {
    assert DefaultLogPath[..2] == CurrentDir;
    assert DefaultPackagePath[..2] == CurrentDir;
    assert DefaultManifestPath[..2] == CurrentDir;
    assert DefaultMergedPath[..2] == CurrentDir;
  }

  /** A blank flag value resolves to a default that is already prefixed. */
  lemma BlankFlagGivesDefault(fallback: string, flag: Option<string>)
    requires flag.Some? && AllWhiteSpace(flag.value) && StartsWith(fallback, CurrentDir)
    ensures CheckPathVar(fallback, flag) == fallback
  {
    TrimSpec(flag.value);
  }

  /** Outside `autoGenerate`, each path is its own flag resolved against its
      own default. */
  lemma PathsWithoutAutoGenerate(flags: RawFlags, d: PathDefaults)
    requires !Truthy(flags.autoGenerate)
    ensures ResolveWith(flags, d).packagePath == CheckPathVar(d.packages, flags.packagePath)
    ensures ResolveWith(flags, d).manifestPath == CheckPathVar(d.manifest, flags.manifestPath)
    ensures ResolveWith(flags, d).mergedPath == CheckPathVar(d.merged, flags.mergedPath)
    ensures ResolveWith(flags, d).logsPath == CheckPathVar(d.logs, flags.logsPath)
  {
  }

  /** As written, a blank `--package-path` resolves to the log directory. */
  lemma BlankPackagePathAsWritten(flags: RawFlags)
    requires flags.packagePath.Some? && AllWhiteSpace(flags.packagePath.value) && !Truthy(flags.autoGenerate)
    ensures ResolveAsWritten(flags).packagePath == DefaultLogPath
  {
    PathsWithoutAutoGenerate(flags, DefaultsAsWritten);
    DefaultsArePrefixed();
    BlankFlagGivesDefault(DefaultLogPath, flags.packagePath);
  }

  /** With each path's own default, a blank path flag resolves to that
      path's default. */
  lemma BlankPathsGetTheirDefaults(flags: RawFlags)
    requires !Truthy(flags.autoGenerate)
    ensures flags.packagePath.Some? && AllWhiteSpace(flags.packagePath.value) ==> Resolve(flags).packagePath == DefaultPackagePath
    ensures flags.manifestPath.Some? && AllWhiteSpace(flags.manifestPath.value) ==> Resolve(flags).manifestPath == DefaultManifestPath
    ensures flags.mergedPath.Some? && AllWhiteSpace(flags.mergedPath.value) ==> Resolve(flags).mergedPath == DefaultMergedPath
    ensures flags.logsPath.Some? && AllWhiteSpace(flags.logsPath.value) ==> Resolve(flags).logsPath == DefaultLogPath
  {
    PathsWithoutAutoGenerate(flags, Defaults);
    DefaultsArePrefixed();
    if flags.packagePath.Some? && AllWhiteSpace(flags.packagePath.value) {
      BlankFlagGivesDefault(DefaultPackagePath, flags.packagePath);
    }
    if flags.manifestPath.Some? && AllWhiteSpace(flags.manifestPath.value) {
      BlankFlagGivesDefault(DefaultManifestPath, flags.manifestPath);
    }
    if flags.mergedPath.Some? && AllWhiteSpace(flags.mergedPath.value) {
      BlankFlagGivesDefault(DefaultMergedPath, flags.mergedPath);
    }
    if flags.logsPath.Some? && AllWhiteSpace(flags.logsPath.value) {
      BlankFlagGivesDefault(DefaultLogPath, flags.logsPath);
    }
  }
}
