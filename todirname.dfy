/**
 * The `ToDirName` family (todirname.go): each names the files below `root`
 * after the last element of `root` and hands everything else unchanged to
 * one of the walks; they differ only in the filter they pass on.
 */
module ToDirName {
  import opened Wrappers
  import opened Names
  import opened FileSystems
  import opened Conditions
  import opened Renfls

  /**
   * The engine the extension filters stand on: with no regular expression
   * configured, a condition never consults the engine.
   */
  const NoRegexp: Regexp := Regexp(pattern => true, (pattern, name) => false)

  /** The filter of `RenameExt`: the files whose extension is listed. */
  function ExtFilter(exts: seq<string>): Filter {
    Where(Condition(exts, "", false), NoRegexp)
  }

  /** The filter of `RenameIgnoreExt`: the files whose extension is not listed. */
  function IgnoreExtFilter(exts: seq<string>): Filter {
    Where(Condition(exts, "", true), NoRegexp)
  }

  /** The extension filters never fail to compile, and select by the extension list alone. */
  lemma ExtFilters(exts: seq<string>, name: Name)
    ensures CompileError(ExtFilter(exts)).None? && CompileError(IgnoreExtFilter(exts)).None?
    ensures Selected(ExtFilter(exts), name) <==> |exts| == 0 || ListedExt(exts, name)
    ensures Selected(IgnoreExtFilter(exts), name) <==> |exts| > 0 && !ListedExt(exts, name)
  {}

  /** `ToDirName(root, newDir)`. */
  method ToDirName(fs: FileSystem, root: Path, newDir: Path) returns (err: Option<Error>)
    requires fs.Valid()
    modifies fs
    ensures fs.Valid()
    ensures Outcome(err, fs.tree) == RenameFiltered(old(fs.tree), root, newDir, Base(root), AllFiles)
  {
    err := RenameAll(fs, root, newDir, Base(root));
  }

  /** `ToDirNamePattern(root, newDir, pattern)`. */
  method ToDirNamePattern(fs: FileSystem, rx: Regexp, root: Path, newDir: Path, pattern: string) returns (err: Option<Error>)
    requires fs.Valid()
    modifies fs
    ensures fs.Valid()
    ensures Outcome(err, fs.tree) == RenameFiltered(old(fs.tree), root, newDir, Base(root), Pattern(pattern, rx))
  {
    err := RenamePattern(fs, rx, root, newDir, Base(root), pattern);
  }

  /** `ToDirNameExt(root, newDir, exts)`. */
  method ToDirNameExt(fs: FileSystem, root: Path, newDir: Path, exts: seq<string>) returns (err: Option<Error>)
    requires fs.Valid()
    modifies fs
    ensures fs.Valid()
    ensures Outcome(err, fs.tree) == RenameFiltered(old(fs.tree), root, newDir, Base(root), ExtFilter(exts))
  {
    err := RenameCondition(fs, NoRegexp, root, newDir, Base(root), Condition(exts, "", false));
  }

  /** `ToDirNameIgnoreExt(root, newDir, exts)`. */
  method ToDirNameIgnoreExt(fs: FileSystem, root: Path, newDir: Path, exts: seq<string>) returns (err: Option<Error>)
    requires fs.Valid()
    modifies fs
    ensures fs.Valid()
    ensures Outcome(err, fs.tree) == RenameFiltered(old(fs.tree), root, newDir, Base(root), IgnoreExtFilter(exts))
  {
    err := RenameCondition(fs, NoRegexp, root, newDir, Base(root), Condition(exts, "", true));
  }

  /** `ToDirNameCondition(root, newDir, condition)`. */
  method ToDirNameCondition(fs: FileSystem, rx: Regexp, root: Path, newDir: Path, cond: Condition) returns (err: Option<Error>)
    requires fs.Valid()
    modifies fs
    ensures fs.Valid()
    ensures Outcome(err, fs.tree) == RenameFiltered(old(fs.tree), root, newDir, Base(root), Where(cond, rx))
  {
    err := RenameCondition(fs, rx, root, newDir, Base(root), cond);
  }

  /** The name handed on is the last element of `root`. */
  lemma LeafOfRoot(dir: Path, name: Name)
    ensures Base(dir + [name]) == name
  {}
}
