/**
 * The staging revision of tosubdirsname.go: `moveDirs` with the staging
 * name "fail" stages only the directories of `root`, so its files stay put;
 * each staged directory is then promoted through the `ToDirName` family.
 */
module SubDirs {
  import opened Wrappers
  import opened Names
  import opened FileSystems
  import opened Conditions
  import opened Renfls
  import opened Staging
  import ToDirName
  import ToDirNames

  /** The staging directory of this revision. */
  const TempDirName: string := "fail"

  /** `moveDirs(root, tempDirName)`: only the listed directories are moved into the staging directory. */
  method MoveDirs(fs: FileSystem, root: Path) returns (tempDir: Path, err: Option<Error>)
    requires fs.Valid()
    modifies fs
    ensures fs.Valid()
    ensures Outcome(err, fs.tree) == MoveDirsSpec(old(fs.tree), root, TempDirName, true)
    ensures err.None? ==> tempDir == root + [TempDirName]
  {
    var missing := IsNotExist(fs, root);
    if missing {
      return [], Some(NotFound(root));
    }
    var dirs := fs.ReadDir(root);
    if dirs.Failure? {
      return [], Some(dirs.error);
    }
    tempDir := root + [TempDirName];
    var made := fs.Mkdir(tempDir);
    if !made {
      return [], Some(MkdirFailed(tempDir));
    }
    var entries := dirs.value;
    var i := 0;
    while i < |entries|
      invariant 0 <= i <= |entries| && fs.Valid()
      invariant StageFrom(old(fs.tree)[tempDir := Dir], root, tempDir, entries, true) ==
                StageFrom(fs.tree, root, tempDir, entries[i..], true)
    {
      StageFromStep(fs.tree, root, tempDir, entries, i, true);
      if !entries[i].isDir {
        i := i + 1;
        continue;
      }
      // A move `os.Rename` refuses is skipped.
      var moved := fs.Rename(root + [entries[i].name], tempDir + [entries[i].name]);
      i := i + 1;
    }
    err := None;
  }

  /** `renameToDirName(tempDir, root)`: each staged directory, in listing order, through `ToDirName`. */
  method RenameToDirName(fs: FileSystem, tempDir: Path, root: Path) returns (err: Option<Error>)
    requires fs.Valid()
    modifies fs
    ensures fs.Valid()
    ensures Outcome(err, fs.tree) == PromoteSpec(old(fs.tree), tempDir, root, AllFiles)
  {
    var dirs := fs.ReadDir(tempDir);
    if dirs.Failure? {
      return Some(dirs.error);
    }
    var entries := dirs.value;
    var i := 0;
    while i < |entries|
      invariant 0 <= i <= |entries| && fs.Valid()
      invariant PromoteFrom(old(fs.tree), tempDir, root, entries, AllFiles) ==
                PromoteFrom(fs.tree, tempDir, root, entries[i..], AllFiles)
    {
      PromoteFromStep(fs.tree, tempDir, root, entries, i, AllFiles);
      assert Base(tempDir + [entries[i].name]) == entries[i].name;
      err := ToDirName.ToDirName(fs, tempDir + [entries[i].name], root);
      if err.Some? {
        return err;
      }
      i := i + 1;
    }
    return None;
  }

  /** `renameToDirNamePattern(tempDir, root, pattern)`: the same through `ToDirNamePattern`. */
  method RenameToDirNamePattern(fs: FileSystem, rx: Regexp, tempDir: Path, root: Path, pattern: string) returns (err: Option<Error>)
    requires fs.Valid()
    modifies fs
    ensures fs.Valid()
    ensures Outcome(err, fs.tree) == PromoteSpec(old(fs.tree), tempDir, root, Pattern(pattern, rx))
  {
    var dirs := fs.ReadDir(tempDir);
    if dirs.Failure? {
      return Some(dirs.error);
    }
    var entries := dirs.value;
    var i := 0;
    while i < |entries|
      invariant 0 <= i <= |entries| && fs.Valid()
      invariant PromoteFrom(old(fs.tree), tempDir, root, entries, Pattern(pattern, rx)) ==
                PromoteFrom(fs.tree, tempDir, root, entries[i..], Pattern(pattern, rx))
    {
      PromoteFromStep(fs.tree, tempDir, root, entries, i, Pattern(pattern, rx));
      assert Base(tempDir + [entries[i].name]) == entries[i].name;
      err := ToDirName.ToDirNamePattern(fs, rx, tempDir + [entries[i].name], root, pattern);
      if err.Some? {
        return err;
      }
      i := i + 1;
    }
    return None;
  }

  /** `renameToDirNameIgnoreExt(tempDir, root, exts)`: the same through `ToDirNameIgnoreExt`. */
  method RenameToDirNameIgnoreExt(fs: FileSystem, tempDir: Path, root: Path, exts: seq<string>) returns (err: Option<Error>)
    requires fs.Valid()
    modifies fs
    ensures fs.Valid()
    ensures Outcome(err, fs.tree) == PromoteSpec(old(fs.tree), tempDir, root, ToDirName.IgnoreExtFilter(exts))
  {
    var dirs := fs.ReadDir(tempDir);
    if dirs.Failure? {
      return Some(dirs.error);
    }
    var entries := dirs.value;
    var i := 0;
    while i < |entries|
      invariant 0 <= i <= |entries| && fs.Valid()
      invariant PromoteFrom(old(fs.tree), tempDir, root, entries, ToDirName.IgnoreExtFilter(exts)) ==
                PromoteFrom(fs.tree, tempDir, root, entries[i..], ToDirName.IgnoreExtFilter(exts))
    {
      PromoteFromStep(fs.tree, tempDir, root, entries, i, ToDirName.IgnoreExtFilter(exts));
      assert Base(tempDir + [entries[i].name]) == entries[i].name;
      err := ToDirName.ToDirNameIgnoreExt(fs, tempDir + [entries[i].name], root, exts);
      if err.Some? {
        return err;
      }
      i := i + 1;
    }
    return None;
  }

  /** `ToSubDirsName(root)`: stage the directories, promote them, remove the staging directory. */
  method ToSubDirsName(fs: FileSystem, root: Path) returns (err: Option<Error>)
    requires fs.Valid()
    modifies fs
    ensures fs.Valid()
    ensures Outcome(err, fs.tree) == TransformSpec(old(fs.tree), root, TempDirName, true, AllFiles)
    ensures err.None? ==> Transformed(MoveDirsSpec(old(fs.tree), root, TempDirName, true).tree, fs.tree, root, TempDirName,
                                      AllFiles, TransformMoves(old(fs.tree), root, TempDirName, true, AllFiles))
    ensures err.None? ==> Delivered(old(fs.tree), fs.tree, root, TempDirName, StagedOf(old(fs.tree), root, true),
                                    AllFiles, TransformMoves(old(fs.tree), root, TempDirName, true, AllFiles))
  {
    ghost var t0 := fs.tree;
    var tempDir, e := MoveDirs(fs, root);
    if e.Some? {
      return e;
    }
    e := RenameToDirName(fs, tempDir, root);
    if e.Some? {
      return e;
    }
    fs.RemoveAll(tempDir);
    assert ValidName(TempDirName);
    TransformRelocates(t0, root, TempDirName, true, AllFiles);
    TransformDelivers(t0, root, TempDirName, true, AllFiles);
    return None;
  }

  /** `ToSubDirsNamePattern(root, pattern)`. */
  method ToSubDirsNamePattern(fs: FileSystem, rx: Regexp, root: Path, pattern: string) returns (err: Option<Error>)
    requires fs.Valid()
    modifies fs
    ensures fs.Valid()
    ensures Outcome(err, fs.tree) == TransformSpec(old(fs.tree), root, TempDirName, true, Pattern(pattern, rx))
    ensures err.None? ==> Transformed(MoveDirsSpec(old(fs.tree), root, TempDirName, true).tree, fs.tree, root, TempDirName,
                                      Pattern(pattern, rx), TransformMoves(old(fs.tree), root, TempDirName, true, Pattern(pattern, rx)))
    ensures err.None? ==> Delivered(old(fs.tree), fs.tree, root, TempDirName, StagedOf(old(fs.tree), root, true),
                                    Pattern(pattern, rx), TransformMoves(old(fs.tree), root, TempDirName, true, Pattern(pattern, rx)))
  {
    ghost var t0 := fs.tree;
    var tempDir, e := MoveDirs(fs, root);
    if e.Some? {
      return e;
    }
    e := RenameToDirNamePattern(fs, rx, tempDir, root, pattern);
    if e.Some? {
      return e;
    }
    fs.RemoveAll(tempDir);
    assert ValidName(TempDirName);
    TransformRelocates(t0, root, TempDirName, true, Pattern(pattern, rx));
    TransformDelivers(t0, root, TempDirName, true, Pattern(pattern, rx));
    return None;
  }

  /** `ToSubDirsNameIgnoreExt(root, exts)`. */
  method ToSubDirsNameIgnoreExt(fs: FileSystem, root: Path, exts: seq<string>) returns (err: Option<Error>)
    requires fs.Valid()
    modifies fs
    ensures fs.Valid()
    ensures Outcome(err, fs.tree) == TransformSpec(old(fs.tree), root, TempDirName, true, ToDirName.IgnoreExtFilter(exts))
    ensures err.None? ==> Transformed(MoveDirsSpec(old(fs.tree), root, TempDirName, true).tree, fs.tree, root, TempDirName,
                                      ToDirName.IgnoreExtFilter(exts), TransformMoves(old(fs.tree), root, TempDirName, true, ToDirName.IgnoreExtFilter(exts)))
    ensures err.None? ==> Delivered(old(fs.tree), fs.tree, root, TempDirName, StagedOf(old(fs.tree), root, true),
                                    ToDirName.IgnoreExtFilter(exts), TransformMoves(old(fs.tree), root, TempDirName, true, ToDirName.IgnoreExtFilter(exts)))
  {
    ghost var t0 := fs.tree;
    var tempDir, e := MoveDirs(fs, root);
    if e.Some? {
      return e;
    }
    e := RenameToDirNameIgnoreExt(fs, tempDir, root, exts);
    if e.Some? {
      return e;
    }
    fs.RemoveAll(tempDir);
    assert ValidName(TempDirName);
    TransformRelocates(t0, root, TempDirName, true, ToDirName.IgnoreExtFilter(exts));
    TransformDelivers(t0, root, TempDirName, true, ToDirName.IgnoreExtFilter(exts));
    return None;
  }

  /**
   * Under `IgnoreExt`, what the final `os.RemoveAll` deletes is directories
   * and the files whose extension is listed: those are never promoted.
   */
  lemma IgnoreExtDeletesListed(t: Tree, root: Path, exts: seq<string>)
    requires WellFormed(t) && IsDir(t, root) && root + [TempDirName] !in t && |exts| > 0
    requires TransformSpec(t, root, TempDirName, true, ToDirName.IgnoreExtFilter(exts)).err.None?
    ensures var m := MoveDirsSpec(t, root, TempDirName, true).tree;
      var p := PromoteSpec(m, root + [TempDirName], root, ToDirName.IgnoreExtFilter(exts)).tree;
      forall q :: q in p && root + [TempDirName] <= q ==> p[q] == Dir || ListedExt(exts, Base(q))
  {
    TransformDeletes(t, root, TempDirName, true, ToDirName.IgnoreExtFilter(exts));
    var m := MoveDirsSpec(t, root, TempDirName, true).tree;
    UnselectedListed(PromoteSpec(m, root + [TempDirName], root, ToDirName.IgnoreExtFilter(exts)).tree, root + [TempDirName], exts);
  }

  /** A file `IgnoreExt` does not select has a listed extension. */
  lemma UnselectedListed(p: Tree, tempDir: Path, exts: seq<string>)
    requires |exts| > 0
    requires forall q :: q in p && tempDir <= q ==> p[q] == Dir || !Selected(ToDirName.IgnoreExtFilter(exts), Base(q))
    ensures forall q :: q in p && tempDir <= q ==> p[q] == Dir || ListedExt(exts, Base(q))
  {
    forall q | q in p && tempDir <= q ensures p[q] == Dir || ListedExt(exts, Base(q)) {
      ToDirName.ExtFilters(exts, Base(q));
    }
  }

  /**
   * `ToSubDirsNameIgnoreExt` with an empty list: `IgnoreExt` then selects no
   * file, so nothing is promoted and the final `os.RemoveAll` deletes every
   * sub-directory of `root` with all the files below it.
   */
  lemma IgnoreNothingRemovesSubDirs(t: Tree, root: Path)
    requires WellFormed(t)
    requires TransformSpec(t, root, TempDirName, true, ToDirName.IgnoreExtFilter([])).err.None?
    ensures var r := TransformSpec(t, root, TempDirName, true, ToDirName.IgnoreExtFilter([])).tree;
      forall q :: q in r <==> q in t && !Below(q, root, DirsIn(t, root))
    ensures var r := TransformSpec(t, root, TempDirName, true, ToDirName.IgnoreExtFilter([])).tree;
      forall q :: q in r ==> r[q] == t[q]
  {
    var f := ToDirName.IgnoreExtFilter([]);
    assert ValidName(TempDirName);
    TransformDelivers(t, root, TempDirName, true, f);
    forall q ensures !Picked(t, root, DirsIn(t, root), f, q) {
      ToDirName.ExtFilters([], Base(q));
    }
  }

  /** Under a pattern, what the final `os.RemoveAll` deletes is directories and the files the pattern does not match. */
  lemma PatternDeletesUnmatched(t: Tree, rx: Regexp, root: Path, pattern: string)
    requires WellFormed(t) && IsDir(t, root) && root + [TempDirName] !in t
    requires TransformSpec(t, root, TempDirName, true, Pattern(pattern, rx)).err.None?
    ensures var m := MoveDirsSpec(t, root, TempDirName, true).tree;
      var p := PromoteSpec(m, root + [TempDirName], root, Pattern(pattern, rx)).tree;
      forall q :: q in p && root + [TempDirName] <= q ==> p[q] == Dir || !rx.matches(pattern, Base(q))
  {
    TransformDeletes(t, root, TempDirName, true, Pattern(pattern, rx));
  }

  // ---------------------------------------------------------------------
  // Top-level files stay where they are
  // ---------------------------------------------------------------------

  /** Staging directories only, a listing of files moves nothing. */
  lemma {:induction false} StageFilesOnly(t: Tree, root: Path, tempDir: Path, entries: seq<Entry>)
    requires forall i :: 0 <= i < |entries| ==> !entries[i].isDir
    ensures StageFrom(t, root, tempDir, entries, true) == t
    decreases |entries|
  {
    if entries != [] {
      StageFilesOnly(t, root, tempDir, entries[1..]);
    }
  }

  /** A staging directory with nothing in it is listed as empty. */
  lemma EmptyListing(t: Tree, dir: Path)
    requires IsDir(t, dir) && forall x :: dir + [x] !in t
    ensures ReadDirOf(t, dir) == Success([])
  {
    assert Children(t, dir) == {};
  }

  /** Staging a root without directories only creates the staging directory. */
  lemma FlatStage(t: Tree, root: Path)
    requires WellFormed(t) && IsDir(t, root) && DirsIn(t, root) == {} && root + [TempDirName] !in t
    ensures MoveDirsSpec(t, root, TempDirName, true) == Outcome(None, t[root + [TempDirName] := Dir])
  {
    var tmp := root + [TempDirName];
    var entries := ReadDirOf(t, root).value;
    forall i | 0 <= i < |entries| ensures !entries[i].isDir {
      assert entries[i].name !in DirsIn(t, root);
    }
    StageFilesOnly(t[tmp := Dir], root, tmp, entries);
    assert ValidName(TempDirName);
    assert CanMkdir(t, tmp);
  }

  /** Removing a directory just created, with nothing in it, restores the tree. */
  lemma MkdirUndone(t: Tree, tmp: Path)
    requires WellFormed(t) && tmp != [] && tmp !in t
    ensures RemoveTree(t[tmp := Dir], tmp) == t
  {
    NothingBelow(t, tmp);
    var s := RemoveTree(t[tmp := Dir], tmp);
    forall q ensures q in s <==> q in t {
      assert q == tmp ==> tmp <= q;
    }
    assert s.Keys == t.Keys;
  }

  /**
   * A root that holds no directory comes out of `ToSubDirsName` (under any
   * filter) exactly as it went in: its files are never staged, the staging
   * directory stays empty and is removed again.
   */
  lemma FlatRootKept(t: Tree, root: Path, f: Filter)
    requires WellFormed(t) && IsDir(t, root) && DirsIn(t, root) == {} && root + [TempDirName] !in t
    ensures TransformSpec(t, root, TempDirName, true, f) == Outcome(None, t)
  {
    var tmp := root + [TempDirName];
    FlatStage(t, root);
    var t1 := t[tmp := Dir];
    forall x ensures tmp + [x] !in t1 {
      NothingInMissing(t, tmp, x);
    }
    EmptyListing(t1, tmp);
    assert PromoteSpec(t1, tmp, root, f) == Outcome(None, t1);
    MkdirUndone(t, tmp);
  }

  /** The file `root/image.jpg` alone in `root` stays `root/image.jpg`. */
  lemma ImageJpgKept()
    ensures TransformSpec(ToDirNames.ImageTree(), ["root"], TempDirName, true, AllFiles) ==
            Outcome(None, ToDirNames.ImageTree())
  {
    var root: Path := ["root"];
    var t := ToDirNames.ImageTree();
    ToDirNames.ImageTreeShape();
    forall x | x in Children(t, root) ensures t[root + [x]] == File {
      assert x == "image.jpg";
    }
    assert DirsIn(t, root) == {};
    assert root + [TempDirName] !in t by { assert TempDirName != "image.jpg"; }
    FlatRootKept(t, root, AllFiles);
  }
}
