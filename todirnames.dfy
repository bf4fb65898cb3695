/**
 * The staging revision of renfls.go: `moveDirs` with the staging name
 * "fails" and the directory test disabled, so every entry of `root` is
 * staged; `renameToDirName` and `ToDirNames`, with their pattern variants.
 */
module ToDirNames {
  import opened Wrappers
  import opened Names
  import opened FileSystems
  import opened Walks
  import opened Conditions
  import opened Renfls
  import opened Staging

  /** The staging directory of this revision. */
  const TempDirName: string := "fails"

  /** `moveDirs(root, tempDirName)`: every listed entry is moved into the staging directory. */
  method MoveDirs(fs: FileSystem, root: Path) returns (tempDir: Path, err: Option<Error>)
    requires fs.Valid()
    modifies fs
    ensures fs.Valid()
    ensures Outcome(err, fs.tree) == MoveDirsSpec(old(fs.tree), root, TempDirName, false)
    ensures err.None? ==> tempDir == root + [TempDirName]
  {
    var missing := IsNotExist(fs, root);
    if missing {
      return [], Some(NotFound(root));
    }
    var dirs := fs.ReadDir(root);
    if dirs.Failure? {
      return [], Some(dirs.error);
    }
    tempDir := root + [TempDirName];
    var made := fs.Mkdir(tempDir);
    if !made {
      return [], Some(MkdirFailed(tempDir));
    }
    var entries := dirs.value;
    var i := 0;
    while i < |entries|
      invariant 0 <= i <= |entries| && fs.Valid()
      invariant StageFrom(old(fs.tree)[tempDir := Dir], root, tempDir, entries, false) ==
                StageFrom(fs.tree, root, tempDir, entries[i..], false)
    {
      StageFromStep(fs.tree, root, tempDir, entries, i, false);
      // A move `os.Rename` refuses is skipped.
      var moved := fs.Rename(root + [entries[i].name], tempDir + [entries[i].name]);
      i := i + 1;
    }
    err := None;
  }

  /** `renameToDirName(tempDir, root)`: each staged entry, in listing order, through `ToRootDirName`. */
  method RenameToDirName(fs: FileSystem, tempDir: Path, root: Path) returns (err: Option<Error>)
    requires fs.Valid()
    modifies fs
    ensures fs.Valid()
    ensures Outcome(err, fs.tree) == PromoteSpec(old(fs.tree), tempDir, root, AllFiles)
  {
    var dirs := fs.ReadDir(tempDir);
    if dirs.Failure? {
      return Some(dirs.error);
    }
    var entries := dirs.value;
    var i := 0;
    while i < |entries|
      invariant 0 <= i <= |entries| && fs.Valid()
      invariant PromoteFrom(old(fs.tree), tempDir, root, entries, AllFiles) ==
                PromoteFrom(fs.tree, tempDir, root, entries[i..], AllFiles)
    {
      PromoteFromStep(fs.tree, tempDir, root, entries, i, AllFiles);
      assert Base(tempDir + [entries[i].name]) == entries[i].name;
      err := ToRootDirName(fs, tempDir + [entries[i].name], root);
      if err.Some? {
        return err;
      }
      i := i + 1;
    }
    return None;
  }

  /** `renameToDirNamePattern(tempDir, root, pattern)`: the same through `ToRootDirNamePattern`. */
  method RenameToDirNamePattern(fs: FileSystem, rx: Regexp, tempDir: Path, root: Path, pattern: string) returns (err: Option<Error>)
    requires fs.Valid()
    modifies fs
    ensures fs.Valid()
    ensures Outcome(err, fs.tree) == PromoteSpec(old(fs.tree), tempDir, root, Pattern(pattern, rx))
  {
    var dirs := fs.ReadDir(tempDir);
    if dirs.Failure? {
      return Some(dirs.error);
    }
    var entries := dirs.value;
    var i := 0;
    while i < |entries|
      invariant 0 <= i <= |entries| && fs.Valid()
      invariant PromoteFrom(old(fs.tree), tempDir, root, entries, Pattern(pattern, rx)) ==
                PromoteFrom(fs.tree, tempDir, root, entries[i..], Pattern(pattern, rx))
    {
      PromoteFromStep(fs.tree, tempDir, root, entries, i, Pattern(pattern, rx));
      assert Base(tempDir + [entries[i].name]) == entries[i].name;
      err := ToRootDirNamePattern(fs, rx, tempDir + [entries[i].name], root, pattern);
      if err.Some? {
        return err;
      }
      i := i + 1;
    }
    return None;
  }

  /** `ToDirNames(root)`: stage, promote, remove the staging directory. */
  method ToDirNames(fs: FileSystem, root: Path) returns (err: Option<Error>)
    requires fs.Valid()
    modifies fs
    ensures fs.Valid()
    ensures Outcome(err, fs.tree) == TransformSpec(old(fs.tree), root, TempDirName, false, AllFiles)
    ensures err.None? ==> Transformed(MoveDirsSpec(old(fs.tree), root, TempDirName, false).tree, fs.tree, root, TempDirName,
                                      AllFiles, TransformMoves(old(fs.tree), root, TempDirName, false, AllFiles))
    ensures err.None? ==> Delivered(old(fs.tree), fs.tree, root, TempDirName, StagedOf(old(fs.tree), root, false),
                                    AllFiles, TransformMoves(old(fs.tree), root, TempDirName, false, AllFiles))
  {
    ghost var t0 := fs.tree;
    var tempDir, e := MoveDirs(fs, root);
    if e.Some? {
      return e;
    }
    e := RenameToDirName(fs, tempDir, root);
    if e.Some? {
      return e;
    }
    fs.RemoveAll(tempDir);
    assert ValidName(TempDirName);
    TransformRelocates(t0, root, TempDirName, false, AllFiles);
    TransformDelivers(t0, root, TempDirName, false, AllFiles);
    return None;
  }

  /** `ToDirNamesPattern(root, pattern)`. */
  method ToDirNamesPattern(fs: FileSystem, rx: Regexp, root: Path, pattern: string) returns (err: Option<Error>)
    requires fs.Valid()
    modifies fs
    ensures fs.Valid()
    ensures Outcome(err, fs.tree) == TransformSpec(old(fs.tree), root, TempDirName, false, Pattern(pattern, rx))
    ensures err.None? ==> Transformed(MoveDirsSpec(old(fs.tree), root, TempDirName, false).tree, fs.tree, root, TempDirName,
                                      Pattern(pattern, rx), TransformMoves(old(fs.tree), root, TempDirName, false, Pattern(pattern, rx)))
    ensures err.None? ==> Delivered(old(fs.tree), fs.tree, root, TempDirName, StagedOf(old(fs.tree), root, false),
                                    Pattern(pattern, rx), TransformMoves(old(fs.tree), root, TempDirName, false, Pattern(pattern, rx)))
  {
    ghost var t0 := fs.tree;
    var tempDir, e := MoveDirs(fs, root);
    if e.Some? {
      return e;
    }
    e := RenameToDirNamePattern(fs, rx, tempDir, root, pattern);
    if e.Some? {
      return e;
    }
    fs.RemoveAll(tempDir);
    assert ValidName(TempDirName);
    TransformRelocates(t0, root, TempDirName, false, Pattern(pattern, rx));
    TransformDelivers(t0, root, TempDirName, false, Pattern(pattern, rx));
    return None;
  }

  // ---------------------------------------------------------------------
  // A top-level file is renamed after itself
  // ---------------------------------------------------------------------

  /** A directory listing of one entry. */
  lemma SingleListing(t: Tree, dir: Path, n: Name)
    requires IsDir(t, dir) && Children(t, dir) == {n}
    ensures ReadDirOf(t, dir) == Success([Entry(n, t[dir + [n]] == Dir)])
  {
    var names := Listing(t, dir);
    assert |names| == 1;
    assert names[0] in names;
    var v := ReadDirOf(t, dir).value;
    assert |v| == 1 && v[0].name == names[0];
    assert v == [v[0]];
  }

  /** Staging one listed entry that can move. */
  lemma StageSingle(t: Tree, root: Path, tempName: Name, n: Name, isDir: bool)
    requires Exists(t, root) && ReadDirOf(t, root) == Success([Entry(n, isDir)])
    requires CanMkdir(t, root + [tempName])
    requires CanMove(t[root + [tempName] := Dir], root + [n], root + [tempName] + [n])
    ensures MoveDirsSpec(t, root, tempName, false) ==
            Outcome(None, MoveTree(t[root + [tempName] := Dir], root + [n], root + [tempName] + [n]))
  {
    var t1 := t[root + [tempName] := Dir];
    var t2 := MoveTree(t1, root + [n], root + [tempName] + [n]);
    assert StageFrom(t1, root, root + [tempName], [Entry(n, isDir)], false) ==
           StageFrom(t2, root, root + [tempName], [], false);
  }

  /** A walk that starts at a selected file renames just that file. */
  lemma RenameSingleFile(t: Tree, p: Path, newDir: Path, newName: Name, q: Path)
    requires p != [] && p in t && t[p] == File && Exists(t, newDir)
    requires RenameResult(t, p, newDir, newName) == Success(q)
    ensures RenameFiltered(t, p, newDir, newName, AllFiles) == Outcome(None, MoveTree(t, p, q))
  {
    WalkOrderOfFile(t, p);
    var t3 := MoveTree(t, p, q);
    VisitRenameCase(t, p, newDir, newName, AllFiles);
    assert WalkFrom(t, [p], newDir, newName, AllFiles) == WalkFrom(t3, [], newDir, newName, AllFiles);
  }

  /** Promoting one listed entry whose walk succeeds. */
  lemma PromoteSingle(t: Tree, tmp: Path, root: Path, n: Name, isDir: bool, t3: Tree)
    requires ReadDirOf(t, tmp) == Success([Entry(n, isDir)])
    requires RenameFiltered(t, tmp + [n], root, n, AllFiles) == Outcome(None, t3)
    ensures PromoteSpec(t, tmp, root, AllFiles) == Outcome(None, t3)
  {
    assert PromoteFrom(t, tmp, root, [Entry(n, isDir)], AllFiles) == PromoteFrom(t3, tmp, root, [], AllFiles);
  }

  /** The names directly inside `dir` are exactly `n`. */
  lemma OnlyChild(t: Tree, dir: Path, n: Name)
    requires forall x :: dir + [x] in t <==> x == n
    ensures Children(t, dir) == {n}
  {
    assert n in Children(t, dir);
  }

  /** Creating the staging directory next to the one file `n` leaves that file free to move into it. */
  lemma StageOneFileMoves(t: Tree, root: Path, n: Name)
    requires WellFormed(t) && IsDir(t, root) && Children(t, root) == {n} && t[root + [n]] == File
    requires n != TempDirName
    ensures var tmp := root + [TempDirName];
      var t1 := t[tmp := Dir];
      && tmp != [] && tmp !in t && CanMkdir(t, tmp) && ValidName(n)
      && t1.Keys == t.Keys + {tmp} && t1[tmp] == Dir && (forall q :: q in t ==> t1[q] == t[q])
      && WellFormed(t1) && CanMove(t1, root + [n], tmp + [n]) && t1[root + [n]] == File
  {
    var tmp := root + [TempDirName];
    assert ValidName(TempDirName);
    assert TempDirName !in Children(t, root);
    assert Parent(tmp) == root && Base(tmp) == TempDirName;
    assert CanMkdir(t, tmp);
    MkdirFacts(t, tmp);
    NothingInMissing(t, tmp, n);
    assert ValidName(n) by { assert root + [n] in t && Placed(t, root + [n]); }
    SiblingNotPrefix(root, n, TempDirName, [n]);
    assert Parent(tmp + [n]) == tmp && Base(tmp + [n]) == n;
  }

  /** What `os.Mkdir` leaves: one new key, a directory, and nothing else changed. */
  lemma MkdirFacts(t: Tree, p: Path)
    requires WellFormed(t) && CanMkdir(t, p)
    ensures WellFormed(t[p := Dir]) && t[p := Dir].Keys == t.Keys + {p} && t[p := Dir][p] == Dir
    ensures forall q :: q in t ==> t[p := Dir][q] == t[q]
  {
    MkdirWellFormed(t, p);
  }

  /** Staging a root whose one entry is the file `n` moves that file into the staging directory. */
  lemma StageOneFile(t: Tree, root: Path, n: Name)
    requires WellFormed(t) && IsDir(t, root) && Children(t, root) == {n} && t[root + [n]] == File
    requires n != TempDirName
    ensures var tmp := root + [TempDirName];
      MoveDirsSpec(t, root, TempDirName, false) == Outcome(None, MoveTree(t[tmp := Dir], root + [n], tmp + [n]))
  {
    StageOneFileMoves(t, root, n);
    SingleListing(t, root, n);
    assert root + [TempDirName] + [n] == root + [TempDirName, n];
    StageSingle(t, root, TempDirName, n, false);
  }

  /** Promoting a staging directory that holds the one file `n` renames it into `root` after itself. */
  lemma PromoteOneFile(t: Tree, tmp: Path, root: Path, n: Name)
    requires WellFormed(t) && IsDir(t, root) && IsDir(t, tmp) && tmp != []
    requires Children(t, tmp) == {n} && t[tmp + [n]] == File && ValidName(n)
    requires root + [n + Ext(n)] !in t
    ensures PromoteSpec(t, tmp, root, AllFiles) == Outcome(None, MoveTree(t, tmp + [n], root + [n + Ext(n)]))
    ensures CanMove(t, tmp + [n], root + [n + Ext(n)])
  {
    var staged := tmp + [n];
    var dst := root + [n + Ext(n)];
    SingleListing(t, tmp, n);
    assert Base(staged) == n;
    FirstCandidate(root, n, Ext(n));
    RenameFileResult(t, staged, root, n, 1);
    RenameSingleFile(t, staged, root, n, dst);
    PromoteSingle(t, tmp, root, n, false, MoveTree(t, staged, dst));
  }

  /** The keys left once the staging directory is removed. */
  lemma KeysAfterRemoval(t: Tree, t3: Tree, s: Tree, tmp: Path, src: Path, dst: Path)
    requires t3.Keys == t.Keys + {tmp} - {src} + {dst}
    requires forall q :: q in s <==> q in t3 && !(tmp <= q)
    requires forall q :: q in t ==> !(tmp <= q)
    requires !(tmp <= dst)
    ensures s.Keys == t.Keys - {src} + {dst}
  {
    forall q ensures q in s.Keys <==> q in t.Keys - {src} + {dst} {
      assert q == tmp ==> tmp <= q;
    }
  }

  /** A file moved into a directory just created is that directory's only entry. */
  lemma MoveIntoNewDir(t: Tree, t1: Tree, tmp: Path, src: Path, n: Name)
    requires WellFormed(t) && tmp != [] && tmp !in t
    requires t1.Keys == t.Keys + {tmp} && t1[tmp] == Dir
    requires WellFormed(t1) && CanMove(t1, src, tmp + [n]) && t1[src] == File
    ensures var t2 := MoveTree(t1, src, tmp + [n]);
      && WellFormed(t2) && IsDir(t2, tmp) && Children(t2, tmp) == {n} && t2[tmp + [n]] == File
  {
    MoveFileInto(t1, src, tmp + [n]);
    MoveFile(t1, src, tmp + [n]);
    var t2 := MoveTree(t1, src, tmp + [n]);
    forall x ensures tmp + [x] in t2 <==> x == n {
      NothingInMissing(t, tmp, x);
      assert tmp + [x] != tmp;
      assert tmp + [x] !in t1;
      assert (tmp + [x])[|tmp|] == x;
      assert tmp + [x] in t2 <==> tmp + [x] == tmp + [n];
    }
    assert tmp != src by { assert src <= tmp + [n] ==> false; }
    OnlyChild(t2, tmp, n);
  }

  /** Nothing but the moved file and the new directory changes. */
  lemma MoveIntoNewDirRest(t: Tree, t1: Tree, tmp: Path, src: Path, dst: Path)
    requires tmp !in t && t1.Keys == t.Keys + {tmp} && forall q :: q in t ==> t1[q] == t[q]
    requires WellFormed(t1) && CanMove(t1, src, dst) && t1[src] == File
    ensures var t2 := MoveTree(t1, src, dst);
      && t2.Keys == t.Keys + {tmp} - {src} + {dst}
      && forall q :: q in t && q != src ==> t2[q] == t[q]
  {
    MoveFile(t1, src, dst);
  }

  /** The tree staging leaves when the root holds the one file `n`. */
  lemma StagedOneFile(t: Tree, root: Path, n: Name)
    requires WellFormed(t) && IsDir(t, root)
    requires forall x :: root + [x] in t <==> x == n
    requires t[root + [n]] == File
    requires n != TempDirName
    ensures var tmp := root + [TempDirName];
      var t2 := MoveTree(t[tmp := Dir], root + [n], tmp + [n]);
      && WellFormed(t2) && IsDir(t2, root) && IsDir(t2, tmp) && tmp !in t && tmp != []
      && Children(t2, tmp) == {n} && t2[tmp + [n]] == File && ValidName(n)
  {
    var tmp := root + [TempDirName];
    var src := root + [n];
    OnlyChild(t, root, n);
    StageOneFileMoves(t, root, n);
    MoveIntoNewDir(t, t[tmp := Dir], tmp, src, n);
    MoveIntoNewDirRest(t, t[tmp := Dir], tmp, src, tmp + [n]);
    assert root != [] ==> root in t && root != src;
  }

  /** The three steps of `ToDirNames` when staging and promotion both succeed. */
  lemma TransformThrough(t: Tree, root: Path, tempName: Name, dirsOnly: bool, f: Filter, t2: Tree, t3: Tree)
    requires MoveDirsSpec(t, root, tempName, dirsOnly) == Outcome(None, t2)
    requires PromoteSpec(t2, root + [tempName], root, f) == Outcome(None, t3)
    ensures TransformSpec(t, root, tempName, dirsOnly, f) == Outcome(None, RemoveTree(t3, root + [tempName]))
  {}

  /** Staging changes only the file and the staging directory. */
  lemma StagedKeys(t: Tree, root: Path, n: Name)
    requires WellFormed(t) && IsDir(t, root)
    requires forall x :: root + [x] in t <==> x == n
    requires t[root + [n]] == File
    requires n != TempDirName
    ensures var tmp := root + [TempDirName];
      var t2 := MoveTree(t[tmp := Dir], root + [n], tmp + [n]);
      && t2.Keys == t.Keys + {tmp} - {root + [n]} + {tmp + [n]}
      && forall q :: q in t && q != root + [n] ==> t2[q] == t[q]
  {
    var tmp := root + [TempDirName];
    OnlyChild(t, root, n);
    StageOneFileMoves(t, root, n);
    MoveIntoNewDirRest(t, t[tmp := Dir], tmp, root + [n], tmp + [n]);
  }

  /** After staging, the name the file is promoted to is free in `root`. */
  lemma TargetFree(t: Tree, t2: Tree, root: Path, n: Name)
    requires forall x :: root + [x] in t <==> x == n
    requires t2.Keys == t.Keys + {root + [TempDirName]} - {root + [n]} + {root + [TempDirName] + [n]}
    requires n + Ext(n) != TempDirName
    ensures root + [n + Ext(n)] !in t2
  {
    var dst := root + [n + Ext(n)];
    assert dst in t ==> n + Ext(n) == n;
    assert dst[|root|] == n + Ext(n) && (root + [TempDirName])[|root|] == TempDirName;
    assert |dst| != |root + [TempDirName] + [n]|;
  }

  /** The facts about the staged tree that the final removal needs. */
  lemma PromotedFacts(t: Tree, root: Path, n: Name)
    requires WellFormed(t) && IsDir(t, root)
    requires forall x :: root + [x] in t <==> x == n
    requires t[root + [n]] == File
    requires n != TempDirName && n + Ext(n) != TempDirName
    ensures var tmp := root + [TempDirName];
      var t2 := MoveTree(t[tmp := Dir], root + [n], tmp + [n]);
      && WellFormed(t2) && tmp + [n] in t2 && t2[tmp + [n]] == File && CanMove(t2, tmp + [n], root + [n + Ext(n)])
      && tmp !in t && tmp != []
  {
    var tmp := root + [TempDirName];
    StagedOneFile(t, root, n);
    StagedKeys(t, root, n);
    var t2 := MoveTree(t[tmp := Dir], root + [n], tmp + [n]);
    TargetFree(t, t2, root, n);
    PromoteOneFile(t2, tmp, root, n);
  }

  /** What `ToDirNames` returns for a root holding the one file `n`: staging, promotion, removal. */
  lemma DoubledOutcome(t: Tree, root: Path, n: Name)
    requires WellFormed(t) && IsDir(t, root)
    requires forall x :: root + [x] in t <==> x == n
    requires t[root + [n]] == File
    requires n != TempDirName && n + Ext(n) != TempDirName
    ensures var tmp := root + [TempDirName];
      var t2 := MoveTree(t[tmp := Dir], root + [n], tmp + [n]);
      TransformSpec(t, root, TempDirName, false, AllFiles) ==
      Outcome(None, RemoveTree(MoveTree(t2, tmp + [n], root + [n + Ext(n)]), tmp))
  {
    var tmp := root + [TempDirName];
    var src := root + [n];
    var dst := root + [n + Ext(n)];
    OnlyChild(t, root, n);
    StageOneFile(t, root, n);
    StagedOneFile(t, root, n);
    StagedKeys(t, root, n);
    var t2 := MoveTree(t[tmp := Dir], src, tmp + [n]);
    TargetFree(t, t2, root, n);
    PromoteOneFile(t2, tmp, root, n);
    TransformThrough(t, root, TempDirName, false, AllFiles, t2, MoveTree(t2, tmp + [n], dst));
  }

  /** The keys and values left once the promoted file has moved and the staging directory is gone. */
  lemma DoubledTree(t: Tree, t2: Tree, tmp: Path, src: Path, staged: Path, dst: Path)
    requires WellFormed(t) && tmp != [] && tmp !in t && tmp < staged && !(tmp <= dst) && staged !in t
    requires t2.Keys == t.Keys + {tmp} - {src} + {staged}
    requires forall q :: q in t && q != src ==> t2[q] == t[q]
    requires WellFormed(t2) && CanMove(t2, staged, dst) && t2[staged] == File
    ensures var s := RemoveTree(MoveTree(t2, staged, dst), tmp);
      && s.Keys == t.Keys - {src} + {dst}
      && s[dst] == File
      && forall q :: q in t && q != src ==> s[q] == t[q]
  {
    MoveFile(t2, staged, dst);
    var t3 := MoveTree(t2, staged, dst);
    var s := RemoveTree(t3, tmp);
    NothingBelow(t, tmp);
    forall q ensures q in t3 <==> q in t.Keys + {tmp} - {src} + {dst} {
      assert q in t3 <==> q in t2.Keys - {staged} + {dst};
    }
    assert t3.Keys == t.Keys + {tmp} - {src} + {dst};
    forall q | q in t ensures !(tmp <= q) {
      assert q != tmp;
    }
    KeysAfterRemoval(t, t3, s, tmp, src, dst);
    forall q | q in t && q != src ensures s[q] == t[q] {
      assert q != staged;
    }
  }

  /**
   * In this revision `ToDirNames` does not leave a top-level file in place:
   * staging every entry treats the file `root/n` as if it were a directory
   * called `n`, and promotion renames it after itself, so it becomes
   * `root/n` followed by its own extension once more.
   */
  lemma DoubledExtension(t: Tree, root: Path, n: Name)
    requires WellFormed(t) && IsDir(t, root)
    requires forall x :: root + [x] in t <==> x == n
    requires t[root + [n]] == File
    requires n != TempDirName && n + Ext(n) != TempDirName
    ensures var o := TransformSpec(t, root, TempDirName, false, AllFiles);
      && o.err.None?
      && o.tree.Keys == t.Keys - {root + [n]} + {root + [n + Ext(n)]}
      && o.tree[root + [n + Ext(n)]] == File
      && forall q :: q in t && q != root + [n] ==> o.tree[q] == t[q]
  {
    var tmp := root + [TempDirName];
    var src := root + [n];
    var staged := tmp + [n];
    var dst := root + [n + Ext(n)];
    DoubledOutcome(t, root, n);
    StagedKeys(t, root, n);
    PromotedFacts(t, root, n);
    var t2 := MoveTree(t[tmp := Dir], src, staged);
    SiblingNotPrefix(root, TempDirName, n + Ext(n), []);
    assert dst + [] == dst;
    NothingInMissing(t, tmp, n);
    assert tmp < staged;
    DoubledTree(t, t2, tmp, src, staged, dst);
  }

  /** A root holding the one file `root/image.jpg`. */
  function ImageTree(): Tree {
    map[["root"] := Dir, ["root", "image.jpg"] := File]
  }

  lemma ImageTreeShape()
    ensures WellFormed(ImageTree()) && IsDir(ImageTree(), ["root"])
    ensures forall x :: ["root"] + [x] in ImageTree() <==> x == "image.jpg"
    ensures ImageTree()[["root"] + ["image.jpg"]] == File
  {
    var root: Path := ["root"];
    var src: Path := ["root", "image.jpg"];
    var t := ImageTree();
    assert root + ["image.jpg"] == src;
    assert ValidName("root") && ValidName("image.jpg");
    assert Placed(t, root) && Placed(t, src);
    forall x ensures root + [x] in t <==> x == "image.jpg" {
      assert |root + [x]| == 2;
    }
  }

  /** The file `root/image.jpg` alone in `root` comes out as `root/image.jpg.jpg`. */
  lemma ImageJpgDoubled()
    ensures var o := TransformSpec(ImageTree(), ["root"], TempDirName, false, AllFiles);
      o.err.None? && ["root", "image.jpg.jpg"] in o.tree && ["root", "image.jpg"] !in o.tree
  {
    var root: Path := ["root"];
    var src: Path := ["root", "image.jpg"];
    ImageTreeShape();
    ExtOfJpg();
    var dst := root + ["image.jpg" + Ext("image.jpg")];
    assert dst == ["root", "image.jpg.jpg"] by { assert "image.jpg" + ".jpg" == "image.jpg.jpg"; }
    assert root + ["image.jpg"] == src;
    DoubledExtension(ImageTree(), root, "image.jpg");
    assert src != dst;
  }
}
