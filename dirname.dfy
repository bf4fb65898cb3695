/**
 * Package dirname (dirname/dirname.go): the earlier walk, which checks
 * only the destination directory and ignores the error of every rename, so
 * that a file the rename refuses stays where it is and the walk goes on.
 * Its `Rename` and `addSuffixIfSamePath` are those of package renfls.
 */
module Dirname {
  import opened Wrappers
  import opened Names
  import opened FileSystems
  import opened Walks
  import opened Conditions
  import opened Renfls

  /** The walk function of dirname.go at one path: a refused rename is not an error. */
  function LenientVisit(t: Tree, p: Path, newDir: Path, newName: Name, f: Filter): Result<Tree, Error> {
    if !Exists(t, p) then Failure(NotFound(p))
    else if IsDir(t, p) || !Selected(f, Base(p)) then Success(t)
    else
      match RenameResult(t, p, newDir, newName)
      case Failure(_) => Success(t)
      case Success(q) => Success(MoveTree(t, p, q))
  }

  /** The visits of `order` one after the other; only a missing path ends the walk. */
  function LenientWalkFrom(t: Tree, order: seq<Path>, newDir: Path, newName: Name, f: Filter): Outcome
    decreases |order|
  {
    if order == [] then Outcome(None, t)
    else
      match LenientVisit(t, order[0], newDir, newName, f)
      case Failure(e) => Outcome(Some(e), t)
      case Success(t1) => LenientWalkFrom(t1, order[1..], newDir, newName, f)
  }

  /** `RenameAll` and `RenamePattern` of dirname.go: `newDir` is checked, the pattern compiled, then the walk. */
  function DirnameRename(t: Tree, root: Path, newDir: Path, newName: Name, f: Filter): Outcome {
    if !Exists(t, newDir) then Outcome(Some(NotFound(newDir)), t)
    else if CompileError(f).Some? then Outcome(CompileError(f), t)
    else if !Exists(t, root) then Outcome(Some(NotFound(root)), t)
    else LenientWalkFrom(t, WalkOrder(t, root), newDir, newName, f)
  }

  /** The walk function of dirname.go applied to one path. */
  method LenientWalkFunc(fs: FileSystem, p: Path, newDir: Path, newName: Name, f: Filter) returns (err: Option<Error>)
    requires fs.Valid()
    modifies fs
    ensures fs.Valid()
    ensures LenientVisit(old(fs.tree), p, newDir, newName, f).Failure? ==>
              err == Some(LenientVisit(old(fs.tree), p, newDir, newName, f).error) && fs.tree == old(fs.tree)
    ensures LenientVisit(old(fs.tree), p, newDir, newName, f).Success? ==>
              err == None && fs.tree == LenientVisit(old(fs.tree), p, newDir, newName, f).value
  {
    var kind := fs.Lstat(p);
    if kind.None? {
      return Some(NotFound(p));
    }
    if kind.value == Dir || !Selected(f, Base(p)) {
      return None;
    }
    // The result of `Rename` is ignored.
    var r := Rename(fs, p, newDir, newName);
    return None;
  }

  /** `filepath.Walk(root, fn)` with the walk function of dirname.go. */
  method LenientWalk(fs: FileSystem, root: Path, newDir: Path, newName: Name, f: Filter) returns (err: Option<Error>)
    requires fs.Valid()
    modifies fs
    ensures fs.Valid()
    ensures Exists(old(fs.tree), root) ==>
              Outcome(err, fs.tree) == LenientWalkFrom(old(fs.tree), WalkOrder(old(fs.tree), root), newDir, newName, f)
    ensures !Exists(old(fs.tree), root) ==> err == Some(NotFound(root)) && fs.tree == old(fs.tree)
  {
    var kind := fs.Lstat(root);
    if kind.None? {
      return Some(NotFound(root));
    }
    var order := WalkOrder(fs.tree, root);
    var i := 0;
    while i < |order|
      invariant 0 <= i <= |order| && fs.Valid()
      invariant LenientWalkFrom(old(fs.tree), order, newDir, newName, f) == LenientWalkFrom(fs.tree, order[i..], newDir, newName, f)
    {
      assert order[i..][1..] == order[i + 1..];
      err := LenientWalkFunc(fs, order[i], newDir, newName, f);
      if err.Some? {
        return err;
      }
      i := i + 1;
    }
    return None;
  }

  /** `RenameAll(root, newDir, newFileName)` of dirname.go. */
  method RenameAll(fs: FileSystem, root: Path, newDir: Path, newFileName: Name) returns (err: Option<Error>)
    requires fs.Valid()
    modifies fs
    ensures fs.Valid()
    ensures Outcome(err, fs.tree) == DirnameRename(old(fs.tree), root, newDir, newFileName, AllFiles)
  {
    var missing := IsNotExist(fs, newDir);
    if missing {
      return Some(NotFound(newDir));
    }
    err := LenientWalk(fs, root, newDir, newFileName, AllFiles);
  }

  /** `RenamePattern(root, newDir, newFileName, pattern)` of dirname.go. */
  method RenamePattern(fs: FileSystem, rx: Regexp, root: Path, newDir: Path, newFileName: Name, pattern: string) returns (err: Option<Error>)
    requires fs.Valid()
    modifies fs
    ensures fs.Valid()
    ensures Outcome(err, fs.tree) == DirnameRename(old(fs.tree), root, newDir, newFileName, Pattern(pattern, rx))
  {
    var missing := IsNotExist(fs, newDir);
    if missing {
      return Some(NotFound(newDir));
    }
    if !rx.compiles(pattern) {
      return Some(BadPattern(pattern));
    }
    err := LenientWalk(fs, root, newDir, newFileName, Pattern(pattern, rx));
  }

  /**
   * The checks of dirname.go: a missing `newDir` is reported first, even
   * when `root` is missing too; then a pattern that does not compile; a
   * missing `root` is reported by the walk. None of them changes anything.
   */
  lemma DirnameChecks(t: Tree, root: Path, newDir: Path, newName: Name, f: Filter)
    ensures !Exists(t, newDir) ==> DirnameRename(t, root, newDir, newName, f) == Outcome(Some(NotFound(newDir)), t)
    ensures Exists(t, newDir) && CompileError(f).Some? ==> DirnameRename(t, root, newDir, newName, f) == Outcome(CompileError(f), t)
    ensures Exists(t, newDir) && CompileError(f).None? && !Exists(t, root) ==>
              DirnameRename(t, root, newDir, newName, f) == Outcome(Some(NotFound(root)), t)
  {}

  /** The lenient visit differs from the strict one only where a rename of an existing path fails: it leaves the tree as it is. */
  lemma LenientVisitCases(t: Tree, p: Path, newDir: Path, newName: Name, f: Filter)
    ensures Exists(t, p) && Visit(t, p, newDir, newName, f).Failure? ==> LenientVisit(t, p, newDir, newName, f) == Success(t)
    ensures !(Exists(t, p) && Visit(t, p, newDir, newName, f).Failure?) ==>
              LenientVisit(t, p, newDir, newName, f) == Visit(t, p, newDir, newName, f)
  {}

  /** Where the strict walk of renfls.go succeeds, the lenient walk does exactly the same. */
  lemma {:induction false} LenientWalkFromAgrees(t: Tree, order: seq<Path>, newDir: Path, newName: Name, f: Filter)
    requires WalkFrom(t, order, newDir, newName, f).err.None?
    ensures LenientWalkFrom(t, order, newDir, newName, f) == WalkFrom(t, order, newDir, newName, f)
    decreases |order|
  {
    if order != [] {
      LenientVisitCases(t, order[0], newDir, newName, f);
      LenientWalkFromAgrees(Visit(t, order[0], newDir, newName, f).value, order[1..], newDir, newName, f);
    }
  }

  /** Both packages agree on every call that succeeds in package renfls. */
  lemma DirnameAgrees(t: Tree, root: Path, newDir: Path, newName: Name, f: Filter)
    requires RenameFiltered(t, root, newDir, newName, f).err.None?
    ensures DirnameRename(t, root, newDir, newName, f) == RenameFiltered(t, root, newDir, newName, f)
  {
    LenientWalkFromAgrees(t, WalkOrder(t, root), newDir, newName, f);
  }

  /** A lenient walk keeps the tree well formed and changes it only as a strict walk may. */
  lemma {:induction false} LenientWalkFromOutflow(t: Tree, order: seq<Path>, newDir: Path, newName: Name, f: Filter)
    requires WellFormed(t)
    ensures WellFormed(LenientWalkFrom(t, order, newDir, newName, f).tree)
    ensures Outflow(t, LenientWalkFrom(t, order, newDir, newName, f).tree, order, newDir, newName, f)
    decreases |order|
  {
    if order == [] || LenientVisit(t, order[0], newDir, newName, f).Failure? {
      OutflowNone(t, newDir, newName, f, order);
    } else {
      var p := order[0];
      var t1 := LenientVisit(t, p, newDir, newName, f).value;
      LenientVisitCases(t, p, newDir, newName, f);
      if Visit(t, p, newDir, newName, f).Success? {
        VisitOutflow(t, p, newDir, newName, f);
      } else {
        OutflowNone(t, newDir, newName, f, [p]);
      }
      LenientWalkFromOutflow(t1, order[1..], newDir, newName, f);
      OutflowTrans(t, t1, LenientWalkFrom(t1, order[1..], newDir, newName, f).tree, [p], order[1..], newDir, newName, f);
      assert [p] + order[1..] == order;
    }
  }

  /** Over a snapshot, into a directory, the lenient walk never reports an error. */
  lemma {:induction false} LenientWalkFromNoError(t: Tree, order: seq<Path>, newDir: Path, newName: Name, f: Filter)
    requires WellFormed(t) && IsDir(t, newDir) && Snapshot(t, order, newDir)
    ensures LenientWalkFrom(t, order, newDir, newName, f).err.None?
    decreases |order|
  {
    if order != [] {
      var p := order[0];
      assert Exists(t, p);
      LenientVisitCases(t, p, newDir, newName, f);
      var v := Visit(t, p, newDir, newName, f);
      if v.Failure? || IsDir(t, p) || !Selected(f, Base(p)) {
        SnapshotTailSame(t, order, newDir);
        LenientWalkFromNoError(LenientVisit(t, p, newDir, newName, f).value, order[1..], newDir, newName, f);
      } else {
        VisitRenameCase(t, p, newDir, newName, f);
        MovesFileInto(t, p, newDir, newName);
        VisitOutflow(t, p, newDir, newName, f);
        SnapshotTail(t, v.value, order, newDir, RenameResult(t, p, newDir, newName).value);
        LenientWalkFromNoError(v.value, order[1..], newDir, newName, f);
      }
    }
  }

  /**
   * Into an existing directory outside `root`, dirname.go's walk always
   * succeeds, keeps the tree's size, keeps entries outside the root,
   * directories and unselected files, and adds only files directly inside
   * `newDir` named after `newName`.
   */
  lemma DirnameRenameEffect(t: Tree, root: Path, newDir: Path, newName: Name, f: Filter)
    requires WellFormed(t) && IsDir(t, newDir) && Exists(t, root) && !(root <= newDir) && CompileError(f).None?
    ensures var o := DirnameRename(t, root, newDir, newName, f);
      && o.err.None?
      && WellFormed(o.tree) && |o.tree| == |t|
      && (forall q :: q in t && (!(root <= q) || t[q] == Dir || !Selected(f, Base(q))) ==> q in o.tree && o.tree[q] == t[q])
      && (forall q :: q in o.tree && q !in t ==> InDir(q, newDir) && o.tree[q] == File && newName <= Base(q))
  {
    var order := WalkOrder(t, root);
    WalkOrderSnapshot(t, root, newDir);
    LenientWalkFromNoError(t, order, newDir, newName, f);
    LenientWalkFromOutflow(t, order, newDir, newName, f);
  }
}
