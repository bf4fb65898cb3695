/**
 * The staging transform shared by both revisions of `ToDirNames`: the
 * entries of a root (all of them, or only its directories) are moved into a
 * staging directory inside it, the files below each staged entry are renamed
 * after that entry into the root, and the staging directory is removed.
 */
module Staging {
  import opened Wrappers
  import opened Names
  import opened FileSystems
  import opened Walks
  import opened Renfls

  /**
   * The moves of the staging loop over a listing: each entry, or only each
   * directory when `dirsOnly`, goes from `root` into `tempDir` under its own
   * name; a move `os.Rename` refuses is skipped.
   */
  function StageFrom(t: Tree, root: Path, tempDir: Path, entries: seq<Entry>, dirsOnly: bool): Tree
    decreases |entries|
  {
    if entries == [] then t
    else
      var src := root + [entries[0].name];
      var dst := tempDir + [entries[0].name];
      var t1 := if (dirsOnly && !entries[0].isDir) || !CanMove(t, src, dst) then t else MoveTree(t, src, dst);
      StageFrom(t1, root, tempDir, entries[1..], dirsOnly)
  }

  /** One turn of the staging loop: the move of entry `i`, then the rest of the listing. */
  lemma StageFromStep(t: Tree, root: Path, tempDir: Path, entries: seq<Entry>, i: nat, dirsOnly: bool)
    requires i < |entries|
    ensures StageFrom(t, root, tempDir, entries[i..], dirsOnly) ==
            (var src := root + [entries[i].name];
             var dst := tempDir + [entries[i].name];
             StageFrom(if (dirsOnly && !entries[i].isDir) || !CanMove(t, src, dst) then t else MoveTree(t, src, dst),
                       root, tempDir, entries[i + 1..], dirsOnly))
  {
    assert entries[i..][1..] == entries[i + 1..];
  }

  /** The names of the listing the staging loop tries to move. */
  function StagedNames(entries: seq<Entry>, dirsOnly: bool): set<Name>
    decreases |entries|
  {
    if entries == [] then {}
    else (if dirsOnly && !entries[0].isDir then {} else {entries[0].name}) + StagedNames(entries[1..], dirsOnly)
  }

  /**
   * `moveDirs(root, tempName)`: the existence check, the listing (taken
   * before the staging directory exists), `os.Mkdir`, then the moves.
   */
  function MoveDirsSpec(t: Tree, root: Path, tempName: Name, dirsOnly: bool): Outcome {
    if !Exists(t, root) then Outcome(Some(NotFound(root)), t)
    else
      match ReadDirOf(t, root)
      case Failure(e) => Outcome(Some(e), t)
      case Success(entries) =>
        if !CanMkdir(t, root + [tempName]) then Outcome(Some(MkdirFailed(root + [tempName])), t)
        else Outcome(None, StageFrom(t[root + [tempName] := Dir], root, root + [tempName], entries, dirsOnly))
  }

  /** The names directly inside `dir` that are files, and those that are directories. */
  function FilesIn(t: Tree, dir: Path): set<Name> {
    set n | n in Children(t, dir) && t[dir + [n]] == File
  }

  function DirsIn(t: Tree, dir: Path): set<Name> {
    set n | n in Children(t, dir) && t[dir + [n]] == Dir
  }

  /** The entries of `root` a revision stages: all of them, or only its directories. */
  function StagedOf(t: Tree, root: Path, dirsOnly: bool): set<Name> {
    if dirsOnly then DirsIn(t, root) else Children(t, root)
  }

  /**
   * A listing of `root` the staging loop can work through: distinct names,
   * none of them the staging directory's, each an entry of `root` of the
   * listed kind and not yet inside the staging directory, which exists.
   */
  ghost predicate Stageable(t: Tree, root: Path, tempName: Name, entries: seq<Entry>) {
    && IsDir(t, root + [tempName])
    && (forall i, j :: 0 <= i < j < |entries| ==> entries[i].name != entries[j].name)
    && (forall i :: 0 <= i < |entries| ==>
          && entries[i].name != tempName
          && root + [entries[i].name] in t
          && (entries[i].isDir <==> t[root + [entries[i].name]] == Dir)
          && root + [tempName] + [entries[i].name] !in t)
  }

  /**
   * How a staging step, or the whole loop, changes the tree: the names in
   * `moved` leave `root` and arrive in the staging directory, nothing outside
   * `root` changes, and whatever is not in the staging directory was there
   * before, with the same kind.
   */
  ghost predicate StageRel(a: Tree, b: Tree, root: Path, tempName: Name, moved: set<Name>) {
    && Children(b, root) == Children(a, root) - moved
    && Children(b, root + [tempName]) == Children(a, root + [tempName]) + moved
    && (forall q :: q in a && !(root <= q) ==> q in b && b[q] == a[q])
    && (forall q :: q in b && !(root + [tempName] <= q) ==> q in a && b[q] == a[q])
  }

  /** `os.Rename(root/n, root/tempName/n)` is accepted for a listed entry. */
  lemma StageCanMove(t: Tree, root: Path, tempName: Name, n: Name)
    requires WellFormed(t) && IsDir(t, root + [tempName]) && root + [n] in t && n != tempName
    requires root + [tempName] + [n] !in t
    ensures CanMove(t, root + [n], root + [tempName] + [n])
  {
    assert Placed(t, root + [n]);
    SiblingNotPrefix(root, n, tempName, [n]);
  }

  /** An entry of `root` is no prefix of a path through a sibling of it. */
  lemma SiblingNotPrefix(root: Path, n: Name, x: Name, rest: Path)
    requires n != x
    ensures !(root + [n] <= root + [x] + rest)
  {
    assert (root + [x] + rest)[|root|] == x;
  }

  /** One staging move, entry by entry: only `n` leaves `root`, only `n` arrives in the staging directory. */
  lemma StageMoveChildren(t: Tree, root: Path, tempName: Name, n: Name)
    requires WellFormed(t) && CanMove(t, root + [n], root + [tempName] + [n]) && n != tempName
    ensures var t1 := MoveTree(t, root + [n], root + [tempName] + [n]);
      && Children(t1, root) == Children(t, root) - {n}
      && Children(t1, root + [tempName]) == Children(t, root + [tempName]) + {n}
  {
    var tempDir := root + [tempName];
    var src := root + [n];
    var dst := tempDir + [n];
    var t1 := MoveTree(t, src, dst);
    StageMoveLeaves(t, root, tempName, n);
    StageMoveArrives(t, root, tempName, n);
    ChildrenLess(t, t1, root, n);
    ChildrenMore(t, t1, tempDir, n);
  }

  lemma ChildrenLess(a: Tree, b: Tree, dir: Path, n: Name)
    requires forall m :: dir + [m] in b <==> dir + [m] in a && m != n
    ensures Children(b, dir) == Children(a, dir) - {n}
  {}

  lemma ChildrenMore(a: Tree, b: Tree, dir: Path, n: Name)
    requires forall m :: dir + [m] in b <==> dir + [m] in a || m == n
    ensures Children(b, dir) == Children(a, dir) + {n}
  {}

  lemma StageMoveLeaves(t: Tree, root: Path, tempName: Name, n: Name)
    requires WellFormed(t) && CanMove(t, root + [n], root + [tempName] + [n]) && n != tempName
    ensures forall m :: root + [m] in MoveTree(t, root + [n], root + [tempName] + [n]) <==> root + [m] in t && m != n
  {
    var src := root + [n];
    var dst := root + [tempName] + [n];
    forall m ensures root + [m] in MoveTree(t, src, dst) <==> root + [m] in t && m != n {
      MoveTreeAt(t, src, dst, root + [m]);
      assert src <= root + [m] ==> root + [m] == src;
    }
  }

  lemma StageMoveArrives(t: Tree, root: Path, tempName: Name, n: Name)
    requires WellFormed(t) && CanMove(t, root + [n], root + [tempName] + [n]) && n != tempName
    ensures forall m :: root + [tempName] + [m] in MoveTree(t, root + [n], root + [tempName] + [n]) <==>
              root + [tempName] + [m] in t || m == n
  {
    var tempDir := root + [tempName];
    var src := root + [n];
    var dst := tempDir + [n];
    var t1 := MoveTree(t, src, dst);
    forall m ensures tempDir + [m] in t1 <==> tempDir + [m] in t || m == n {
      MoveTreeAt(t, src, dst, tempDir + [m]);
      assert dst <= tempDir + [m] ==> tempDir + [m] == dst;
      SiblingNotPrefix(root, n, tempName, [m]);
      assert (tempDir + [m])[|dst|..] == [] && src + [] == src;
    }
  }

  /** One staging move keeps everything outside `root`, and adds nothing outside the staging directory. */
  lemma StageMoveOutside(t: Tree, root: Path, tempName: Name, n: Name)
    requires WellFormed(t) && CanMove(t, root + [n], root + [tempName] + [n])
    ensures var t1 := MoveTree(t, root + [n], root + [tempName] + [n]);
      && (forall q :: q in t && !(root <= q) ==> q in t1 && t1[q] == t[q])
      && (forall q :: q in t1 && !(root + [tempName] <= q) ==> q in t && t1[q] == t[q])
  {
    var tempDir := root + [tempName];
    var src := root + [n];
    var dst := tempDir + [n];
    var t1 := MoveTree(t, src, dst);
    forall q | q in t1 && !(tempDir <= q) ensures q in t && t1[q] == t[q] {
      MoveTreeAt(t, src, dst, q);
      assert dst <= q ==> tempDir <= q;
    }
    forall q | q in t && !(root <= q) ensures q in t1 && t1[q] == t[q] {
      MoveTreeAt(t, src, dst, q);
      assert src <= q ==> root <= q;
    }
  }

  /** After one staging move, the rest of the listing can still be worked through. */
  lemma StageMoveRest(t: Tree, root: Path, tempName: Name, entries: seq<Entry>)
    requires WellFormed(t) && Stageable(t, root, tempName, entries) && |entries| > 0
    requires CanMove(t, root + [entries[0].name], root + [tempName] + [entries[0].name])
    ensures Stageable(MoveTree(t, root + [entries[0].name], root + [tempName] + [entries[0].name]), root, tempName, entries[1..])
  {
    var n := entries[0].name;
    var tempDir := root + [tempName];
    var src := root + [n];
    var dst := tempDir + [n];
    var t1 := MoveTree(t, src, dst);
    var rest := entries[1..];
    MoveTreeAt(t, src, dst, tempDir);
    SiblingNotPrefix(root, n, tempName, []);
    assert root + [tempName] + [] == tempDir;
    assert dst <= tempDir ==> false;
    forall i | 0 <= i < |rest|
      ensures root + [rest[i].name] in t1 && t1[root + [rest[i].name]] == t[root + [rest[i].name]]
      ensures tempDir + [rest[i].name] !in t1
    {
      assert rest[i] == entries[i + 1];
      var m := rest[i].name;
      MoveTreeAt(t, src, dst, root + [m]);
      MoveTreeAt(t, src, dst, tempDir + [m]);
      assert src <= root + [m] ==> root + [m] == src;
      assert dst <= tempDir + [m] ==> tempDir + [m] == dst;
      assert dst <= root + [m] ==> false;
    }
    assert forall i :: 0 <= i < |rest| ==> rest[i] == entries[i + 1];
  }

  lemma StageableTail(t: Tree, root: Path, tempName: Name, entries: seq<Entry>)
    requires Stageable(t, root, tempName, entries) && |entries| > 0
    ensures Stageable(t, root, tempName, entries[1..])
  {
    assert forall i :: 0 <= i < |entries| - 1 ==> entries[1..][i] == entries[i + 1];
  }

  lemma StageRelTrans(a: Tree, b: Tree, c: Tree, root: Path, tempName: Name, m1: set<Name>, m2: set<Name>)
    requires StageRel(a, b, root, tempName, m1) && StageRel(b, c, root, tempName, m2)
    ensures StageRel(a, c, root, tempName, m1 + m2)
  {}

  /**
   * The staging loop over a listing it can work through: every move is
   * accepted, so exactly the staged names leave `root` for the staging
   * directory, and the tree stays well formed.
   */
  lemma {:induction false} StageFromEffect(t: Tree, root: Path, tempName: Name, entries: seq<Entry>, dirsOnly: bool)
    requires WellFormed(t) && Stageable(t, root, tempName, entries)
    ensures WellFormed(StageFrom(t, root, root + [tempName], entries, dirsOnly))
    ensures IsDir(StageFrom(t, root, root + [tempName], entries, dirsOnly), root + [tempName])
    ensures StageRel(t, StageFrom(t, root, root + [tempName], entries, dirsOnly), root, tempName, StagedNames(entries, dirsOnly))
    decreases |entries|
  {
    if entries != [] {
      var n := entries[0].name;
      var rest := entries[1..];
      if dirsOnly && !entries[0].isDir {
        StageableTail(t, root, tempName, entries);
        StageFromEffect(t, root, tempName, rest, dirsOnly);
      } else {
        StageCanMove(t, root, tempName, n);
        var src := root + [n];
        var dst := root + [tempName] + [n];
        var t1 := MoveTree(t, src, dst);
        StageMoveChildren(t, root, tempName, n);
        StageMoveOutside(t, root, tempName, n);
        MoveTreeWellFormed(t, src, dst);
        StageMoveRest(t, root, tempName, entries);
        StageFromEffect(t1, root, tempName, rest, dirsOnly);
        StageRelTrans(t, t1, StageFrom(t1, root, root + [tempName], rest, dirsOnly), root, tempName, {n}, StagedNames(rest, dirsOnly));
      }
    }
  }

  /** The staged names of a listing: every entry, or each directory when `dirsOnly`. */
  lemma {:induction false} StagedNamesAt(entries: seq<Entry>, dirsOnly: bool, n: Name)
    ensures n in StagedNames(entries, dirsOnly) <==>
              exists i :: 0 <= i < |entries| && entries[i].name == n && (!dirsOnly || entries[i].isDir)
    decreases |entries|
  {
    if entries != [] {
      StagedNamesAt(entries[1..], dirsOnly, n);
      assert forall i :: 0 < i < |entries| ==> entries[i] == entries[1..][i - 1];
    }
  }

  /** The names the loop stages from a listing of `root`: all of them, or its directories when `dirsOnly`. */
  lemma StagedNamesOfListing(t: Tree, root: Path, dirsOnly: bool)
    requires IsDir(t, root)
    ensures StagedNames(ReadDirOf(t, root).value, dirsOnly) == if dirsOnly then DirsIn(t, root) else Children(t, root)
  {
    StagedNamesOfEntries(t, root, ReadDirOf(t, root).value, Listing(t, root), dirsOnly);
  }

  lemma StagedNamesOfEntries(t: Tree, root: Path, entries: seq<Entry>, names: seq<Name>, dirsOnly: bool)
    requires |entries| == |names| && forall n :: n in names <==> root + [n] in t
    requires forall i :: 0 <= i < |entries| ==>
               entries[i].name == names[i] && root + [entries[i].name] in t &&
               entries[i].isDir == (t[root + [entries[i].name]] == Dir)
    ensures StagedNames(entries, dirsOnly) == if dirsOnly then DirsIn(t, root) else Children(t, root)
  {
    forall n ensures n in StagedNames(entries, dirsOnly) <==> n in (if dirsOnly then DirsIn(t, root) else Children(t, root)) {
      StagedNamesAt(entries, dirsOnly, n);
      if n in Children(t, root) {
        assert n in names;
        var i :| 0 <= i < |names| && names[i] == n;
        assert entries[i].name == n;
      }
    }
  }

  /** A missing directory has nothing inside it. */
  lemma NothingInMissing(t: Tree, dir: Path, n: Name)
    requires WellFormed(t) && dir != [] && dir !in t
    ensures dir + [n] !in t
  {
    assert (dir + [n])[..|dir|] == dir;
    assert dir + [n] in t ==> Placed(t, dir + [n]);
  }

  /** Right after `os.Mkdir`, the listing taken before can be worked through. */
  lemma StagingListing(t: Tree, root: Path, tempName: Name)
    requires WellFormed(t) && IsDir(t, root) && CanMkdir(t, root + [tempName])
    ensures Stageable(t[root + [tempName] := Dir], root, tempName, ReadDirOf(t, root).value)
  {
    var tempDir := root + [tempName];
    var entries := ReadDirOf(t, root).value;
    var names := Listing(t, root);
    forall i | 0 <= i < |entries| ensures tempDir + [entries[i].name] !in t {
      NothingInMissing(t, tempDir, entries[i].name);
    }
    forall i, j | 0 <= i < j < |entries| ensures entries[i].name != entries[j].name {
      assert entries[i].name == names[i] && entries[j].name == names[j];
    }
    MkdirStageable(t, root, tempName, entries);
  }

  /** A listing of `root` that can be worked through before `os.Mkdir` still can after it. */
  lemma MkdirStageable(t: Tree, root: Path, tempName: Name, entries: seq<Entry>)
    requires root + [tempName] !in t
    requires forall i, j :: 0 <= i < j < |entries| ==> entries[i].name != entries[j].name
    requires forall i :: 0 <= i < |entries| ==>
      && root + [entries[i].name] in t
      && (entries[i].isDir <==> t[root + [entries[i].name]] == Dir)
      && root + [tempName] + [entries[i].name] !in t
    ensures Stageable(t[root + [tempName] := Dir], root, tempName, entries)
  {
    var tempDir := root + [tempName];
    forall i | 0 <= i < |entries| ensures root + [entries[i].name] != tempDir && tempDir + [entries[i].name] != tempDir {
    }
  }

  /** Right after `os.Mkdir`, the staging directory is a new, empty child of `root`. */
  lemma StagingStart(t: Tree, root: Path, tempName: Name)
    requires WellFormed(t) && IsDir(t, root) && CanMkdir(t, root + [tempName])
    ensures var t' := t[root + [tempName] := Dir];
      && WellFormed(t')
      && tempName !in Children(t, root)
      && Children(t', root) == Children(t, root) + {tempName}
      && Children(t', root + [tempName]) == {}
  {
    var tempDir := root + [tempName];
    MkdirWellFormed(t, tempDir);
    forall n ensures tempDir + [n] !in t {
      NothingInMissing(t, tempDir, n);
    }
    assert forall n :: tempDir + [n] != tempDir;
  }

  /** Every entry of a directory is a file or a directory. */
  lemma ChildrenPartition(t: Tree, dir: Path)
    ensures Children(t, dir) - DirsIn(t, dir) == FilesIn(t, dir)
  {
    forall n | n in Children(t, dir) ensures t[dir + [n]] == File || t[dir + [n]] == Dir {}
  }

  /** When `moveDirs` fails, it fails before any change. */
  lemma MoveDirsFails(t: Tree, root: Path, tempName: Name, dirsOnly: bool)
    requires ValidName(tempName)
    ensures !Exists(t, root) ==> MoveDirsSpec(t, root, tempName, dirsOnly) == Outcome(Some(NotFound(root)), t)
    ensures Exists(t, root) && !IsDir(t, root) ==> MoveDirsSpec(t, root, tempName, dirsOnly) == Outcome(Some(ReadDirFailed(root)), t)
    ensures IsDir(t, root) && root + [tempName] in t ==>
              MoveDirsSpec(t, root, tempName, dirsOnly) == Outcome(Some(MkdirFailed(root + [tempName])), t)
    ensures IsDir(t, root) && root + [tempName] !in t ==> MoveDirsSpec(t, root, tempName, dirsOnly).err.None?
  {}

  /** What stays in `root`: its entries and the staging directory, less the staged names. */
  lemma LeaveForStaging(c: set<Name>, moved: set<Name>, tempName: Name)
    requires tempName !in c && moved <= c
    ensures (c + {tempName}) - moved == {tempName} + (c - moved)
  {}

  /** A successful `moveDirs` is the staging loop run right after `os.Mkdir`. */
  lemma MoveDirsStages(t: Tree, root: Path, tempName: Name, dirsOnly: bool)
    requires WellFormed(t) && IsDir(t, root) && ValidName(tempName) && root + [tempName] !in t
    ensures var t' := t[root + [tempName] := Dir];
      var s := MoveDirsSpec(t, root, tempName, dirsOnly).tree;
      && CanMkdir(t, root + [tempName])
      && WellFormed(s) && IsDir(s, root + [tempName])
      && StageRel(t', s, root, tempName, if dirsOnly then DirsIn(t, root) else Children(t, root))
  {
    var tempDir := root + [tempName];
    assert Parent(tempDir) == root && Base(tempDir) == tempName;
    var t' := t[tempDir := Dir];
    var entries := ReadDirOf(t, root).value;
    MkdirWellFormed(t, tempDir);
    StagingListing(t, root, tempName);
    StageFromEffect(t', root, tempName, entries, dirsOnly);
    StagedNamesOfListing(t, root, dirsOnly);
  }

  /** After a successful `moveDirs`, what is directly in `root` and in the staging directory. */
  lemma MoveDirsChildren(t: Tree, root: Path, tempName: Name, dirsOnly: bool)
    requires WellFormed(t) && IsDir(t, root) && ValidName(tempName) && root + [tempName] !in t
    ensures var s := MoveDirsSpec(t, root, tempName, dirsOnly).tree;
      && Children(s, root) == {tempName} + (if dirsOnly then FilesIn(t, root) else {})
      && Children(s, root + [tempName]) == (if dirsOnly then DirsIn(t, root) else Children(t, root))
  {
    MoveDirsStages(t, root, tempName, dirsOnly);
    StagedChildren(t, MoveDirsSpec(t, root, tempName, dirsOnly).tree, root, tempName, dirsOnly);
  }

  /** The children of `root` and of the staging directory once the staged names have moved. */
  lemma StagedChildren(t: Tree, s: Tree, root: Path, tempName: Name, dirsOnly: bool)
    requires WellFormed(t) && IsDir(t, root) && CanMkdir(t, root + [tempName])
    requires StageRel(t[root + [tempName] := Dir], s, root, tempName, if dirsOnly then DirsIn(t, root) else Children(t, root))
    ensures Children(s, root) == {tempName} + (if dirsOnly then FilesIn(t, root) else {})
    ensures Children(s, root + [tempName]) == (if dirsOnly then DirsIn(t, root) else Children(t, root))
  {
    var moved := if dirsOnly then DirsIn(t, root) else Children(t, root);
    StagingStart(t, root, tempName);
    assert Children(s, root) == (Children(t, root) + {tempName}) - moved;
    assert Children(s, root + [tempName]) == {} + moved;
    assert {} + moved == moved;
    LeaveForStaging(Children(t, root), moved, tempName);
    if dirsOnly {
      ChildrenPartition(t, root);
    }
  }

  /** A successful `moveDirs` changes nothing outside `root`, and adds nothing outside the staging directory. */
  lemma MoveDirsOutside(t: Tree, root: Path, tempName: Name, dirsOnly: bool)
    requires WellFormed(t) && IsDir(t, root) && ValidName(tempName) && root + [tempName] !in t
    ensures var s := MoveDirsSpec(t, root, tempName, dirsOnly).tree;
      && (forall q :: q in t && !(root <= q) ==> q in s && s[q] == t[q])
      && (forall q :: q in s && !(root + [tempName] <= q) ==> q in t && s[q] == t[q])
  {
    var tempDir := root + [tempName];
    var t' := t[tempDir := Dir];
    var s := MoveDirsSpec(t, root, tempName, dirsOnly).tree;
    MoveDirsStages(t, root, tempName, dirsOnly);
    forall q | q in t && !(root <= q) ensures q in s && s[q] == t[q] {
      assert q != tempDir;
    }
    forall q | q in s && !(tempDir <= q) ensures q in t && s[q] == t[q] {
      assert q in t' && s[q] == t'[q];
      assert q != tempDir;
    }
  }

  /**
   * A successful `moveDirs`: the staging directory holds the listed
   * entries (or the listed directories), `root` keeps only the staging
   * directory (and, when `dirsOnly`, its files), nothing outside `root`
   * changes, and whatever is not in the staging directory was there before.
   */
  lemma MoveDirsEffect(t: Tree, root: Path, tempName: Name, dirsOnly: bool)
    requires WellFormed(t) && IsDir(t, root) && ValidName(tempName) && root + [tempName] !in t
    ensures var s := MoveDirsSpec(t, root, tempName, dirsOnly).tree;
      && WellFormed(s) && IsDir(s, root + [tempName])
      && Children(s, root) == {tempName} + (if dirsOnly then FilesIn(t, root) else {})
      && Children(s, root + [tempName]) == (if dirsOnly then DirsIn(t, root) else Children(t, root))
      && (forall q :: q in t && !(root <= q) ==> q in s && s[q] == t[q])
      && (forall q :: q in s && !(root + [tempName] <= q) ==> q in t && s[q] == t[q])
  {
    MoveDirsStages(t, root, tempName, dirsOnly);
    MoveDirsChildren(t, root, tempName, dirsOnly);
    MoveDirsOutside(t, root, tempName, dirsOnly);
  }

  /** `q` lies strictly below `dir`, inside one of its entries named in `names`. */
  predicate Below(q: Path, dir: Path, names: set<Name>) {
    |q| > |dir| && dir <= q && q[|dir|] in names
  }

  /** Where staging puts the entry at `q` below `root`: under the same relative path in the staging directory. */
  function Staged(q: Path, root: Path, tempName: Name): Path
    requires |q| >= |root|
  {
    root + [tempName] + q[|root|..]
  }

  /** Where an entry at `q` below the staging directory came from. */
  function Unstaged(q: Path, root: Path): Path
    requires |q| > |root|
  {
    root + q[|root| + 1..]
  }

  /**
   * What staging does to the contents of the tree, entry by entry: an entry
   * below a name in `moved` reappears, kind for kind, under the same
   * relative path in the staging directory, and anything there below a
   * moved name came that way; nothing is left below a moved name; every
   * other entry stays where it was, and nothing else appears.
   */
  ghost predicate StageKeeps(a: Tree, b: Tree, root: Path, tempName: Name, moved: set<Name>) {
    && (forall q :: q in a && Below(q, root, moved) ==>
          Staged(q, root, tempName) in b && b[Staged(q, root, tempName)] == a[q])
    && (forall q :: q in b && Below(q, root + [tempName], moved) ==>
          Unstaged(q, root) in a && a[Unstaged(q, root)] == b[q])
    && (forall q :: q in a && !Below(q, root, moved) ==> q in b && b[q] == a[q])
    && (forall q :: q in b && !Below(q, root + [tempName], moved) ==> q in a && a[q] == b[q])
    && (forall q :: q in b ==> !Below(q, root, moved))
  }

  /** One staging move, for the contents: the subtree of `root/n` reappears at `root/tempName/n`. */
  lemma StageMoveKeeps(t: Tree, root: Path, tempName: Name, n: Name)
    requires WellFormed(t) && CanMove(t, root + [n], root + [tempName] + [n]) && n != tempName
    ensures StageKeeps(t, MoveTree(t, root + [n], root + [tempName] + [n]), root, tempName, {n})
  {
    var t1 := MoveTree(t, root + [n], root + [tempName] + [n]);
    MoveTreeEffect(t, root + [n], root + [tempName] + [n]);
    StageMoveThere(t, t1, root, tempName, n);
    StageMoveBack(t, t1, root, tempName, n);
    StageMoveFrame(t, t1, root, tempName, n);
  }

  lemma StageMoveThere(a: Tree, b: Tree, root: Path, tempName: Name, n: Name)
    requires forall s :: root + [n] + s in a ==> root + [tempName] + [n] + s in b
    requires forall s :: root + [n] + s in a ==> b[root + [tempName] + [n] + s] == a[root + [n] + s]
    ensures forall q :: q in a && Below(q, root, {n}) ==> Staged(q, root, tempName) in b && b[Staged(q, root, tempName)] == a[q]
  {
    var src := root + [n];
    var dst := root + [tempName] + [n];
    forall q | q in a && Below(q, root, {n})
      ensures Staged(q, root, tempName) == dst + q[|src|..] && src + q[|src|..] == q
    {
      BelowEntry(q, root, n);
      assert q[|root|..] == [n] + q[|src|..];
    }
  }

  lemma StageMoveBack(a: Tree, b: Tree, root: Path, tempName: Name, n: Name)
    requires forall s :: root + [n] + s in a <==> root + [tempName] + [n] + s in b
    requires forall s :: root + [n] + s in a ==> b[root + [tempName] + [n] + s] == a[root + [n] + s]
    ensures forall q :: q in b && Below(q, root + [tempName], {n}) ==> Unstaged(q, root) in a && a[Unstaged(q, root)] == b[q]
  {
    var tempDir := root + [tempName];
    var src := root + [n];
    var dst := tempDir + [n];
    forall q | Below(q, tempDir, {n})
      ensures Unstaged(q, root) == src + q[|dst|..] && dst + q[|dst|..] == q
    {
      BelowEntry(q, tempDir, n);
      assert q[|root| + 1..] == [n] + q[|dst|..];
    }
  }

  lemma StageMoveFrame(a: Tree, b: Tree, root: Path, tempName: Name, n: Name)
    requires n != tempName
    requires forall q :: q in a && !(root + [n] <= q) ==> q in b && b[q] == a[q]
    requires forall q :: q in b ==> root + [tempName] + [n] <= q || (q in a && !(root + [n] <= q))
    ensures forall q :: q in a && !Below(q, root, {n}) ==> q in b && b[q] == a[q]
    ensures forall q :: q in b && !Below(q, root + [tempName], {n}) ==> q in a && a[q] == b[q]
    ensures forall q :: q in b ==> !Below(q, root, {n})
  {
    var tempDir := root + [tempName];
    var src := root + [n];
    var dst := tempDir + [n];
    forall q | src <= q ensures Below(q, root, {n}) {
      assert q[|root|] == n;
    }
    forall q | dst <= q ensures Below(q, tempDir, {n}) && !Below(q, root, {n}) {
      assert q[|tempDir|] == n && q[|root|] == tempName;
    }
  }

  /** A path below `dir` through the entry `n` lies below `dir/n`. */
  lemma BelowEntry(q: Path, dir: Path, n: Name)
    requires Below(q, dir, {n})
    ensures dir + [n] <= q
  {
    assert q[..|dir| + 1] == q[..|dir|] + [q[|dir|]];
  }

  lemma StageKeepsNone(t: Tree, root: Path, tempName: Name)
    ensures StageKeeps(t, t, root, tempName, {})
  {}

  /** Staging `d1`, then `d2`, is staging both, as long as neither names the staging directory. */
  lemma StageKeepsTrans(a: Tree, b: Tree, c: Tree, root: Path, tempName: Name, d1: set<Name>, d2: set<Name>)
    requires StageKeeps(a, b, root, tempName, d1) && StageKeeps(b, c, root, tempName, d2)
    requires d1 !! d2 && tempName !in d1 && tempName !in d2
    ensures StageKeeps(a, c, root, tempName, d1 + d2)
  {
    var tempDir := root + [tempName];
    forall q | q in a && Below(q, root, d1)
      ensures Staged(q, root, tempName) in c && c[Staged(q, root, tempName)] == a[q]
    {
      assert Staged(q, root, tempName)[|root|] == tempName;
    }
    forall q | q in c && Below(q, tempDir, d2)
      ensures Unstaged(q, root) in a && a[Unstaged(q, root)] == c[q]
    {
      assert Unstaged(q, root)[|root|] == q[|tempDir|];
    }
    forall q | q in c ensures !Below(q, root, d1 + d2) {
      if Below(q, tempDir, d2) {
        assert q[|root|] == tempName;
      }
    }
  }

  /** The staging loop over a listing it can work through, for the contents. */
  lemma {:induction false} StageFromKeeps(t: Tree, root: Path, tempName: Name, entries: seq<Entry>, dirsOnly: bool)
    requires WellFormed(t) && Stageable(t, root, tempName, entries)
    ensures StageKeeps(t, StageFrom(t, root, root + [tempName], entries, dirsOnly), root, tempName, StagedNames(entries, dirsOnly))
    ensures tempName !in StagedNames(entries, dirsOnly)
    decreases |entries|, 1
  {
    StagedNamesAt(entries, dirsOnly, tempName);
    if entries == [] {
      assert StageFrom(t, root, root + [tempName], entries, dirsOnly) == t && StagedNames(entries, dirsOnly) == {};
      StageKeepsNone(t, root, tempName);
    } else if dirsOnly && !entries[0].isDir {
      StageableTail(t, root, tempName, entries);
      StageFromKeeps(t, root, tempName, entries[1..], dirsOnly);
      assert StageFrom(t, root, root + [tempName], entries, dirsOnly) == StageFrom(t, root, root + [tempName], entries[1..], dirsOnly);
      assert StagedNames(entries, dirsOnly) == StagedNames(entries[1..], dirsOnly);
    } else {
      StageFromKeepsMove(t, root, tempName, entries, dirsOnly);
    }
  }

  /** A turn of the staging loop that moves its entry, then the rest of the loop. */
  lemma {:induction false} StageFromKeepsMove(t: Tree, root: Path, tempName: Name, entries: seq<Entry>, dirsOnly: bool)
    requires WellFormed(t) && Stageable(t, root, tempName, entries)
    requires entries != [] && !(dirsOnly && !entries[0].isDir)
    ensures StageKeeps(t, StageFrom(t, root, root + [tempName], entries, dirsOnly), root, tempName, StagedNames(entries, dirsOnly))
    decreases |entries|, 0
  {
    var n := entries[0].name;
    var rest := entries[1..];
    StageCanMove(t, root, tempName, n);
    var t1 := MoveTree(t, root + [n], root + [tempName] + [n]);
    MoveTreeWellFormed(t, root + [n], root + [tempName] + [n]);
    StageMoveRest(t, root, tempName, entries);
    StageFromKeeps(t1, root, tempName, rest, dirsOnly);
    StagedNamesAt(rest, dirsOnly, n);
    var t2 := StageFrom(t1, root, root + [tempName], rest, dirsOnly);
    assert StageFrom(t, root, root + [tempName], entries, dirsOnly) == t2;
    assert StagedNames(entries, dirsOnly) == {n} + StagedNames(rest, dirsOnly);
    StageKeepsCons(t, t1, t2, root, tempName, n, StagedNames(rest, dirsOnly));
  }

  /** A staging move of `n`, then staging the names `rest`, stages both. */
  lemma StageKeepsCons(t: Tree, t1: Tree, t2: Tree, root: Path, tempName: Name, n: Name, rest: set<Name>)
    requires WellFormed(t) && CanMove(t, root + [n], root + [tempName] + [n]) && n != tempName
    requires t1 == MoveTree(t, root + [n], root + [tempName] + [n])
    requires StageKeeps(t1, t2, root, tempName, rest) && n !in rest && tempName !in rest
    ensures StageKeeps(t, t2, root, tempName, {n} + rest)
  {
    StageMoveKeeps(t, root, tempName, n);
    StageKeepsTrans(t, t1, t2, root, tempName, {n}, rest);
  }

  /**
   * A successful `moveDirs`, for the contents: from the tree as it was
   * right after `os.Mkdir`, the staged entries of `root` move into the
   * staging directory with everything below them.
   */
  lemma MoveDirsKeeps(t: Tree, root: Path, tempName: Name, dirsOnly: bool)
    requires WellFormed(t) && IsDir(t, root) && ValidName(tempName) && root + [tempName] !in t
    ensures StageKeeps(t[root + [tempName] := Dir], MoveDirsSpec(t, root, tempName, dirsOnly).tree, root, tempName, StagedOf(t, root, dirsOnly))
    ensures tempName !in StagedOf(t, root, dirsOnly)
  {
    var tempDir := root + [tempName];
    assert Parent(tempDir) == root && Base(tempDir) == tempName;
    MkdirWellFormed(t, tempDir);
    StagingListing(t, root, tempName);
    StageFromKeeps(t[tempDir := Dir], root, tempName, ReadDirOf(t, root).value, dirsOnly);
    StagedNamesOfListing(t, root, dirsOnly);
  }

  // ---------------------------------------------------------------------
  // Promotion: renameToDirName
  // ---------------------------------------------------------------------

  /**
   * The loop of `renameToDirName(tempDir, root)` over the listed staged
   * entries: the files below each are renamed after it into `root`; the
   * first error ends the loop.
   */
  function PromoteFrom(t: Tree, tempDir: Path, root: Path, entries: seq<Entry>, f: Filter): Outcome
    decreases |entries|
  {
    if entries == [] then Outcome(None, t)
    else
      var n := entries[0].name;
      var o := RenameFiltered(t, tempDir + [n], root, n, f);
      if o.err.Some? then o else PromoteFrom(o.tree, tempDir, root, entries[1..], f)
  }

  /** One turn of the promotion loop: entry `i` through `RenameFiltered`, then the rest of the listing. */
  lemma PromoteFromStep(t: Tree, tempDir: Path, root: Path, entries: seq<Entry>, i: nat, f: Filter)
    requires i < |entries|
    ensures PromoteFrom(t, tempDir, root, entries[i..], f) ==
            (var o := RenameFiltered(t, tempDir + [entries[i].name], root, entries[i].name, f);
             if o.err.Some? then o else PromoteFrom(o.tree, tempDir, root, entries[i + 1..], f))
  {
    assert entries[i..][1..] == entries[i + 1..];
  }

  /** `renameToDirName(tempDir, root)`: the listing of the staging directory, then the loop. */
  function PromoteSpec(t: Tree, tempDir: Path, root: Path, f: Filter): Outcome {
    match ReadDirOf(t, tempDir)
    case Failure(e) => Outcome(Some(e), t)
    case Success(entries) => PromoteFrom(t, tempDir, root, entries, f)
  }

  /**
   * `ToDirNames` in either revision: stage, promote, then `os.RemoveAll`
   * the staging directory; the first error is returned as it stands.
   */
  function TransformSpec(t: Tree, root: Path, tempName: Name, dirsOnly: bool, f: Filter): Outcome {
    var m := MoveDirsSpec(t, root, tempName, dirsOnly);
    if m.err.Some? then m
    else
      var p := PromoteSpec(m.tree, root + [tempName], root, f);
      if p.err.Some? then p
      else Outcome(None, RemoveTree(p.tree, root + [tempName]))
  }

  /**
   * What promoting the staged entries `done` may change: only selected
   * files below those entries leave, only files directly in `root` named
   * after one of those entries arrive, nothing changes kind, and the
   * number of entries stays the same.
   */
  ghost predicate Promotes(a: Tree, b: Tree, root: Path, tempName: Name, f: Filter, done: set<Name>) {
    && (forall q :: q in a && q !in b ==> Below(q, root + [tempName], done) && a[q] == File && Selected(f, Base(q)))
    && (forall q :: q in b && q !in a ==> InDir(q, root) && b[q] == File && exists n :: n in done && n <= Base(q))
    && (forall q :: q in a && q in b ==> b[q] == a[q])
    && |b| == |a|
  }

  /** Every selected file below the staged entries `done` has been promoted. */
  ghost predicate Swept(a: Tree, b: Tree, root: Path, tempName: Name, f: Filter, done: set<Name>) {
    forall q :: q in a && Below(q, root + [tempName], done) && a[q] == File && Selected(f, Base(q)) ==> q !in b
  }

  /** An error of the promotion loop: a rename had no free name, or the pattern did not compile. */
  predicate PromoteError(e: Error, f: Filter) {
    e.LinkFailed? || Some(e) == CompileError(f)
  }

  /** The walk that promotes the staged entry `n` moves only selected files from below it. */
  lemma PromoteWalkMoves(t: Tree, root: Path, tempName: Name, n: Name, f: Filter)
    requires WellFormed(t) && root + [tempName] + [n] in t
    ensures var o := WalkRename(t, root + [tempName] + [n], root, n, f);
      && WellFormed(o.tree)
      && Promotes(t, o.tree, root, tempName, f, {n})
  {
    var tempDir := root + [tempName];
    var w := tempDir + [n];
    assert !(w <= root);
    WalkRenameKeeps(t, w, root, n, f);
    forall q | w <= q ensures Below(q, tempDir, {n}) {
      assert q[|tempDir|] == w[|tempDir|];
    }
  }

  /** The walk that promotes the staged entry `n` fails only for want of a free name, and otherwise sweeps `n`. */
  lemma PromoteWalkSweeps(t: Tree, root: Path, tempName: Name, n: Name, f: Filter)
    requires WellFormed(t) && IsDir(t, root) && root + [tempName] + [n] in t
    ensures var o := WalkRename(t, root + [tempName] + [n], root, n, f);
      && (o.err.Some? ==> o.err.value.LinkFailed?)
      && (o.err.None? ==> Swept(t, o.tree, root, tempName, f, {n}))
  {
    var w := root + [tempName] + [n];
    assert !(w <= root);
    WalkRenameComplete(t, w, root, n, f);
    var o := WalkRename(t, w, root, n, f);
    if o.err.None? {
      SweptBelow(t, o.tree, root, tempName, n, f);
    }
  }

  /** Every selected file below the staged entry `n` gone means `n` is swept. */
  lemma SweptBelow(a: Tree, b: Tree, root: Path, tempName: Name, n: Name, f: Filter)
    requires forall q :: q in a && root + [tempName] + [n] <= q && a[q] == File && Selected(f, Base(q)) ==> q !in b
    ensures Swept(a, b, root, tempName, f, {n})
  {
    var tempDir := root + [tempName];
    var w := tempDir + [n];
    forall q | Below(q, tempDir, {n}) ensures w <= q {
      assert q[..|w|] == w;
    }
  }

  /** Promoting one staged entry `n`. */
  lemma PromoteStep(t: Tree, root: Path, tempName: Name, n: Name, f: Filter)
    requires WellFormed(t) && IsDir(t, root) && root + [tempName] + [n] in t
    ensures var o := RenameFiltered(t, root + [tempName] + [n], root, n, f);
      && WellFormed(o.tree)
      && Promotes(t, o.tree, root, tempName, f, {n})
      && (o.err.Some? ==> PromoteError(o.err.value, f))
      && (o.err.None? ==> Swept(t, o.tree, root, tempName, f, {n}))
  {
    var w := root + [tempName] + [n];
    if CompileError(f).None? {
      assert RenameFiltered(t, w, root, n, f) == WalkRename(t, w, root, n, f);
      PromoteWalkMoves(t, root, tempName, n, f);
      PromoteWalkSweeps(t, root, tempName, n, f);
    }
  }

  lemma PromotesNone(t: Tree, root: Path, tempName: Name, f: Filter)
    ensures Promotes(t, t, root, tempName, f, {}) && Swept(t, t, root, tempName, f, {})
  {}

  lemma PromotesTrans(a: Tree, b: Tree, c: Tree, root: Path, tempName: Name, f: Filter, d1: set<Name>, d2: set<Name>)
    requires Promotes(a, b, root, tempName, f, d1) && Promotes(b, c, root, tempName, f, d2)
    ensures Promotes(a, c, root, tempName, f, d1 + d2)
    ensures Swept(a, b, root, tempName, f, d1) && Swept(b, c, root, tempName, f, d2) ==> Swept(a, c, root, tempName, f, d1 + d2)
  {
    var tempDir := root + [tempName];
    forall q | q in c && q !in a ensures exists n :: n in d1 + d2 && n <= Base(q) {
      if q in b {
        var n :| n in d1 && n <= Base(q);
        assert n in d1 + d2;
      } else {
        var n :| n in d2 && n <= Base(q);
        assert n in d1 + d2;
      }
    }
  }

  /**
   * The promotion loop over distinct staged entries, all present: the tree
   * stays well formed and changes only as promotion may; an error is one a
   * rename or the pattern raised; without one, every selected file below
   * the staged entries has been promoted.
   */
  lemma {:induction false} PromoteFromEffect(t: Tree, root: Path, tempName: Name, entries: seq<Entry>, f: Filter)
    requires WellFormed(t) && IsDir(t, root)
    requires forall i, j :: 0 <= i < j < |entries| ==> entries[i].name != entries[j].name
    requires forall i :: 0 <= i < |entries| ==> root + [tempName] + [entries[i].name] in t
    ensures var o := PromoteFrom(t, root + [tempName], root, entries, f);
      && WellFormed(o.tree)
      && Promotes(t, o.tree, root, tempName, f, StagedNames(entries, false))
      && (o.err.Some? ==> PromoteError(o.err.value, f))
      && (o.err.None? ==> Swept(t, o.tree, root, tempName, f, StagedNames(entries, false)))
    decreases |entries|
  {
    var tempDir := root + [tempName];
    if entries == [] {
      PromotesNone(t, root, tempName, f);
    } else {
      var n := entries[0].name;
      var rest := entries[1..];
      var o := RenameFiltered(t, tempDir + [n], root, n, f);
      PromoteStep(t, root, tempName, n, f);
      if o.err.None? {
        var t1 := o.tree;
        assert IsDir(t1, root);
        forall i | 0 <= i < |rest| ensures tempDir + [rest[i].name] in t1 {
          assert rest[i] == entries[i + 1];
          assert !Below(tempDir + [rest[i].name], tempDir, {n});
        }
        assert forall i, j :: 0 <= i < j < |rest| ==> rest[i] == entries[i + 1] && rest[j] == entries[j + 1];
        PromoteFromEffect(t1, root, tempName, rest, f);
        PromotesTrans(t, t1, PromoteFrom(t1, tempDir, root, rest, f).tree, root, tempName, f, {n}, StagedNames(rest, false));
      }
    }
  }

  /** `renameToDirName` over a staging directory: its listing is every staged entry, each present and named once. */
  lemma PromoteSpecEffect(t: Tree, root: Path, tempName: Name, f: Filter)
    requires WellFormed(t) && IsDir(t, root) && IsDir(t, root + [tempName])
    ensures var o := PromoteSpec(t, root + [tempName], root, f);
      && WellFormed(o.tree)
      && Promotes(t, o.tree, root, tempName, f, Children(t, root + [tempName]))
      && (o.err.Some? ==> PromoteError(o.err.value, f))
      && (o.err.None? ==> Swept(t, o.tree, root, tempName, f, Children(t, root + [tempName])))
  {
    var tempDir := root + [tempName];
    var entries := ReadDirOf(t, tempDir).value;
    var names := Listing(t, tempDir);
    forall i, j | 0 <= i < j < |entries| ensures entries[i].name != entries[j].name {
      assert entries[i].name == names[i] && entries[j].name == names[j];
    }
    PromoteFromEffect(t, root, tempName, entries, f);
    StagedNamesOfListing(t, tempDir, false);
  }

  /** The renames of the promotion loop: those of the walk of each staged entry, up to the first error. */
  ghost function PromoteArrivals(t: Tree, tempDir: Path, root: Path, entries: seq<Entry>, f: Filter): map<Path, Path>
    decreases |entries|
  {
    if entries == [] then map[]
    else
      var n := entries[0].name;
      var o := RenameFiltered(t, tempDir + [n], root, n, f);
      if o.err.Some? then map[]
      else WalkArrivals(t, tempDir + [n], root, n, f) + PromoteArrivals(o.tree, tempDir, root, entries[1..], f)
  }

  /** The renames of `renameToDirName` over the listing of the staging directory. */
  ghost function PromoteSpecArrivals(t: Tree, tempDir: Path, root: Path, f: Filter): map<Path, Path> {
    match ReadDirOf(t, tempDir)
    case Failure(_) => map[]
    case Success(entries) => PromoteArrivals(t, tempDir, root, entries, f)
  }

  /**
   * The renames `m` of promoting the staged entries `done`: `b` is `a` with
   * exactly the selected files below those entries relocated, each to a
   * candidate in `root` named after the staged entry it lay below.
   */
  ghost predicate PromoteMoves(a: Tree, b: Tree, root: Path, tempName: Name, f: Filter, done: set<Name>, m: map<Path, Path>) {
    var tempDir := root + [tempName];
    && Relocates(a, b, m)
    && (forall p :: p in m <==> p in a && Below(p, tempDir, done) && a[p] == File && Selected(f, Base(p)))
    && (forall p :: p in m ==> |p| > |tempDir| && IsCandidate(m[p], root, p[|tempDir|], Ext(Base(p))))
  }

  /** Below one staged entry `n` is at or below `tempDir/n`. */
  lemma BelowOne(q: Path, tempDir: Path, n: Name)
    ensures Below(q, tempDir, {n}) <==> tempDir + [n] <= q
  {
    if tempDir + [n] <= q {
      assert q[|tempDir|] == (tempDir + [n])[|tempDir|];
    }
    if Below(q, tempDir, {n}) {
      assert q[..|tempDir| + 1] == tempDir + [n];
    }
  }

  /** The walk promoting the staged entry `n`, when it does not fail, moves exactly the selected files below `n`. */
  lemma PromoteWalkArrivals(t: Tree, root: Path, tempName: Name, n: Name, f: Filter)
    requires WellFormed(t) && IsDir(t, root) && root + [tempName] + [n] in t
    requires RenameFiltered(t, root + [tempName] + [n], root, n, f).err.None?
    ensures WellFormed(RenameFiltered(t, root + [tempName] + [n], root, n, f).tree)
    ensures PromoteMoves(t, RenameFiltered(t, root + [tempName] + [n], root, n, f).tree, root, tempName, f, {n},
                         WalkArrivals(t, root + [tempName] + [n], root, n, f))
  {
    var w := root + [tempName] + [n];
    assert !(w <= root);
    RenameFilteredWellFormed(t, w, root, n, f);
    RenameFilteredArrivals(t, w, root, n, f);
    PromoteOneMoves(t, RenameFiltered(t, w, root, n, f).tree, root, tempName, n, f, WalkArrivals(t, w, root, n, f));
  }

  /** The renames of a walk over the staged entry `n` into `root`, read as a promotion of `{n}`. */
  lemma PromoteOneMoves(a: Tree, b: Tree, root: Path, tempName: Name, n: Name, f: Filter, m: map<Path, Path>)
    requires Relocates(a, b, m)
    requires forall p :: p in m <==> p in a && root + [tempName] + [n] <= p && a[p] == File && Selected(f, Base(p))
    requires forall p :: p in m ==> IsCandidate(m[p], root, n, Ext(Base(p)))
    ensures PromoteMoves(a, b, root, tempName, f, {n}, m)
  {
    var tempDir := root + [tempName];
    var w := tempDir + [n];
    forall q ensures Below(q, tempDir, {n}) <==> w <= q {
      BelowOne(q, tempDir, n);
    }
    forall q | w <= q ensures |q| > |tempDir| && q[|tempDir|] == n {
      assert q[|tempDir|] == w[|tempDir|];
    }
  }

  /** The renames of promoting disjoint sets of staged entries one after the other compose. */
  lemma PromoteMovesTrans(a: Tree, b: Tree, c: Tree, root: Path, tempName: Name, f: Filter,
                          d1: set<Name>, d2: set<Name>, m1: map<Path, Path>, m2: map<Path, Path>)
    requires PromoteMoves(a, b, root, tempName, f, d1, m1) && PromoteMoves(b, c, root, tempName, f, d2, m2)
    requires d1 !! d2
    ensures PromoteMoves(a, c, root, tempName, f, d1 + d2, m1 + m2)
  {
    var tempDir := root + [tempName];
    forall p | p in m2 ensures p in a && m2[p] !in a && p !in m1 {
      CandidateInDir(m2[p], root, p[|tempDir|], Ext(Base(p)));
      if p !in a {
        var p' :| p' in m1 && m1[p'] == p;
        CandidateInDir(m1[p'], root, p'[|tempDir|], Ext(Base(p')));
      }
    }
    RelocatesTrans(a, b, c, m1, m2);
    var m := m1 + m2;
    forall p ensures p in m <==> p in a && Below(p, tempDir, d1 + d2) && a[p] == File && Selected(f, Base(p)) {
      if p in a && Below(p, tempDir, d1 + d2) && a[p] == File && Selected(f, Base(p)) && !Below(p, tempDir, d1) {
        assert p !in m1 && Below(p, tempDir, d2);
      }
    }
    forall p | p in m ensures |p| > |tempDir| && IsCandidate(m[p], root, p[|tempDir|], Ext(Base(p))) {
      if p in m2 { assert m[p] == m2[p]; }
    }
  }

  /**
   * The promotion loop over distinct staged entries, all present, when it
   * returns no error: exactly the selected files below the staged entries
   * have moved, each to a candidate `root/n[-k]ext` of its own, with `n`
   * the entry it lay below and `ext` its extension; nothing else changes.
   */
  lemma {:induction false} PromoteFromArrivals(t: Tree, root: Path, tempName: Name, entries: seq<Entry>, f: Filter)
    requires WellFormed(t) && IsDir(t, root)
    requires forall i, j :: 0 <= i < j < |entries| ==> entries[i].name != entries[j].name
    requires forall i :: 0 <= i < |entries| ==> root + [tempName] + [entries[i].name] in t
    requires PromoteFrom(t, root + [tempName], root, entries, f).err.None?
    ensures PromoteMoves(t, PromoteFrom(t, root + [tempName], root, entries, f).tree, root, tempName, f,
                         StagedNames(entries, false), PromoteArrivals(t, root + [tempName], root, entries, f))
    decreases |entries|
  {
    if entries != [] {
      var t1, m1 := PromoteFirst(t, root, tempName, entries, f);
      PromoteFromArrivals(t1, root, tempName, entries[1..], f);
      PromoteMovesTrans(t, t1, PromoteFrom(t1, root + [tempName], root, entries[1..], f).tree, root, tempName, f,
                        {entries[0].name}, StagedNames(entries[1..], false), m1, PromoteArrivals(t1, root + [tempName], root, entries[1..], f));
    }
  }

  /** The first turn of the promotion loop: the tree and renames it leaves, and what the rest of the loop then starts from. */
  lemma PromoteFirst(t: Tree, root: Path, tempName: Name, entries: seq<Entry>, f: Filter) returns (t1: Tree, m1: map<Path, Path>)
    requires WellFormed(t) && IsDir(t, root) && entries != []
    requires forall i, j :: 0 <= i < j < |entries| ==> entries[i].name != entries[j].name
    requires forall i :: 0 <= i < |entries| ==> root + [tempName] + [entries[i].name] in t
    requires PromoteFrom(t, root + [tempName], root, entries, f).err.None?
    ensures WellFormed(t1) && PromoteMoves(t, t1, root, tempName, f, {entries[0].name}, m1)
    ensures PromoteFrom(t, root + [tempName], root, entries, f) == PromoteFrom(t1, root + [tempName], root, entries[1..], f)
    ensures PromoteArrivals(t, root + [tempName], root, entries, f) == m1 + PromoteArrivals(t1, root + [tempName], root, entries[1..], f)
    ensures var rest := entries[1..];
      && IsDir(t1, root)
      && (forall i, j :: 0 <= i < j < |rest| ==> rest[i].name != rest[j].name)
      && (forall i :: 0 <= i < |rest| ==> root + [tempName] + [rest[i].name] in t1)
      && entries[0].name !in StagedNames(rest, false)
      && StagedNames(entries, false) == {entries[0].name} + StagedNames(rest, false)
  {
    var tempDir := root + [tempName];
    var n := entries[0].name;
    assert tempDir + [n] in t;
    var o := RenameFiltered(t, tempDir + [n], root, n, f);
    assert o.err.None?;
    PromoteWalkArrivals(t, root, tempName, n, f);
    t1, m1 := o.tree, WalkArrivals(t, tempDir + [n], root, n, f);
    PromoteRestReady(t, t1, root, tempName, entries, f, m1);
  }

  /** After the first staged entry is promoted, the rest of the listing is still distinct, present and unpromoted. */
  lemma PromoteRestReady(t: Tree, t1: Tree, root: Path, tempName: Name, entries: seq<Entry>, f: Filter, m: map<Path, Path>)
    requires |entries| > 0 && IsDir(t, root)
    requires PromoteMoves(t, t1, root, tempName, f, {entries[0].name}, m)
    requires forall i, j :: 0 <= i < j < |entries| ==> entries[i].name != entries[j].name
    requires forall i :: 0 <= i < |entries| ==> root + [tempName] + [entries[i].name] in t
    ensures var rest := entries[1..];
      && IsDir(t1, root)
      && (forall i, j :: 0 <= i < j < |rest| ==> rest[i].name != rest[j].name)
      && (forall i :: 0 <= i < |rest| ==> root + [tempName] + [rest[i].name] in t1)
      && entries[0].name !in StagedNames(rest, false)
      && StagedNames(entries, false) == {entries[0].name} + StagedNames(rest, false)
  {
    var tempDir := root + [tempName];
    var n := entries[0].name;
    var rest := entries[1..];
    forall i | 0 <= i < |rest| ensures tempDir + [rest[i].name] in t1 {
      assert rest[i] == entries[i + 1];
      assert !Below(tempDir + [rest[i].name], tempDir, {n});
    }
    assert forall i, j :: 0 <= i < j < |rest| ==> rest[i] == entries[i + 1] && rest[j] == entries[j + 1];
    StagedNamesAt(rest, false, n);
  }

  /** `renameToDirName` over a staging directory, when it returns no error: the same, for every entry of the staging directory. */
  lemma PromoteSpecArrivalsEffect(t: Tree, root: Path, tempName: Name, f: Filter)
    requires WellFormed(t) && IsDir(t, root) && IsDir(t, root + [tempName])
    requires PromoteSpec(t, root + [tempName], root, f).err.None?
    ensures PromoteMoves(t, PromoteSpec(t, root + [tempName], root, f).tree, root, tempName, f,
                         Children(t, root + [tempName]), PromoteSpecArrivals(t, root + [tempName], root, f))
  {
    var tempDir := root + [tempName];
    var entries := ReadDirOf(t, tempDir).value;
    var names := Listing(t, tempDir);
    forall i, j | 0 <= i < j < |entries| ensures entries[i].name != entries[j].name {
      assert entries[i].name == names[i] && entries[j].name == names[j];
    }
    PromoteFromArrivals(t, root, tempName, entries, f);
    StagedNamesOfListing(t, tempDir, false);
  }

  // ---------------------------------------------------------------------
  // The transform as a whole
  // ---------------------------------------------------------------------

  /** The staged tree and the promoted tree of a transform whose staging succeeds. */
  lemma TransformSteps(t: Tree, root: Path, tempName: Name, dirsOnly: bool, f: Filter)
    requires WellFormed(t) && IsDir(t, root) && ValidName(tempName) && root + [tempName] !in t
    ensures var m := MoveDirsSpec(t, root, tempName, dirsOnly);
      var p := PromoteSpec(m.tree, root + [tempName], root, f);
      && m.err.None?
      && WellFormed(m.tree) && IsDir(m.tree, root) && IsDir(m.tree, root + [tempName])
      && WellFormed(p.tree)
      && Promotes(m.tree, p.tree, root, tempName, f, Children(m.tree, root + [tempName]))
      && (p.err.Some? ==> PromoteError(p.err.value, f))
      && (p.err.None? ==> Swept(m.tree, p.tree, root, tempName, f, Children(m.tree, root + [tempName])))
      && TransformSpec(t, root, tempName, dirsOnly, f) == (if p.err.Some? then p else Outcome(None, RemoveTree(p.tree, root + [tempName])))
  {
    var tempDir := root + [tempName];
    MoveDirsFails(t, root, tempName, dirsOnly);
    MoveDirsEffect(t, root, tempName, dirsOnly);
    var m := MoveDirsSpec(t, root, tempName, dirsOnly).tree;
    assert Placed(m, tempDir) && tempDir[..|tempDir| - 1] == root;
    PromoteSpecEffect(m, root, tempName, f);
  }

  /**
   * `ToDirNames` fails before any change when `root` is missing, is not a
   * directory, or already holds an entry with the staging name; a later
   * error comes from a rename or the pattern and leaves the staging
   * directory in place.
   */
  lemma TransformErrors(t: Tree, root: Path, tempName: Name, dirsOnly: bool, f: Filter)
    requires WellFormed(t) && ValidName(tempName)
    ensures !Exists(t, root) ==> TransformSpec(t, root, tempName, dirsOnly, f) == Outcome(Some(NotFound(root)), t)
    ensures Exists(t, root) && !IsDir(t, root) ==>
              TransformSpec(t, root, tempName, dirsOnly, f) == Outcome(Some(ReadDirFailed(root)), t)
    ensures IsDir(t, root) && root + [tempName] in t ==>
              TransformSpec(t, root, tempName, dirsOnly, f) == Outcome(Some(MkdirFailed(root + [tempName])), t)
    ensures var o := TransformSpec(t, root, tempName, dirsOnly, f);
      IsDir(t, root) && root + [tempName] !in t && o.err.Some? ==>
        PromoteError(o.err.value, f) && IsDir(o.tree, root + [tempName])
  {
    MoveDirsFails(t, root, tempName, dirsOnly);
    if IsDir(t, root) && root + [tempName] !in t {
      TransformSteps(t, root, tempName, dirsOnly, f);
    }
  }

  /**
   * A successful transform changes nothing outside `root`: what was there
   * is still there with the same kind, and nothing new appears there.
   */
  lemma TransformOutside(t: Tree, root: Path, tempName: Name, dirsOnly: bool, f: Filter)
    requires WellFormed(t) && IsDir(t, root) && ValidName(tempName) && root + [tempName] !in t
    requires TransformSpec(t, root, tempName, dirsOnly, f).err.None?
    ensures var s := TransformSpec(t, root, tempName, dirsOnly, f).tree;
      forall q :: !(root <= q) ==> (q in s <==> q in t) && (q in t ==> s[q] == t[q])
  {
    var tempDir := root + [tempName];
    TransformSteps(t, root, tempName, dirsOnly, f);
    MoveDirsEffect(t, root, tempName, dirsOnly);
    var m := MoveDirsSpec(t, root, tempName, dirsOnly).tree;
    OutsideThrough(t, m, PromoteSpec(m, tempDir, root, f).tree, root, tempName, f, Children(m, tempDir));
  }

  /** Staging and promotion together leave everything outside `root` as it was. */
  lemma OutsideThrough(t: Tree, m: Tree, p: Tree, root: Path, tempName: Name, f: Filter, staged: set<Name>)
    requires forall q :: q in t && !(root <= q) ==> q in m && m[q] == t[q]
    requires forall q :: q in m && !(root + [tempName] <= q) ==> q in t && m[q] == t[q]
    requires Promotes(m, p, root, tempName, f, staged)
    ensures var s := RemoveTree(p, root + [tempName]);
      forall q :: !(root <= q) ==> (q in s <==> q in t) && (q in t ==> s[q] == t[q])
  {
    var tempDir := root + [tempName];
    forall q | !(root <= q) ensures (q in p <==> q in t) && (q in t ==> p[q] == t[q]) && !(tempDir <= q) {
      assert tempDir <= q ==> root <= q;
      assert !Below(q, tempDir, staged);
    }
  }

  /**
   * A successful transform flattens `root`: the staging directory is gone,
   * and every entry left strictly below `root` is a file directly inside it.
   */
  lemma TransformFlattens(t: Tree, root: Path, tempName: Name, dirsOnly: bool, f: Filter)
    requires WellFormed(t) && IsDir(t, root) && ValidName(tempName) && root + [tempName] !in t
    requires TransformSpec(t, root, tempName, dirsOnly, f).err.None?
    ensures var s := TransformSpec(t, root, tempName, dirsOnly, f).tree;
      && root + [tempName] !in s
      && forall q :: q in s && root < q ==> InDir(q, root) && s[q] == File
  {
    var tempDir := root + [tempName];
    TransformSteps(t, root, tempName, dirsOnly, f);
    MoveDirsEffect(t, root, tempName, dirsOnly);
    var m := MoveDirsSpec(t, root, tempName, dirsOnly).tree;
    var kept := if dirsOnly then FilesIn(t, root) else {};
    forall x | x in kept ensures m[root + [x]] == File {
      assert !(tempDir <= root + [x]) by { SiblingNotPrefix(root, tempName, x, []); }
    }
    FlatThrough(m, PromoteSpec(m, tempDir, root, f).tree, root, tempName, f, Children(m, tempDir), kept);
  }

  /** What staging leaves in `root` besides the staging directory is files, so after promotion `root` is flat. */
  lemma FlatThrough(m: Tree, p: Tree, root: Path, tempName: Name, f: Filter, staged: set<Name>, kept: set<Name>)
    requires WellFormed(m) && Children(m, root) == {tempName} + kept
    requires forall x :: x in kept ==> m[root + [x]] == File
    requires Promotes(m, p, root, tempName, f, staged)
    ensures var s := RemoveTree(p, root + [tempName]);
      forall q :: q in s && root < q ==> InDir(q, root) && s[q] == File
  {
    var tempDir := root + [tempName];
    var s := RemoveTree(p, tempDir);
    forall q | q in s && root < q ensures InDir(q, root) && s[q] == File {
      if q in m {
        ChildOnPath(m, root, q);
        var x := q[|root|];
        var c := root + [x];
        assert x in Children(m, root);
        assert x == tempName ==> tempDir <= q;
        assert c < q ==> IsDir(m, c) by {
          if c < q { AncestorIsDir(m, q, c); }
        }
        PrefixCases(c, q);
      }
    }
  }

  /** In the directories-only revision, the files directly in `root` stay where they are. */
  lemma TransformKeepsFiles(t: Tree, root: Path, tempName: Name, f: Filter)
    requires WellFormed(t) && IsDir(t, root) && ValidName(tempName) && root + [tempName] !in t
    requires TransformSpec(t, root, tempName, true, f).err.None?
    ensures var s := TransformSpec(t, root, tempName, true, f).tree;
      forall x :: x in FilesIn(t, root) ==> root + [x] in s && s[root + [x]] == File
  {
    var tempDir := root + [tempName];
    TransformSteps(t, root, tempName, true, f);
    MoveDirsEffect(t, root, tempName, true);
    var m := MoveDirsSpec(t, root, tempName, true).tree;
    var p := PromoteSpec(m, tempDir, root, f).tree;
    forall x | x in FilesIn(t, root) ensures root + [x] in RemoveTree(p, tempDir) && p[root + [x]] == File {
      SiblingNotPrefix(root, tempName, x, []);
      assert root + [x] + [] == root + [x];
      assert !Below(root + [x], tempDir, Children(m, tempDir));
    }
  }

  /**
   * What the final `os.RemoveAll` deletes: directories, and the files the
   * filter did not select; every selected file has been promoted first.
   */
  lemma TransformDeletes(t: Tree, root: Path, tempName: Name, dirsOnly: bool, f: Filter)
    requires WellFormed(t) && IsDir(t, root) && ValidName(tempName) && root + [tempName] !in t
    requires TransformSpec(t, root, tempName, dirsOnly, f).err.None?
    ensures var m := MoveDirsSpec(t, root, tempName, dirsOnly).tree;
      var p := PromoteSpec(m, root + [tempName], root, f).tree;
      forall q :: q in p && root + [tempName] <= q ==> p[q] == Dir || !Selected(f, Base(q))
  {
    var tempDir := root + [tempName];
    TransformSteps(t, root, tempName, dirsOnly, f);
    var m := MoveDirsSpec(t, root, tempName, dirsOnly).tree;
    DeletesThrough(m, PromoteSpec(m, tempDir, root, f).tree, root, tempName, f);
  }

  lemma DeletesThrough(m: Tree, p: Tree, root: Path, tempName: Name, f: Filter)
    requires WellFormed(m) && IsDir(m, root + [tempName])
    requires Promotes(m, p, root, tempName, f, Children(m, root + [tempName]))
    requires Swept(m, p, root, tempName, f, Children(m, root + [tempName]))
    ensures forall q :: q in p && root + [tempName] <= q ==> p[q] == Dir || !Selected(f, Base(q))
  {
    var tempDir := root + [tempName];
    forall q | q in p && tempDir <= q ensures p[q] == Dir || !Selected(f, Base(q)) {
      assert q !in m ==> InDir(q, root);
      assert InDir(q, root) ==> q == tempDir;
      PrefixCases(tempDir, q);
      if q != tempDir {
        ChildOnPath(m, tempDir, q);
        assert Below(q, tempDir, Children(m, tempDir));
      }
    }
  }

  /**
   * A successful transform adds to `root` only files directly inside it,
   * each named after a staged entry of `root`: any of them, or any of its
   * directories in the directories-only revision.
   */
  lemma TransformArrivals(t: Tree, root: Path, tempName: Name, dirsOnly: bool, f: Filter)
    requires WellFormed(t) && IsDir(t, root) && ValidName(tempName) && root + [tempName] !in t
    requires TransformSpec(t, root, tempName, dirsOnly, f).err.None?
    ensures var s := TransformSpec(t, root, tempName, dirsOnly, f).tree;
      forall q :: q in s && q !in t ==>
        && InDir(q, root) && s[q] == File
        && exists n :: n in StagedOf(t, root, dirsOnly) && n <= Base(q)
  {
    var tempDir := root + [tempName];
    TransformSteps(t, root, tempName, dirsOnly, f);
    MoveDirsEffect(t, root, tempName, dirsOnly);
    var m := MoveDirsSpec(t, root, tempName, dirsOnly).tree;
    assert Children(m, tempDir) == StagedOf(t, root, dirsOnly);
    ArrivalsThrough(t, m, PromoteSpec(m, tempDir, root, f).tree, root, tempName, f, StagedOf(t, root, dirsOnly));
  }

  /** Whatever is new after staging and promotion was promoted into `root`. */
  lemma ArrivalsThrough(t: Tree, m: Tree, p: Tree, root: Path, tempName: Name, f: Filter, staged: set<Name>)
    requires forall q :: q in m && !(root + [tempName] <= q) ==> q in t
    requires Promotes(m, p, root, tempName, f, staged)
    ensures var s := RemoveTree(p, root + [tempName]);
      forall q :: q in s && q !in t ==>
        && InDir(q, root) && s[q] == File
        && exists n :: n in staged && n <= Base(q)
  {
    var s := RemoveTree(p, root + [tempName]);
    forall q | q in s && q !in t ensures q !in m {}
  }

  /** The renames of a transform: those of its promotion loop, over the staged tree. */
  ghost function TransformMoves(t: Tree, root: Path, tempName: Name, dirsOnly: bool, f: Filter): map<Path, Path> {
    PromoteSpecArrivals(MoveDirsSpec(t, root, tempName, dirsOnly).tree, root + [tempName], root, f)
  }

  /**
   * How a successful transform turns the staged tree `s` into `r`, with `m`
   * its renames: exactly the selected files in the staging directory move,
   * each to a file of its own directly in `root`, named after the staged
   * entry `n` it lay below as `n[-k]ext` with its own extension and a path
   * that was free; everything outside the staging directory stays as it
   * was; and `r` holds nothing else.
   */
  ghost predicate Transformed(s: Tree, r: Tree, root: Path, tempName: Name, f: Filter, m: map<Path, Path>) {
    var tempDir := root + [tempName];
    && (forall p :: p in m <==> p in s && tempDir <= p && s[p] == File && Selected(f, Base(p)))
    && (forall p :: p in m ==> |p| > |tempDir| && m[p] !in s && m[p] in r && r[m[p]] == File &&
                               IsCandidate(m[p], root, p[|tempDir|], Ext(Base(p))))
    && (forall p, p' :: p in m && p' in m && p != p' ==> m[p] != m[p'])
    && (forall q :: q in s && !(tempDir <= q) ==> q in r && r[q] == s[q])
    && (forall q :: q in r ==> (q in s && !(tempDir <= q)) || exists p :: p in m && m[p] == q)
  }

  /**
   * `ToDirNames` in either revision, when it returns no error: every
   * selected file that staging put below the staging directory arrives in
   * `root` under a name of its own, after the entry it was staged with;
   * nothing else appears, and only the staging directory goes.
   */
  lemma TransformRelocates(t: Tree, root: Path, tempName: Name, dirsOnly: bool, f: Filter)
    requires WellFormed(t) && ValidName(tempName)
    requires TransformSpec(t, root, tempName, dirsOnly, f).err.None?
    ensures Transformed(MoveDirsSpec(t, root, tempName, dirsOnly).tree, TransformSpec(t, root, tempName, dirsOnly, f).tree,
                        root, tempName, f, TransformMoves(t, root, tempName, dirsOnly, f))
  {
    var tempDir := root + [tempName];
    TransformErrors(t, root, tempName, dirsOnly, f);
    TransformSteps(t, root, tempName, dirsOnly, f);
    var s := MoveDirsSpec(t, root, tempName, dirsOnly).tree;
    PromoteSpecArrivalsEffect(s, root, tempName, f);
    TransformedThrough(s, PromoteSpec(s, tempDir, root, f).tree, root, tempName, f, TransformMoves(t, root, tempName, dirsOnly, f));
  }

  /** Promotion of every staged entry, then the removal of the staging directory. */
  lemma TransformedThrough(s: Tree, p: Tree, root: Path, tempName: Name, f: Filter, m: map<Path, Path>)
    requires WellFormed(s) && IsDir(s, root + [tempName])
    requires PromoteMoves(s, p, root, tempName, f, Children(s, root + [tempName]), m)
    ensures Transformed(s, RemoveTree(p, root + [tempName]), root, tempName, f, m)
  {
    var tempDir := root + [tempName];
    var r := RemoveTree(p, tempDir);
    forall q | q in s ensures (tempDir <= q && s[q] == File) <==> Below(q, tempDir, Children(s, tempDir)) && s[q] == File {
      if tempDir <= q && s[q] == File {
        assert q != tempDir;
        ChildOnPath(s, tempDir, q);
      }
    }
    forall x | x in m ensures |x| > |tempDir| && m[x] in r {
      CandidateInDir(m[x], root, x[|tempDir|], Ext(Base(x)));
      assert m[x] != tempDir;
    }
  }

  // ---------------------------------------------------------------------
  // The transform, from the caller's tree
  // ---------------------------------------------------------------------

  /** `q` is a file of `t` below a staged entry of `root`, and the filter selects its name. */
  ghost predicate Picked(t: Tree, root: Path, staged: set<Name>, f: Filter, q: Path) {
    q in t && Below(q, root, staged) && t[q] == File && Selected(f, Base(q))
  }

  /**
   * How a successful transform turns the caller's tree `t` into `r`, with
   * `m` its renames (keyed by the staged path): every selected file below a
   * staged entry `n` of `root` arrives as a file directly in `root` named
   * `n[-k]ext` with its own extension, at a path no entry of `t` keeps;
   * no two of them arrive at the same path; every other entry of `t` stays
   * as it was; and `r` holds nothing else.
   */
  ghost predicate Delivered(t: Tree, r: Tree, root: Path, tempName: Name, staged: set<Name>, f: Filter, m: map<Path, Path>) {
    && (forall q :: Picked(t, root, staged, f, q) ==>
          && Staged(q, root, tempName) in m
          && m[Staged(q, root, tempName)] in r && r[m[Staged(q, root, tempName)]] == File
          && IsCandidate(m[Staged(q, root, tempName)], root, q[|root|], Ext(Base(q)))
          && (m[Staged(q, root, tempName)] in t ==> Below(m[Staged(q, root, tempName)], root, staged)))
    && (forall q, q' ::
          (Picked(t, root, staged, f, q) && Picked(t, root, staged, f, q') && q != q' &&
           Staged(q, root, tempName) in m && Staged(q', root, tempName) in m) ==>
          m[Staged(q, root, tempName)] != m[Staged(q', root, tempName)])
    && (forall q :: q in t && !Below(q, root, staged) ==> q in r && r[q] == t[q])
    && (forall x :: x in r ==>
          (x in t && !Below(x, root, staged) && r[x] == t[x]) ||
          exists q :: Picked(t, root, staged, f, q) && Staged(q, root, tempName) in m && m[Staged(q, root, tempName)] == x)
  }

  /**
   * `ToDirNames` in either revision, when it returns no error, stated on the
   * tree it was called on: each selected file below an entry the revision
   * stages ends up directly in `root` under a name of its own after that
   * entry; everything else stays; nothing else appears.
   */
  lemma TransformDelivers(t: Tree, root: Path, tempName: Name, dirsOnly: bool, f: Filter)
    requires WellFormed(t) && ValidName(tempName)
    requires TransformSpec(t, root, tempName, dirsOnly, f).err.None?
    ensures Delivered(t, TransformSpec(t, root, tempName, dirsOnly, f).tree, root, tempName,
                      StagedOf(t, root, dirsOnly), f, TransformMoves(t, root, tempName, dirsOnly, f))
  {
    TransformErrors(t, root, tempName, dirsOnly, f);
    var s := MoveDirsSpec(t, root, tempName, dirsOnly).tree;
    var r := TransformSpec(t, root, tempName, dirsOnly, f).tree;
    var m := TransformMoves(t, root, tempName, dirsOnly, f);
    TransformRelocates(t, root, tempName, dirsOnly, f);
    MoveDirsKeeps(t, root, tempName, dirsOnly);
    MoveDirsEffect(t, root, tempName, dirsOnly);
    DeliveredThrough(t, s, r, root, tempName, StagedOf(t, root, dirsOnly), f, m);
  }

  /** From the caller's tree through staging (`s`) to the result (`r`). */
  lemma DeliveredThrough(t: Tree, s: Tree, r: Tree, root: Path, tempName: Name, staged: set<Name>, f: Filter, m: map<Path, Path>)
    requires WellFormed(t) && root + [tempName] !in t && tempName !in staged
    requires WellFormed(s) && Children(s, root + [tempName]) == staged
    requires StageKeeps(t[root + [tempName] := Dir], s, root, tempName, staged)
    requires Transformed(s, r, root, tempName, f, m)
    ensures Delivered(t, r, root, tempName, staged, f, m)
  {
    DeliveredArrive(t, s, r, root, tempName, staged, f, m);
    DeliveredStay(t, s, r, root, tempName, staged, f, m);
    DeliveredNothingElse(t, s, r, root, tempName, staged, f, m);
  }

  /** Staging keeps the name of an entry, and its place below the staged entry. */
  lemma StagedShape(q: Path, root: Path, tempName: Name)
    requires |q| > |root|
    ensures Base(Staged(q, root, tempName)) == Base(q)
    ensures Staged(q, root, tempName)[|root + [tempName]|] == q[|root|]
    ensures |Staged(q, root, tempName)| > |root + [tempName]| && root + [tempName] <= Staged(q, root, tempName)
  {}

  lemma StagedInjective(q: Path, q': Path, root: Path, tempName: Name)
    requires |q| >= |root| && |q'| >= |root| && root <= q && root <= q'
    requires Staged(q, root, tempName) == Staged(q', root, tempName)
    ensures q == q'
  {
    assert q[|root|..] == Staged(q, root, tempName)[|root| + 1..];
    assert q == q[..|root|] + q[|root|..];
    assert q' == q'[..|root|] + q'[|root|..];
  }

  lemma DeliveredArrive(t: Tree, s: Tree, r: Tree, root: Path, tempName: Name, staged: set<Name>, f: Filter, m: map<Path, Path>)
    requires root + [tempName] !in t
    requires StageKeeps(t[root + [tempName] := Dir], s, root, tempName, staged)
    requires Transformed(s, r, root, tempName, f, m)
    ensures forall q :: Picked(t, root, staged, f, q) ==>
              && Staged(q, root, tempName) in m
              && m[Staged(q, root, tempName)] in r && r[m[Staged(q, root, tempName)]] == File
              && IsCandidate(m[Staged(q, root, tempName)], root, q[|root|], Ext(Base(q)))
              && (m[Staged(q, root, tempName)] in t ==> Below(m[Staged(q, root, tempName)], root, staged))
    ensures forall q, q' ::
              (Picked(t, root, staged, f, q) && Picked(t, root, staged, f, q') && q != q' &&
               Staged(q, root, tempName) in m && Staged(q', root, tempName) in m) ==>
              m[Staged(q, root, tempName)] != m[Staged(q', root, tempName)]
  {
    forall q | Picked(t, root, staged, f, q)
      ensures Staged(q, root, tempName) in s && s[Staged(q, root, tempName)] == File
    {
      assert q in t[root + [tempName] := Dir];
    }
    forall x | x in t && !Below(x, root, staged) ensures x in s {
      assert x in t[root + [tempName] := Dir];
    }
    forall q | Picked(t, root, staged, f, q) ensures Staged(q, root, tempName) in m {
      StagedShape(q, root, tempName);
    }
    forall q | Picked(t, root, staged, f, q)
      ensures IsCandidate(m[Staged(q, root, tempName)], root, q[|root|], Ext(Base(q)))
    {
      StagedShape(q, root, tempName);
    }
    forall q, q' | Picked(t, root, staged, f, q) && Picked(t, root, staged, f, q') && q != q'
      ensures Staged(q, root, tempName) != Staged(q', root, tempName)
    {
      if Staged(q, root, tempName) == Staged(q', root, tempName) {
        StagedInjective(q, q', root, tempName);
      }
    }
  }

  lemma DeliveredStay(t: Tree, s: Tree, r: Tree, root: Path, tempName: Name, staged: set<Name>, f: Filter, m: map<Path, Path>)
    requires WellFormed(t) && root + [tempName] !in t
    requires StageKeeps(t[root + [tempName] := Dir], s, root, tempName, staged)
    requires Transformed(s, r, root, tempName, f, m)
    ensures forall q :: q in t && !Below(q, root, staged) ==> q in r && r[q] == t[q]
  {
    var tempDir := root + [tempName];
    NothingBelow(t, tempDir);
    forall q | q in t && !Below(q, root, staged) ensures q in s && s[q] == t[q] && !(tempDir <= q) {
      assert q in t[tempDir := Dir];
      assert tempDir <= q ==> tempDir == q || tempDir < q;
    }
  }

  lemma DeliveredNothingElse(t: Tree, s: Tree, r: Tree, root: Path, tempName: Name, staged: set<Name>, f: Filter, m: map<Path, Path>)
    requires root + [tempName] !in t && tempName !in staged
    requires WellFormed(s) && Children(s, root + [tempName]) == staged
    requires StageKeeps(t[root + [tempName] := Dir], s, root, tempName, staged)
    requires Transformed(s, r, root, tempName, f, m)
    ensures forall x :: x in r ==>
              (x in t && !Below(x, root, staged) && r[x] == t[x]) ||
              exists q :: Picked(t, root, staged, f, q) && Staged(q, root, tempName) in m && m[Staged(q, root, tempName)] == x
  {
    var tempDir := root + [tempName];
    forall x | x in r
      ensures (x in t && !Below(x, root, staged) && r[x] == t[x]) ||
              exists q :: Picked(t, root, staged, f, q) && Staged(q, root, tempName) in m && m[Staged(q, root, tempName)] == x
    {
      if x in s && !(tempDir <= x) {
        OutsideFromCaller(t, s, root, tempName, staged, x);
      } else {
        var p :| p in m && m[p] == x;
        ArrivalPicked(t, s, root, tempName, staged, f, p);
      }
    }
  }

  /** What staging left outside the staging directory was in the caller's tree, away from the staged entries. */
  lemma OutsideFromCaller(t: Tree, s: Tree, root: Path, tempName: Name, staged: set<Name>, x: Path)
    requires root + [tempName] !in t
    requires StageKeeps(t[root + [tempName] := Dir], s, root, tempName, staged)
    requires x in s && !(root + [tempName] <= x)
    ensures x in t && !Below(x, root, staged) && s[x] == t[x]
  {
    assert !Below(x, root + [tempName], staged);
  }

  /** A file the promotion loop renamed came, through staging, from a picked file of the caller's tree. */
  lemma ArrivalPicked(t: Tree, s: Tree, root: Path, tempName: Name, staged: set<Name>, f: Filter, p: Path)
    requires root + [tempName] !in t && tempName !in staged
    requires WellFormed(s) && Children(s, root + [tempName]) == staged
    requires forall q :: q in s && Below(q, root + [tempName], staged) ==>
               Unstaged(q, root) in t[root + [tempName] := Dir] && t[root + [tempName] := Dir][Unstaged(q, root)] == s[q]
    requires p in s && |p| > |root + [tempName]| && root + [tempName] <= p && s[p] == File && Selected(f, Base(p))
    ensures Picked(t, root, staged, f, Unstaged(p, root)) && Staged(Unstaged(p, root), root, tempName) == p
  {
    var tempDir := root + [tempName];
    ChildOnPath(s, tempDir, p);
    var q := Unstaged(p, root);
    assert q[|root|] == p[|tempDir|];
    assert q != tempDir;
    assert p == p[..|tempDir|] + p[|tempDir|..];
    assert Staged(q, root, tempName) == p;
    StagedShape(q, root, tempName);
  }

  /** The files of `t` the transform picks from below the staged entries named in `names`. */
  ghost function PickedFrom(t: Tree, root: Path, names: set<Name>, f: Filter): set<Path> {
    set q | q in t && Picked(t, root, names, f, q)
  }

  /** Where the renames `m` put the files `picked`, each through its staged path. */
  ghost function Arrived(picked: set<Path>, root: Path, tempName: Name, m: map<Path, Path>): set<Path>
    requires forall q :: q in picked ==> |q| >= |root| && Staged(q, root, tempName) in m
  {
    set q | q in picked :: m[Staged(q, root, tempName)]
  }

  /**
   * The count of a successful transform: below any of the staged entries,
   * as many files arrive in `root` as the filter picked there.
   */
  lemma DeliveredCount(t: Tree, r: Tree, root: Path, tempName: Name, staged: set<Name>, f: Filter, m: map<Path, Path>, names: set<Name>)
    requires Delivered(t, r, root, tempName, staged, f, m) && names <= staged
    ensures forall q :: q in PickedFrom(t, root, names, f) ==> |q| >= |root| && Staged(q, root, tempName) in m
    ensures |Arrived(PickedFrom(t, root, names, f), root, tempName, m)| == |PickedFrom(t, root, names, f)|
  {
    var picked := PickedFrom(t, root, names, f);
    assert forall q :: q in picked ==> Picked(t, root, staged, f, q);
    ArrivalCount(picked, root, tempName, m);
  }

  /**
   * A staged entry `n` with one selected file `q` below it: that file
   * arrives as the one file `root/n[-k]ext` its entry delivers.
   */
  lemma DeliveredOne(t: Tree, r: Tree, root: Path, tempName: Name, staged: set<Name>, f: Filter, m: map<Path, Path>, n: Name, q: Path)
    requires Delivered(t, r, root, tempName, staged, f, m) && n in staged
    requires PickedFrom(t, root, {n}, f) == {q}
    ensures |q| > |root| && Staged(q, root, tempName) in m
    ensures Arrived({q}, root, tempName, m) == {m[Staged(q, root, tempName)]}
    ensures var a := m[Staged(q, root, tempName)];
      a in r && r[a] == File && IsCandidate(a, root, n, Ext(Base(q)))
  {
    assert q in PickedFrom(t, root, {n}, f);
    assert q[|root|] == n;
    DeliveredPicked(t, r, root, tempName, staged, f, m, q);
    ArrivedOne(q, root, tempName, m);
  }

  /** What `Delivered` says of one picked file. */
  lemma DeliveredPicked(t: Tree, r: Tree, root: Path, tempName: Name, staged: set<Name>, f: Filter, m: map<Path, Path>, q: Path)
    requires Delivered(t, r, root, tempName, staged, f, m) && Picked(t, root, staged, f, q)
    ensures |q| > |root| && Staged(q, root, tempName) in m
    ensures var a := m[Staged(q, root, tempName)];
      a in r && r[a] == File && IsCandidate(a, root, q[|root|], Ext(Base(q)))
  {}

  /** One file arrives at one place. */
  lemma ArrivedOne(q: Path, root: Path, tempName: Name, m: map<Path, Path>)
    requires |q| >= |root| && Staged(q, root, tempName) in m
    ensures Arrived({q}, root, tempName, m) == {m[Staged(q, root, tempName)]}
  {}

  lemma ArrivalCount(picked: set<Path>, root: Path, tempName: Name, m: map<Path, Path>)
    requires forall q :: q in picked ==> |q| >= |root| && Staged(q, root, tempName) in m
    requires forall q, q' :: q in picked && q' in picked && q != q' ==> m[Staged(q, root, tempName)] != m[Staged(q', root, tempName)]
    ensures |Arrived(picked, root, tempName, m)| == |picked|
  {
    var g := map q | q in picked :: m[Staged(q, root, tempName)];
    InjectiveCard(picked, g);
    assert Arrived(picked, root, tempName, m) == Image(picked, g);
  }

  /** The values a map gives the members of `s`. */
  ghost function Image<T, U>(s: set<T>, g: map<T, U>): set<U>
    requires forall x :: x in s ==> x in g
  {
    set x | x in s :: g[x]
  }

  /** An injective map takes a set to one of the same size. */
  lemma InjectiveCard<T, U>(s: set<T>, g: map<T, U>)
    requires forall x :: x in s ==> x in g
    requires forall x, y :: x in s && y in s && x != y ==> g[x] != g[y]
    ensures |Image(s, g)| == |s|
    decreases |s|
  {
    if s != {} {
      var x :| x in s;
      var s' := s - {x};
      InjectiveCard(s', g);
      assert Image(s, g) == Image(s', g) + {g[x]};
      assert g[x] !in Image(s', g);
    }
  }
}
