/**
 * The rename-and-relocate engine of package renfls (renfls.go): the
 * collision-safe `Rename`, the walks that rename every selected file below a
 * root into one directory, and the staging transform `ToDirNames`, which
 * names the files of each sub-directory of a root after that sub-directory.
 */
module Renfls {
  import opened Wrappers
  import opened Names
  import opened FileSystems
  import opened Walks
  import opened Conditions

  /** `math.MaxInt16`: the collision search stops below it. */
  const MaxInt16: nat := 32767

  // ---------------------------------------------------------------------
  // Collision-safe rename
  // ---------------------------------------------------------------------

  /** The suffix of the k-th candidate: none for the first, `-k` from the second on. */
  function Suffix(k: nat): string {
    if k <= 1 then "" else "-" + Decimal(k)
  }

  /** The k-th destination `addSuffixIfSamePath` considers: `Join(dir, name) + suffix + ext`. */
  function Candidate(dir: Path, name: Name, ext: string, k: nat): (p: Path)
    ensures |p| == |dir| + 1 && p[..|dir|] == dir && Parent(p) == dir
  {
    dir + [name + Suffix(k) + ext]
  }

  /** Different indexes name different candidates, so the search never revisits a path. */
  lemma CandidateInjective(dir: Path, name: Name, ext: string, j: nat, k: nat)
    requires 1 <= j && 1 <= k
    requires Candidate(dir, name, ext, j) == Candidate(dir, name, ext, k)
    ensures j == k
  {
    var a := name + Suffix(j) + ext;
    var b := name + Suffix(k) + ext;
    assert a == Candidate(dir, name, ext, j)[|dir|];
    assert a == b;
    assert |Suffix(j)| == |Suffix(k)|;
    assert Suffix(j) == a[|name|..|a| - |ext|];
    assert Suffix(k) == b[|name|..|b| - |ext|];
    if j > 1 && k > 1 {
      assert Decimal(j) == Suffix(j)[1..];
      assert Decimal(k) == Suffix(k)[1..];
      DecimalInjective(j, k);
    }
  }

  /** A candidate leaf is a valid name whenever the requested name is. */
  lemma CandidateValid(dir: Path, name: Name, ext: string, k: nat)
    requires ValidName(name) && '/' !in ext && (ext == "" || ext[0] == '.')
    ensures ValidName(Base(Candidate(dir, name, ext, k)))
  {
    var leaf := name + Suffix(k) + ext;
    assert leaf[..|name|] == name;
    assert Base(Candidate(dir, name, ext, k)) == leaf;
    assert forall i :: 0 <= i < |Suffix(k)| ==> Suffix(k)[i] == '-' || '0' <= Suffix(k)[i] <= '9';
    assert '/' !in Suffix(k);
    if |leaf| <= 2 && |name| == 1 && |leaf| == 2 {
      assert leaf[0] == name[0];
    }
  }

  /**
   * The index `addSuffixIfSamePath` settles on, searching upwards from `k`:
   * the first free candidate, or None when every candidate below MaxInt16
   * is taken.
   */
  function FreeSlot(t: Tree, dir: Path, name: Name, ext: string, k: nat): (r: Option<nat>)
    requires 1 <= k
    ensures r.Some? ==> k <= r.value < MaxInt16 && !Exists(t, Candidate(dir, name, ext, r.value))
    ensures r.Some? ==> forall j :: k <= j < r.value ==> Exists(t, Candidate(dir, name, ext, j))
    ensures r.None? ==> forall j :: k <= j < MaxInt16 ==> Exists(t, Candidate(dir, name, ext, j))
    decreases MaxInt16 - k
  {
    if k >= MaxInt16 then None
    else if !Exists(t, Candidate(dir, name, ext, k)) then Some(k)
    else FreeSlot(t, dir, name, ext, k + 1)
  }

  /** Conversely, the first free index below MaxInt16 is the one the search settles on. */
  lemma {:induction false} FreeSlotLeast(t: Tree, dir: Path, name: Name, ext: string, k: nat, m: nat)
    requires 1 <= k <= m < MaxInt16
    requires forall j :: k <= j < m ==> Exists(t, Candidate(dir, name, ext, j))
    requires !Exists(t, Candidate(dir, name, ext, m))
    ensures FreeSlot(t, dir, name, ext, k) == Some(m)
    decreases m - k
  {
    if k < m {
      FreeSlotLeast(t, dir, name, ext, k + 1, m);
    }
  }

  /** The path `addSuffixIfSamePath(dir, name, ext)` returns; None stands for "". */
  function FreePath(t: Tree, dir: Path, name: Name, ext: string): (p: Option<Path>)
    ensures p.Some? ==> !Exists(t, p.value) && Parent(p.value) == dir
  {
    match FreeSlot(t, dir, name, ext, 1)
    case None => None
    case Some(k) => Some(Candidate(dir, name, ext, k))
  }

  /** The first free candidate is the path the search returns. */
  lemma FreePathAt(t: Tree, dir: Path, name: Name, ext: string, k: nat)
    requires 1 <= k < MaxInt16
    requires forall j :: 1 <= j < k ==> Exists(t, Candidate(dir, name, ext, j))
    requires !Exists(t, Candidate(dir, name, ext, k))
    ensures FreePath(t, dir, name, ext) == Some(Candidate(dir, name, ext, k))
  {
    FreeSlotLeast(t, dir, name, ext, 1, k);
  }

  /** The returned leaf starts with the requested name. */
  lemma FreePathNamed(t: Tree, dir: Path, name: Name, ext: string)
    ensures FreePath(t, dir, name, ext).Some? ==> name <= Base(FreePath(t, dir, name, ext).value)
  {
    if FreePath(t, dir, name, ext).Some? {
      var k := FreeSlot(t, dir, name, ext, 1).value;
      assert Base(Candidate(dir, name, ext, k)) == name + Suffix(k) + ext;
    }
  }

  /** The search gives up exactly when every candidate below MaxInt16 is taken. */
  lemma FreePathNone(t: Tree, dir: Path, name: Name, ext: string)
    ensures FreePath(t, dir, name, ext).None? <==> forall j :: 1 <= j < MaxInt16 ==> Exists(t, Candidate(dir, name, ext, j))
  {
    var r := FreeSlot(t, dir, name, ext, 1);
    if r.Some? {
      assert !Exists(t, Candidate(dir, name, ext, r.value));
    }
  }

  /** The unsuffixed name is taken when it is free, and `-1` is never produced. */
  lemma FreePathFirst(t: Tree, dir: Path, name: Name, ext: string)
    ensures !Exists(t, Candidate(dir, name, ext, 1)) ==> FreePath(t, dir, name, ext) == Some(dir + [name + ext])
    ensures Exists(t, Candidate(dir, name, ext, 1)) && FreePath(t, dir, name, ext).Some? ==>
              exists k :: 2 <= k < MaxInt16 && FreePath(t, dir, name, ext) == Some(dir + [name + "-" + Decimal(k) + ext])
  {
    if !Exists(t, Candidate(dir, name, ext, 1)) {
      FreePathUnsuffixed(t, dir, name, ext);
    } else if FreePath(t, dir, name, ext).Some? {
      FreePathSuffixed(t, dir, name, ext);
    }
  }

  lemma FreePathUnsuffixed(t: Tree, dir: Path, name: Name, ext: string)
    requires !Exists(t, Candidate(dir, name, ext, 1))
    ensures FreePath(t, dir, name, ext) == Some(dir + [name + ext])
  {
    assert name + "" + ext == name + ext;
  }

  lemma FreePathSuffixed(t: Tree, dir: Path, name: Name, ext: string)
    requires Exists(t, Candidate(dir, name, ext, 1)) && FreePath(t, dir, name, ext).Some?
    ensures exists k :: 2 <= k < MaxInt16 && FreePath(t, dir, name, ext) == Some(dir + [name + "-" + Decimal(k) + ext])
  {
    var k := FreeSlot(t, dir, name, ext, 1).value;
    assert k != 1;
    assert FreePath(t, dir, name, ext) == Some(Candidate(dir, name, ext, k));
    SuffixedCandidate(dir, name, ext, k);
  }

  /** From the second on, a candidate carries `-k` between the name and the extension. */
  lemma SuffixedCandidate(dir: Path, name: Name, ext: string, k: nat)
    requires k >= 2
    ensures Candidate(dir, name, ext, k) == dir + [name + "-" + Decimal(k) + ext]
  {
    assert Suffix(k) == "-" + Decimal(k);
    assert name + Suffix(k) + ext == name + "-" + Decimal(k) + ext;
  }

  /** `isNotExist(path)`: `os.Stat` fails. */
  method IsNotExist(fs: FileSystem, p: Path) returns (missing: bool)
    ensures missing <==> !Exists(fs.tree, p)
  {
    var found := fs.Stat(p);
    missing := !found;
  }

  /** `addSuffixIfSamePath(dir, file, ext)`: probes the candidates in order. */
  method AddSuffixIfSamePath(fs: FileSystem, dir: Path, name: Name, ext: string) returns (p: Option<Path>)
    ensures p == FreePath(fs.tree, dir, name, ext)
  {
    var missing := IsNotExist(fs, Candidate(dir, name, ext, 1));
    if missing {
      return Some(Candidate(dir, name, ext, 1));
    }
    var i := 2;
    while i < MaxInt16
      invariant 2 <= i <= MaxInt16
      invariant FreeSlot(fs.tree, dir, name, ext, 1) == FreeSlot(fs.tree, dir, name, ext, i)
    {
      missing := IsNotExist(fs, Candidate(dir, name, ext, i));
      if missing {
        return Some(Candidate(dir, name, ext, i));
      }
      i := i + 1;
    }
    return None;
  }

  /** What `Rename(oldPath, newDir, newName)` returns on tree `t`: the new path or the error. */
  function RenameResult(t: Tree, oldPath: Path, newDir: Path, newName: Name): Result<Path, Error> {
    if !Exists(t, oldPath) then Failure(NotFound(oldPath))
    else if !Exists(t, newDir) then Failure(NotFound(newDir))
    else
      match FreePath(t, newDir, newName, Ext(Base(oldPath)))
      case None => Failure(LinkFailed(oldPath))
      case Some(p) => if CanMove(t, oldPath, p) then Success(p) else Failure(LinkFailed(oldPath))
  }

  /** `Rename`: the existence checks, the collision search, then `os.Rename`. */
  method Rename(fs: FileSystem, oldPath: Path, newDir: Path, newName: Name) returns (r: Result<Path, Error>)
    requires fs.Valid()
    modifies fs
    ensures fs.Valid()
    ensures r == RenameResult(old(fs.tree), oldPath, newDir, newName)
    ensures r.Failure? ==> fs.tree == old(fs.tree)
    ensures r.Success? ==> fs.tree == MoveTree(old(fs.tree), oldPath, r.value)
  {
    var missing := IsNotExist(fs, oldPath);
    if missing {
      return Failure(NotFound(oldPath));
    }
    missing := IsNotExist(fs, newDir);
    if missing {
      return Failure(NotFound(newDir));
    }
    var ext := Ext(Base(oldPath));
    var newPath := AddSuffixIfSamePath(fs, newDir, newName, ext);
    if newPath.None? {
      return Failure(LinkFailed(oldPath));
    }
    var ok := fs.Rename(oldPath, newPath.value);
    if !ok {
      return Failure(LinkFailed(oldPath));
    }
    return Success(newPath.value);
  }

  /** A successful rename went to the first free candidate, and `os.Rename` accepted that move. */
  lemma RenameSuccessTarget(t: Tree, oldPath: Path, newDir: Path, newName: Name)
    requires RenameResult(t, oldPath, newDir, newName).Success?
    ensures FreePath(t, newDir, newName, Ext(Base(oldPath))) == Some(RenameResult(t, oldPath, newDir, newName).value)
    ensures CanMove(t, oldPath, RenameResult(t, oldPath, newDir, newName).value)
  {}

  /** Conversely, when the first free candidate can take the source, the rename goes there. */
  lemma RenameToFreePath(t: Tree, oldPath: Path, newDir: Path, newName: Name, p: Path)
    requires Exists(t, newDir) && FreePath(t, newDir, newName, Ext(Base(oldPath))) == Some(p)
    requires CanMove(t, oldPath, p)
    ensures RenameResult(t, oldPath, newDir, newName) == Success(p)
  {}

  /** A missing source or destination directory is an error naming the missing path. */
  lemma RenameMissing(t: Tree, oldPath: Path, newDir: Path, newName: Name)
    ensures !Exists(t, oldPath) ==> RenameResult(t, oldPath, newDir, newName) == Failure(NotFound(oldPath))
    ensures Exists(t, oldPath) && !Exists(t, newDir) ==> RenameResult(t, oldPath, newDir, newName) == Failure(NotFound(newDir))
  {}

  /** A successful rename keeps the tree well formed. */
  lemma RenameKeepsShape(t: Tree, oldPath: Path, newDir: Path, newName: Name)
    requires WellFormed(t) && RenameResult(t, oldPath, newDir, newName).Success?
    ensures WellFormed(MoveTree(t, oldPath, RenameResult(t, oldPath, newDir, newName).value))
  {
    MoveTreeWellFormed(t, oldPath, RenameResult(t, oldPath, newDir, newName).value);
  }

  /** Below a file there is nothing, so a file can always be moved to a free, validly named place in a directory. */
  lemma FileCanMove(t: Tree, src: Path, dst: Path)
    requires WellFormed(t) && src in t && t[src] == File
    requires dst != [] && dst !in t && IsDir(t, Parent(dst)) && ValidName(Base(dst))
    ensures CanMove(t, src, dst)
  {
    assert Placed(t, src);
    if src <= dst {
      PrefixCases(src, dst);
      assert src <= Parent(dst);
      PrefixCases(src, Parent(dst));
      if src != Parent(dst) {
        AncestorIsDir(t, Parent(dst), src);
      }
    }
  }

  /**
   * When `Rename` succeeds: exactly when the source is a real entry, the
   * destination is a directory not inside the source, a candidate is free
   * and the new leaf is a valid name.
   */
  lemma RenameSucceedsIff(t: Tree, oldPath: Path, newDir: Path, newName: Name)
    requires WellFormed(t)
    ensures RenameResult(t, oldPath, newDir, newName).Success? <==>
              && oldPath != [] && oldPath in t
              && IsDir(t, newDir) && !(oldPath <= newDir)
              && FreePath(t, newDir, newName, Ext(Base(oldPath))).Some?
              && ValidName(Base(FreePath(t, newDir, newName, Ext(Base(oldPath))).value))
  {
    if Exists(t, oldPath) && Exists(t, newDir) && FreePath(t, newDir, newName, Ext(Base(oldPath))).Some? {
      RenameSucceedsAt(t, oldPath, newDir, newName);
    }
  }

  /** The same, once both paths exist and a candidate is free: the move is then all that can refuse. */
  lemma RenameSucceedsAt(t: Tree, oldPath: Path, newDir: Path, newName: Name)
    requires WellFormed(t) && Exists(t, oldPath) && Exists(t, newDir)
    requires FreePath(t, newDir, newName, Ext(Base(oldPath))).Some?
    ensures RenameResult(t, oldPath, newDir, newName).Success? <==>
              && oldPath != [] && oldPath in t
              && IsDir(t, newDir) && !(oldPath <= newDir)
              && ValidName(Base(FreePath(t, newDir, newName, Ext(Base(oldPath))).value))
  {
    var p := FreePath(t, newDir, newName, Ext(Base(oldPath))).value;
    assert RenameResult(t, oldPath, newDir, newName).Success? <==> CanMove(t, oldPath, p);
    assert Parent(p) == newDir && p != [] && p !in t;
    assert oldPath <= p ==> oldPath <= newDir by {
      if oldPath <= p {
        PrefixCases(oldPath, p);
        assert oldPath != p;
        assert oldPath <= p[..|p| - 1];
      }
    }
    assert oldPath <= newDir ==> oldPath <= p;
  }

  /**
   * What a successful `Rename` does: the source, with everything below it,
   * reappears at the returned path, which was free and is the first free
   * candidate named `newName` with the source's extension; every entry
   * outside the source is untouched, and nothing else appears.
   */
  lemma RenameMoves(t: Tree, oldPath: Path, newDir: Path, newName: Name)
    requires WellFormed(t) && RenameResult(t, oldPath, newDir, newName).Success?
    ensures var p := RenameResult(t, oldPath, newDir, newName).value;
      var t' := MoveTree(t, oldPath, p);
      && FreeSlot(t, newDir, newName, Ext(Base(oldPath)), 1).Some?
      && p == Candidate(newDir, newName, Ext(Base(oldPath)), FreeSlot(t, newDir, newName, Ext(Base(oldPath)), 1).value)
      && p !in t && oldPath !in t'
      && (forall s :: oldPath + s in t <==> p + s in t')
      && (forall s :: oldPath + s in t ==> t'[p + s] == t[oldPath + s])
      && (forall q :: q in t && !(oldPath <= q) ==> q in t' && t'[q] == t[q])
      && (forall q :: q in t' ==> p <= q || (q in t && !(oldPath <= q)))
  {
    var p := RenameResult(t, oldPath, newDir, newName).value;
    RenameSuccessTarget(t, oldPath, newDir, newName);
    MoveTreeEffect(t, oldPath, p);
  }

  /**
   * The new leaf is `newName`, the collision suffix and the old leaf's
   * extension; when the old name has an extension, the new one has the same.
   */
  lemma RenameKeepsExt(t: Tree, oldPath: Path, newDir: Path, newName: Name)
    requires RenameResult(t, oldPath, newDir, newName).Success?
    ensures var p := RenameResult(t, oldPath, newDir, newName).value;
      && (exists k :: 1 <= k < MaxInt16 && Base(p) == newName + Suffix(k) + Ext(Base(oldPath)))
      && (Ext(Base(oldPath)) != "" ==> Ext(Base(p)) == Ext(Base(oldPath)))
  {
    var e := Ext(Base(oldPath));
    RenameSuccessTarget(t, oldPath, newDir, newName);
    var k := FreeSlot(t, newDir, newName, e, 1).value;
    var p := RenameResult(t, oldPath, newDir, newName).value;
    assert p == Candidate(newDir, newName, e, k);
    assert Base(p) == newName + Suffix(k) + e;
    if e != "" {
      ExtOfTail(newName + Suffix(k), e);
    }
  }

  /** The extension of `.no` is the whole name. */
  lemma DotfileExt()
    ensures Ext(".no") == ".no"
  {
    ExtOfTail("", ".no");
    assert "" + ".no" == ".no";
  }

  /** A dotfile keeps its whole name as extension: `dir1/.no` renamed to `new1` becomes `new1.no`. */
  lemma DotfileKeepsName(t: Tree, oldPath: Path, newDir: Path)
    requires |oldPath| > 0 && oldPath[|oldPath| - 1] == ".no"
    requires RenameResult(t, oldPath, newDir, "new1").Success?
    requires !Exists(t, newDir + ["new1.no"])
    ensures RenameResult(t, oldPath, newDir, "new1").value == newDir + ["new1.no"]
  {
    assert newDir + ["new1" + Ext(Base(oldPath))] == newDir + ["new1.no"] by {
      DotfileExt();
      assert "new1" + ".no" == "new1.no";
    }
    RenameToFirst(t, oldPath, newDir, "new1");
  }

  /** A successful rename whose unsuffixed candidate is free goes there. */
  lemma RenameToFirst(t: Tree, oldPath: Path, newDir: Path, newName: Name)
    requires RenameResult(t, oldPath, newDir, newName).Success?
    requires !Exists(t, newDir + [newName + Ext(Base(oldPath))])
    ensures RenameResult(t, oldPath, newDir, newName).value == newDir + [newName + Ext(Base(oldPath))]
  {
    var e := Ext(Base(oldPath));
    FirstCandidate(newDir, newName, e);
    FreePathAt(t, newDir, newName, e, 1);
    RenameSuccessTarget(t, oldPath, newDir, newName);
  }

  /** The first candidate is the name followed by the extension. */
  lemma FirstCandidate(dir: Path, name: Name, ext: string)
    ensures Candidate(dir, name, ext, 1) == dir + [name + ext]
  {
    assert Suffix(1) == "";
    assert name + "" == name;
  }


  /**
   * Renaming a file when the first `k - 1` candidates are taken and the k-th
   * is free: one key leaves, the k-th candidate arrives, nothing else changes.
   */
  lemma RenameFileTo(t: Tree, src: Path, newDir: Path, newName: Name, k: nat)
    requires WellFormed(t) && src in t && t[src] == File && IsDir(t, newDir) && ValidName(newName)
    requires 1 <= k < MaxInt16
    requires forall j :: 1 <= j < k ==> Candidate(newDir, newName, Ext(Base(src)), j) in t
    requires Candidate(newDir, newName, Ext(Base(src)), k) !in t
    ensures RenameResult(t, src, newDir, newName) == Success(Candidate(newDir, newName, Ext(Base(src)), k))
    ensures var t' := MoveTree(t, src, Candidate(newDir, newName, Ext(Base(src)), k));
      && WellFormed(t') && IsDir(t', newDir)
      && t'.Keys == t.Keys - {src} + {Candidate(newDir, newName, Ext(Base(src)), k)}
      && forall q :: q in t && q != src ==> t'[q] == t[q]
  {
    var c := Candidate(newDir, newName, Ext(Base(src)), k);
    RenameFileResult(t, src, newDir, newName, k);
    MoveFileInto(t, src, c);
  }

  lemma RenameFileResult(t: Tree, src: Path, newDir: Path, newName: Name, k: nat)
    requires WellFormed(t) && src in t && t[src] == File && IsDir(t, newDir) && ValidName(newName)
    requires 1 <= k < MaxInt16
    requires forall j :: 1 <= j < k ==> Candidate(newDir, newName, Ext(Base(src)), j) in t
    requires Candidate(newDir, newName, Ext(Base(src)), k) !in t
    ensures RenameResult(t, src, newDir, newName) == Success(Candidate(newDir, newName, Ext(Base(src)), k))
    ensures CanMove(t, src, Candidate(newDir, newName, Ext(Base(src)), k))
  {
    var e := Ext(Base(src));
    var c := Candidate(newDir, newName, e, k);
    FreePathAt(t, newDir, newName, e, k);
    assert e == "" || e[0] == '.';
    CandidateValid(newDir, newName, e, k);
    FileCanMove(t, src, c);
    RenameToFreePath(t, src, newDir, newName, c);
  }

  /**
   * Three files with one extension renamed in turn to the same name in the
   * same directory become `X.ext`, `X-2.ext` and `X-3.ext`.
   */
  lemma SuccessiveRenames(t: Tree, a: Path, b: Path, c: Path, newDir: Path, newName: Name)
    requires WellFormed(t) && IsDir(t, newDir) && ValidName(newName)
    requires a in t && b in t && c in t && t[a] == File && t[b] == File && t[c] == File
    requires a != b && b != c && a != c
    requires Ext(Base(a)) == Ext(Base(b)) == Ext(Base(c))
    requires forall k :: 1 <= k <= 3 ==> Candidate(newDir, newName, Ext(Base(a)), k) !in t
    ensures var p1 := newDir + [newName + Ext(Base(a))];
      var p2 := newDir + [newName + "-2" + Ext(Base(a))];
      var p3 := newDir + [newName + "-3" + Ext(Base(a))];
      var t1 := MoveTree(t, a, p1);
      var t2 := MoveTree(t1, b, p2);
      && RenameResult(t, a, newDir, newName) == Success(p1)
      && RenameResult(t1, b, newDir, newName) == Success(p2)
      && RenameResult(t2, c, newDir, newName) == Success(p3)
  {
    var e := Ext(Base(a));
    var c1 := Candidate(newDir, newName, e, 1);
    var c2 := Candidate(newDir, newName, e, 2);
    var c3 := Candidate(newDir, newName, e, 3);
    CandidatesOneToThree(newDir, newName, e);
    assert c1 !in t && c2 !in t && c3 !in t;
    RenameFileTo(t, a, newDir, newName, 1);
    var t1 := MoveTree(t, a, c1);
    assert b in t1 && t1[b] == File && c in t1 && t1[c] == File by {
      assert b in t.Keys - {a} + {c1};
    }
    assert c1 in t1.Keys && c2 !in t1.Keys && c3 !in t1.Keys;
    forall j | 1 <= j < 2 ensures Candidate(newDir, newName, e, j) in t1 {
      assert j == 1;
    }
    RenameFileTo(t1, b, newDir, newName, 2);
    var t2 := MoveTree(t1, b, c2);
    assert c in t2 && t2[c] == File by {
      assert c in t1.Keys - {b} + {c2};
    }
    assert c1 in t2.Keys && c2 in t2.Keys && c3 !in t2.Keys;
    forall j | 1 <= j < 3 ensures Candidate(newDir, newName, e, j) in t2 {
      assert j == 1 || j == 2;
    }
    RenameFileTo(t2, c, newDir, newName, 3);
  }

  /** The first three candidates, written out; they are pairwise different. */
  lemma CandidatesOneToThree(dir: Path, name: Name, e: string)
    ensures Candidate(dir, name, e, 1) == dir + [name + e]
    ensures Candidate(dir, name, e, 2) == dir + [name + "-2" + e]
    ensures Candidate(dir, name, e, 3) == dir + [name + "-3" + e]
    ensures Candidate(dir, name, e, 1) != Candidate(dir, name, e, 2)
    ensures Candidate(dir, name, e, 1) != Candidate(dir, name, e, 3)
    ensures Candidate(dir, name, e, 2) != Candidate(dir, name, e, 3)
  {
    assert Suffix(1) == "" && Suffix(2) == "-2" && Suffix(3) == "-3";
    assert name + "" + e == name + e;
    if Candidate(dir, name, e, 1) == Candidate(dir, name, e, 2) { CandidateInjective(dir, name, e, 1, 2); }
    if Candidate(dir, name, e, 1) == Candidate(dir, name, e, 3) { CandidateInjective(dir, name, e, 1, 3); }
    if Candidate(dir, name, e, 2) == Candidate(dir, name, e, 3) { CandidateInjective(dir, name, e, 2, 3); }
  }

  // ---------------------------------------------------------------------
  // Tree-walk rename
  // ---------------------------------------------------------------------

  /** Which files a walk renames; directories are never renamed. */
  datatype Filter =
    | AllFiles                              // `RenameAll`
    | Pattern(pattern: string, rx: Regexp)  // `RenamePattern`
    | Where(cond: Condition, rx: Regexp)    // the `Condition` walks

  /** The filter passes a file called `name`. */
  predicate Selected(f: Filter, name: Name) {
    match f
    case AllFiles => true
    case Pattern(pattern, rx) => rx.matches(pattern, name)
    case Where(cond, rx) => Selects(cond, rx, name)
  }

  /** The error compiling the filter's regular expression reports, if any. */
  function CompileError(f: Filter): Option<Error> {
    match f
    case AllFiles => None
    case Pattern(pattern, rx) => if rx.compiles(pattern) then None else Some(BadPattern(pattern))
    case Where(cond, rx) => if cond.reg != "" && !rx.compiles(cond.reg) then Some(BadPattern(cond.reg)) else None
  }

  /** The error a walk returns, and the tree it leaves behind. */
  datatype Outcome = Outcome(err: Option<Error>, tree: Tree)

  /**
   * `walkRenameFunc` at one visited path: the `Lstat` error for a path that
   * has gone, nothing for a directory or an unselected file, otherwise
   * `Rename` into `newDir`. Success carries the tree to go on with.
   */
  function Visit(t: Tree, p: Path, newDir: Path, newName: Name, f: Filter): Result<Tree, Error> {
    if !Exists(t, p) then Failure(NotFound(p))
    else if IsDir(t, p) || !Selected(f, Base(p)) then Success(t)
    else
      match RenameResult(t, p, newDir, newName)
      case Failure(e) => Failure(e)
      case Success(q) => Success(MoveTree(t, p, q))
  }

  /** The visits of `order` one after the other; the first error ends the walk. */
  function WalkFrom(t: Tree, order: seq<Path>, newDir: Path, newName: Name, f: Filter): Outcome
    decreases |order|
  {
    if order == [] then Outcome(None, t)
    else
      match Visit(t, order[0], newDir, newName, f)
      case Failure(e) => Outcome(Some(e), t)
      case Success(t1) => WalkFrom(t1, order[1..], newDir, newName, f)
  }

  /** `filepath.Walk(root, walkRenameFunc(...))`: a missing root is reported by the walk itself. */
  function WalkRename(t: Tree, root: Path, newDir: Path, newName: Name, f: Filter): Outcome {
    if !Exists(t, root) then Outcome(Some(NotFound(root)), t)
    else WalkFrom(t, WalkOrder(t, root), newDir, newName, f)
  }

  /** `RenameAll` and `RenamePattern`: both existence checks, the compilation, then the walk. */
  function RenameFiltered(t: Tree, root: Path, newDir: Path, newName: Name, f: Filter): Outcome {
    if !Exists(t, root) then Outcome(Some(NotFound(root)), t)
    else if !Exists(t, newDir) then Outcome(Some(NotFound(newDir)), t)
    else if CompileError(f).Some? then Outcome(CompileError(f), t)
    else WalkRename(t, root, newDir, newName, f)
  }

  /** The function `walkRenameFunc` returns, applied to one path. */
  method WalkRenameFunc(fs: FileSystem, p: Path, newDir: Path, newName: Name, f: Filter) returns (err: Option<Error>)
    requires fs.Valid()
    modifies fs
    ensures fs.Valid()
    ensures Visit(old(fs.tree), p, newDir, newName, f).Failure? ==>
              err == Some(Visit(old(fs.tree), p, newDir, newName, f).error) && fs.tree == old(fs.tree)
    ensures Visit(old(fs.tree), p, newDir, newName, f).Success? ==>
              err == None && fs.tree == Visit(old(fs.tree), p, newDir, newName, f).value
  {
    var kind := fs.Lstat(p);
    if kind.None? {
      return Some(NotFound(p));
    }
    if kind.value == Dir || !Selected(f, Base(p)) {
      return None;
    }
    var r := Rename(fs, p, newDir, newName);
    if r.Failure? {
      return Some(r.error);
    }
    return None;
  }

  /** `filepath.Walk(root, walkRenameFunc(newDir, newName, f))`, over the order of the tree it starts from. */
  method Walk(fs: FileSystem, root: Path, newDir: Path, newName: Name, f: Filter) returns (err: Option<Error>)
    requires fs.Valid()
    modifies fs
    ensures fs.Valid()
    ensures Outcome(err, fs.tree) == WalkRename(old(fs.tree), root, newDir, newName, f)
  {
    var kind := fs.Lstat(root);
    if kind.None? {
      return Some(NotFound(root));
    }
    var order := WalkOrder(fs.tree, root);
    var i := 0;
    while i < |order|
      invariant 0 <= i <= |order| && fs.Valid()
      invariant WalkFrom(old(fs.tree), order, newDir, newName, f) == WalkFrom(fs.tree, order[i..], newDir, newName, f)
    {
      assert order[i..][1..] == order[i + 1..];
      err := WalkRenameFunc(fs, order[i], newDir, newName, f);
      if err.Some? {
        return err;
      }
      i := i + 1;
    }
    return None;
  }

  /** The body `RenameAll` and `RenamePattern` share: the checks, then the walk. */
  method RenameWalk(fs: FileSystem, root: Path, newDir: Path, newName: Name, f: Filter) returns (err: Option<Error>)
    requires fs.Valid()
    modifies fs
    ensures fs.Valid()
    ensures Outcome(err, fs.tree) == RenameFiltered(old(fs.tree), root, newDir, newName, f)
  {
    var missing := IsNotExist(fs, root);
    if missing {
      return Some(NotFound(root));
    }
    missing := IsNotExist(fs, newDir);
    if missing {
      return Some(NotFound(newDir));
    }
    var bad := CompileError(f);
    if bad.Some? {
      return bad;
    }
    err := Walk(fs, root, newDir, newName, f);
  }

  /** `RenameAll(root, newDir, newFileName)`. */
  method RenameAll(fs: FileSystem, root: Path, newDir: Path, newFileName: Name) returns (err: Option<Error>)
    requires fs.Valid()
    modifies fs
    ensures fs.Valid()
    ensures Outcome(err, fs.tree) == RenameFiltered(old(fs.tree), root, newDir, newFileName, AllFiles)
  {
    err := RenameWalk(fs, root, newDir, newFileName, AllFiles);
  }

  /** `RenamePattern(root, newDir, newFileName, pattern)`. */
  method RenamePattern(fs: FileSystem, rx: Regexp, root: Path, newDir: Path, newFileName: Name, pattern: string) returns (err: Option<Error>)
    requires fs.Valid()
    modifies fs
    ensures fs.Valid()
    ensures Outcome(err, fs.tree) == RenameFiltered(old(fs.tree), root, newDir, newFileName, Pattern(pattern, rx))
  {
    err := RenameWalk(fs, root, newDir, newFileName, Pattern(pattern, rx));
  }

  /** The walk under a `Condition`, shaped like `RenamePattern`. */
  method RenameCondition(fs: FileSystem, rx: Regexp, root: Path, newDir: Path, newFileName: Name, cond: Condition) returns (err: Option<Error>)
    requires fs.Valid()
    modifies fs
    ensures fs.Valid()
    ensures Outcome(err, fs.tree) == RenameFiltered(old(fs.tree), root, newDir, newFileName, Where(cond, rx))
  {
    err := RenameWalk(fs, root, newDir, newFileName, Where(cond, rx));
  }

  /** `ToRootDirName(root, newDir)`: every file below `root` is renamed after the last element of `root`. */
  method ToRootDirName(fs: FileSystem, root: Path, newDir: Path) returns (err: Option<Error>)
    requires fs.Valid()
    modifies fs
    ensures fs.Valid()
    ensures Outcome(err, fs.tree) == RenameFiltered(old(fs.tree), root, newDir, Base(root), AllFiles)
  {
    err := RenameAll(fs, root, newDir, Base(root));
  }

  /** `ToRootDirNamePattern(root, newDir, pattern)`: the same, for the files whose name matches `pattern`. */
  method ToRootDirNamePattern(fs: FileSystem, rx: Regexp, root: Path, newDir: Path, pattern: string) returns (err: Option<Error>)
    requires fs.Valid()
    modifies fs
    ensures fs.Valid()
    ensures Outcome(err, fs.tree) == RenameFiltered(old(fs.tree), root, newDir, Base(root), Pattern(pattern, rx))
  {
    err := RenamePattern(fs, rx, root, newDir, Base(root), pattern);
  }

  /** A missing root, a missing `newDir` or a pattern that does not compile is reported before anything changes. */
  lemma RenameFilteredChecks(t: Tree, root: Path, newDir: Path, newName: Name, f: Filter)
    ensures !Exists(t, root) ==> RenameFiltered(t, root, newDir, newName, f) == Outcome(Some(NotFound(root)), t)
    ensures Exists(t, root) && !Exists(t, newDir) ==>
              RenameFiltered(t, root, newDir, newName, f) == Outcome(Some(NotFound(newDir)), t)
    ensures Exists(t, root) && Exists(t, newDir) && CompileError(f).Some? ==>
              RenameFiltered(t, root, newDir, newName, f) == Outcome(CompileError(f), t)
  {}

  /** `p` is an entry directly inside `dir`. */
  predicate InDir(p: Path, dir: Path) {
    |p| == |dir| + 1 && dir <= p
  }

  /**
   * What a walk over `order` may change between tree `a` and tree `b`: an
   * entry leaves only if it is a selected file of `order`, an entry arrives
   * only as a file directly inside `newDir` whose name starts with
   * `newName`, an entry that stays keeps its
   * kind, and the number of entries is the same.
   */
  ghost predicate Outflow(a: Tree, b: Tree, order: seq<Path>, newDir: Path, newName: Name, f: Filter) {
    && (forall q :: q in a && q !in b ==> q in order && a[q] == File && Selected(f, Base(q)))
    && (forall q :: q in b && q !in a ==> InDir(q, newDir) && b[q] == File && newName <= Base(q))
    && (forall q :: q in a && q in b ==> b[q] == a[q])
    && |b| == |a|
  }

  lemma OutflowNone(a: Tree, newDir: Path, newName: Name, f: Filter, order: seq<Path>)
    ensures Outflow(a, a, order, newDir, newName, f)
  {}

  lemma OutflowTrans(a: Tree, b: Tree, c: Tree, o1: seq<Path>, o2: seq<Path>, newDir: Path, newName: Name, f: Filter)
    requires Outflow(a, b, o1, newDir, newName, f) && Outflow(b, c, o2, newDir, newName, f)
    ensures Outflow(a, c, o1 + o2, newDir, newName, f)
  {
    forall q | q in a && q !in c ensures q in o1 + o2 && a[q] == File && Selected(f, Base(q)) {
      if q in b { assert q in o2; } else { assert q in o1; }
    }
  }

  /** Visiting a selected file that `Rename` can move takes one key away and adds one in `newDir`. */
  lemma VisitRenames(t: Tree, p: Path, newDir: Path, newName: Name, f: Filter)
    requires WellFormed(t) && p in t && t[p] == File && Selected(f, Base(p))
    requires RenameResult(t, p, newDir, newName).Success?
    ensures var q := RenameResult(t, p, newDir, newName).value;
      && Visit(t, p, newDir, newName, f) == Success(MoveTree(t, p, q))
      && q !in t && InDir(q, newDir)
      && WellFormed(MoveTree(t, p, q))
      && Outflow(t, MoveTree(t, p, q), [p], newDir, newName, f)
  {
    var q := RenameResult(t, p, newDir, newName).value;
    RenameSuccessTarget(t, p, newDir, newName);
    FreePathNamed(t, newDir, newName, Ext(Base(p)));
    assert q !in t && InDir(q, newDir) && newName <= Base(q);
    VisitRenameCase(t, p, newDir, newName, f);
    MoveFile(t, p, q);
    MoveTreeWellFormed(t, p, q);
    OutflowOfMove(t, MoveTree(t, p, q), p, q, newDir, newName, f);
  }

  /** One file leaving for a fresh key inside `newDir` is an outflow over that file. */
  lemma OutflowOfMove(a: Tree, b: Tree, p: Path, q: Path, newDir: Path, newName: Name, f: Filter)
    requires p in a && a[p] == File && Selected(f, Base(p)) && q !in a
    requires InDir(q, newDir) && newName <= Base(q)
    requires b.Keys == a.Keys - {p} + {q} && b[q] == File && |b| == |a|
    requires forall x :: x in a && x != p ==> b[x] == a[x]
    ensures Outflow(a, b, [p], newDir, newName, f)
  {
    forall x | x in a && x !in b ensures x in [p] && a[x] == File && Selected(f, Base(x)) {
      assert x == p;
    }
    forall x | x in b && x !in a ensures InDir(x, newDir) && b[x] == File && newName <= Base(x) {
      assert x == q;
    }
  }

  /** A visit changes the tree only as a walk over that one path may. */
  lemma VisitOutflow(t: Tree, p: Path, newDir: Path, newName: Name, f: Filter)
    requires WellFormed(t) && Visit(t, p, newDir, newName, f).Success?
    ensures WellFormed(Visit(t, p, newDir, newName, f).value)
    ensures Outflow(t, Visit(t, p, newDir, newName, f).value, [p], newDir, newName, f)
  {
    if !IsDir(t, p) && Selected(f, Base(p)) {
      VisitRenames(t, p, newDir, newName, f);
    }
  }

  /** A walk keeps the tree well formed and changes it only as `Outflow` allows. */
  lemma {:induction false} WalkFromOutflow(t: Tree, order: seq<Path>, newDir: Path, newName: Name, f: Filter)
    requires WellFormed(t)
    ensures WellFormed(WalkFrom(t, order, newDir, newName, f).tree)
    ensures Outflow(t, WalkFrom(t, order, newDir, newName, f).tree, order, newDir, newName, f)
    decreases |order|
  {
    if order == [] {
      OutflowNone(t, newDir, newName, f, order);
    } else if Visit(t, order[0], newDir, newName, f).Failure? {
      OutflowNone(t, newDir, newName, f, order);
    } else {
      var t1 := Visit(t, order[0], newDir, newName, f).value;
      VisitOutflow(t, order[0], newDir, newName, f);
      WalkFromOutflow(t1, order[1..], newDir, newName, f);
      OutflowTrans(t, t1, WalkFrom(t1, order[1..], newDir, newName, f).tree, [order[0]], order[1..], newDir, newName, f);
      assert [order[0]] + order[1..] == order;
    }
  }

  /** The first error ends the walk: what follows the failing part is never visited. */
  lemma {:induction false} WalkFromConcat(t: Tree, a: seq<Path>, b: seq<Path>, newDir: Path, newName: Name, f: Filter)
    ensures var o := WalkFrom(t, a, newDir, newName, f);
      WalkFrom(t, a + b, newDir, newName, f) == if o.err.Some? then o else WalkFrom(o.tree, b, newDir, newName, f)
    decreases |a|
  {
    if a == [] {
      assert a + b == b;
    } else {
      assert (a + b)[0] == a[0] && (a + b)[1..] == a[1..] + b;
      if Visit(t, a[0], newDir, newName, f).Success? {
        WalkFromConcat(Visit(t, a[0], newDir, newName, f).value, a[1..], b, newDir, newName, f);
      }
    }
  }

  /**
   * A walk order taken from `t`: distinct paths that all exist, no file of
   * which but the last sits directly inside `newDir`.
   */
  ghost predicate Snapshot(t: Tree, order: seq<Path>, newDir: Path) {
    && Distinct(order)
    && (forall i :: 0 <= i < |order| ==> Exists(t, order[i]))
    && (forall i :: 0 <= i < |order| - 1 && order[i] in t && t[order[i]] == File ==> !InDir(order[i], newDir))
  }

  /** Every selected file of `order` present in `a` is absent from `b`. */
  ghost predicate SelectedGone(a: Tree, order: seq<Path>, b: Tree, f: Filter) {
    forall i :: 0 <= i < |order| && order[i] in a && a[order[i]] == File && Selected(f, Base(order[i])) ==> order[i] !in b
  }

  lemma SnapshotTail(t: Tree, t1: Tree, order: seq<Path>, newDir: Path, q: Path)
    requires Snapshot(t, order, newDir) && |order| > 0 && WellFormed(t1)
    requires forall x :: x in t1 ==> x == q || (x in t && t1[x] == t[x])
    requires forall x :: x in t && x != order[0] ==> x in t1
    requires q !in t && q != []
    ensures Snapshot(t1, order[1..], newDir)
  {
    var rest := order[1..];
    assert forall i :: 0 <= i < |rest| ==> rest[i] == order[i + 1] && rest[i] != order[0];
  }

  lemma SelectedGoneHead(t: Tree, t1: Tree, order: seq<Path>, b: Tree, f: Filter)
    requires |order| > 0 && SelectedGone(t1, order[1..], b, f)
    requires forall x :: x in t && x != order[0] ==> x in t1 && t1[x] == t[x]
    requires order[0] in t && t[order[0]] == File && Selected(f, Base(order[0])) ==> order[0] !in b
    ensures SelectedGone(t, order, b, f)
  {
    var rest := order[1..];
    forall i | 0 <= i < |order| && order[i] in t && t[order[i]] == File && Selected(f, Base(order[i]))
      ensures order[i] !in b
    {
      if i > 0 {
        assert order[i] == rest[i - 1];
      }
    }
  }

  lemma SnapshotTailSame(t: Tree, order: seq<Path>, newDir: Path)
    requires Snapshot(t, order, newDir) && |order| > 0
    ensures Snapshot(t, order[1..], newDir)
  {
    var rest := order[1..];
    assert forall i :: 0 <= i < |rest| ==> rest[i] == order[i + 1];
  }

  /** Visiting an existing path, into a directory, fails only when the rename fails. */
  lemma VisitFailure(t: Tree, p: Path, newDir: Path, newName: Name, f: Filter)
    requires IsDir(t, newDir) && Exists(t, p)
    ensures Visit(t, p, newDir, newName, f).Failure? ==> Visit(t, p, newDir, newName, f).error.LinkFailed?
  {}

  /** At a selected file, the visit succeeds exactly when the rename does, leaving the moved tree. */
  lemma VisitRenameCase(t: Tree, p: Path, newDir: Path, newName: Name, f: Filter)
    requires Exists(t, p) && !IsDir(t, p) && Selected(f, Base(p))
    ensures p in t && t[p] == File
    ensures Visit(t, p, newDir, newName, f).Success? <==> RenameResult(t, p, newDir, newName).Success?
    ensures RenameResult(t, p, newDir, newName).Success? ==>
              Visit(t, p, newDir, newName, f).value == MoveTree(t, p, RenameResult(t, p, newDir, newName).value)
  {}

  /** Moving a file into a directory takes its key away and adds one new key directly inside the directory. */
  lemma MovesFileInto(t: Tree, p: Path, newDir: Path, newName: Name)
    requires WellFormed(t) && IsDir(t, newDir) && p in t && t[p] == File
    requires RenameResult(t, p, newDir, newName).Success?
    ensures var q := RenameResult(t, p, newDir, newName).value;
      var t1 := MoveTree(t, p, q);
      && p !in t1 && q !in t && q != [] && InDir(q, newDir) && IsDir(t1, newDir)
      && (forall x :: x in t1 ==> x == q || (x in t && t1[x] == t[x]))
      && (forall x :: x in t && x != p ==> x in t1)
  {
    var q := RenameResult(t, p, newDir, newName).value;
    RenameSuccessTarget(t, p, newDir, newName);
    MoveFile(t, p, q);
    KeysOfMove(t, MoveTree(t, p, q), p, q);
    assert newDir != [] ==> newDir != p && newDir in t;
  }

  /** The key-level reading of moving the one key `p` to the fresh key `q`. */
  lemma KeysOfMove(a: Tree, b: Tree, p: Path, q: Path)
    requires b.Keys == a.Keys - {p} + {q} && q !in a
    requires forall x :: x in a && x != p ==> b[x] == a[x]
    ensures p != q ==> p !in b
    ensures forall x :: x in b ==> x == q || (x in a && b[x] == a[x])
    ensures forall x :: x in a && x != p ==> x in b
  {
    forall x | x in b ensures x == q || (x in a && b[x] == a[x]) {
      assert x in a.Keys - {p} + {q};
    }
  }

  /** Into a directory, a walk over a snapshot fails only when a rename fails. */
  lemma {:induction false} WalkFromFailure(t: Tree, order: seq<Path>, newDir: Path, newName: Name, f: Filter)
    requires WellFormed(t) && IsDir(t, newDir) && Snapshot(t, order, newDir)
    ensures WalkFrom(t, order, newDir, newName, f).err.Some? ==> WalkFrom(t, order, newDir, newName, f).err.value.LinkFailed?
    decreases |order|
  {
    if order != [] {
      var p := order[0];
      assert Exists(t, p);
      VisitFailure(t, p, newDir, newName, f);
      var v := Visit(t, p, newDir, newName, f);
      if v.Success? {
        if IsDir(t, p) || !Selected(f, Base(p)) {
          SnapshotTailSame(t, order, newDir);
        } else {
          VisitRenameCase(t, p, newDir, newName, f);
          MovesFileInto(t, p, newDir, newName);
          VisitOutflow(t, p, newDir, newName, f);
          SnapshotTail(t, v.value, order, newDir, RenameResult(t, p, newDir, newName).value);
        }
        WalkFromFailure(v.value, order[1..], newDir, newName, f);
      }
    }
  }

  /** Into a directory, a walk over a snapshot that does not fail moves every selected file of the snapshot away. */
  lemma {:induction false} WalkFromComplete(t: Tree, order: seq<Path>, newDir: Path, newName: Name, f: Filter)
    requires WellFormed(t) && IsDir(t, newDir) && Snapshot(t, order, newDir)
    requires WalkFrom(t, order, newDir, newName, f).err.None?
    ensures SelectedGone(t, order, WalkFrom(t, order, newDir, newName, f).tree, f)
    decreases |order|
  {
    if order != [] {
      var p := order[0];
      var rest := order[1..];
      assert Exists(t, p);
      var t1 := Visit(t, p, newDir, newName, f).value;
      if IsDir(t, p) || !Selected(f, Base(p)) {
        if p in t { assert Placed(t, p); }
        SnapshotTailSame(t, order, newDir);
        WalkFromComplete(t, rest, newDir, newName, f);
        SelectedGoneHead(t, t, order, WalkFrom(t, rest, newDir, newName, f).tree, f);
      } else {
        VisitRenameCase(t, p, newDir, newName, f);
        MovesFileInto(t, p, newDir, newName);
        VisitOutflow(t, p, newDir, newName, f);
        SnapshotTail(t, t1, order, newDir, RenameResult(t, p, newDir, newName).value);
        WalkFromComplete(t1, rest, newDir, newName, f);
        WalkFromOutflow(t1, rest, newDir, newName, f);
        HeadStaysGone(t, t1, order, newDir, newName, f);
        SelectedGoneHead(t, t1, order, WalkFrom(t1, rest, newDir, newName, f).tree, f);
      }
    }
  }

  lemma HeadStaysGone(t: Tree, t1: Tree, order: seq<Path>, newDir: Path, newName: Name, f: Filter)
    requires Snapshot(t, order, newDir) && |order| > 0 && order[0] in t && t[order[0]] == File
    requires order[0] !in t1
    requires Outflow(t1, WalkFrom(t1, order[1..], newDir, newName, f).tree, order[1..], newDir, newName, f)
    ensures order[0] !in WalkFrom(t1, order[1..], newDir, newName, f).tree
  {
    if |order| > 1 {
      assert !InDir(order[0], newDir);
    } else {
      assert order[1..] == [];
    }
  }

  /** A file strictly below the root that sits directly inside `newDir` puts `newDir` inside the root. */
  lemma BelowRootInDir(root: Path, q: Path, newDir: Path)
    requires root <= q && root != q && InDir(q, newDir)
    ensures root <= newDir
  {
    assert q[..|q| - 1] == newDir;
    assert newDir[..|root|] == q[..|root|];
  }

  /** The order `filepath.Walk` visits, from a root outside which `newDir` lies, is a snapshot. */
  lemma WalkOrderSnapshot(t: Tree, root: Path, newDir: Path)
    requires WellFormed(t) && Exists(t, root) && !(root <= newDir)
    ensures Snapshot(t, WalkOrder(t, root), newDir)
    ensures forall q :: q in WalkOrder(t, root) ==> root <= q
  {
    var order := WalkOrder(t, root);
    WalkOrderUnder(t, root);
    WalkOrderDistinct(t, root);
    forall i | 0 <= i < |order| - 1 && order[i] in t && t[order[i]] == File ensures !InDir(order[i], newDir) {
      assert order[i] in order;
      if order[i] != root && InDir(order[i], newDir) {
        BelowRootInDir(root, order[i], newDir);
      }
    }
  }

  /**
   * What the walk below `root`, into a directory outside it, changes: the
   * tree stays well formed and keeps its size, entries outside the root,
   * directories and unselected files keep their place and kind, and the only
   * entries that appear are files directly inside `newDir`, named after
   * `newName`.
   */
  lemma WalkRenameKeeps(t: Tree, root: Path, newDir: Path, newName: Name, f: Filter)
    requires WellFormed(t) && Exists(t, root) && !(root <= newDir)
    ensures var o := WalkRename(t, root, newDir, newName, f);
      && WellFormed(o.tree) && |o.tree| == |t|
      && (forall q :: q in t && (!(root <= q) || t[q] == Dir || !Selected(f, Base(q))) ==> q in o.tree && o.tree[q] == t[q])
      && (forall q :: q in o.tree && q !in t ==> InDir(q, newDir) && o.tree[q] == File && newName <= Base(q))
      && (forall q :: q in t && q in o.tree ==> o.tree[q] == t[q])
  {
    WalkOrderSnapshot(t, root, newDir);
    WalkFromOutflow(t, WalkOrder(t, root), newDir, newName, f);
  }

  /**
   * Into a directory outside `root`, the walk fails only when a rename
   * fails, and a walk that does not fail has moved every selected file at or
   * below the root.
   */
  lemma WalkRenameComplete(t: Tree, root: Path, newDir: Path, newName: Name, f: Filter)
    requires WellFormed(t) && IsDir(t, newDir) && Exists(t, root) && !(root <= newDir)
    ensures var o := WalkRename(t, root, newDir, newName, f);
      && (o.err.Some? ==> o.err.value.LinkFailed?)
      && (o.err.None? ==> forall q :: q in t && root <= q && t[q] == File && Selected(f, Base(q)) ==> q !in o.tree)
  {
    var order := WalkOrder(t, root);
    WalkOrderSnapshot(t, root, newDir);
    WalkFromFailure(t, order, newDir, newName, f);
    var o := WalkFrom(t, order, newDir, newName, f);
    if o.err.None? {
      WalkFromComplete(t, order, newDir, newName, f);
      forall q | q in t && root <= q && t[q] == File && Selected(f, Base(q)) ensures q !in o.tree {
        WalkOrderComplete(t, root, q);
        var i :| 0 <= i < |order| && order[i] == q;
      }
    }
  }

  // ---------------------------------------------------------------------
  // Where the renamed files arrive
  // ---------------------------------------------------------------------

  /** `q` is one of the paths `Rename` tries for a file with extension `ext`: `dir/name+ext`, or `dir/name-k+ext` below MaxInt16. */
  ghost predicate IsCandidate(q: Path, dir: Path, name: Name, ext: string) {
    exists k :: 1 <= k < MaxInt16 && q == Candidate(dir, name, ext, k)
  }

  /**
   * `b` is `a` with each file in the domain of `m` moved to its image: a
   * moved file is gone and its image is a file that was not there before;
   * distinct files have distinct images; every other entry keeps its place
   * and kind; and nothing else appears.
   */
  ghost predicate Relocates(a: Tree, b: Tree, m: map<Path, Path>) {
    && (forall p :: p in m ==> p in a && a[p] == File && p !in b && m[p] !in a && m[p] in b && b[m[p]] == File)
    && (forall p, p' :: p in m && p' in m && p != p' ==> m[p] != m[p'])
    && (forall q :: q in a && q !in m ==> q in b && b[q] == a[q])
    && (forall q :: q in b && q !in a ==> exists p :: p in m && m[p] == q)
  }

  /** The renames of a walk over `order`: each file it moves, mapped to the path it moved to. */
  ghost function Arrivals(t: Tree, order: seq<Path>, newDir: Path, newName: Name, f: Filter): map<Path, Path>
    decreases |order|
  {
    if order == [] then map[]
    else
      match Visit(t, order[0], newDir, newName, f)
      case Failure(_) => map[]
      case Success(t1) =>
        var rest := Arrivals(t1, order[1..], newDir, newName, f);
        var r := RenameResult(t, order[0], newDir, newName);
        if Exists(t, order[0]) && !IsDir(t, order[0]) && Selected(f, Base(order[0])) && r.Success?
        then map[order[0] := r.value] + rest
        else rest
  }

  /** One rename relocates one file, to one of its candidates. */
  lemma RenameRelocates(t: Tree, p: Path, newDir: Path, newName: Name)
    requires WellFormed(t) && IsDir(t, newDir) && p in t && t[p] == File
    requires RenameResult(t, p, newDir, newName).Success?
    ensures var q := RenameResult(t, p, newDir, newName).value;
      && Relocates(t, MoveTree(t, p, q), map[p := q])
      && IsCandidate(q, newDir, newName, Ext(Base(p)))
  {
    var q := RenameResult(t, p, newDir, newName).value;
    RenameSuccessTarget(t, p, newDir, newName);
    var k := FreeSlot(t, newDir, newName, Ext(Base(p)), 1).value;
    assert q == Candidate(newDir, newName, Ext(Base(p)), k);
    MoveFile(t, p, q);
    RelocatesOne(t, MoveTree(t, p, q), p, q);
  }

  /** Replacing the file at `p` by one at the new path `q` relocates that one file. */
  lemma RelocatesOne(a: Tree, b: Tree, p: Path, q: Path)
    requires p in a && a[p] == File && q !in a
    requires b.Keys == a.Keys - {p} + {q} && b[q] == File
    requires forall x :: x in a && x != p ==> b[x] == a[x]
    ensures Relocates(a, b, map[p := q])
  {}

  /** Relocations one after the other compose, provided the second moves only files of the first tree and lands outside it. */
  lemma RelocatesTrans(a: Tree, b: Tree, c: Tree, m1: map<Path, Path>, m2: map<Path, Path>)
    requires Relocates(a, b, m1) && Relocates(b, c, m2)
    requires forall p :: p in m2 ==> p in a
    requires forall p :: p in m2 ==> m2[p] !in a
    ensures m1.Keys !! m2.Keys
    ensures Relocates(a, c, m1 + m2)
  {
    RelocatesTransMoved(a, b, c, m1, m2);
    RelocatesTransDistinct(a, b, c, m1, m2);
    RelocatesTransNew(a, b, c, m1, m2);
  }

  lemma RelocatesTransMoved(a: Tree, b: Tree, c: Tree, m1: map<Path, Path>, m2: map<Path, Path>)
    requires Relocates(a, b, m1) && Relocates(b, c, m2)
    requires forall p :: p in m2 ==> p in a
    requires forall p :: p in m2 ==> m2[p] !in a
    ensures m1.Keys !! m2.Keys
    ensures forall p :: p in m1 + m2 ==>
              p in a && a[p] == File && p !in c && (m1 + m2)[p] !in a && (m1 + m2)[p] in c && c[(m1 + m2)[p]] == File
  {
    var m := m1 + m2;
    forall p | p in m ensures p in a && a[p] == File && p !in c && m[p] !in a && m[p] in c && c[m[p]] == File {
      if p in m2 {
        assert p !in m1;
      } else {
        assert m1[p] !in m2;
      }
    }
  }

  lemma RelocatesTransDistinct(a: Tree, b: Tree, c: Tree, m1: map<Path, Path>, m2: map<Path, Path>)
    requires Relocates(a, b, m1) && Relocates(b, c, m2)
    requires forall p :: p in m2 ==> p in a
    requires forall p :: p in m2 ==> m2[p] !in a
    ensures forall p, p' :: p in m1 + m2 && p' in m1 + m2 && p != p' ==> (m1 + m2)[p] != (m1 + m2)[p']
  {}

  lemma RelocatesTransNew(a: Tree, b: Tree, c: Tree, m1: map<Path, Path>, m2: map<Path, Path>)
    requires Relocates(a, b, m1) && Relocates(b, c, m2)
    requires forall p :: p in m2 ==> p in a
    ensures forall q :: q in a && q !in m1 + m2 ==> q in c && c[q] == a[q]
    ensures forall q :: q in c && q !in a ==> exists p :: p in m1 + m2 && (m1 + m2)[p] == q
  {
    var m := m1 + m2;
    forall q | q in c && q !in a ensures exists p :: p in m && m[p] == q {
      if q in b {
        var p :| p in m1 && m1[p] == q;
        assert p !in m2 && m[p] == q;
      } else {
        var p :| p in m2 && m2[p] == q;
        assert m[p] == q;
      }
    }
  }

  /** A candidate lies directly inside the directory searched. */
  lemma CandidateInDir(q: Path, dir: Path, name: Name, ext: string)
    requires IsCandidate(q, dir, name, ext)
    ensures InDir(q, dir)
  {
    var k :| 1 <= k < MaxInt16 && q == Candidate(dir, name, ext, k);
  }

  /**
   * The renames `m` of a walk over `order` from `a` to `b`: `b` is `a` with
   * exactly the selected files of `order` relocated, each to a candidate of
   * its own in `newDir`.
   */
  ghost predicate WalkMoves(a: Tree, b: Tree, order: seq<Path>, m: map<Path, Path>, newDir: Path, newName: Name, f: Filter) {
    && Relocates(a, b, m)
    && (forall p :: p in m ==> p in order && Selected(f, Base(p)) && IsCandidate(m[p], newDir, newName, Ext(Base(p))))
    && (forall i :: 0 <= i < |order| && order[i] in a && a[order[i]] == File && Selected(f, Base(order[i])) ==> order[i] in m)
  }

  /** A visit that renames nothing leaves the renames of the rest of the walk as they are. */
  lemma WalkMovesSkip(a: Tree, b: Tree, p: Path, rest: seq<Path>, m: map<Path, Path>, newDir: Path, newName: Name, f: Filter)
    requires WalkMoves(a, b, rest, m, newDir, newName, f)
    requires !(p in a && a[p] == File && Selected(f, Base(p)))
    ensures WalkMoves(a, b, [p] + rest, m, newDir, newName, f)
  {
    var order := [p] + rest;
    forall i | 0 <= i < |order| && order[i] in a && a[order[i]] == File && Selected(f, Base(order[i])) ensures order[i] in m {
      assert i > 0 && order[i] == rest[i - 1];
    }
  }

  /** A rename of `p` to `q`, then the renames of the rest of the walk. */
  lemma WalkMovesCons(a: Tree, a1: Tree, b: Tree, p: Path, q: Path, rest: seq<Path>, m: map<Path, Path>, newDir: Path, newName: Name, f: Filter)
    requires WalkMoves(a1, b, rest, m, newDir, newName, f)
    requires Relocates(a, a1, map[p := q]) && Selected(f, Base(p)) && IsCandidate(q, newDir, newName, Ext(Base(p)))
    requires forall x :: x in a && x != p ==> x in a1 && a1[x] == a[x]
    requires forall x :: x in m ==> x in a && m[x] !in a
    ensures WalkMoves(a, b, [p] + rest, map[p := q] + m, newDir, newName, f)
  {
    var order := [p] + rest;
    RelocatesTrans(a, a1, b, map[p := q], m);
    var mm := map[p := q] + m;
    forall x | x in mm ensures x in order && Selected(f, Base(x)) && IsCandidate(mm[x], newDir, newName, Ext(Base(x))) {
      if x != p {
        assert x in m && mm[x] == m[x];
      }
    }
    forall i | 0 <= i < |order| && order[i] in a && a[order[i]] == File && Selected(f, Base(order[i])) ensures order[i] in mm {
      if i > 0 {
        assert order[i] == rest[i - 1];
        if order[i] != p {
          assert order[i] in a1 && a1[order[i]] == a[order[i]];
        }
      }
    }
  }

  /** After the first rename of a walk, the rest of it moves only files of the first tree, into paths not in it. */
  lemma ArrivalsStayFresh(t: Tree, t1: Tree, p0: Path, rest: seq<Path>, m: map<Path, Path>, newDir: Path, newName: Name, q: Path)
    requires forall i :: 0 <= i < |rest| ==> Exists(t, rest[i])
    requires |rest| > 0 ==> !InDir(p0, newDir)
    requires q !in t && q != []
    requires forall x :: x in t1 ==> x == q || x in t
    requires forall x :: x in t && x != p0 ==> x in t1
    requires forall p :: p in m ==> p in t1 && m[p] !in t1 && p in rest && IsCandidate(m[p], newDir, newName, Ext(Base(p)))
    ensures forall p :: p in m ==> p in t && m[p] !in t
  {
    forall p | p in m ensures p in t && m[p] !in t {
      var i :| 0 <= i < |rest| && rest[i] == p;
      assert Exists(t, rest[i]);
      CandidateInDir(m[p], newDir, newName, Ext(Base(p)));
    }
  }

  /**
   * Into a directory, a walk over a snapshot that does not fail moves exactly
   * the selected files of the snapshot, each to its own candidate in `newDir`,
   * and changes nothing else.
   */
  lemma {:induction false} WalkFromArrivals(t: Tree, order: seq<Path>, newDir: Path, newName: Name, f: Filter)
    requires WellFormed(t) && IsDir(t, newDir) && Snapshot(t, order, newDir)
    requires WalkFrom(t, order, newDir, newName, f).err.None?
    ensures WalkMoves(t, WalkFrom(t, order, newDir, newName, f).tree, order, Arrivals(t, order, newDir, newName, f), newDir, newName, f)
    decreases |order|, 1
  {
    if order != [] {
      var p := order[0];
      assert Exists(t, p);
      if IsDir(t, p) || !Selected(f, Base(p)) {
        WalkFromArrivalsSkip(t, order, newDir, newName, f);
      } else {
        WalkFromArrivalsRename(t, order, newDir, newName, f);
      }
    }
  }

  /** A walk whose first visit renames nothing. */
  lemma {:induction false} WalkFromArrivalsSkip(t: Tree, order: seq<Path>, newDir: Path, newName: Name, f: Filter)
    requires WellFormed(t) && IsDir(t, newDir) && Snapshot(t, order, newDir)
    requires WalkFrom(t, order, newDir, newName, f).err.None?
    requires order != [] && Exists(t, order[0]) && (IsDir(t, order[0]) || !Selected(f, Base(order[0])))
    ensures WalkMoves(t, WalkFrom(t, order, newDir, newName, f).tree, order, Arrivals(t, order, newDir, newName, f), newDir, newName, f)
    decreases |order|, 0
  {
    var p := order[0];
    var rest := order[1..];
    assert order == [p] + rest;
    var t1 := Visit(t, p, newDir, newName, f).value;
    assert t1 == t;
    var b := WalkFrom(t, rest, newDir, newName, f).tree;
    var m := Arrivals(t, rest, newDir, newName, f);
    assert WalkFrom(t, order, newDir, newName, f).tree == b;
    assert Arrivals(t, order, newDir, newName, f) == m;
    if p in t { assert Placed(t, p); }
    SnapshotTailSame(t, order, newDir);
    WalkFromArrivals(t, rest, newDir, newName, f);
    WalkMovesSkip(t, b, p, rest, m, newDir, newName, f);
  }

  /** A walk whose first visit renames a selected file. */
  lemma {:induction false} WalkFromArrivalsRename(t: Tree, order: seq<Path>, newDir: Path, newName: Name, f: Filter)
    requires WellFormed(t) && IsDir(t, newDir) && Snapshot(t, order, newDir)
    requires WalkFrom(t, order, newDir, newName, f).err.None?
    requires order != [] && Exists(t, order[0]) && !IsDir(t, order[0]) && Selected(f, Base(order[0]))
    ensures WalkMoves(t, WalkFrom(t, order, newDir, newName, f).tree, order, Arrivals(t, order, newDir, newName, f), newDir, newName, f)
    decreases |order|, 0
  {
    var t1, q := WalkFirstRename(t, order, newDir, newName, f);
    var b := WalkFrom(t1, order[1..], newDir, newName, f).tree;
    var m := Arrivals(t1, order[1..], newDir, newName, f);
    WalkFromArrivals(t1, order[1..], newDir, newName, f);
    WalkRenameCons(t, t1, b, order, q, m, newDir, newName, f);
  }

  /** The renames of a walk whose first visit moved `p` to the fresh path `q`. */
  lemma WalkRenameCons(t: Tree, t1: Tree, b: Tree, order: seq<Path>, q: Path, m: map<Path, Path>, newDir: Path, newName: Name, f: Filter)
    requires order != [] && WalkMoves(t1, b, order[1..], m, newDir, newName, f)
    requires Relocates(t, t1, map[order[0] := q]) && Selected(f, Base(order[0]))
    requires IsCandidate(q, newDir, newName, Ext(Base(order[0])))
    requires forall x :: x in t && x != order[0] ==> x in t1 && t1[x] == t[x]
    requires forall x :: x in t1 ==> x == q || x in t
    requires q !in t && q != []
    requires forall i :: 0 <= i < |order[1..]| ==> Exists(t, order[1..][i])
    requires |order[1..]| > 0 ==> !InDir(order[0], newDir)
    ensures WalkMoves(t, b, order, map[order[0] := q] + m, newDir, newName, f)
  {
    var p, rest := order[0], order[1..];
    assert order == [p] + rest;
    ArrivalsStayFresh(t, t1, p, rest, m, newDir, newName, q);
    WalkMovesCons(t, t1, b, p, q, rest, m, newDir, newName, f);
  }

  /** The first visit of a walk renames the selected file `order[0]` to `q`, leaving `t1` for the rest of the walk. */
  lemma WalkFirstRename(t: Tree, order: seq<Path>, newDir: Path, newName: Name, f: Filter) returns (t1: Tree, q: Path)
    requires WellFormed(t) && IsDir(t, newDir) && Snapshot(t, order, newDir)
    requires WalkFrom(t, order, newDir, newName, f).err.None?
    requires order != [] && Exists(t, order[0]) && !IsDir(t, order[0]) && Selected(f, Base(order[0]))
    ensures WalkFrom(t, order, newDir, newName, f) == WalkFrom(t1, order[1..], newDir, newName, f)
    ensures Arrivals(t, order, newDir, newName, f) == map[order[0] := q] + Arrivals(t1, order[1..], newDir, newName, f)
    ensures WellFormed(t1) && IsDir(t1, newDir) && Snapshot(t1, order[1..], newDir)
    ensures Relocates(t, t1, map[order[0] := q]) && IsCandidate(q, newDir, newName, Ext(Base(order[0])))
    ensures forall x :: x in t && x != order[0] ==> x in t1 && t1[x] == t[x]
    ensures forall x :: x in t1 ==> x == q || x in t
    ensures q !in t && q != []
    ensures forall i :: 0 <= i < |order[1..]| ==> Exists(t, order[1..][i])
    ensures |order[1..]| > 0 ==> !InDir(order[0], newDir)
  {
    WalkFirstUnfold(t, order, newDir, newName, f);
    var p := order[0];
    q := RenameResult(t, p, newDir, newName).value;
    t1 := MoveTree(t, p, q);
    WalkRenameHead(t, order, newDir, newName);
    RenameRelocates(t, p, newDir, newName);
    SnapshotRest(t, order, newDir);
  }

  /** A walk whose first visit renames a selected file: the rename succeeds, and the walk goes on from the moved tree. */
  lemma WalkFirstUnfold(t: Tree, order: seq<Path>, newDir: Path, newName: Name, f: Filter)
    requires WalkFrom(t, order, newDir, newName, f).err.None?
    requires order != [] && Exists(t, order[0]) && !IsDir(t, order[0]) && Selected(f, Base(order[0]))
    ensures order[0] in t && t[order[0]] == File && RenameResult(t, order[0], newDir, newName).Success?
    ensures var t1 := MoveTree(t, order[0], RenameResult(t, order[0], newDir, newName).value);
      && WalkFrom(t, order, newDir, newName, f) == WalkFrom(t1, order[1..], newDir, newName, f)
      && Arrivals(t, order, newDir, newName, f) ==
         map[order[0] := RenameResult(t, order[0], newDir, newName).value] + Arrivals(t1, order[1..], newDir, newName, f)
  {
    WalkVisitSucceeds(t, order, newDir, newName, f);
    VisitRenameCase(t, order[0], newDir, newName, f);
    WalkFromStep(t, order, newDir, newName, f);
    ArrivalsRenameStep(t, order, newDir, newName, f);
  }

  /** A walk that ends without error has its first visit succeed. */
  lemma WalkVisitSucceeds(t: Tree, order: seq<Path>, newDir: Path, newName: Name, f: Filter)
    requires WalkFrom(t, order, newDir, newName, f).err.None? && order != []
    ensures Visit(t, order[0], newDir, newName, f).Success?
  {}

  /** After a successful first visit the walk goes on from the tree that visit leaves. */
  lemma WalkFromStep(t: Tree, order: seq<Path>, newDir: Path, newName: Name, f: Filter)
    requires order != [] && Visit(t, order[0], newDir, newName, f).Success?
    ensures WalkFrom(t, order, newDir, newName, f) ==
            WalkFrom(Visit(t, order[0], newDir, newName, f).value, order[1..], newDir, newName, f)
  {}

  /** A successful first visit that renames a selected file records that rename ahead of the rest of the walk. */
  lemma ArrivalsRenameStep(t: Tree, order: seq<Path>, newDir: Path, newName: Name, f: Filter)
    requires order != [] && Visit(t, order[0], newDir, newName, f).Success?
    requires Exists(t, order[0]) && !IsDir(t, order[0]) && Selected(f, Base(order[0]))
    requires RenameResult(t, order[0], newDir, newName).Success?
    ensures Arrivals(t, order, newDir, newName, f) ==
            map[order[0] := RenameResult(t, order[0], newDir, newName).value] +
            Arrivals(Visit(t, order[0], newDir, newName, f).value, order[1..], newDir, newName, f)
  {}

  /** The first rename of a walk over a snapshot: what the rest of the walk starts from. */
  lemma WalkRenameHead(t: Tree, order: seq<Path>, newDir: Path, newName: Name)
    requires WellFormed(t) && IsDir(t, newDir) && Snapshot(t, order, newDir) && |order| > 0
    requires order[0] in t && t[order[0]] == File
    requires RenameResult(t, order[0], newDir, newName).Success?
    ensures var p := order[0];
      var q := RenameResult(t, p, newDir, newName).value;
      var t1 := MoveTree(t, p, q);
      && WellFormed(t1) && IsDir(t1, newDir) && Snapshot(t1, order[1..], newDir)
      && (forall x :: x in t && x != p ==> x in t1 && t1[x] == t[x])
      && (forall x :: x in t1 ==> x == q || x in t)
      && q !in t && q != []
  {
    var p := order[0];
    var q := RenameResult(t, p, newDir, newName).value;
    MovesFileInto(t, p, newDir, newName);
    MoveFile(t, p, q);
    MoveTreeWellFormed(t, p, q);
    SnapshotTail(t, MoveTree(t, p, q), order, newDir, q);
  }

  /** The rest of a snapshot exists in the tree it was taken from, and a head file with more to come is not inside `newDir`. */
  lemma SnapshotRest(t: Tree, order: seq<Path>, newDir: Path)
    requires Snapshot(t, order, newDir) && |order| > 0 && order[0] in t && t[order[0]] == File
    ensures forall i :: 0 <= i < |order[1..]| ==> Exists(t, order[1..][i])
    ensures |order[1..]| > 0 ==> !InDir(order[0], newDir)
  {
    assert forall i :: 0 <= i < |order[1..]| ==> order[1..][i] == order[i + 1];
  }

  /** Where a walk from `root` puts each file it renames; a missing root is walked over nothing. */
  ghost function WalkArrivals(t: Tree, root: Path, newDir: Path, newName: Name, f: Filter): map<Path, Path> {
    if !Exists(t, root) then map[] else Arrivals(t, WalkOrder(t, root), newDir, newName, f)
  }

  /** A filtered walk out of a well-formed tree leaves a well-formed tree. */
  lemma RenameFilteredWellFormed(t: Tree, root: Path, newDir: Path, newName: Name, f: Filter)
    requires WellFormed(t) && !(root <= newDir)
    ensures WellFormed(RenameFiltered(t, root, newDir, newName, f).tree)
  {
    if Exists(t, root) && Exists(t, newDir) && CompileError(f).None? {
      WalkRenameKeeps(t, root, newDir, newName, f);
    }
  }

  /**
   * `RenameAll`, `RenamePattern` and the `Condition` walks, into a
   * directory outside `root`, when they return no error: exactly the
   * selected files at or below `root` have moved, each to its own candidate
   * `newDir/newName[-k]ext` that was free, carrying the extension it had;
   * every other entry is where it was, and nothing else has appeared.
   */
  lemma RenameFilteredArrivals(t: Tree, root: Path, newDir: Path, newName: Name, f: Filter)
    requires WellFormed(t) && IsDir(t, newDir) && !(root <= newDir)
    requires RenameFiltered(t, root, newDir, newName, f).err.None?
    ensures var m := WalkArrivals(t, root, newDir, newName, f);
      && Relocates(t, RenameFiltered(t, root, newDir, newName, f).tree, m)
      && (forall p :: p in m <==> p in t && root <= p && t[p] == File && Selected(f, Base(p)))
      && (forall p :: p in m ==> IsCandidate(m[p], newDir, newName, Ext(Base(p))))
  {
    var order := WalkOrder(t, root);
    WalkOrderSnapshot(t, root, newDir);
    WalkFromArrivals(t, order, newDir, newName, f);
    var m := WalkArrivals(t, root, newDir, newName, f);
    WalkOrderUnder(t, root);
    forall p | p in t && root <= p && t[p] == File && Selected(f, Base(p)) ensures p in m {
      WalkOrderComplete(t, root, p);
      var i :| 0 <= i < |order| && order[i] == p;
    }
  }
}
