/**
 * The abstract filesystem the engine runs against: a map from a path (a
 * sequence of entry names, [] standing for the working directory ".") to the
 * kind of entry found there. `os.Stat` is a membership test, `os.Rename` moves
 * a key together with the subtree below it, `os.Mkdir` adds a directory key and
 * `os.RemoveAll` deletes a subtree.
 */
module FileSystems {
  import opened Wrappers
  import opened Names

  type Path = seq<Name>

  datatype Kind = File | Dir

  type Tree = map<Path, Kind>

  /** The errors the operations of the engine report. */
  datatype Error =
    | NotFound(path: Path)          // "no such file or directory"
    | LinkFailed(from: Path)        // `os.Rename` refused the move
    | BadPattern(pattern: string)   // `regexp.Compile` failed
    | MkdirFailed(path: Path)       // the temporary directory could not be created
    | ReadDirFailed(path: Path)     // `ioutil.ReadDir` on something that is not a directory

  /** One element of a directory listing (`os.FileInfo`: `Name()` and `IsDir()`). */
  datatype Entry = Entry(name: Name, isDir: bool)

  function Parent(p: Path): Path
    requires |p| > 0
  {
    p[..|p| - 1]
  }

  /** The file part of `filepath.Split`; the working directory's own name is ".". */
  function Base(p: Path): Name {
    if p == [] then "." else p[|p| - 1]
  }

  /** `os.Stat(p)` succeeds. */
  predicate Exists(t: Tree, p: Path) {
    p == [] || p in t
  }

  predicate IsDir(t: Tree, p: Path) {
    p == [] || (p in t && t[p] == Dir)
  }

  /** The entry at `p` has a valid name and sits in a directory. */
  ghost predicate Placed(t: Tree, p: Path) {
    |p| > 0 && ValidName(p[|p| - 1]) && IsDir(t, p[..|p| - 1])
  }

  /**
   * Every entry is placed: the map is prefix-closed. The trigger keeps the
   * solver from walking up the ancestors of every path it meets.
   */
  ghost predicate WellFormed(t: Tree) {
    forall p {:trigger Placed(t, p)} :: p in t ==> Placed(t, p)
  }

  lemma {:induction false} AncestorIsDir(t: Tree, q: Path, p: Path)
    requires WellFormed(t) && q in t && p < q
    ensures IsDir(t, p)
    decreases |q|
  {
    assert Placed(t, q);
    var par := q[..|q| - 1];
    if p != par {
      assert |p| < |par| && p == par[..|p|];
      AncestorIsDir(t, par, p);
    }
  }

  /** Nothing lies below a path that is not a directory. */
  lemma NothingBelow(t: Tree, p: Path)
    requires WellFormed(t) && !IsDir(t, p)
    ensures forall q :: q in t ==> !(p < q)
  {
    forall q | q in t ensures !(p < q) {
      if p < q { AncestorIsDir(t, q, p); }
    }
  }

  /** The tree after `os.RemoveAll(p)`. */
  function RemoveTree(t: Tree, p: Path): (r: Tree)
    ensures forall q :: q in r <==> q in t && !(p <= q)
    ensures forall q :: q in r ==> r[q] == t[q]
  {
    map q | q in t && !(p <= q) :: t[q]
  }

  lemma RemoveTreeWellFormed(t: Tree, p: Path)
    requires WellFormed(t)
    ensures WellFormed(RemoveTree(t, p))
  {
    var r := RemoveTree(t, p);
    forall q | q in r ensures Placed(r, q) {
      assert Placed(t, q);
      var par := q[..|q| - 1];
      assert p <= par ==> p <= q;
    }
  }

  /** When `os.Rename(src, dst)` succeeds in the model. */
  predicate CanMove(t: Tree, src: Path, dst: Path) {
    && src != [] && src in t
    && dst != [] && dst !in t
    && IsDir(t, Parent(dst))
    && ValidName(Base(dst))
    && !(src <= dst)
  }

  /** The paths the entries below `src` take once they are moved to `dst`. */
  function Targets(t: Tree, src: Path, dst: Path): set<Path> {
    set q | q in t && src <= q :: dst + q[|src|..]
  }

  /** The subtree at `src`, re-rooted at `dst`. */
  function Moved(t: Tree, src: Path, dst: Path): Tree {
    map q | q in Targets(t, src, dst) && dst <= q && src + q[|dst|..] in t :: t[src + q[|dst|..]]
  }

  lemma MovedAt(t: Tree, src: Path, dst: Path, q: Path)
    ensures q in Moved(t, src, dst) <==> dst <= q && src + q[|dst|..] in t
  {
    if dst <= q && src + q[|dst|..] in t {
      var w := src + q[|dst|..];
      assert w[|src|..] == q[|dst|..];
      assert dst + w[|src|..] == q;
      assert q in Targets(t, src, dst);
    }
  }

  /** The tree after `os.Rename(src, dst)`: the subtree at `src` reappears at `dst`. */
  function MoveTree(t: Tree, src: Path, dst: Path): Tree {
    RemoveTree(t, src) + Moved(t, src, dst)
  }

  lemma PrefixCases(a: Path, b: Path)
    requires a <= b
    ensures a == b || a < b
  {
    if |a| == |b| { assert a == b; }
  }

  lemma DropLast(a: Path, b: Path)
    requires |b| > 0
    ensures (a + b)[..|a + b| - 1] == a + b[..|b| - 1]
  {}

  /** Where each entry of the moved tree came from. */
  lemma MoveTreeAt(t: Tree, src: Path, dst: Path, q: Path)
    requires WellFormed(t) && CanMove(t, src, dst)
    ensures q in MoveTree(t, src, dst) <==>
              (dst <= q && src + q[|dst|..] in t) || (!(src <= q) && q in t)
    ensures dst <= q && src + q[|dst|..] in t ==> MoveTree(t, src, dst)[q] == t[src + q[|dst|..]]
    ensures !(src <= q) && q in t ==> !(dst <= q) && MoveTree(t, src, dst)[q] == t[q]
  {
    MovedAt(t, src, dst, q);
    NothingBelow(t, dst);
    if dst <= q { PrefixCases(dst, q); }
  }

  lemma MoveTreeWellFormedAt(t: Tree, src: Path, dst: Path, q: Path)
    requires WellFormed(t) && CanMove(t, src, dst) && q in MoveTree(t, src, dst)
    ensures Placed(MoveTree(t, src, dst), q)
  {
    MoveTreeAt(t, src, dst, q);
    if dst <= q && src + q[|dst|..] in t {
      PrefixCases(dst, q);
      if q == dst {
        PlacedAtTarget(t, src, dst);
      } else {
        PlacedBelowTarget(t, src, dst, q);
      }
    } else {
      PlacedOutside(t, src, dst, q);
    }
  }

  /** The moved entry itself sits in the destination's parent, which the move leaves in place. */
  lemma PlacedAtTarget(t: Tree, src: Path, dst: Path)
    requires WellFormed(t) && CanMove(t, src, dst)
    ensures Placed(MoveTree(t, src, dst), dst)
  {
    var par := Parent(dst);
    assert src <= par ==> src <= dst;
    MoveTreeAt(t, src, dst, par);
  }

  /** An entry below the moved one sits in a directory that moved along with it. */
  lemma PlacedBelowTarget(t: Tree, src: Path, dst: Path, q: Path)
    requires WellFormed(t) && CanMove(t, src, dst)
    requires dst < q && src + q[|dst|..] in t
    ensures Placed(MoveTree(t, src, dst), q)
  {
    var w := src + q[|dst|..];
    assert Placed(t, w);
    var par := q[..|q| - 1];
    var x := q[|dst|..];
    assert |x| > 0;
    DropLast(src, x);
    assert x[..|x| - 1] == par[|dst|..];
    assert w[..|w| - 1] == src + par[|dst|..];
    assert dst <= par;
    MoveTreeAt(t, src, dst, par);
    assert w[|w| - 1] == q[|q| - 1];
  }

  /** An entry outside the moved subtree keeps its parent. */
  lemma PlacedOutside(t: Tree, src: Path, dst: Path, q: Path)
    requires WellFormed(t) && CanMove(t, src, dst)
    requires q in t && !(src <= q)
    ensures Placed(MoveTree(t, src, dst), q)
  {
    assert Placed(t, q);
    var par := q[..|q| - 1];
    assert src <= par ==> src <= q;
    MoveTreeAt(t, src, dst, par);
  }

  lemma MoveTreeWellFormed(t: Tree, src: Path, dst: Path)
    requires WellFormed(t) && CanMove(t, src, dst)
    ensures WellFormed(MoveTree(t, src, dst))
  {
    forall q | q in MoveTree(t, src, dst) ensures Placed(MoveTree(t, src, dst), q) {
      MoveTreeWellFormedAt(t, src, dst, q);
    }
  }

  /**
   * `os.Rename(src, dst)` in one statement: the subtree at `src` reappears,
   * kind for kind, at `dst`; everything outside `src` stays; nothing else
   * appears; and `src` itself is gone.
   */
  lemma MoveTreeEffect(t: Tree, src: Path, dst: Path)
    requires WellFormed(t) && CanMove(t, src, dst)
    ensures forall s :: src + s in t <==> dst + s in MoveTree(t, src, dst)
    ensures forall s :: src + s in t ==> MoveTree(t, src, dst)[dst + s] == t[src + s]
    ensures forall q :: q in t && !(src <= q) ==> q in MoveTree(t, src, dst) && MoveTree(t, src, dst)[q] == t[q]
    ensures forall q :: q in MoveTree(t, src, dst) ==> dst <= q || (q in t && !(src <= q))
    ensures src !in MoveTree(t, src, dst)
  {
    var m := MoveTree(t, src, dst);
    forall s ensures src + s in t <==> dst + s in m {
      MoveTreeAt(t, src, dst, dst + s);
      assert (dst + s)[|dst|..] == s;
    }
    forall s | src + s in t ensures m[dst + s] == t[src + s] {
      MoveTreeAt(t, src, dst, dst + s);
      assert (dst + s)[|dst|..] == s;
    }
    forall q | q in t && !(src <= q) ensures q in m && m[q] == t[q] {
      MoveTreeAt(t, src, dst, q);
    }
    forall q | q in m ensures dst <= q || (q in t && !(src <= q)) {
      MoveTreeAt(t, src, dst, q);
    }
    MoveTreeAt(t, src, dst, src);
    if dst <= src {
      PrefixCases(dst, src);
      if dst != src { AncestorIsDir(t, src, dst); }
    }
  }

  /** Moving a file takes away one key and adds one: the map keeps its size. */
  lemma MoveFile(t: Tree, src: Path, dst: Path)
    requires WellFormed(t) && CanMove(t, src, dst) && t[src] == File
    ensures MoveTree(t, src, dst).Keys == t.Keys - {src} + {dst}
    ensures MoveTree(t, src, dst)[dst] == File
    ensures forall q :: q in t && q != src ==> MoveTree(t, src, dst)[q] == t[q]
    ensures |MoveTree(t, src, dst)| == |t|
  {
    var m := MoveTree(t, src, dst);
    NothingBelow(t, src);
    forall q ensures q in m <==> q in t.Keys - {src} + {dst} {
      MoveTreeAt(t, src, dst, q);
      if src <= q { PrefixCases(src, q); }
      if dst <= q {
        var r := q[|dst|..];
        assert q == dst + r;
        if r != [] {
          assert src < src + r;
        }
      }
      if q == dst {
        assert src + q[|dst|..] == src;
      }
    }
    assert m.Keys == t.Keys - {src} + {dst};
    MoveTreeAt(t, src, dst, dst);
    assert src + dst[|dst|..] == src;
    forall q | q in t && q != src ensures m[q] == t[q] {
      MoveTreeAt(t, src, dst, q);
      if src <= q { PrefixCases(src, q); }
    }
    assert |t.Keys - {src}| == |t.Keys| - 1;
  }

  /** After moving a file, the tree is still well formed and the destination directory is still one. */
  lemma MoveFileInto(t: Tree, src: Path, dst: Path)
    requires WellFormed(t) && CanMove(t, src, dst) && t[src] == File
    ensures WellFormed(MoveTree(t, src, dst)) && IsDir(MoveTree(t, src, dst), Parent(dst))
    ensures MoveTree(t, src, dst).Keys == t.Keys - {src} + {dst}
    ensures forall q :: q in t && q != src ==> MoveTree(t, src, dst)[q] == t[q]
  {
    MoveFile(t, src, dst);
    MoveTreeWellFormed(t, src, dst);
    var par := Parent(dst);
    assert par != [] ==> par != src && par in t;
  }

  /** When `os.Mkdir(p)` succeeds in the model. */
  predicate CanMkdir(t: Tree, p: Path) {
    p != [] && p !in t && IsDir(t, Parent(p)) && ValidName(Base(p))
  }

  lemma MkdirWellFormed(t: Tree, p: Path)
    requires WellFormed(t) && CanMkdir(t, p)
    ensures WellFormed(t[p := Dir])
  {
    var t' := t[p := Dir];
    forall q | q in t' ensures Placed(t', q) {
      if q != p { assert Placed(t, q); }
    }
  }

  /** The names directly inside `dir`. */
  function Children(t: Tree, dir: Path): (c: set<Name>)
    ensures forall n :: n in c <==> dir + [n] in t
  {
    var c := set q | q in t && |q| == |dir| + 1 && dir <= q :: q[|dir|];
    assert forall n :: dir + [n] in t ==> (dir + [n])[|dir|] == n;
    assert forall q :: |q| == |dir| + 1 && dir <= q ==> q == dir + [q[|dir|]];
    c
  }

  /** The names directly inside `dir`, in the order Go lists them. */
  function Listing(t: Tree, dir: Path): (names: seq<Name>)
    ensures forall n :: n in names <==> dir + [n] in t
    ensures StrictlySorted(names)
  {
    SortedNames(Children(t, dir))
  }

  /** `ioutil.ReadDir(dir)`: the sorted listing, or an error when `dir` is not a directory. */
  function ReadDirOf(t: Tree, dir: Path): (r: Result<seq<Entry>, Error>)
    ensures !IsDir(t, dir) <==> r == Failure(ReadDirFailed(dir))
    ensures r.Success? ==> |r.value| == |Listing(t, dir)|
    ensures r.Success? ==> forall i :: 0 <= i < |r.value| ==>
              r.value[i].name == Listing(t, dir)[i] && dir + [r.value[i].name] in t &&
              r.value[i].isDir == (t[dir + [r.value[i].name]] == Dir)
  {
    if !IsDir(t, dir) then Failure(ReadDirFailed(dir))
    else
      var names := Listing(t, dir);
      Success(seq(|names|, i requires 0 <= i < |names| => Entry(names[i], IsDir(t, dir + [names[i]]))))
  }

  /** The host filesystem: one mutable tree. */
  class FileSystem {
    var tree: Tree

    ghost predicate Valid()
      reads this
    {
      WellFormed(tree)
    }

    constructor (t: Tree)
      requires WellFormed(t)
      ensures Valid() && tree == t
    {
      tree := t;
    }

    /** `os.Stat(p) == nil`. */
    method Stat(p: Path) returns (found: bool)
      ensures found <==> (p == [] || p in tree)
    {
      found := p == [] || p in tree;
    }

    /** `os.Lstat(p)`: the kind of entry found at `p`, if any. */
    method Lstat(p: Path) returns (k: Option<Kind>)
      ensures k.None? <==> !Exists(tree, p)
      ensures k.Some? ==> (k.value == Dir <==> IsDir(tree, p))
    {
      if p == [] {
        k := Some(Dir);
      } else if p in tree {
        k := Some(tree[p]);
      } else {
        k := None;
      }
    }

    /** `os.Rename(src, dst)`. */
    method Rename(src: Path, dst: Path) returns (ok: bool)
      requires Valid()
      modifies this
      ensures Valid()
      ensures ok == CanMove(old(tree), src, dst)
      ensures tree == if ok then MoveTree(old(tree), src, dst) else old(tree)
    {
      ok := CanMove(tree, src, dst);
      if ok {
        MoveTreeWellFormed(tree, src, dst);
        tree := MoveTree(tree, src, dst);
      }
    }

    /** `os.Mkdir(p, os.ModePerm)`. */
    method Mkdir(p: Path) returns (ok: bool)
      requires Valid()
      modifies this
      ensures Valid()
      ensures ok == CanMkdir(old(tree), p)
      ensures tree == if ok then old(tree)[p := Dir] else old(tree)
    {
      ok := CanMkdir(tree, p);
      if ok {
        MkdirWellFormed(tree, p);
        tree := tree[p := Dir];
      }
    }

    /** `os.RemoveAll(p)`; removing what is not there is not an error. */
    method RemoveAll(p: Path)
      requires Valid()
      modifies this
      ensures Valid()
      ensures tree == RemoveTree(old(tree), p)
    {
      RemoveTreeWellFormed(tree, p);
      tree := RemoveTree(tree, p);
    }

    /** `ioutil.ReadDir(dir)`. */
    method ReadDir(dir: Path) returns (r: Result<seq<Entry>, Error>)
      ensures r == ReadDirOf(tree, dir)
    {
      r := ReadDirOf(tree, dir);
    }
  }
}
