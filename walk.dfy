/**
 * The visiting order of `filepath.Walk`: the root first, then, for a
 * directory, each name of its sorted listing walked in turn, depth first.
 */
module Walks {
  import opened Names
  import opened FileSystems

  ghost predicate Distinct<T>(s: seq<T>) {
    forall i, j :: 0 <= i < j < |s| ==> s[i] != s[j]
  }

  /** `p` and the entries below it: what a walk from `p` can visit. */
  function Scope(t: Tree, p: Path): set<Path> {
    {p} + set q | q in t && p <= q
  }

  lemma ScopeShrinks(t: Tree, dir: Path, n: Name)
    requires dir + [n] in t
    ensures Scope(t, dir + [n]) < Scope(t, dir)
  {
    var c := dir + [n];
    forall q | q in Scope(t, c) ensures q in Scope(t, dir) {
      assert c <= q ==> q[..|dir|] == dir;
    }
    assert c in Scope(t, dir);
    assert dir !in Scope(t, c);
  }

  /** The paths `filepath.Walk(root, fn)` hands to `fn`, in order, for an unchanging tree. */
  function WalkOrder(t: Tree, root: Path): seq<Path>
    decreases Scope(t, root), 1, 0
  {
    if !Exists(t, root) then []
    else if root != [] && t[root] == File then [root]
    else
      var names := Listing(t, root);
      assert forall i :: 0 <= i < |names| ==> names[i] in names;
      [root] + WalkList(t, root, names)
  }

  /** The walks of the entries `names` of directory `dir`, one after the other. */
  function WalkList(t: Tree, dir: Path, names: seq<Name>): seq<Path>
    requires forall i :: 0 <= i < |names| ==> dir + [names[i]] in t
    decreases Scope(t, dir), 0, |names|
  {
    if names == [] then []
    else
      ScopeShrinks(t, dir, names[0]);
      WalkOrder(t, dir + [names[0]]) + WalkList(t, dir, names[1..])
  }

  /** A walk that starts at a file visits just that file. */
  lemma WalkOrderOfFile(t: Tree, p: Path)
    requires p != [] && p in t && t[p] == File
    ensures WalkOrder(t, p) == [p]
  {}

  /** Every visited path exists and lies at or below the root. */
  lemma {:induction false} WalkOrderUnder(t: Tree, root: Path)
    ensures forall p :: p in WalkOrder(t, root) ==> root <= p && Exists(t, p)
    decreases Scope(t, root), 1, 0
  {
    if Exists(t, root) && !(root != [] && t[root] == File) {
      var names := Listing(t, root);
      assert forall i :: 0 <= i < |names| ==> names[i] in names;
      WalkListUnder(t, root, names);
    }
  }

  lemma {:induction false} WalkListUnder(t: Tree, dir: Path, names: seq<Name>)
    requires forall i :: 0 <= i < |names| ==> dir + [names[i]] in t
    ensures forall p :: p in WalkList(t, dir, names) ==>
              dir <= p && |p| > |dir| && p[|dir|] in names && Exists(t, p)
    decreases Scope(t, dir), 0, |names|
  {
    if names != [] {
      var c := dir + [names[0]];
      ScopeShrinks(t, dir, names[0]);
      WalkOrderUnder(t, c);
      WalkListUnder(t, dir, names[1..]);
      forall p | p in WalkOrder(t, c) ensures dir <= p && |p| > |dir| && p[|dir|] == names[0] {
        assert p[..|c|] == c;
      }
    }
  }

  /** Each path is visited at most once. */
  lemma {:induction false} WalkOrderDistinct(t: Tree, root: Path)
    ensures Distinct(WalkOrder(t, root))
    decreases Scope(t, root), 1, 0
  {
    if Exists(t, root) && !(root != [] && t[root] == File) {
      var names := Listing(t, root);
      assert forall i :: 0 <= i < |names| ==> names[i] in names;
      WalkListDistinct(t, root, names);
      WalkListUnder(t, root, names);
      var l := WalkList(t, root, names);
      assert root !in l;
      DistinctCons(root, l);
    }
  }

  lemma DistinctCons<T>(x: T, s: seq<T>)
    requires Distinct(s) && x !in s
    ensures Distinct([x] + s)
  {
    forall i, j | 0 <= i < j < |[x] + s| ensures ([x] + s)[i] != ([x] + s)[j] {
      assert ([x] + s)[j] == s[j - 1];
      if i > 0 {
        assert ([x] + s)[i] == s[i - 1];
      }
    }
  }

  lemma {:induction false} WalkListDistinct(t: Tree, dir: Path, names: seq<Name>)
    requires forall i :: 0 <= i < |names| ==> dir + [names[i]] in t
    requires Distinct(names)
    ensures Distinct(WalkList(t, dir, names))
    decreases Scope(t, dir), 0, |names|
  {
    if names != [] {
      var c := dir + [names[0]];
      var rest := names[1..];
      ScopeShrinks(t, dir, names[0]);
      WalkOrderDistinct(t, c);
      WalkOrderUnder(t, c);
      WalkListDistinct(t, dir, rest);
      WalkListUnder(t, dir, rest);
      var a := WalkOrder(t, c);
      var b := WalkList(t, dir, rest);
      forall p | p in a ensures p[|dir|] == names[0] && |p| > |dir| {
        assert p[..|c|] == c;
      }
      assert names[0] !in rest;
      DistinctConcat(a, b);
    }
  }

  lemma DistinctConcat<T>(a: seq<T>, b: seq<T>)
    requires Distinct(a) && Distinct(b)
    requires forall x :: x in a ==> x !in b
    ensures Distinct(a + b)
  {
    forall i, j | 0 <= i < j < |a + b| ensures (a + b)[i] != (a + b)[j] {
      if i < |a| && j >= |a| {
        assert (a + b)[i] in a && (a + b)[j] in b;
      }
    }
  }

  /** Every entry at or below the root is visited. */
  lemma {:induction false} WalkOrderComplete(t: Tree, root: Path, q: Path)
    requires WellFormed(t) && q in t && root <= q
    ensures q in WalkOrder(t, root)
    decreases |q| - |root|
  {
    if q != root {
      PrefixCases(root, q);
      AncestorIsDir(t, q, root);
      var n := q[|root|];
      var c := root + [n];
      assert c == q[..|root| + 1];
      ChildOnPath(t, root, q);
      WalkOrderComplete(t, c, q);
      var names := Listing(t, root);
      assert n in names;
      var k :| 0 <= k < |names| && names[k] == n;
      assert forall i :: 0 <= i < |names| ==> names[i] in names;
      WalkListContains(t, root, names, k, q);
      WalkOrderOfDir(t, root);
    }
  }

  lemma WalkOrderOfDir(t: Tree, root: Path)
    requires IsDir(t, root)
    ensures forall i :: 0 <= i < |Listing(t, root)| ==> root + [Listing(t, root)[i]] in t
    ensures WalkOrder(t, root) == [root] + WalkList(t, root, Listing(t, root))
  {
    var names := Listing(t, root);
    assert forall i :: 0 <= i < |names| ==> names[i] in names;
  }

  lemma ChildOnPath(t: Tree, root: Path, q: Path)
    requires WellFormed(t) && q in t && root < q
    ensures root + [q[|root|]] in t && root + [q[|root|]] <= q
  {
    var c := q[..|root| + 1];
    assert c == root + [q[|root|]];
    if c != q {
      assert c < q;
      AncestorIsDir(t, q, c);
    }
  }

  lemma {:induction false} WalkListContains(t: Tree, dir: Path, names: seq<Name>, k: nat, q: Path)
    requires forall i :: 0 <= i < |names| ==> dir + [names[i]] in t
    requires k < |names| && q in WalkOrder(t, dir + [names[k]])
    ensures q in WalkList(t, dir, names)
    decreases k
  {
    if k > 0 {
      WalkListContains(t, dir, names[1..], k - 1, q);
    }
  }
}
