/**
  An abstract filesystem: a finite map from paths to entries, and the few
  primitives of Python's `os` and `shutil` modules that the dataset stager
  calls on it. A path is the sequence of its components, relative to the
  working directory; the working directory itself is the empty path.
 */
module Disk {

  type Bytes = seq<bv8>

  type Path = seq<string>

  datatype Entry = File(data: Bytes) | Dir

  type Tree = map<Path, Entry>

  function Parent(p: Path): Path
    requires |p| > 0
  {
    p[..|p| - 1]
  }

  predicate IsDir(m: Tree, p: Path)
  {
    p in m && m[p].Dir?
  }

  predicate IsFile(m: Tree, p: Path)
  {
    p in m && m[p].File?
  }

  /**
    The shape every reachable filesystem has: the working directory is not an
    entry of its own, and every entry below the top level sits in a directory.
   */
  predicate WellFormed(m: Tree)
  {
    && [] !in m
    && forall p :: p in m && |p| > 1 ==> IsDir(m, Parent(p))
  }

  /** `p` is `d` itself or lies somewhere below `d`. */
  predicate Under(d: Path, p: Path)
  {
    |d| <= |p| && p[..|d|] == d
  }

  /** No component along `d` (the path itself included) is a regular file. */
  predicate NoFileAlong(m: Tree, d: Path)
  {
    forall k :: 0 < k <= |d| ==> !IsFile(m, d[..k])
  }

  /** Every entry directly inside `d` is a regular file. */
  ghost predicate NoSubdirs(m: Tree, d: Path)
  {
    forall n :: d + [n] in m ==> m[d + [n]].File?
  }

  predicate Distinct(s: seq<string>)
  {
    forall i, j :: 0 <= i < j < |s| ==> s[i] != s[j]
  }

  /** The set of names a listing enumerates. */
  function Elements(listing: seq<string>): (r: set<string>)
    ensures forall x :: x in r <==> x in listing
  {
    set x | x in listing
  }

  /** A listing without repetitions is as long as the set it enumerates. */
  lemma {:induction false} DistinctCount(listing: seq<string>)
    requires Distinct(listing)
    ensures |Elements(listing)| == |listing|
    decreases |listing|
  {
    if listing != [] {
      var prefix := listing[..|listing| - 1];
      var last := listing[|listing| - 1];
      DistinctCount(prefix);
      assert Elements(listing) == Elements(prefix) + {last} by {
        assert listing == prefix + [last];
      }
      assert last !in Elements(prefix);
    }
  }

  /** The names of the entries directly inside `d` (what a listing of `d` shows). */
  function Children(m: Tree, d: Path): (r: set<string>)
    ensures forall n :: n in r <==> d + [n] in m
  {
    var r := set p | p in m && |p| == |d| + 1 && p[..|d|] == d :: p[|d|];
    assert forall n :: d + [n] in m ==> (d + [n])[..|d|] == d && (d + [n])[|d|] == n;
    assert forall p :: p in m && |p| == |d| + 1 && p[..|d|] == d ==> p == d + [p[|d|]];
    r
  }

  /** The paths of the entries named `names` directly inside `d`. */
  function Placed(d: Path, names: set<string>): (r: set<Path>)
    ensures forall p :: p in r <==> |p| == |d| + 1 && p[..|d|] == d && p[|d|] in names
  {
    var r := set n | n in names :: d + [n];
    assert forall n :: (d + [n])[..|d|] == d && (d + [n])[|d|] == n;
    assert forall p :: |p| == |d| + 1 && p[..|d|] == d ==> p == d + [p[|d|]];
    r
  }

  /** The contents of the regular file at `p`; nothing when there is no such file. */
  function DataAt(m: Tree, p: Path): Bytes
  {
    if IsFile(m, p) then m[p].data else []
  }

  /** The regular files directly inside `d`. */
  function Files(m: Tree, d: Path): (r: set<string>)
    ensures forall n :: n in r <==> IsFile(m, d + [n])
  {
    set n | n in Children(m, d) && m[d + [n]].File?
  }

  /** The subdirectories directly inside `d`. */
  function Subdirs(m: Tree, d: Path): (r: set<string>)
    ensures forall n :: n in r <==> IsDir(m, d + [n])
  {
    set n | n in Children(m, d) && m[d + [n]].Dir?
  }

  /** Entries of two different directories are different entries. */
  lemma AppendDiffers(a: Path, x: string, b: Path, y: string)
    requires a != b
    ensures a + [x] != b + [y]
  {
    if |a| == |b| {
      assert (a + [x])[..|a|] == a;
      assert (b + [y])[..|b|] == b;
    }
  }

  /** In a well-formed tree only a directory can have entries inside it. */
  lemma ChildrenOnlyOfDirs(m: Tree, d: Path)
    requires WellFormed(m) && |d| > 0 && !IsDir(m, d)
    ensures Children(m, d) == {}
  {
  }

  // ---------------------------------------------------------------------------
  // The effect of each primitive on the tree
  // ---------------------------------------------------------------------------

  /** `shutil.rmtree(d)`: `d` and everything below it disappear. */
  function Pruned(m: Tree, d: Path): Tree
  {
    map p | p in m && !Under(d, p) :: m[p]
  }

  lemma {:induction false} PrunedWellFormed(m: Tree, d: Path)
    requires WellFormed(m) && |d| > 0
    ensures WellFormed(Pruned(m, d))
    ensures forall p :: p in Pruned(m, d) <==> p in m && !Under(d, p)
  {
    var r := Pruned(m, d);
    forall p | p in r && |p| > 1 ensures IsDir(r, Parent(p)) {
      var q := Parent(p);
      assert |d| <= |q| ==> p[..|d|] == q[..|d|];
    }
  }

  /** Adding a directory whose parent is a directory keeps the tree well formed. */
  lemma AddDir(m: Tree, d: Path)
    requires WellFormed(m) && |d| > 0 && !IsFile(m, d)
    requires |d| > 1 ==> IsDir(m, Parent(d))
    ensures WellFormed(m[d := Dir])
  {
  }

  /** Writing a file where there is no directory, inside a directory, keeps the tree well formed. */
  lemma AddFile(m: Tree, p: Path, data: Bytes)
    requires WellFormed(m) && |p| > 0 && !IsDir(m, p)
    requires |p| > 1 ==> IsDir(m, Parent(p))
    ensures WellFormed(m[p := File(data)])
  {
  }

  /**
    `os.makedirs(d)`: the missing directories along `d` are created, from the
    top down; entries that already exist are left as they are.
   */
  function WithDirs(m: Tree, d: Path): Tree
    decreases |d|
  {
    if d == [] then m
    else
      var m' := WithDirs(m, Parent(d));
      if d in m' then m' else m'[d := Dir]
  }

  /** `os.makedirs` never removes or changes an entry that exists. */
  lemma {:induction false} WithDirsKeeps(m: Tree, d: Path, p: Path)
    requires p in m
    ensures p in WithDirs(m, d) && WithDirs(m, d)[p] == m[p]
    decreases |d|
  {
    if d != [] {
      WithDirsKeeps(m, Parent(d), p);
    }
  }

  /** Every entry `os.makedirs(d)` adds is a component of `d`. */
  lemma {:induction false} WithDirsOnlyAlong(m: Tree, d: Path, p: Path)
    requires p in WithDirs(m, d) && p !in m
    ensures 0 < |p| && Under(p, d)
    decreases |d|
  {
    var q := Parent(d);
    if p != d {
      WithDirsOnlyAlong(m, q, p);
      assert p == q[..|p|] == d[..|p|];
    }
  }

  /** After `os.makedirs(d)` every component along `d` is a directory. */
  lemma {:induction false} WithDirsAlong(m: Tree, d: Path, k: nat)
    requires NoFileAlong(m, d) && 0 < k <= |d|
    ensures IsDir(WithDirs(m, d), d[..k])
    decreases |d|
  {
    var q := Parent(d);
    if k < |d| {
      assert NoFileAlong(m, q) by {
        forall j | 0 < j <= |q| ensures !IsFile(m, q[..j]) {
          assert q[..j] == d[..j];
        }
      }
      WithDirsAlong(m, q, k);
      assert d[..k] == q[..k];
      WithDirsKeepsDir(m, q, d, d[..k]);
    } else {
      assert d[..|d|] == d;
      if d in m {
        WithDirsKeeps(m, q, d);
      } else if d in WithDirs(m, q) {
        WithDirsOnlyAlong(m, q, d);
      }
    }
  }

  /** One step of `os.makedirs(d)`: a directory stays a directory when the next component is added. */
  lemma WithDirsKeepsDir(m: Tree, q: Path, d: Path, p: Path)
    requires |d| > 0 && q == Parent(d) && IsDir(WithDirs(m, q), p)
    ensures IsDir(WithDirs(m, d), p)
  {
  }

  /** `os.makedirs(d)` keeps the tree well formed when no file lies along `d`. */
  lemma {:induction false} WithDirsWellFormed(m: Tree, d: Path)
    requires WellFormed(m) && NoFileAlong(m, d)
    ensures WellFormed(WithDirs(m, d))
    decreases |d|
  {
    if d != [] {
      var q := Parent(d);
      assert NoFileAlong(m, q) by {
        forall j | 0 < j <= |q| ensures !IsFile(m, q[..j]) {
          assert q[..j] == d[..j];
        }
      }
      WithDirsWellFormed(m, q);
      var m' := WithDirs(m, q);
      if d !in m' {
        if |d| > 1 {
          WithDirsAlong(m, q, |q|);
          assert q[..|q|] == q;
        }
        assert d[..|d|] == d;
        AddDir(m', d);
      }
    }
  }

  lemma WithDirsFacts(m: Tree, d: Path)
    requires WellFormed(m) && NoFileAlong(m, d)
    ensures WellFormed(WithDirs(m, d))
    ensures forall k :: 0 < k <= |d| ==> IsDir(WithDirs(m, d), d[..k])
    ensures forall p :: p in m ==> p in WithDirs(m, d) && WithDirs(m, d)[p] == m[p]
    ensures forall p :: p in WithDirs(m, d) && p !in m ==> 0 < |p| && Under(p, d)
  {
    WithDirsWellFormed(m, d);
    forall k | 0 < k <= |d| ensures IsDir(WithDirs(m, d), d[..k]) {
      WithDirsAlong(m, d, k);
    }
    forall p | p in m ensures p in WithDirs(m, d) && WithDirs(m, d)[p] == m[p] {
      WithDirsKeeps(m, d, p);
    }
    forall p | p in WithDirs(m, d) && p !in m ensures 0 < |p| && Under(p, d) {
      WithDirsOnlyAlong(m, d, p);
    }
  }

  /** Every ancestor of an entry of a well-formed tree is a directory of it. */
  lemma {:induction false} AncestorsAreDirs(m: Tree, p: Path, k: int)
    requires WellFormed(m) && p in m && 0 < k < |p|
    ensures IsDir(m, p[..k])
    decreases |p| - k
  {
    var q := Parent(p);
    if k < |q| {
      AncestorsAreDirs(m, q, k);
      assert q[..k] == p[..k];
    }
  }

  /** `os.makedirs` on a path whose every component already exists changes nothing. */
  lemma {:induction false} WithDirsPresent(m: Tree, d: Path)
    requires forall k :: 0 < k <= |d| ==> d[..k] in m
    ensures WithDirs(m, d) == m
    decreases |d|
  {
    if d != [] {
      var q := Parent(d);
      forall k | 0 < k <= |q| ensures q[..k] in m {
        assert q[..k] == d[..k];
      }
      WithDirsPresent(m, q);
      assert d[..|d|] == d;
    }
  }

  /** `os.makedirs(d + [n])` below an existing directory `d` creates at most the one entry. */
  lemma WithDirsChild(m: Tree, d: Path, n: string)
    requires forall k :: 0 < k <= |d| ==> d[..k] in m
    ensures WithDirs(m, d + [n]) == if d + [n] in m then m else m[d + [n] := Dir]
  {
    assert Parent(d + [n]) == d;
    WithDirsPresent(m, d);
  }

  // ---------------------------------------------------------------------------
  // The filesystem object
  // ---------------------------------------------------------------------------

  class FileSystem {
    var entries: Tree

    ghost predicate Valid()
      reads this
    {
      WellFormed(entries)
    }

    /** `os.walk(d)` first level, files only: every file of `d` once, in no particular order. */
    method ListFiles(d: Path) returns (names: seq<string>)
      requires IsDir(entries, d)
      ensures Distinct(names)
      ensures forall n :: n in names <==> IsFile(entries, d + [n])
    {
      var rest := Files(entries, d);
      names := [];
      while rest != {}
        invariant rest <= Files(entries, d)
        invariant forall n :: n in names <==> n in Files(entries, d) && n !in rest
        invariant Distinct(names)
        decreases rest
      {
        var n :| n in rest;
        names := names + [n];
        rest := rest - {n};
      }
    }

    /** `os.walk(d)` first level, directories only: every subdirectory of `d` once, in no particular order. */
    method ListSubdirs(d: Path) returns (names: seq<string>)
      requires IsDir(entries, d)
      ensures Distinct(names)
      ensures forall n :: n in names <==> IsDir(entries, d + [n])
    {
      var rest := Subdirs(entries, d);
      names := [];
      while rest != {}
        invariant rest <= Subdirs(entries, d)
        invariant forall n :: n in names <==> n in Subdirs(entries, d) && n !in rest
        invariant Distinct(names)
        decreases rest
      {
        var n :| n in rest;
        names := names + [n];
        rest := rest - {n};
      }
    }

    /** `shutil.rmtree(d)`. */
    method RemoveTree(d: Path)
      requires Valid() && |d| > 0 && IsDir(entries, d)
      modifies this
      ensures Valid() && entries == Pruned(old(entries), d)
    {
      PrunedWellFormed(entries, d);
      entries := Pruned(entries, d);
    }

    /** `os.mkdir(d)`: the parent must already be a directory. */
    method MakeDir(d: Path)
      requires Valid() && |d| > 0 && d !in entries
      requires |d| > 1 ==> IsDir(entries, Parent(d))
      modifies this
      ensures Valid() && entries == old(entries)[d := Dir]
    {
      entries := entries[d := Dir];
    }

    /** `os.makedirs(d)`: `d` must not exist yet; missing parents are created. */
    method MakeDirs(d: Path)
      requires Valid() && |d| > 0 && d !in entries && NoFileAlong(entries, d)
      modifies this
      ensures Valid() && entries == WithDirs(old(entries), d)
    {
      var k := 1;
      while k <= |d|
        invariant 1 <= k <= |d| + 1
        invariant entries == WithDirs(old(entries), d[..k - 1])
        invariant Valid()
      {
        assert Parent(d[..k]) == d[..k - 1];
        if d[..k] !in entries {
          entries := entries[d[..k] := Dir];
        }
        assert NoFileAlong(old(entries), d[..k]) by {
          forall j | 0 < j <= k ensures !IsFile(old(entries), d[..k][..j]) {
            assert d[..k][..j] == d[..j];
          }
        }
        WithDirsWellFormed(old(entries), d[..k]);
        k := k + 1;
      }
      assert d[..|d|] == d;
    }

    /** Writing a regular file at `p` (an image save or the target of a copy). */
    method WriteFile(p: Path, data: Bytes)
      requires Valid() && |p| > 0 && !IsDir(entries, p)
      requires |p| > 1 ==> IsDir(entries, Parent(p))
      modifies this
      ensures Valid() && entries == old(entries)[p := File(data)]
    {
      entries := entries[p := File(data)];
    }
  }
}
