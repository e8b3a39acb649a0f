/**
  The two destructive recreate operations of the dataset stager:
  `__create_data_directory`, which gives an output directory exactly the two
  empty class subdirectories, and `__make_not_marker_dir`, which empties the
  four raw and processed pools.
 */
module Provisioning {
  import opened Disk
  import opened Paths

  // ---------------------------------------------------------------------------
  // Deleting a directory that may not exist
  // ---------------------------------------------------------------------------

  /** `if os.path.exists(d): shutil.rmtree(d)`. */
  function Cleared(m: Tree, d: Path): Tree
  {
    if d in m then Pruned(m, d) else m
  }

  /** After the conditional delete nothing is left at or below `d`, and nothing else changed. */
  lemma ClearedFacts(m: Tree, d: Path)
    requires WellFormed(m) && |d| > 0 && NoFileAlong(m, d)
    ensures WellFormed(Cleared(m, d)) && NoFileAlong(Cleared(m, d), d)
    ensures forall p :: Under(d, p) ==> p !in Cleared(m, d)
    ensures forall p :: !Under(d, p) ==> (p in Cleared(m, d) <==> p in m)
    ensures forall p :: !Under(d, p) && p in m ==> Cleared(m, d)[p] == m[p]
  {
    if d in m {
      PrunedWellFormed(m, d);
    } else {
      forall p | p in m ensures !Under(d, p) {
        if |d| < |p| {
          AncestorsAreDirs(m, p, |d|);
        } else if |p| == |d| {
          assert p[..|d|] == p;
        }
      }
      assert d[..|d|] == d;
    }
  }

  // ---------------------------------------------------------------------------
  // __create_data_directory
  // ---------------------------------------------------------------------------

  /** The tree after `d` was deleted (when present) and created again, with any missing ancestors. */
  function Recreated(m: Tree, d: Path): Tree
  {
    WithDirs(Cleared(m, d), d)
  }

  /** `d` is recreated as an empty directory; outside it only its missing ancestors are added. */
  lemma RecreatedFacts(m: Tree, d: Path)
    requires WellFormed(m) && |d| > 0 && NoFileAlong(m, d)
    ensures WellFormed(Recreated(m, d))
    ensures forall k :: 0 < k <= |d| ==> IsDir(Recreated(m, d), d[..k])
    ensures forall p :: Under(d, p) ==> (p in Recreated(m, d) <==> p == d)
    ensures forall p :: !Under(d, p) && p in m ==> p in Recreated(m, d) && Recreated(m, d)[p] == m[p]
    ensures forall p :: !Under(d, p) && p in Recreated(m, d) && p !in m ==> Under(p, d)
  {
    ClearedFacts(m, d);
    WithDirsFacts(Cleared(m, d), d);
    assert d[..|d|] == d;
    forall p | Under(d, p) && p in Recreated(m, d) ensures p == d {
      assert Under(p, d);
    }
  }

  /**
    The tree after `d` was deleted (when present) and recreated with its two
    class subdirectories; the missing ancestors of `d` are created on the way.
   */
  function Provisioned(m: Tree, d: Path): Tree
  {
    Recreated(m, d)[d + ["true"] := Dir][d + ["false"] := Dir]
  }

  /** The recreated tree is well formed, and `d`, its ancestors and its two class subdirectories are directories. */
  lemma ProvisionedWellFormed(m: Tree, d: Path)
    requires WellFormed(m) && |d| > 0 && NoFileAlong(m, d)
    ensures WellFormed(Provisioned(m, d))
    ensures forall k :: 0 < k <= |d| ==> IsDir(Provisioned(m, d), d[..k])
    ensures IsDir(Provisioned(m, d), d + ["true"]) && IsDir(Provisioned(m, d), d + ["false"])
  {
    RecreatedFacts(m, d);
    var r := Recreated(m, d);
    assert d[..|d|] == d;
    assert Parent(d + ["true"]) == d && Parent(d + ["false"]) == d;
    assert (d + ["true"])[..|d|] == d && (d + ["false"])[..|d|] == d;
    AddDir(r, d + ["true"]);
    AddDir(r[d + ["true"] := Dir], d + ["false"]);
    forall k | 0 < k <= |d| ensures IsDir(Provisioned(m, d), d[..k]) {
      assert |d[..k]| < |d + ["true"]|;
    }
  }

  /** At or below `d` there is exactly `d` itself and its two class subdirectories. */
  lemma ProvisionedInside(m: Tree, d: Path)
    requires WellFormed(m) && |d| > 0 && NoFileAlong(m, d)
    ensures forall p :: Under(d, p) ==>
      (p in Provisioned(m, d) <==> p == d || p == d + ["true"] || p == d + ["false"])
  {
    RecreatedFacts(m, d);
    assert Under(d, d + ["true"]) && Under(d, d + ["false"]) by {
      assert (d + ["true"])[..|d|] == d && (d + ["false"])[..|d|] == d;
    }
  }

  /** Entries outside `d` are untouched; the only entries added outside `d` are its missing ancestors. */
  lemma ProvisionedOutside(m: Tree, d: Path)
    requires WellFormed(m) && |d| > 0 && NoFileAlong(m, d)
    ensures forall p :: !Under(d, p) && p in m ==> p in Provisioned(m, d) && Provisioned(m, d)[p] == m[p]
    ensures forall p :: !Under(d, p) && p in Provisioned(m, d) && p !in m ==> Under(p, d)
  {
    RecreatedFacts(m, d);
    assert Under(d, d + ["true"]) && Under(d, d + ["false"]) by {
      assert (d + ["true"])[..|d|] == d && (d + ["false"])[..|d|] == d;
    }
  }

  /**
    Whatever was there before, `d` ends up a directory whose only entries are
    the directories `true` and `false`, both empty. Entries outside `d` are
    untouched; the only entries added outside `d` are its missing ancestors.
   */
  lemma ProvisionedShape(m: Tree, d: Path)
    requires WellFormed(m) && |d| > 0 && NoFileAlong(m, d)
    ensures WellFormed(Provisioned(m, d))
    ensures forall k :: 0 < k <= |d| ==> IsDir(Provisioned(m, d), d[..k])
    ensures IsDir(Provisioned(m, d), d + ["true"]) && IsDir(Provisioned(m, d), d + ["false"])
    ensures forall p :: Under(d, p) ==>
      (p in Provisioned(m, d) <==> p == d || p == d + ["true"] || p == d + ["false"])
    ensures forall p :: !Under(d, p) && p in m ==> p in Provisioned(m, d) && Provisioned(m, d)[p] == m[p]
    ensures forall p :: !Under(d, p) && p in Provisioned(m, d) && p !in m ==> Under(p, d)
  {
    ProvisionedWellFormed(m, d);
    ProvisionedInside(m, d);
    ProvisionedOutside(m, d);
  }

  /** One name at a time: `d` holds `true` and `false` and nothing else, and they hold nothing. */
  lemma ProvisionedChild(m: Tree, d: Path, n: string)
    requires WellFormed(m) && |d| > 0 && NoFileAlong(m, d)
    ensures d + [n] in Provisioned(m, d) <==> n == "true" || n == "false"
    ensures d + [n] in Provisioned(m, d) ==> IsDir(Provisioned(m, d), d + [n])
    ensures d + ["true"] + [n] !in Provisioned(m, d) && d + ["false"] + [n] !in Provisioned(m, d)
  {
    ProvisionedInside(m, d);
    assert (d + [n])[..|d|] == d && (d + [n])[|d|] == n;
    assert (d + ["true"] + [n])[..|d|] == d;
    assert (d + ["false"] + [n])[..|d|] == d;
  }

  /** The listing view: `d` holds exactly `true` and `false`, and they hold nothing. */
  lemma ProvisionedListing(m: Tree, d: Path)
    requires WellFormed(m) && |d| > 0 && NoFileAlong(m, d)
    ensures Children(Provisioned(m, d), d) == {"true", "false"}
    ensures Subdirs(Provisioned(m, d), d) == {"true", "false"}
    ensures Children(Provisioned(m, d), d + ["true"]) == {}
    ensures Children(Provisioned(m, d), d + ["false"]) == {}
  {
    forall n {
      ProvisionedChild(m, d, n);
    }
  }

  /** `ProvisionedShape` for one path, with the kind of every entry at or above `d`. */
  lemma ProvisionedAt(m: Tree, d: Path, p: Path)
    requires WellFormed(m) && |d| > 0 && NoFileAlong(m, d)
    ensures Under(d, p) ==> (p in Provisioned(m, d) <==> p == d || p == d + ["true"] || p == d + ["false"])
    ensures Under(d, p) && p in Provisioned(m, d) ==> Provisioned(m, d)[p] == Dir
    ensures !Under(d, p) && p in m ==> p in Provisioned(m, d) && Provisioned(m, d)[p] == m[p]
    ensures !Under(d, p) && p in Provisioned(m, d) && p !in m ==> Under(p, d) && |p| > 0
    ensures Under(p, d) && |p| > 0 ==> IsDir(Provisioned(m, d), p)
  {
    ProvisionedWellFormed(m, d);
    ProvisionedInside(m, d);
    ProvisionedOutside(m, d);
    RecreatedFacts(m, d);
    if Under(p, d) && |p| > 0 {
      assert p == d[..|p|];
    }
  }

  /** Recreating twice is the same as recreating once. */
  lemma ProvisionIdempotent(m: Tree, d: Path)
    requires WellFormed(m) && |d| > 0 && NoFileAlong(m, d)
    ensures NoFileAlong(Provisioned(m, d), d)
    ensures Provisioned(Provisioned(m, d), d) == Provisioned(m, d)
  {
    ProvisionedWellFormed(m, d);
    var r := Provisioned(m, d);
    var r2 := Provisioned(r, d);
    forall p ensures (p in r2 <==> p in r) && (p in r ==> r2[p] == r[p]) {
      ProvisionedAt(m, d, p);
      ProvisionedAt(r, d, p);
    }
    assert r2 == r;
  }

  /** The conditional delete of `__create_data_directory` is allowed and leaves room for `os.makedirs(d)`. */
  lemma ClearStep(m: Tree, d: Path)
    requires WellFormed(m) && |d| > 0 && NoFileAlong(m, d)
    ensures d in m ==> IsDir(m, d)
    ensures WellFormed(Cleared(m, d)) && d !in Cleared(m, d) && NoFileAlong(Cleared(m, d), d)
  {
    ClearedFacts(m, d);
    assert d[..|d|] == d;
  }

  /** `os.makedirs(d + [c])` inside the recreated `d` is allowed and adds exactly that directory. */
  lemma ClassDirStep(m: Tree, d: Path, c: string)
    requires WellFormed(m) && |d| > 0 && forall k :: 0 < k <= |d| ==> IsDir(m, d[..k])
    requires d + [c] !in m
    ensures NoFileAlong(m, d + [c])
    ensures WithDirs(m, d + [c]) == m[d + [c] := Dir]
  {
    forall k | 0 < k <= |d| + 1 ensures !IsFile(m, (d + [c])[..k]) {
      if k <= |d| {
        assert (d + [c])[..k] == d[..k];
      } else {
        assert (d + [c])[..k] == d + [c];
      }
    }
    WithDirsChild(m, d, c);
  }

  /** The two class subdirectories are not yet there when `d` has just been recreated. */
  lemma RecreatedEmpty(m: Tree, d: Path)
    requires WellFormed(m) && |d| > 0 && NoFileAlong(m, d)
    ensures WellFormed(Recreated(m, d)) && forall k :: 0 < k <= |d| ==> IsDir(Recreated(m, d), d[..k])
    ensures forall k :: 0 < k <= |d| ==> IsDir(Recreated(m, d)[d + ["true"] := Dir], d[..k])
    ensures d + ["true"] !in Recreated(m, d) && d + ["false"] !in Recreated(m, d)[d + ["true"] := Dir]
    ensures WellFormed(Recreated(m, d)[d + ["true"] := Dir])
  {
    RecreatedFacts(m, d);
    assert (d + ["true"])[..|d|] == d && (d + ["false"])[..|d|] == d;
    assert d[..|d|] == d && Parent(d + ["true"]) == d;
    AddDir(Recreated(m, d), d + ["true"]);
    forall k | 0 < k <= |d| ensures IsDir(Recreated(m, d)[d + ["true"] := Dir], d[..k]) {
      assert |d[..k]| < |d + ["true"]|;
    }
  }

  /** `__create_data_directory(d, create_dir)`. */
  method CreateDataDirectory(fs: FileSystem, d: Path, createDir: bool)
    requires fs.Valid()
    requires createDir ==> |d| > 0 && NoFileAlong(fs.entries, d)
    modifies fs
    ensures fs.Valid()
    ensures createDir ==> fs.entries == Provisioned(old(fs.entries), d)
    ensures !createDir ==> fs.entries == old(fs.entries)
  {
    if createDir {
      ghost var m := fs.entries;
      ClearStep(m, d);
      RecreatedEmpty(m, d);
      if d in fs.entries {
        fs.RemoveTree(d);
      }
      assert fs.entries == Cleared(m, d);
      fs.MakeDirs(d);
      ClassDirStep(fs.entries, d, "true");
      fs.MakeDirs(d + ["true"]);
      ClassDirStep(fs.entries, d, "false");
      fs.MakeDirs(d + ["false"]);
    }
  }

  // ---------------------------------------------------------------------------
  // __make_not_marker_dir
  // ---------------------------------------------------------------------------

  /** `if os.path.exists(d): shutil.rmtree(d)` followed by `os.mkdir(d)`. */
  function Reset(m: Tree, d: Path): Tree
  {
    Cleared(m, d)[d := Dir]
  }

  /** A path that is not a file and sits in a directory has no file along it. */
  lemma NoFileAbove(m: Tree, d: Path)
    requires WellFormed(m) && |d| > 0 && !IsFile(m, d)
    requires |d| > 1 ==> IsDir(m, Parent(d))
    ensures NoFileAlong(m, d)
  {
    forall k | 0 < k <= |d| ensures !IsFile(m, d[..k]) {
      if k < |d| - 1 {
        AncestorsAreDirs(m, Parent(d), k);
        assert Parent(d)[..k] == d[..k];
      } else if k == |d| - 1 {
        assert Parent(d) == d[..k];
      } else {
        assert d[..k] == d;
      }
    }
  }

  /** What the reset of `d` needs: once `d` is cleared, it is absent and its parent is still a directory. */
  lemma ClearedForReset(m: Tree, d: Path)
    requires WellFormed(m) && |d| > 0 && !IsFile(m, d)
    requires |d| > 1 ==> IsDir(m, Parent(d))
    ensures WellFormed(Cleared(m, d)) && d !in Cleared(m, d)
    ensures |d| > 1 ==> IsDir(Cleared(m, d), Parent(d))
  {
    NoFileAbove(m, d);
    ClearedFacts(m, d);
    assert d[..|d|] == d;
    if |d| > 1 {
      assert !Under(d, Parent(d));
    }
  }

  /** A reset leaves `d` an empty directory and changes nothing outside it; one path at a time. */
  lemma ResetAt(m: Tree, d: Path, p: Path)
    requires WellFormed(m) && |d| > 0 && !IsFile(m, d)
    requires |d| > 1 ==> IsDir(m, Parent(d))
    ensures WellFormed(Reset(m, d)) && IsDir(Reset(m, d), d)
    ensures Under(d, p) ==> (p in Reset(m, d) <==> p == d)
    ensures !Under(d, p) ==> (p in Reset(m, d) <==> p in m)
    ensures !Under(d, p) && p in m ==> Reset(m, d)[p] == m[p]
  {
    NoFileAbove(m, d);
    ClearedFacts(m, d);
    ClearedForReset(m, d);
    AddDir(Cleared(m, d), d);
  }

  /** A path inside `d` is not inside any directory that neither contains nor lies inside `d`. */
  lemma NotNested(a: Path, d: Path, p: Path)
    requires Under(d, p) && !Under(a, d) && !Under(d, a)
    ensures !Under(a, p)
  {
    if |d| <= |a| <= |p| {
      assert p[..|a|][..|d|] == p[..|d|];
    } else if |a| < |d| {
      assert p[..|d|][..|a|] == p[..|a|];
    }
  }

  /** `a`, reset before `d`, neither contains nor lies inside `d`, and does not contain the parent of `d`. */
  ghost predicate Apart(a: Path, d: Path)
  {
    !Under(a, d) && !Under(d, a) && (|d| > 1 ==> !Under(a, Parent(d)))
  }

  /** Each directory of `ds` is apart from every directory reset before it. */
  ghost predicate Separate(ds: seq<Path>)
  {
    forall i, j {:trigger Apart(ds[i], ds[j])} :: 0 <= i < j < |ds| ==> Apart(ds[i], ds[j])
  }

  /** What the resets require of the tree: each directory can be recreated where it is. */
  ghost predicate Resettable(m: Tree, ds: seq<Path>)
  {
    && WellFormed(m)
    && forall i :: 0 <= i < |ds| ==>
         |ds[i]| > 0 && !IsFile(m, ds[i]) && (|ds[i]| > 1 ==> IsDir(m, Parent(ds[i])))
  }

  /** `p` lies inside none of the first `k` directories of `ds`. */
  ghost predicate Outside(ds: seq<Path>, k: nat, p: Path)
    requires k <= |ds|
  {
    forall i :: 0 <= i < k ==> !Under(ds[i], p)
  }

  /**
    The tree `r` is `m` after the first `k` directories of `ds` were reset:
    each of them is an empty directory and every path outside them is as in `m`.
   */
  ghost predicate ResetSoFar(m: Tree, ds: seq<Path>, k: nat, r: Tree)
    requires k <= |ds|
  {
    && WellFormed(r)
    && (forall i :: 0 <= i < k ==> IsDir(r, ds[i]))
    && (forall i, p :: 0 <= i < k && Under(ds[i], p) ==> (p in r <==> p == ds[i]))
    && (forall p :: Outside(ds, k, p) ==> (p in r <==> p in m))
    && (forall p :: Outside(ds, k, p) && p in m ==> r[p] == m[p])
  }

  /** Before the `k`-th reset, the `k`-th directory can be recreated where it is. */
  lemma ResetReady(m: Tree, ds: seq<Path>, k: nat, r: Tree)
    requires Resettable(m, ds) && Separate(ds) && k < |ds| && ResetSoFar(m, ds, k, r)
    ensures WellFormed(r) && |ds[k]| > 0 && !IsFile(r, ds[k])
    ensures |ds[k]| > 1 ==> IsDir(r, Parent(ds[k]))
  {
    var d := ds[k];
    forall i | 0 <= i < k ensures Apart(ds[i], d) {
    }
    assert Outside(ds, k, d);
    if |d| > 1 {
      assert Outside(ds, k, Parent(d));
    }
  }

  /** The `k`-th reset keeps the `i`-th directory, reset no later, a directory. */
  lemma ResetKeepsDir(m: Tree, ds: seq<Path>, k: nat, r: Tree, i: nat)
    requires Resettable(m, ds) && Separate(ds) && k < |ds| && ResetSoFar(m, ds, k, r)
    requires i <= k
    ensures IsDir(Reset(r, ds[k]), ds[i])
  {
    var d := ds[k];
    ResetReady(m, ds, k, r);
    if i < k {
      assert Apart(ds[i], d);
      assert IsDir(r, ds[i]);
    }
    ResetAt(r, d, ds[i]);
  }

  /** After the `k`-th reset, a path inside the `i`-th directory, reset no later, is present only as that directory. */
  lemma ResetKeepsEmpty(m: Tree, ds: seq<Path>, k: nat, r: Tree, i: nat, p: Path)
    requires Resettable(m, ds) && Separate(ds) && k < |ds| && ResetSoFar(m, ds, k, r)
    requires i <= k && Under(ds[i], p)
    ensures p in Reset(r, ds[k]) <==> p == ds[i]
  {
    var d := ds[k];
    ResetReady(m, ds, k, r);
    ResetAt(r, d, p);
    if i < k {
      assert Apart(ds[i], d);
      NotNested(d, ds[i], p);
    }
  }

  /** The `k`-th reset keeps the directories reset before it. */
  lemma ResetKeepsInside(m: Tree, ds: seq<Path>, k: nat, r: Tree)
    requires Resettable(m, ds) && Separate(ds) && k < |ds| && ResetSoFar(m, ds, k, r)
    ensures WellFormed(Reset(r, ds[k]))
    ensures forall i :: 0 <= i <= k ==> IsDir(Reset(r, ds[k]), ds[i])
    ensures forall i, p :: 0 <= i <= k && Under(ds[i], p) ==> (p in Reset(r, ds[k]) <==> p == ds[i])
  {
    ResetReady(m, ds, k, r);
    ResetAt(r, ds[k], ds[k]);
    forall i | 0 <= i <= k ensures IsDir(Reset(r, ds[k]), ds[i]) {
      ResetKeepsDir(m, ds, k, r, i);
    }
    forall i, p | 0 <= i <= k && Under(ds[i], p) ensures p in Reset(r, ds[k]) <==> p == ds[i] {
      ResetKeepsEmpty(m, ds, k, r, i, p);
    }
  }

  /** The `k`-th reset leaves every path outside it as it was. */
  lemma ResetKeepsOutside(m: Tree, ds: seq<Path>, k: nat, r: Tree)
    requires Resettable(m, ds) && Separate(ds) && k < |ds| && ResetSoFar(m, ds, k, r)
    ensures forall p :: Outside(ds, k + 1, p) ==> (p in Reset(r, ds[k]) <==> p in m)
    ensures forall p :: Outside(ds, k + 1, p) && p in m ==> Reset(r, ds[k])[p] == m[p]
  {
    ResetReady(m, ds, k, r);
    forall p | Outside(ds, k + 1, p)
      ensures (p in Reset(r, ds[k]) <==> p in m) && (p in m ==> Reset(r, ds[k])[p] == m[p])
    {
      ResetAt(r, ds[k], p);
    }
  }

  /** An entry directly inside one of separate directories is none of them. */
  lemma EntryNotReset(ds: seq<Path>, k: nat, n: string)
    requires Separate(ds) && k < |ds|
    ensures Under(ds[k], ds[k] + [n])
    ensures forall j :: 0 <= j < |ds| ==> ds[j] != ds[k] + [n]
  {
    var p := ds[k] + [n];
    assert p[..|ds[k]|] == ds[k];
    forall j | 0 <= j < |ds| ensures ds[j] != p {
      if j < k {
        assert Apart(ds[j], ds[k]);
      } else if k < j {
        assert Apart(ds[k], ds[j]);
      }
    }
  }

  /** The four pools are separate directories. */
  lemma PoolsSeparate()
    ensures Separate(Pools)
  {
    assert "train_data"[1] != "test_data"[1];
    assert "raw_data"[0] != "proc_data"[0];
    assert forall k :: 0 <= k < |Pools| ==> |Pools[k]| == 3;
    assert forall i, j :: 0 <= i < j < |Pools| ==> Pools[i] != Pools[j];
    forall i, j | 0 <= i < j < |Pools| ensures Apart(Pools[i], Pools[j]) {
      assert Pools[j][..3] == Pools[j] && Pools[i][..3] == Pools[i];
    }
  }

  /** Each pool can be recreated where it is when the two parents are directories and no pool is a file. */
  lemma PoolsResettable(m: Tree)
    requires WellFormed(m) && IsDir(m, RawData) && IsDir(m, ProcData)
    requires forall k :: 0 <= k < |Pools| ==> !IsFile(m, Pools[k])
    ensures Resettable(m, Pools)
  {
    assert Parent(TrainRaw) == RawData && Parent(TestRaw) == RawData;
    assert Parent(TrainProc) == ProcData && Parent(TestProc) == ProcData;
  }

  /** The loop of `__make_not_marker_dir`: each directory, in order, is deleted if present and created empty. */
  method ResetDirs(fs: FileSystem, ds: seq<Path>)
    requires fs.Valid() && Resettable(fs.entries, ds) && Separate(ds)
    modifies fs
    ensures fs.Valid() && ResetSoFar(old(fs.entries), ds, |ds|, fs.entries)
  {
    ghost var m := fs.entries;
    for k := 0 to |ds|
      invariant ResetSoFar(m, ds, k, fs.entries)
    {
      var d := ds[k];
      ResetReady(m, ds, k, fs.entries);
      ResetKeepsInside(m, ds, k, fs.entries);
      ResetKeepsOutside(m, ds, k, fs.entries);
      ClearedForReset(fs.entries, d);
      assert fs.Valid();
      if d in fs.entries {
        fs.RemoveTree(d);
      }
      fs.MakeDir(d);
    }
  }

  /**
    `__make_not_marker_dir`: every pool, in table order, is deleted if present
    and created empty. Each pool ends up an empty directory and every path
    outside the pools is as it was.
   */
  method MakeNotMarkerDir(fs: FileSystem)
    requires fs.Valid() && IsDir(fs.entries, RawData) && IsDir(fs.entries, ProcData)
    requires forall k :: 0 <= k < |Pools| ==> !IsFile(fs.entries, Pools[k])
    modifies fs
    ensures fs.Valid()
    ensures forall k :: 0 <= k < |Pools| ==> IsDir(fs.entries, Pools[k])
    ensures forall k, p :: 0 <= k < |Pools| && Under(Pools[k], p) ==> (p in fs.entries <==> p == Pools[k])
    ensures forall p :: Outside(Pools, |Pools|, p) ==> (p in fs.entries <==> p in old(fs.entries))
    ensures forall p :: Outside(Pools, |Pools|, p) && p in old(fs.entries) ==> fs.entries[p] == old(fs.entries)[p]
  {
    PoolsSeparate();
    PoolsResettable(fs.entries);
    ResetDirs(fs, Pools);
  }
}
