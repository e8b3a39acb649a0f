/**
  The three public operations of the dataset stager (`FileHandler`): preparing
  the training images, distributing a range of them into a dataset directory,
  and adding test images to a dataset directory. Each runs the steps of the
  other modules in a fixed order over the constant path table.
 */
module Pipeline {
  import opened Names
  import opened Disk
  import opened Paths
  import opened Unzip
  import opened Cropping
  import opened Distribution
  import opened Provisioning

  /** Every entry outside the four pools is as in `m0`. */
  ghost predicate PoolsOnly(m0: Tree, m: Tree)
  {
    forall p :: Outside(Pools, |Pools|, p) ==> (p in m <==> p in m0) && (p in m0 ==> m[p] == m0[p])
  }

  /** `d` is a directory with nothing inside it. */
  ghost predicate Empty(m: Tree, d: Path)
  {
    IsDir(m, d) && forall n :: d + [n] !in m
  }

  /** The names a pass got through: all of them, or those before the first unreadable image. */
  function Processed(listing: seq<string>, r: CropOutcome): (names: seq<string>)
    ensures r.Unreadable? && r.index <= |listing| ==> names == listing[..r.index]
    ensures r.Done? ==> names == listing
  {
    if r.Unreadable? && r.index <= |listing| then listing[..r.index] else listing
  }

  /** Every processed name of `names` is a file of `proc` holding the crop of its raw image in `raw`. */
  ghost predicate HoldsCrops(m: Tree, raw: Path, proc: Path, names: seq<string>, crop: Bytes -> Bytes)
  {
    forall n :: n in Outputs(names) ==>
      proc + [n] in m && m[proc + [n]] == File(crop(DataAt(m, raw + [Outputs(names)[n]])))
  }

  /** The archive directories lie outside the four pools. */
  lemma ZipsOutsidePools(n: string)
    ensures Outside(Pools, |Pools|, TrainZip + [n]) && Outside(Pools, |Pools|, TestZip + [n])
    ensures Outside(Pools, |Pools|, TrainZip) && Outside(Pools, |Pools|, TestZip)
  {
    forall i, z | 0 <= i < |Pools| && z in {TrainZip, TestZip}
      ensures !Under(Pools[i], z + [n]) && !Under(Pools[i], z)
    {
      assert (z + [n])[..|Pools[i]|][1] == z[1];
    }
  }

  /** A path directly inside one pool is inside no other pool. */
  lemma PoolEntry(k: int, n: string)
    requires 0 <= k < |Pools|
    ensures Under(Pools[k], Pools[k] + [n]) && Pools[k] + [n] != Pools[k]
    ensures forall j :: 0 <= j < |Pools| && j != k ==> !Under(Pools[j], Pools[k] + [n])
    ensures forall j :: 0 <= j < |Pools| && j != k ==> |Pools[k] + [n]| != |Pools[j]| + 1 || (Pools[k] + [n])[..|Pools[j]|] != Pools[j]
  {
    assert (Pools[k] + [n])[..|Pools[k]|] == Pools[k];
  }

  /** Outside every pool is, in particular, not directly inside a pool. */
  lemma OutsideNotIn(p: Path, k: int)
    requires 0 <= k < |Pools| && Outside(Pools, |Pools|, p)
    ensures |p| != |Pools[k]| + 1 || p[..|Pools[k]|] != Pools[k]
  {
  }

  /** What `__make_not_marker_dir` guarantees: the pools are empty directories, and nothing else changed. */
  ghost predicate PoolsReset(m0: Tree, m: Tree)
  {
    && WellFormed(m)
    && (forall k :: 0 <= k < |Pools| ==> IsDir(m, Pools[k]))
    && (forall k, p :: 0 <= k < |Pools| && Under(Pools[k], p) ==> (p in m <==> p == Pools[k]))
    && PoolsOnly(m0, m)
  }

  /** Right after the reset: the pools are empty directories and the archive directories are as before. */
  lemma AfterReset(m0: Tree, m1: Tree, n: string)
    requires PoolsReset(m0, m1)
    ensures TrainZip + [n] in m1 <==> TrainZip + [n] in m0
    ensures TrainZip + [n] in m0 ==> m1[TrainZip + [n]] == m0[TrainZip + [n]]
    ensures TestZip + [n] in m1 <==> TestZip + [n] in m0
    ensures TestZip + [n] in m0 ==> m1[TestZip + [n]] == m0[TestZip + [n]]
    ensures IsDir(m1, TrainZip) <==> IsDir(m0, TrainZip)
    ensures IsDir(m1, TestZip) <==> IsDir(m0, TestZip)
    ensures Empty(m1, TrainRaw) && Empty(m1, TestRaw) && Empty(m1, TrainProc) && Empty(m1, TestProc)
  {
    ZipsOutsidePools(n);
    assert Pools[0] == TrainRaw && Pools[1] == TestRaw && Pools[2] == TrainProc && Pools[3] == TestProc;
    forall k, x | 0 <= k < |Pools| ensures Pools[k] + [x] !in m1 {
      PoolEntry(k, x);
    }
  }

  /**
    Unpacking the archives of `zip` into the pool `raw` and then cropping the
    names `names` of `raw` into the pool `proc`, entry by entry in the two pools.
   */
  lemma StagedAt(m1: Tree, zip: Path, raw: Path, proc: Path, archives: seq<string>, unpack: Bytes -> seq<Member>,
                 names: seq<string>, crop: Bytes -> Bytes, n: string)
    requires |raw| == |proc| && raw != proc
    ensures var m3 := Saved(Unzipped(m1, zip, raw, archives, unpack), raw, proc, names, crop);
      && (raw + [n] in m3 <==> raw + [n] in m1 || n in ArchiveNames(m1, zip, archives, unpack))
      && (proc + [n] in m3 <==> proc + [n] in m1 || n in Outputs(names))
  {
    var m2 := Unzipped(m1, zip, raw, archives, unpack);
    UnzippedAt(m1, zip, raw, archives, unpack, n);
    assert (proc + [n])[..|raw|] == proc;
    UnzippedElsewhere(m1, zip, raw, archives, unpack, proc + [n]);
    SavedRaw(m2, raw, proc, names, crop, n);
    SavedAt(m2, raw, proc, names, crop, n);
  }

  /** After unpacking and cropping, every processed name holds the crop of its raw image. */
  lemma StagedCrops(m1: Tree, zip: Path, raw: Path, proc: Path, archives: seq<string>, unpack: Bytes -> seq<Member>,
                    names: seq<string>, crop: Bytes -> Bytes)
    requires |raw| == |proc| && raw != proc
    ensures HoldsCrops(Saved(Unzipped(m1, zip, raw, archives, unpack), raw, proc, names, crop), raw, proc, names, crop)
  {
    var m2 := Unzipped(m1, zip, raw, archives, unpack);
    forall n | n in Outputs(names)
      ensures var m3 := Saved(m2, raw, proc, names, crop);
        proc + [n] in m3 && m3[proc + [n]] == File(crop(DataAt(m3, raw + [Outputs(names)[n]])))
    {
      SavedAt(m2, raw, proc, names, crop, n);
      SavedRaw(m2, raw, proc, names, crop, Outputs(names)[n]);
    }
  }

  /** Unpacking and cropping touch nothing but the entries directly inside the two pools. */
  lemma StagedElsewhere(m1: Tree, zip: Path, raw: Path, proc: Path, archives: seq<string>, unpack: Bytes -> seq<Member>,
                        names: seq<string>, crop: Bytes -> Bytes, p: Path)
    requires |p| != |raw| + 1 || p[..|raw|] != raw
    requires |p| != |proc| + 1 || p[..|proc|] != proc
    ensures var m3 := Saved(Unzipped(m1, zip, raw, archives, unpack), raw, proc, names, crop);
      (p in m3 <==> p in m1) && (p in m1 ==> m3[p] == m1[p])
  {
    UnzippedElsewhere(m1, zip, raw, archives, unpack, p);
    SavedElsewhere(Unzipped(m1, zip, raw, archives, unpack), raw, proc, names, crop, p);
  }

  /** The raw pool after unpacking into it: what it held and the files of the archives, all regular files. */
  lemma UnpackedFiles(m1: Tree, zip: Path, raw: Path, archives: seq<string>, unpack: Bytes -> seq<Member>, n: string)
    requires NoSubdirs(m1, raw)
    ensures IsFile(Unzipped(m1, zip, raw, archives, unpack), raw + [n]) <==>
      raw + [n] in m1 || n in ArchiveNames(m1, zip, archives, unpack)
  {
    UnzippedAt(m1, zip, raw, archives, unpack, n);
  }

  /**
    `train_data_preparation()`: the pools are reset, the training archives are
    unpacked into the raw training pool, and its images are cropped into the
    processed training pool.
   */
  method TrainDataPreparation(fs: FileSystem, unpack: Bytes -> seq<Member>, canOpen: Bytes -> bool, crop: Bytes -> Bytes)
    returns (archives: seq<string>, listing: seq<string>, r: CropOutcome)
    requires fs.Valid() && IsDir(fs.entries, RawData) && IsDir(fs.entries, ProcData)
    requires forall k :: 0 <= k < |Pools| ==> !IsFile(fs.entries, Pools[k])
    requires NoSubdirs(fs.entries, TrainZip)
    modifies fs
    ensures fs.Valid()
    ensures Distinct(archives) && forall n :: n in archives <==> IsFile(old(fs.entries), TrainZip + [n])
    ensures Distinct(listing) && forall n :: n in listing <==> n in ArchiveNames(old(fs.entries), TrainZip, archives, unpack)
    ensures forall n :: TrainRaw + [n] in fs.entries <==> n in listing
    ensures forall n :: TrainProc + [n] in fs.entries <==> n in Outputs(Processed(listing, r))
    ensures HoldsCrops(fs.entries, TrainRaw, TrainProc, Processed(listing, r), crop)
    ensures r.Unreadable? ==> r.index < |listing| && !canOpen(DataAt(fs.entries, TrainRaw + [listing[r.index]]))
    ensures r.Unreadable? ==> OpensFirst(fs.entries, TrainRaw, listing, r.index, canOpen)
    ensures r.Done? ==> OpensFirst(fs.entries, TrainRaw, listing, |listing|, canOpen)
    ensures Empty(fs.entries, TestRaw) && Empty(fs.entries, TestProc)
    ensures PoolsOnly(old(fs.entries), fs.entries)
  {
    ghost var m0 := fs.entries;
    MakeNotMarkerDir(fs);
    ghost var m1 := fs.entries;
    assert PoolsReset(m0, m1);
    forall n ensures DataAt(m1, TrainZip + [n]) == DataAt(m0, TrainZip + [n])
      ensures IsFile(m1, TrainZip + [n]) <==> IsFile(m0, TrainZip + [n])
      ensures TrainZip + [n] in m1 ==> m1[TrainZip + [n]].File?
    {
      AfterReset(m0, m1, n);
    }
    AfterReset(m0, m1, "");
    archives := UnzipData(fs, TrainZip, TrainRaw, unpack);
    ghost var m2 := fs.entries;
    assert IsDir(m2, TrainProc) && NoSubdirs(m2, TrainProc) by {
      UnzippedElsewhere(m1, TrainZip, TrainRaw, archives, unpack, TrainProc);
      forall n ensures TrainProc + [n] !in m2 {
        assert (TrainProc + [n])[..|TrainRaw|] != TrainRaw by {
          assert (TrainProc + [n])[..|TrainRaw|][1] == "proc_data";
        }
        UnzippedElsewhere(m1, TrainZip, TrainRaw, archives, unpack, TrainProc + [n]);
      }
    }
    listing, r := CropImages(fs, TrainRaw, TrainProc, canOpen, crop);
    ghost var names := Processed(listing, r);
    assert fs.entries == Saved(m2, TrainRaw, TrainProc, names, crop);
    TrainRawAfter(m0, m1, archives, unpack, listing, names, crop);
    TrainProcAfter(m0, m1, archives, unpack, names, crop);
    TrainTestPoolsAfter(m0, m1, archives, unpack, names, crop);
    StagedOutside(m0, m1, TrainZip, TrainRaw, TrainProc, archives, unpack, names, crop);
    if r.Unreadable? {
      SavedRaw(m2, TrainRaw, TrainProc, names, crop, listing[r.index]);
    }
    OpensFirstSaved(m2, TrainRaw, TrainProc, names, crop, listing, if r.Done? then |listing| else r.index, canOpen);
  }

  /** `TrainDataPreparation`: the raw training pool holds exactly the files of the training archives. */
  lemma TrainRawAfter(m0: Tree, m1: Tree, archives: seq<string>, unpack: Bytes -> seq<Member>,
                      listing: seq<string>, names: seq<string>, crop: Bytes -> Bytes)
    requires PoolsReset(m0, m1)
    requires forall j :: 0 <= j < |archives| ==> DataAt(m1, TrainZip + [archives[j]]) == DataAt(m0, TrainZip + [archives[j]])
    requires forall n :: n in listing <==> IsFile(Unzipped(m1, TrainZip, TrainRaw, archives, unpack), TrainRaw + [n])
    ensures forall n :: n in listing <==> n in ArchiveNames(m0, TrainZip, archives, unpack)
    ensures forall n ::
      (TrainRaw + [n] in Saved(Unzipped(m1, TrainZip, TrainRaw, archives, unpack), TrainRaw, TrainProc, names, crop) <==> n in listing)
  {
    SameArchiveNames(m0, m1, TrainZip, archives, unpack);
    forall n ensures (n in listing <==> n in ArchiveNames(m1, TrainZip, archives, unpack))
      && (TrainRaw + [n] in Saved(Unzipped(m1, TrainZip, TrainRaw, archives, unpack), TrainRaw, TrainProc, names, crop)
          <==> n in ArchiveNames(m1, TrainZip, archives, unpack))
    {
      AfterReset(m0, m1, n);
      UnpackedFiles(m1, TrainZip, TrainRaw, archives, unpack, n);
      StagedAt(m1, TrainZip, TrainRaw, TrainProc, archives, unpack, names, crop, n);
    }
  }

  /** `TrainDataPreparation`: the processed training pool holds exactly the crops of the images processed. */
  lemma TrainProcAfter(m0: Tree, m1: Tree, archives: seq<string>, unpack: Bytes -> seq<Member>,
                       names: seq<string>, crop: Bytes -> Bytes)
    requires PoolsReset(m0, m1)
    ensures var m3 := Saved(Unzipped(m1, TrainZip, TrainRaw, archives, unpack), TrainRaw, TrainProc, names, crop);
      && (forall n :: TrainProc + [n] in m3 <==> n in Outputs(names))
      && HoldsCrops(m3, TrainRaw, TrainProc, names, crop)
  {
    forall n ensures TrainProc + [n] in Saved(Unzipped(m1, TrainZip, TrainRaw, archives, unpack), TrainRaw, TrainProc, names, crop)
      <==> n in Outputs(names)
    {
      AfterReset(m0, m1, n);
      StagedAt(m1, TrainZip, TrainRaw, TrainProc, archives, unpack, names, crop, n);
    }
    StagedCrops(m1, TrainZip, TrainRaw, TrainProc, archives, unpack, names, crop);
  }

  /** `TrainDataPreparation`: the test pools are left empty. */
  lemma TrainTestPoolsAfter(m0: Tree, m1: Tree, archives: seq<string>, unpack: Bytes -> seq<Member>,
                            names: seq<string>, crop: Bytes -> Bytes)
    requires PoolsReset(m0, m1)
    ensures var m3 := Saved(Unzipped(m1, TrainZip, TrainRaw, archives, unpack), TrainRaw, TrainProc, names, crop);
      Empty(m3, TestRaw) && Empty(m3, TestProc)
  {
    AfterReset(m0, m1, "");
    forall n ensures TestRaw + [n] !in Saved(Unzipped(m1, TrainZip, TrainRaw, archives, unpack), TrainRaw, TrainProc, names, crop)
      ensures TestProc + [n] !in Saved(Unzipped(m1, TrainZip, TrainRaw, archives, unpack), TrainRaw, TrainProc, names, crop)
    {
      PoolEntry(1, n);
      PoolEntry(3, n);
      AfterReset(m0, m1, n);
      StagedElsewhere(m1, TrainZip, TrainRaw, TrainProc, archives, unpack, names, crop, TestRaw + [n]);
      StagedElsewhere(m1, TrainZip, TrainRaw, TrainProc, archives, unpack, names, crop, TestProc + [n]);
    }
    StagedElsewhere(m1, TrainZip, TrainRaw, TrainProc, archives, unpack, names, crop, TestRaw);
    StagedElsewhere(m1, TrainZip, TrainRaw, TrainProc, archives, unpack, names, crop, TestProc);
  }

  /** Unpacking into one pool and cropping into another changes nothing outside the pools. */
  lemma StagedOutside(m0: Tree, m1: Tree, zip: Path, raw: Path, proc: Path, archives: seq<string>,
                      unpack: Bytes -> seq<Member>, names: seq<string>, crop: Bytes -> Bytes)
    requires raw in Pools && proc in Pools && PoolsOnly(m0, m1)
    ensures PoolsOnly(m0, Saved(Unzipped(m1, zip, raw, archives, unpack), raw, proc, names, crop))
  {
    var m3 := Saved(Unzipped(m1, zip, raw, archives, unpack), raw, proc, names, crop);
    var i :| 0 <= i < |Pools| && Pools[i] == raw;
    var j :| 0 <= j < |Pools| && Pools[j] == proc;
    forall p | Outside(Pools, |Pools|, p) ensures (p in m3 <==> p in m0) && (p in m0 ==> m3[p] == m0[p]) {
      OutsideNotIn(p, i);
      OutsideNotIn(p, j);
      StagedElsewhere(m1, zip, raw, proc, archives, unpack, names, crop, p);
    }
  }

  /** A path directly inside `src` lies under `d` only if `src` and `d` overlap. */
  lemma ChildApart(d: Path, src: Path, n: string)
    requires !Under(d, src) && !Under(src, d)
    ensures !Under(d, src + [n]) && !Under(src + [n], d)
  {
    if |d| <= |src| {
      assert (src + [n])[..|d|] == src[..|d|];
    }
    if |src| < |d| {
      assert d[..|src|] == d[..|src| + 1][..|src|];
    }
  }

  /**
    A freshly provisioned dataset directory `d`, apart from the pool `src`, is
    ready for a distribution from `src`: both class directories are empty, and
    the pool is as it was.
   */
  lemma ProvisionedLayout(m0: Tree, d: Path, src: Path)
    requires WellFormed(m0) && |d| > 0 && NoFileAlong(m0, d) && NoSubdirs(m0, src)
    requires !Under(d, src) && !Under(src, d)
    ensures Layout(Provisioned(m0, d), src, d) && SamePool(m0, Provisioned(m0, d), src)
    ensures forall n :: d + ["true"] + [n] !in Provisioned(m0, d) && d + ["false"] + [n] !in Provisioned(m0, d)
    ensures Children(Provisioned(m0, d), d) == {"true", "false"}
  {
    var m1 := Provisioned(m0, d);
    ProvisionedWellFormed(m0, d);
    ProvisionedListing(m0, d);
    ProvisionedAt(m0, d, d + ["true"]);
    ProvisionedAt(m0, d, d + ["false"]);
    forall n ensures (src + [n] in m1 <==> src + [n] in m0) && (src + [n] in m0 ==> m1[src + [n]] == m0[src + [n]]) {
      ChildApart(d, src, n);
      ProvisionedAt(m0, d, src + [n]);
    }
    assert (d + ["true"])[..|d|] == d && (d + ["false"])[..|d|] == d;
  }

  /**
    The tree after the dataset directory `d` was (when `create` holds)
    provisioned afresh and the images `[lo, hi)` of the pool `src` were
    distributed into it.
   */
  ghost function Dataset(m: Tree, d: Path, create: bool, src: Path, lo: int, hi: int): Tree
  {
    Distributed(if create then Provisioned(m, d) else m, src, d, DataClasses, lo, hi)
  }

  /** Filling the dataset directory `d` changes nothing that is not under `d`, bar creating the ancestors of `d`. */
  lemma DatasetOutside(m: Tree, d: Path, create: bool, src: Path, lo: int, hi: int, p: Path)
    requires WellFormed(m) && |d| > 0 && NoFileAlong(m, d)
    requires src != d + ["true"] && src != d + ["false"] && !Under(d, p)
    ensures p in m ==> p in Dataset(m, d, create, src, lo, hi) && Dataset(m, d, create, src, lo, hi)[p] == m[p]
    ensures p in Dataset(m, d, create, src, lo, hi) && p !in m ==> Under(p, d)
  {
    ProvisionedAt(m, d, p);
    DistributedElsewhere(if create then Provisioned(m, d) else m, src, d, lo, hi, p);
  }

  /** Filling the dataset directory `d` leaves every pool apart from `d` as it was. */
  lemma DatasetKeepsPool(m: Tree, d: Path, create: bool, src: Path, lo: int, hi: int, pool: Path)
    requires WellFormed(m) && |d| > 0 && NoFileAlong(m, d)
    requires src != d + ["true"] && src != d + ["false"] && !Under(d, pool) && !Under(pool, d)
    ensures SamePool(m, Dataset(m, d, create, src, lo, hi), pool)
  {
    forall n ensures (pool + [n] in Dataset(m, d, create, src, lo, hi) <==> pool + [n] in m)
      && (pool + [n] in m ==> Dataset(m, d, create, src, lo, hi)[pool + [n]] == m[pool + [n]])
    {
      ChildApart(d, pool, n);
      DatasetOutside(m, d, create, src, lo, hi, pool + [n]);
    }
  }

  /**
    A class directory of `d`, once filled: what it held before (unless `d` was
    provisioned afresh) and the copies of the images of its class.
   */
  lemma DatasetClassDir(m: Tree, d: Path, create: bool, src: Path, lo: int, hi: int, c: Label, n: string)
    requires WellFormed(m) && |d| > 0 && NoFileAlong(m, d) && NoSubdirs(m, src)
    requires !Under(d, src) && !Under(src, d)
    ensures var m' := Dataset(m, d, create, src, lo, hi);
      d + [c.Marker()] + [n] in m' <==>
        (!create && d + [c.Marker()] + [n] in m) || Target(m', src, d + [c.Marker()], c, lo, hi, d + [c.Marker()] + [n])
  {
    ProvisionedLayout(m, d, src);
    assert c.Marker() == "true" || c.Marker() == "false";
    assert (d + ["true"])[..|d|] == d && (d + ["false"])[..|d|] == d;
    DistributedNew(if create then Provisioned(m, d) else m, src, d, lo, hi, c, n);
  }

  /** The entries of a freshly provisioned `d` are still its two class directories after the distribution. */
  lemma DatasetChildren(m: Tree, d: Path, src: Path, lo: int, hi: int)
    requires WellFormed(m) && |d| > 0 && NoFileAlong(m, d) && NoSubdirs(m, src)
    requires !Under(d, src) && !Under(src, d)
    ensures Children(Dataset(m, d, true, src, lo, hi), d) == {"true", "false"}
  {
    ProvisionedLayout(m, d, src);
    forall n ensures d + [n] in Dataset(m, d, true, src, lo, hi) <==> d + [n] in Provisioned(m, d) {
      DistributedElsewhere(Provisioned(m, d), src, d, lo, hi, d + [n]);
    }
  }

  /**
    `data_processing(dir_name, start_index, end_index)`: the dataset directory
    is created afresh, and the processed training images `[start_index,
    end_index)` of both classes are copied into its class directories.
   */
  method DataProcessing(fs: FileSystem, dirName: Path, start: int, end: int) returns (notFound: seq<string>, warned: bool)
    requires fs.Valid() && |dirName| > 0 && NoFileAlong(fs.entries, dirName)
    requires NoSubdirs(fs.entries, TrainProc) && !Under(dirName, TrainProc) && !Under(TrainProc, dirName)
    modifies fs
    ensures fs.Valid()
    ensures notFound == Reported(fs.entries, TrainProc, DataClasses, start, end) && (warned <==> notFound != [])
    ensures forall c: Label, i: int :: FileName(c, i) in notFound <==> start <= i < end && !Present(fs.entries, TrainProc, c, i)
    ensures forall c: Label, i: int :: start <= i < end && Present(fs.entries, TrainProc, c, i) ==>
      && dirName + [c.Marker()] + [FileName(c, i)] in fs.entries
      && fs.entries[dirName + [c.Marker()] + [FileName(c, i)]] == fs.entries[TrainProc + [FileName(c, i)]]
    ensures forall c: Label, n: string :: dirName + [c.Marker()] + [n] in fs.entries <==>
      Target(fs.entries, TrainProc, dirName + [c.Marker()], c, start, end, dirName + [c.Marker()] + [n])
    ensures Children(fs.entries, dirName) == {"true", "false"}
    ensures SamePool(old(fs.entries), fs.entries, TrainProc)
    ensures forall p :: !Under(dirName, p) && p in old(fs.entries) ==> p in fs.entries && fs.entries[p] == old(fs.entries)[p]
    ensures forall p :: !Under(dirName, p) && p in fs.entries && p !in old(fs.entries) ==> Under(p, dirName)
  {
    ghost var m0 := fs.entries;
    CreateDataDirectory(fs, dirName, true);
    ProvisionedLayout(m0, dirName, TrainProc);
    ghost var m1 := fs.entries;
    notFound, warned := DataDistribution(fs, start, end, TrainProc, dirName);
    assert fs.entries == Dataset(m0, dirName, true, TrainProc, start, end);
    ReportedAgain(m1, TrainProc, dirName, start, end);
    forall c: Label, i: int ensures (FileName(c, i) in notFound <==> start <= i < end && !Present(fs.entries, TrainProc, c, i))
      && (start <= i < end && Present(fs.entries, TrainProc, c, i) ==>
        && dirName + [c.Marker()] + [FileName(c, i)] in fs.entries
        && fs.entries[dirName + [c.Marker()] + [FileName(c, i)]] == fs.entries[TrainProc + [FileName(c, i)]])
    {
      DistributionResult(m1, TrainProc, dirName, start, end, c, i);
    }
    forall c: Label, n: string ensures dirName + [c.Marker()] + [n] in fs.entries <==>
      Target(fs.entries, TrainProc, dirName + [c.Marker()], c, start, end, dirName + [c.Marker()] + [n])
    {
      DatasetClassDir(m0, dirName, true, TrainProc, start, end, c, n);
    }
    DatasetChildren(m0, dirName, TrainProc, start, end);
    forall n ensures (TrainProc + [n] in fs.entries <==> TrainProc + [n] in m0)
      && (TrainProc + [n] in m0 ==> fs.entries[TrainProc + [n]] == m0[TrainProc + [n]])
    {
      DistributionKeepsPool(m1, TrainProc, dirName, start, end, n);
    }
    forall p | !Under(dirName, p)
      ensures (p in m0 ==> p in fs.entries && fs.entries[p] == m0[p]) && (p in fs.entries && p !in m0 ==> Under(p, dirName))
    {
      DatasetOutside(m0, dirName, true, TrainProc, start, end, p);
    }
  }

  /** Unpacking into `raw` and cropping into `proc` writes only regular files into `proc`. */
  lemma StagedNoSubdirs(m0: Tree, zip: Path, raw: Path, proc: Path, archives: seq<string>, unpack: Bytes -> seq<Member>,
                        names: seq<string>, crop: Bytes -> Bytes)
    requires |raw| == |proc| && raw != proc && NoSubdirs(m0, proc)
    ensures NoSubdirs(Saved(Unzipped(m0, zip, raw, archives, unpack), raw, proc, names, crop), proc)
  {
    forall n | proc + [n] in Saved(Unzipped(m0, zip, raw, archives, unpack), raw, proc, names, crop)
      ensures Saved(Unzipped(m0, zip, raw, archives, unpack), raw, proc, names, crop)[proc + [n]].File?
    {
      assert (proc + [n])[..|raw|] == proc;
      UnzippedElsewhere(m0, zip, raw, archives, unpack, proc + [n]);
      SavedAt(Unzipped(m0, zip, raw, archives, unpack), raw, proc, names, crop, n);
    }
  }

  /** A path apart from both pools is not changed by unpacking and cropping, nor is any path along it. */
  lemma StagedAlong(m0: Tree, zip: Path, raw: Path, proc: Path, archives: seq<string>, unpack: Bytes -> seq<Member>,
                    names: seq<string>, crop: Bytes -> Bytes, d: Path)
    requires NoFileAlong(m0, d) && !Under(raw, d) && !Under(proc, d)
    ensures NoFileAlong(Saved(Unzipped(m0, zip, raw, archives, unpack), raw, proc, names, crop), d)
  {
    forall k | 0 < k <= |d| ensures !IsFile(Saved(Unzipped(m0, zip, raw, archives, unpack), raw, proc, names, crop), d[..k]) {
      var q := d[..k];
      if |q| == |raw| + 1 {
        assert d[..|raw|] == q[..|raw|];
      }
      if |q| == |proc| + 1 {
        assert d[..|proc|] == q[..|proc|];
      }
      StagedElsewhere(m0, zip, raw, proc, archives, unpack, names, crop, q);
    }
  }

  /** The class directories of a dataset directory apart from a pool, and their entries, are not directly inside it. */
  lemma ClassDirApart(d: Path, pool: Path, c: Label, n: string)
    requires !Under(d, pool) && !Under(pool, d)
    ensures |d + [c.Marker()]| != |pool| + 1 || (d + [c.Marker()])[..|pool|] != pool
    ensures |d + [c.Marker()] + [n]| != |pool| + 1 || (d + [c.Marker()] + [n])[..|pool|] != pool
  {
    if |d| == |pool| {
      assert (d + [c.Marker()])[..|pool|] == d;
    }
    if |d| + 1 == |pool| {
      assert (d + [c.Marker()] + [n])[..|d|] == d;
    }
  }

  /** Unpacking and cropping into pools apart from `d` leave the class directories of `d` as they were. */
  lemma StagedClassDirs(m0: Tree, zip: Path, raw: Path, proc: Path, archives: seq<string>, unpack: Bytes -> seq<Member>,
                        names: seq<string>, crop: Bytes -> Bytes, d: Path, c: Label, n: string)
    requires !Under(d, raw) && !Under(raw, d) && !Under(d, proc) && !Under(proc, d)
    ensures var m2 := Saved(Unzipped(m0, zip, raw, archives, unpack), raw, proc, names, crop);
      && (d + [c.Marker()] in m2 <==> d + [c.Marker()] in m0)
      && (d + [c.Marker()] in m0 ==> m2[d + [c.Marker()]] == m0[d + [c.Marker()]])
      && (d + [c.Marker()] + [n] in m2 <==> d + [c.Marker()] + [n] in m0)
      && (d + [c.Marker()] + [n] in m0 ==> m2[d + [c.Marker()] + [n]] == m0[d + [c.Marker()] + [n]])
  {
    ClassDirApart(d, raw, c, n);
    ClassDirApart(d, proc, c, n);
    StagedElsewhere(m0, zip, raw, proc, archives, unpack, names, crop, d + [c.Marker()]);
    StagedElsewhere(m0, zip, raw, proc, archives, unpack, names, crop, d + [c.Marker()] + [n]);
  }

  /** `AddingTestData`: the test pools after unpacking and cropping, with what they held before. */
  lemma TestPoolsAfter(m0: Tree, archives: seq<string>, unpack: Bytes -> seq<Member>,
                       listing: seq<string>, names: seq<string>, crop: Bytes -> Bytes)
    requires NoSubdirs(m0, TestRaw)
    requires forall n :: n in listing <==> IsFile(Unzipped(m0, TestZip, TestRaw, archives, unpack), TestRaw + [n])
    ensures forall n :: n in listing <==> TestRaw + [n] in m0 || n in ArchiveNames(m0, TestZip, archives, unpack)
    ensures var m2 := Saved(Unzipped(m0, TestZip, TestRaw, archives, unpack), TestRaw, TestProc, names, crop);
      && (forall n :: TestRaw + [n] in m2 <==> n in listing)
      && (forall n :: TestProc + [n] in m2 <==> TestProc + [n] in m0 || n in Outputs(names))
      && HoldsCrops(m2, TestRaw, TestProc, names, crop)
  {
    forall n ensures (n in listing <==> TestRaw + [n] in m0 || n in ArchiveNames(m0, TestZip, archives, unpack))
      && (TestRaw + [n] in Saved(Unzipped(m0, TestZip, TestRaw, archives, unpack), TestRaw, TestProc, names, crop)
          <==> TestRaw + [n] in m0 || n in ArchiveNames(m0, TestZip, archives, unpack))
      && (TestProc + [n] in Saved(Unzipped(m0, TestZip, TestRaw, archives, unpack), TestRaw, TestProc, names, crop)
          <==> TestProc + [n] in m0 || n in Outputs(names))
    {
      UnpackedFiles(m0, TestZip, TestRaw, archives, unpack, n);
      StagedAt(m0, TestZip, TestRaw, TestProc, archives, unpack, names, crop, n);
    }
    StagedCrops(m0, TestZip, TestRaw, TestProc, archives, unpack, names, crop);
  }

  /** The crops a pool holds stay the crops of the raw images as long as both pools stay as they were. */
  lemma HoldsCropsKept(m: Tree, m': Tree, raw: Path, proc: Path, names: seq<string>, crop: Bytes -> Bytes)
    requires HoldsCrops(m, raw, proc, names, crop) && SamePool(m, m', raw) && SamePool(m, m', proc)
    ensures HoldsCrops(m', raw, proc, names, crop)
  {
    forall n | n in Outputs(names)
      ensures proc + [n] in m' && m'[proc + [n]] == File(crop(DataAt(m', raw + [Outputs(names)[n]])))
    {
      assert DataAt(m', raw + [Outputs(names)[n]]) == DataAt(m, raw + [Outputs(names)[n]]);
    }
  }

  /** Every entry outside the two test pools is as in `m0`. */
  ghost predicate TestPoolsOnly(m0: Tree, m: Tree)
  {
    forall p :: !Under(TestRaw, p) && !Under(TestProc, p) ==> (p in m <==> p in m0) && (p in m0 ==> m[p] == m0[p])
  }

  /** Unpacking into the raw test pool and cropping into the processed one changes nothing outside them. */
  lemma TestStagedOutside(m0: Tree, archives: seq<string>, unpack: Bytes -> seq<Member>, names: seq<string>, crop: Bytes -> Bytes)
    ensures TestPoolsOnly(m0, Saved(Unzipped(m0, TestZip, TestRaw, archives, unpack), TestRaw, TestProc, names, crop))
  {
    forall p | !Under(TestRaw, p) && !Under(TestProc, p)
      ensures var m2 := Saved(Unzipped(m0, TestZip, TestRaw, archives, unpack), TestRaw, TestProc, names, crop);
        (p in m2 <==> p in m0) && (p in m0 ==> m2[p] == m0[p])
    {
      StagedElsewhere(m0, TestZip, TestRaw, TestProc, archives, unpack, names, crop, p);
    }
  }

  /**
    After the test images were staged, a dataset directory apart from the test
    pools can still be created, and (created afresh, or already holding both
    class directories) it is ready for a distribution from the processed test pool.
   */
  lemma DatasetReady(m0: Tree, m2: Tree, d: Path, create: bool)
    requires WellFormed(m2) && TestPoolsOnly(m0, m2) && NoSubdirs(m2, TestProc)
    requires |d| > 0 && NoFileAlong(m0, d)
    requires !Under(d, TestRaw) && !Under(TestRaw, d) && !Under(d, TestProc) && !Under(TestProc, d)
    requires !create ==>
      && IsDir(m0, d + ["true"]) && NoSubdirs(m0, d + ["true"])
      && IsDir(m0, d + ["false"]) && NoSubdirs(m0, d + ["false"])
    ensures NoFileAlong(m2, d)
    ensures Layout(if create then Provisioned(m2, d) else m2, TestProc, d)
  {
    forall k | 0 < k <= |d| ensures !IsFile(m2, d[..k]) {
      assert !Under(TestRaw, d[..k]) && !Under(TestProc, d[..k]) by {
        if |TestRaw| <= k {
          assert d[..k][..|TestRaw|] == d[..|TestRaw|];
        }
      }
    }
    if create {
      ProvisionedLayout(m2, d, TestProc);
    } else {
      forall k: string ensures !Under(TestRaw, d + [k]) && !Under(TestProc, d + [k]) {
        assert (d + [k])[..|d|] == d;
      }
      forall k: string, n: string ensures !Under(TestRaw, d + [k] + [n]) && !Under(TestProc, d + [k] + [n]) {
        assert (d + [k] + [n])[..|d|] == d;
      }
      assert True.Marker() == "true" && False.Marker() == "false";
      assert (d + ["true"])[..|d|] == d && (d + ["false"])[..|d|] == d;
    }
  }

  /** Filling the dataset directory after staging: its class directories, compared with before staging. */
  lemma StagedDatasetClassDir(m0: Tree, m2: Tree, d: Path, create: bool, lo: int, hi: int, c: Label, n: string)
    requires WellFormed(m2) && TestPoolsOnly(m0, m2) && NoSubdirs(m2, TestProc)
    requires |d| > 0 && NoFileAlong(m2, d)
    requires !Under(d, TestRaw) && !Under(TestRaw, d) && !Under(d, TestProc) && !Under(TestProc, d)
    ensures var m4 := Dataset(m2, d, create, TestProc, lo, hi);
      d + [c.Marker()] + [n] in m4 <==>
        || (!create && d + [c.Marker()] + [n] in m0)
        || Target(m4, TestProc, d + [c.Marker()], c, lo, hi, d + [c.Marker()] + [n])
  {
    DatasetClassDir(m2, d, create, TestProc, lo, hi, c, n);
    assert !Under(TestRaw, d + [c.Marker()] + [n]) && !Under(TestProc, d + [c.Marker()] + [n]) by {
      assert (d + [c.Marker()] + [n])[..|d|] == d;
      ChildApart(d + [c.Marker()], TestRaw, n);
    }
  }

  /** Filling the dataset directory after staging: what lies outside the test pools, compared with before staging. */
  lemma StagedDatasetOutside(m0: Tree, m2: Tree, d: Path, create: bool, lo: int, hi: int, p: Path)
    requires WellFormed(m2) && TestPoolsOnly(m0, m2) && |d| > 0 && NoFileAlong(m2, d)
    requires !Under(d, TestProc) && !Under(TestProc, d)
    requires !Under(TestRaw, p) && !Under(TestProc, p)
    ensures var m4 := Dataset(m2, d, create, TestProc, lo, hi);
      && (!Under(d, p) && p in m0 ==> p in m4 && m4[p] == m0[p])
      && (p in m4 && p !in m0 ==> Under(p, d) || Under(d, p))
  {
    assert (d + ["true"])[..|d|] == d && (d + ["false"])[..|d|] == d;
    if !Under(d, p) {
      DatasetOutside(m2, d, create, TestProc, lo, hi, p);
    }
  }

  /**
    The dataset directory of `adding_test_data` is not the working directory,
    and nothing along it is a regular file: when it is not recreated, it
    already holds a class directory.
   */
  lemma DatasetDirAlong(m: Tree, d: Path, create: bool)
    requires WellFormed(m) && !Under(d, TestRaw)
    requires create ==> NoFileAlong(m, d)
    requires !create ==> IsDir(m, d + ["true"])
    ensures |d| > 0 && NoFileAlong(m, d)
  {
    assert TestRaw[..0] == [];
    if !create {
      forall k | 0 < k <= |d| ensures !IsFile(m, d[..k]) {
        AncestorsAreDirs(m, d + ["true"], k);
        assert (d + ["true"])[..k] == d[..k];
      }
    }
  }

  /** A pool whose entries are unchanged still holds images the first `k` of which open. */
  lemma OpensFirstKept(m: Tree, m': Tree, src: Path, listing: seq<string>, k: int, canOpen: Bytes -> bool)
    requires SamePool(m, m', src) && k <= |listing| && OpensFirst(m, src, listing, k, canOpen)
    ensures OpensFirst(m', src, listing, k, canOpen)
  {
    forall j | 0 <= j < k ensures canOpen(DataAt(m', src + [listing[j]])) {
      assert DataAt(m', src + [listing[j]]) == DataAt(m, src + [listing[j]]);
    }
  }

  /**
    The dataset directory after distributing the staged test images into it,
    read off the final tree: which names are reported, which copies exist,
    what each class directory holds and what stays as it was.
   */
  lemma TestDatasetFilled(m0: Tree, m2: Tree, d: Path, create: bool, hi: int)
    requires WellFormed(m2) && TestPoolsOnly(m0, m2) && NoSubdirs(m2, TestProc)
    requires |d| > 0 && NoFileAlong(m2, d)
    requires !Under(d, TestRaw) && !Under(TestRaw, d) && !Under(d, TestProc) && !Under(TestProc, d)
    ensures Reported(if create then Provisioned(m2, d) else m2, TestProc, DataClasses, 0, hi)
         == Reported(Dataset(m2, d, create, TestProc, 0, hi), TestProc, DataClasses, 0, hi)
    ensures forall c: Label, i: int ::
      FileName(c, i) in Reported(if create then Provisioned(m2, d) else m2, TestProc, DataClasses, 0, hi) <==>
        0 <= i < hi && !Present(Dataset(m2, d, create, TestProc, 0, hi), TestProc, c, i)
    ensures forall c: Label, i: int :: 0 <= i < hi && Present(Dataset(m2, d, create, TestProc, 0, hi), TestProc, c, i) ==>
      && d + [c.Marker()] + [FileName(c, i)] in Dataset(m2, d, create, TestProc, 0, hi)
      && Dataset(m2, d, create, TestProc, 0, hi)[d + [c.Marker()] + [FileName(c, i)]]
         == Dataset(m2, d, create, TestProc, 0, hi)[TestProc + [FileName(c, i)]]
    ensures forall c: Label, n: string :: d + [c.Marker()] + [n] in Dataset(m2, d, create, TestProc, 0, hi) <==>
      || (!create && d + [c.Marker()] + [n] in m0)
      || Target(Dataset(m2, d, create, TestProc, 0, hi), TestProc, d + [c.Marker()], c, 0, hi, d + [c.Marker()] + [n])
    ensures create ==> Children(Dataset(m2, d, create, TestProc, 0, hi), d) == {"true", "false"}
    ensures forall p :: !Under(TestRaw, p) && !Under(TestProc, p) && !Under(d, p) && p in m0 ==>
      p in Dataset(m2, d, create, TestProc, 0, hi) && Dataset(m2, d, create, TestProc, 0, hi)[p] == m0[p]
    ensures forall p :: !Under(TestRaw, p) && !Under(TestProc, p) && p in Dataset(m2, d, create, TestProc, 0, hi) && p !in m0 ==>
      Under(p, d) || Under(d, p)
  {
    var m3 := if create then Provisioned(m2, d) else m2;
    assert TestProc != d + ["true"] && TestProc != d + ["false"] by {
      assert (d + ["true"])[..|d|] == d && (d + ["false"])[..|d|] == d;
    }
    ReportedAgain(m3, TestProc, d, 0, hi);
    forall c: Label, i: int ensures (FileName(c, i) in Reported(m3, TestProc, DataClasses, 0, hi) <==>
        0 <= i < hi && !Present(Dataset(m2, d, create, TestProc, 0, hi), TestProc, c, i))
      && (0 <= i < hi && Present(Dataset(m2, d, create, TestProc, 0, hi), TestProc, c, i) ==>
        && d + [c.Marker()] + [FileName(c, i)] in Dataset(m2, d, create, TestProc, 0, hi)
        && Dataset(m2, d, create, TestProc, 0, hi)[d + [c.Marker()] + [FileName(c, i)]]
           == Dataset(m2, d, create, TestProc, 0, hi)[TestProc + [FileName(c, i)]])
    {
      DistributionResult(m3, TestProc, d, 0, hi, c, i);
    }
    forall c: Label, n: string ensures d + [c.Marker()] + [n] in Dataset(m2, d, create, TestProc, 0, hi) <==>
      || (!create && d + [c.Marker()] + [n] in m0)
      || Target(Dataset(m2, d, create, TestProc, 0, hi), TestProc, d + [c.Marker()], c, 0, hi, d + [c.Marker()] + [n])
    {
      StagedDatasetClassDir(m0, m2, d, create, 0, hi, c, n);
    }
    if create {
      DatasetChildren(m2, d, TestProc, 0, hi);
    }
    forall p | !Under(TestRaw, p) && !Under(TestProc, p)
      ensures !Under(d, p) && p in m0 ==> p in Dataset(m2, d, create, TestProc, 0, hi) && Dataset(m2, d, create, TestProc, 0, hi)[p] == m0[p]
      ensures p in Dataset(m2, d, create, TestProc, 0, hi) && p !in m0 ==> Under(p, d) || Under(d, p)
    {
      StagedDatasetOutside(m0, m2, d, create, 0, hi, p);
    }
  }

  /**
    `adding_test_data(dir_name, count_files, create_new_dir)`: the test
    archives are unpacked into the raw test pool, which is not emptied first,
    and its images are cropped into the processed test pool. If an image cannot
    be opened the operation stops there. Otherwise the dataset directory is
    created afresh when `create_new_dir` holds, and the processed test images
    `[0, count_files)` of both classes are copied into its class directories.
   */
  method AddingTestData(fs: FileSystem, dirName: Path, countFiles: int, createNewDir: bool,
                        unpack: Bytes -> seq<Member>, canOpen: Bytes -> bool, crop: Bytes -> Bytes)
    returns (archives: seq<string>, listing: seq<string>, r: CropOutcome, notFound: seq<string>, warned: bool)
    requires fs.Valid() && NoSubdirs(fs.entries, TestZip)
    requires IsDir(fs.entries, TestRaw) && NoSubdirs(fs.entries, TestRaw)
    requires IsDir(fs.entries, TestProc) && NoSubdirs(fs.entries, TestProc)
    requires createNewDir ==> NoFileAlong(fs.entries, dirName)
    requires !Under(dirName, TestRaw) && !Under(TestRaw, dirName) && !Under(dirName, TestProc) && !Under(TestProc, dirName)
    requires !createNewDir ==>
      && IsDir(fs.entries, dirName + ["true"]) && NoSubdirs(fs.entries, dirName + ["true"])
      && IsDir(fs.entries, dirName + ["false"]) && NoSubdirs(fs.entries, dirName + ["false"])
    modifies fs
    ensures fs.Valid()
    ensures Distinct(archives) && forall n :: n in archives <==> IsFile(old(fs.entries), TestZip + [n])
    ensures Distinct(listing) && forall n :: n in listing <==>
      TestRaw + [n] in old(fs.entries) || n in ArchiveNames(old(fs.entries), TestZip, archives, unpack)
    ensures forall n :: TestRaw + [n] in fs.entries <==> n in listing
    ensures forall n :: TestProc + [n] in fs.entries <==> TestProc + [n] in old(fs.entries) || n in Outputs(Processed(listing, r))
    ensures HoldsCrops(fs.entries, TestRaw, TestProc, Processed(listing, r), crop)
    ensures r.Unreadable? ==> r.index < |listing| && !canOpen(DataAt(fs.entries, TestRaw + [listing[r.index]]))
    ensures r.Unreadable? ==> OpensFirst(fs.entries, TestRaw, listing, r.index, canOpen)
    ensures r.Done? ==> OpensFirst(fs.entries, TestRaw, listing, |listing|, canOpen)
    ensures r.Unreadable? ==> notFound == [] && !warned
    ensures r.Unreadable? ==> TestPoolsOnly(old(fs.entries), fs.entries)
    ensures r.Done? ==> notFound == Reported(fs.entries, TestProc, DataClasses, 0, countFiles) && (warned <==> notFound != [])
    ensures r.Done? ==> forall c: Label, i: int ::
      FileName(c, i) in notFound <==> 0 <= i < countFiles && !Present(fs.entries, TestProc, c, i)
    ensures r.Done? ==> forall c: Label, i: int :: 0 <= i < countFiles && Present(fs.entries, TestProc, c, i) ==>
      && dirName + [c.Marker()] + [FileName(c, i)] in fs.entries
      && fs.entries[dirName + [c.Marker()] + [FileName(c, i)]] == fs.entries[TestProc + [FileName(c, i)]]
    ensures r.Done? ==> forall c: Label, n: string :: dirName + [c.Marker()] + [n] in fs.entries <==>
      || (!createNewDir && dirName + [c.Marker()] + [n] in old(fs.entries))
      || Target(fs.entries, TestProc, dirName + [c.Marker()], c, 0, countFiles, dirName + [c.Marker()] + [n])
    ensures r.Done? && createNewDir ==> Children(fs.entries, dirName) == {"true", "false"}
    ensures r.Done? ==> forall p :: !Under(TestRaw, p) && !Under(TestProc, p) && !Under(dirName, p) && p in old(fs.entries) ==>
      p in fs.entries && fs.entries[p] == old(fs.entries)[p]
    ensures r.Done? ==> forall p :: !Under(TestRaw, p) && !Under(TestProc, p) && p in fs.entries && p !in old(fs.entries) ==>
      Under(p, dirName) || Under(dirName, p)
  {
    ghost var m0 := fs.entries;
    DatasetDirAlong(m0, dirName, createNewDir);
    archives := UnzipData(fs, TestZip, TestRaw, unpack);
    ghost var m1 := fs.entries;
    assert IsDir(m1, TestProc) && NoSubdirs(m1, TestProc) by {
      UnzippedElsewhere(m0, TestZip, TestRaw, archives, unpack, TestProc);
      forall n | TestProc + [n] in m1 ensures m1[TestProc + [n]].File? {
        assert (TestProc + [n])[..|TestRaw|] != TestRaw by {
          assert (TestProc + [n])[..|TestRaw|][1] == "proc_data";
        }
        UnzippedElsewhere(m0, TestZip, TestRaw, archives, unpack, TestProc + [n]);
      }
    }
    listing, r := CropImages(fs, TestRaw, TestProc, canOpen, crop);
    ghost var names := Processed(listing, r);
    ghost var m2 := fs.entries;
    assert m2 == Saved(m1, TestRaw, TestProc, names, crop);
    TestPoolsAfter(m0, archives, unpack, listing, names, crop);
    TestStagedOutside(m0, archives, unpack, names, crop);
    OpensFirstSaved(m1, TestRaw, TestProc, names, crop, listing, if r.Done? then |listing| else r.index, canOpen);
    if r.Unreadable? {
      SavedRaw(m1, TestRaw, TestProc, names, crop, listing[r.index]);
      notFound, warned := [], false;
      return;
    }
    StagedNoSubdirs(m0, TestZip, TestRaw, TestProc, archives, unpack, names, crop);
    DatasetReady(m0, m2, dirName, createNewDir);
    CreateDataDirectory(fs, dirName, createNewDir);
    ghost var m3 := fs.entries;
    notFound, warned := DataDistribution(fs, 0, countFiles, TestProc, dirName);
    assert fs.entries == Dataset(m2, dirName, createNewDir, TestProc, 0, countFiles);
    TestDatasetFilled(m0, m2, dirName, createNewDir, countFiles);
    DatasetKeepsPool(m2, dirName, createNewDir, TestProc, 0, countFiles, TestRaw);
    DatasetKeepsPool(m2, dirName, createNewDir, TestProc, 0, countFiles, TestProc);
    HoldsCropsKept(m2, fs.entries, TestRaw, TestProc, names, crop);
    OpensFirstKept(m2, fs.entries, TestRaw, listing, |listing|, canOpen);
  }
}
