/**
  The region cropper (`FileHandler.__cropping_image`): every raw image of a
  directory listing is opened, cropped, and saved into a flat pool under the
  name `{class}-{n}.jpg`, where `n` counts the earlier images of the same class.
 */
module Cropping {
  import opened Names
  import opened Disk

  /** The names in `listing` labelled `c`, in listing order. */
  function Filter(listing: seq<string>, c: Label): (r: seq<string>)
    ensures |r| <= |listing|
    ensures forall x :: x in r ==> x in listing && Classify(x) == Some(c)
    decreases |listing|
  {
    if listing == [] then []
    else
      var last := listing[|listing| - 1];
      var prefix := Filter(listing[..|listing| - 1], c);
      if Classify(last) == Some(c) then prefix + [last] else prefix
  }

  /** The names in `listing` that carry neither marker. */
  function Skipped(listing: seq<string>): (r: seq<string>)
    ensures forall x :: x in r ==> x in listing && Classify(x) == None
    decreases |listing|
  {
    if listing == [] then []
    else
      var last := listing[|listing| - 1];
      var prefix := Skipped(listing[..|listing| - 1]);
      if Classify(last) == None then prefix + [last] else prefix
  }

  /**
    The renaming a pass over `listing` performs: each processed name mapped to
    the raw name it is cropped from.
   */
  function Outputs(listing: seq<string>): (r: map<string, string>)
    ensures forall n :: n in r ==> r[n] in listing
    decreases |listing|
  {
    if listing == [] then map[]
    else
      var prefix := listing[..|listing| - 1];
      var raw := listing[|listing| - 1];
      match Classify(raw)
      case None => Outputs(prefix)
      case Some(c) => Outputs(prefix)[FileName(c, |Filter(prefix, c)|) := raw]
  }

  /** Every name of the listing is either labelled true, labelled false, or skipped. */
  lemma {:induction false} EveryNameAccounted(listing: seq<string>)
    ensures |Filter(listing, True)| + |Filter(listing, False)| + |Skipped(listing)| == |listing|
    decreases |listing|
  {
    if listing != [] {
      EveryNameAccounted(listing[..|listing| - 1]);
    }
  }

  /**
    Dense, order-preserving numbering: the processed names of class `c` are
    exactly `c-0.jpg` ... `c-(k-1).jpg` for the `k` names labelled `c`, the
    `j`-th of them (in listing order) becomes `c-j.jpg`, and nothing else is
    produced.
   */
  lemma {:induction false} DenseNumbering(listing: seq<string>)
    ensures forall c: Label, k: int ::
      FileName(c, k) in Outputs(listing) <==> 0 <= k < |Filter(listing, c)|
    ensures forall c: Label, k: int :: 0 <= k < |Filter(listing, c)| ==>
      Outputs(listing)[FileName(c, k)] == Filter(listing, c)[k]
    ensures forall n :: n in Outputs(listing) ==>
      exists c: Label, k: int :: 0 <= k < |Filter(listing, c)| && n == FileName(c, k)
  {
    forall c: Label, k: int
      ensures FileName(c, k) in Outputs(listing) <==> 0 <= k < |Filter(listing, c)|
      ensures 0 <= k < |Filter(listing, c)| ==> Outputs(listing)[FileName(c, k)] == Filter(listing, c)[k]
    {
      OutputAt(listing, c, k);
      if 0 <= k < |Filter(listing, c)| {
        OutputOf(listing, c, k);
      }
    }
    OutputNames(listing);
  }

  /** `DenseNumbering` for one class and one number: the name is in use exactly when the number is below the class count. */
  lemma {:induction false} OutputAt(listing: seq<string>, c: Label, k: int)
    ensures FileName(c, k) in Outputs(listing) <==> 0 <= k < |Filter(listing, c)|
    decreases |listing|
  {
    if listing != [] {
      var prefix := listing[..|listing| - 1];
      OutputAt(prefix, c, k);
      match Classify(listing[|listing| - 1])
      case None =>
      case Some(c0) =>
        FileNameInjective(c, k, c0, |Filter(prefix, c0)|);
    }
  }

  /** `DenseNumbering` for one class and one number: the name in use stands for the `k`-th image of the class. */
  lemma {:induction false} OutputOf(listing: seq<string>, c: Label, k: int)
    requires 0 <= k < |Filter(listing, c)|
    ensures FileName(c, k) in Outputs(listing) && Outputs(listing)[FileName(c, k)] == Filter(listing, c)[k]
    decreases |listing|
  {
    var prefix := listing[..|listing| - 1];
    match Classify(listing[|listing| - 1])
    case None =>
      OutputOf(prefix, c, k);
    case Some(c0) =>
      FileNameInjective(c, k, c0, |Filter(prefix, c0)|);
      if k < |Filter(prefix, c)| {
        OutputOf(prefix, c, k);
      }
  }

  /** Every processed name is `{c}-{k}.jpg` for a class `c` and a number `k` in use. */
  lemma {:induction false} OutputNames(listing: seq<string>)
    ensures forall n :: n in Outputs(listing) ==>
      exists c: Label, k: int :: 0 <= k < |Filter(listing, c)| && n == FileName(c, k)
    decreases |listing|
  {
    if listing != [] {
      var prefix := listing[..|listing| - 1];
      OutputNames(prefix);
      match Classify(listing[|listing| - 1])
      case None =>
      case Some(c0) =>
        assert FileName(c0, |Filter(prefix, c0)|) == FileName(c0, |Filter(listing, c0)| - 1);
    }
  }

  /** The names of `names` labelled `c`. */
  function LabelledIn(names: set<string>, c: Label): (r: set<string>)
    ensures forall x :: x in r <==> x in names && Classify(x) == Some(c)
  {
    set x | x in names && Classify(x) == Some(c)
  }

  lemma LabelledInAdd(names: set<string>, x: string, c: Label)
    requires x !in names
    ensures |LabelledIn(names + {x}, c)|
         == |LabelledIn(names, c)| + (if Classify(x) == Some(c) then 1 else 0)
  {
    if Classify(x) == Some(c) {
      assert LabelledIn(names + {x}, c) == LabelledIn(names, c) + {x};
    } else {
      assert LabelledIn(names + {x}, c) == LabelledIn(names, c);
    }
  }

  /**
    For a listing without repetitions, the number of images of a class (and so
    the next free number) depends only on which names are listed, not on the
    order of the listing.
   */
  lemma {:induction false} FilterCount(listing: seq<string>, c: Label)
    requires Distinct(listing)
    ensures |Filter(listing, c)| == |LabelledIn(Elements(listing), c)|
    decreases |listing|
  {
    if listing != [] {
      var prefix := listing[..|listing| - 1];
      var last := listing[|listing| - 1];
      assert Distinct(prefix);
      FilterCount(prefix, c);
      assert Elements(listing) == Elements(prefix) + {last} by {
        assert listing == prefix + [last];
      }
      LabelledInAdd(Elements(prefix), last, c);
    }
  }

  // ---------------------------------------------------------------------------
  // The effect on the filesystem
  // ---------------------------------------------------------------------------

  /** The tree after the pass over `listing` saved its processed images into `dst`. */
  function Saved(m: Tree, src: Path, dst: Path, listing: seq<string>, crop: Bytes -> Bytes): Tree
    decreases |listing|
  {
    if listing == [] then m
    else
      var prefix := listing[..|listing| - 1];
      var raw := listing[|listing| - 1];
      var before := Saved(m, src, dst, prefix, crop);
      match Classify(raw)
      case None => before
      case Some(c) => before[dst + [FileName(c, |Filter(prefix, c)|)] := File(crop(DataAt(m, src + [raw])))]
  }

  /**
    What the pass leaves behind: the entries named by `Outputs(listing)` are
    added to (or replace same-named files of) `dst`, each holding the crop of
    its raw image; every other entry is as before.
   */
  lemma {:induction false} SavedContents(m: Tree, src: Path, dst: Path, listing: seq<string>, crop: Bytes -> Bytes)
    ensures forall p :: p in Saved(m, src, dst, listing, crop) <==> p in m || p in Placed(dst, Outputs(listing).Keys)
    ensures forall n :: n in Outputs(listing) ==>
      dst + [n] in Saved(m, src, dst, listing, crop) &&
      Saved(m, src, dst, listing, crop)[dst + [n]] == File(crop(DataAt(m, src + [Outputs(listing)[n]])))
    ensures forall p :: p in m && p !in Placed(dst, Outputs(listing).Keys) ==>
      Saved(m, src, dst, listing, crop)[p] == m[p]
    decreases |listing|
  {
    if listing != [] {
      var prefix := listing[..|listing| - 1];
      SavedContents(m, src, dst, prefix, crop);
      forall n ensures (dst + [n])[..|dst|] == dst && (dst + [n])[|dst|] == n {
      }
    }
  }

  /** One more name of the listing: how the class counts and the tree evolve. */
  lemma PassStep(m: Tree, src: Path, dst: Path, listing: seq<string>, i: nat, crop: Bytes -> Bytes)
    requires i < |listing|
    ensures forall c: Label :: Classify(listing[i]) != Some(c) ==>
      Filter(listing[..i + 1], c) == Filter(listing[..i], c)
    ensures forall c: Label :: Classify(listing[i]) == Some(c) ==>
      |Filter(listing[..i + 1], c)| == |Filter(listing[..i], c)| + 1
    ensures Classify(listing[i]) == None ==>
      Saved(m, src, dst, listing[..i + 1], crop) == Saved(m, src, dst, listing[..i], crop)
    ensures forall c: Label :: Classify(listing[i]) == Some(c) ==>
      Saved(m, src, dst, listing[..i + 1], crop)
      == Saved(m, src, dst, listing[..i], crop)[dst + [FileName(c, |Filter(listing[..i], c)|)]
                                                := File(crop(DataAt(m, src + [listing[i]])))]
  {
    assert listing[..i + 1][..i] == listing[..i] && listing[..i + 1][i] == listing[i];
  }

  /** Saving into `dst` never touches the raw images of another directory `src`. */
  lemma RawUntouched(m: Tree, src: Path, dst: Path, listing: seq<string>, name: string, crop: Bytes -> Bytes)
    requires src != dst && IsFile(m, src + [name])
    ensures src + [name] in Saved(m, src, dst, listing, crop)
    ensures Saved(m, src, dst, listing, crop)[src + [name]] == m[src + [name]]
  {
    var path := src + [name];
    assert path !in Placed(dst, Outputs(listing).Keys) by {
      assert path[..|src|] == src;
    }
    SavedContents(m, src, dst, listing, crop);
  }

  /** The first `k` listed images can be opened. */
  ghost predicate OpensFirst(m: Tree, src: Path, listing: seq<string>, k: int, canOpen: Bytes -> bool)
    requires k <= |listing|
  {
    forall j :: 0 <= j < k ==> canOpen(DataAt(m, src + [listing[j]]))
  }

  /**
    The state of the pass after the first `i` names: the tree is the one
    `Saved` describes and the two counters are the class counts so far.
   */
  ghost predicate CroppedUpTo(m: Tree, src: Path, dst: Path, listing: seq<string>, i: nat,
                              crop: Bytes -> Bytes, r: Tree, trueCount: int, falseCount: int)
    requires i <= |listing|
  {
    && WellFormed(r) && IsDir(r, dst) && NoSubdirs(r, dst)
    && trueCount == |Filter(listing[..i], True)|
    && falseCount == |Filter(listing[..i], False)|
    && r == Saved(m, src, dst, listing[..i], crop)
  }

  /** One round of the pass: the raw image is still there, and each branch reaches the state after `i + 1` names. */
  lemma CropStep(m: Tree, src: Path, dst: Path, listing: seq<string>, i: nat,
                 crop: Bytes -> Bytes, r: Tree, trueCount: int, falseCount: int)
    requires i < |listing| && src != dst && IsFile(m, src + [listing[i]])
    requires CroppedUpTo(m, src, dst, listing, i, crop, r, trueCount, falseCount)
    ensures IsFile(r, src + [listing[i]]) && r[src + [listing[i]]] == m[src + [listing[i]]]
    ensures Classify(listing[i]) == None ==>
      CroppedUpTo(m, src, dst, listing, i + 1, crop, r, trueCount, falseCount)
    ensures Classify(listing[i]) == Some(True) ==>
      && !IsDir(r, dst + [FileName(True, trueCount)]) && Parent(dst + [FileName(True, trueCount)]) == dst
      && CroppedUpTo(m, src, dst, listing, i + 1, crop,
                     r[dst + [FileName(True, trueCount)] := File(crop(m[src + [listing[i]]].data))],
                     trueCount + 1, falseCount)
    ensures Classify(listing[i]) == Some(False) ==>
      && !IsDir(r, dst + [FileName(False, falseCount)]) && Parent(dst + [FileName(False, falseCount)]) == dst
      && CroppedUpTo(m, src, dst, listing, i + 1, crop,
                     r[dst + [FileName(False, falseCount)] := File(crop(m[src + [listing[i]]].data))],
                     trueCount, falseCount + 1)
  {
    PassStep(m, src, dst, listing, i, crop);
    RawUntouched(m, src, dst, listing[..i], listing[i], crop);
    match Classify(listing[i])
    case None =>
    case Some(c) =>
      var p := dst + [FileName(c, |Filter(listing[..i], c)|)];
      assert Parent(p) == dst;
      AddFile(r, p, crop(m[src + [listing[i]]].data));
      var r' := r[p := File(crop(m[src + [listing[i]]].data))];
      assert IsDir(r', dst);
      forall n | dst + [n] in r' ensures r'[dst + [n]].File? {
      }
  }

  /**
    What a pass leaves in `dst`: exactly the processed names are added, each
    holding the crop of the raw image it was made from; other entries stay.
   */
  lemma {:induction false} SavedAt(m: Tree, src: Path, dst: Path, listing: seq<string>, crop: Bytes -> Bytes, n: string)
    ensures dst + [n] in Saved(m, src, dst, listing, crop) <==> dst + [n] in m || n in Outputs(listing)
    ensures n in Outputs(listing) ==>
      Saved(m, src, dst, listing, crop)[dst + [n]] == File(crop(DataAt(m, src + [Outputs(listing)[n]])))
    ensures dst + [n] in m && n !in Outputs(listing) ==> Saved(m, src, dst, listing, crop)[dst + [n]] == m[dst + [n]]
    decreases |listing|
  {
    if listing != [] {
      var prefix := listing[..|listing| - 1];
      SavedAt(m, src, dst, prefix, crop, n);
      match Classify(listing[|listing| - 1])
      case None =>
      case Some(c) =>
        var k := FileName(c, |Filter(prefix, c)|);
        assert dst + [n] == dst + [k] <==> n == k by {
          if dst + [n] == dst + [k] {
            assert (dst + [n])[|dst|] == n;
          }
        }
    }
  }

  /** The pass touches nothing but the entries directly inside `dst`. */
  lemma {:induction false} SavedElsewhere(m: Tree, src: Path, dst: Path, listing: seq<string>, crop: Bytes -> Bytes, p: Path)
    requires |p| != |dst| + 1 || p[..|dst|] != dst
    ensures p in Saved(m, src, dst, listing, crop) <==> p in m
    ensures p in m ==> Saved(m, src, dst, listing, crop)[p] == m[p]
    decreases |listing|
  {
    if listing != [] {
      var prefix := listing[..|listing| - 1];
      SavedElsewhere(m, src, dst, prefix, crop, p);
      match Classify(listing[|listing| - 1])
      case None =>
      case Some(c) =>
        assert (dst + [FileName(c, |Filter(prefix, c)|)])[..|dst|] == dst;
    }
  }

  /**
    What a pass leaves in `src`: the raw images are as they were, so the crop
    of each processed name can be read off the final tree.
   */
  lemma SavedRaw(m: Tree, src: Path, dst: Path, listing: seq<string>, crop: Bytes -> Bytes, n: string)
    requires src != dst
    ensures src + [n] in Saved(m, src, dst, listing, crop) <==> src + [n] in m
    ensures src + [n] in m ==> Saved(m, src, dst, listing, crop)[src + [n]] == m[src + [n]]
    ensures DataAt(Saved(m, src, dst, listing, crop), src + [n]) == DataAt(m, src + [n])
  {
    SavedContents(m, src, dst, listing, crop);
    assert src + [n] !in Placed(dst, Outputs(listing).Keys) by {
      assert (src + [n])[..|src|] == src;
    }
  }

  /** Cropping into another directory keeps every raw image, so the first `k` still open. */
  lemma OpensFirstSaved(m: Tree, src: Path, dst: Path, names: seq<string>, crop: Bytes -> Bytes,
                        listing: seq<string>, k: int, canOpen: Bytes -> bool)
    requires src != dst && k <= |listing| && OpensFirst(m, src, listing, k, canOpen)
    ensures OpensFirst(Saved(m, src, dst, names, crop), src, listing, k, canOpen)
  {
    forall j | 0 <= j < k ensures canOpen(DataAt(Saved(m, src, dst, names, crop), src + [listing[j]])) {
      SavedRaw(m, src, dst, names, crop, listing[j]);
    }
  }

  /** How a pass ends: having gone through the whole listing, or at the first image that cannot be opened. */
  datatype CropOutcome = Done | Unreadable(index: nat)

  /**
    The pass over `listing`, the names of the files of `src` in the order the
    directory walk yields them. Every listed image is opened first, so an undecodable one aborts the
    pass even when its name carries no marker; the images saved before it stay.
   */
  method CropImages(fs: FileSystem, src: Path, dst: Path, canOpen: Bytes -> bool, crop: Bytes -> Bytes)
    returns (listing: seq<string>, r: CropOutcome)
    requires fs.Valid() && IsDir(fs.entries, src) && IsDir(fs.entries, dst) && src != dst
    requires NoSubdirs(fs.entries, dst)
    modifies fs
    ensures fs.Valid()
    ensures Distinct(listing) && forall n :: n in listing <==> IsFile(old(fs.entries), src + [n])
    ensures r.Done? ==>
      && OpensFirst(old(fs.entries), src, listing, |listing|, canOpen)
      && fs.entries == Saved(old(fs.entries), src, dst, listing, crop)
    ensures r.Unreadable? ==>
      && r.index < |listing|
      && !canOpen(DataAt(old(fs.entries), src + [listing[r.index]]))
      && OpensFirst(old(fs.entries), src, listing, r.index, canOpen)
      && fs.entries == Saved(old(fs.entries), src, dst, listing[..r.index], crop)
  {
    ghost var m := fs.entries;
    listing := fs.ListFiles(src);
    var trueCounter, falseCounter := 0, 0;
    var i := 0;
    while i < |listing|
      invariant 0 <= i <= |listing|
      invariant CroppedUpTo(m, src, dst, listing, i, crop, fs.entries, trueCounter, falseCounter)
      invariant OpensFirst(m, src, listing, i, canOpen)
    {
      var image := listing[i];
      CropStep(m, src, dst, listing, i, crop, fs.entries, trueCounter, falseCounter);
      var data := fs.entries[src + [image]].data;
      if !canOpen(data) {
        r := Unreadable(i);
        return;
      }
      assert OpensFirst(m, src, listing, i + 1, canOpen);
      var cropped := crop(data);
      var low := Lower(image);
      if Contains(low, True.Marker()) {
        fs.WriteFile(dst + [FileName(True, trueCounter)], cropped);
        trueCounter := trueCounter + 1;
      } else if Contains(low, False.Marker()) {
        fs.WriteFile(dst + [FileName(False, falseCounter)], cropped);
        falseCounter := falseCounter + 1;
      }
      assert CroppedUpTo(m, src, dst, listing, i + 1, crop, fs.entries, trueCounter, falseCounter);
      i := i + 1;
    }
    assert listing[..i] == listing;
    r := Done;
  }
}
