/**
  The distributor (`FileHandler.__data_distribution`): for each class, the
  processed images `{class}-{i}.jpg` with `i` in `[start, end)` are copied from
  the pool into the class subdirectory of the output directory; the names that
  are missing from the pool are collected, in the order they were tried, and
  reported in one warning.
 */
module Distribution {
  import opened Names
  import opened Disk

  /** The image `{c}-{i}.jpg` is in the pool `src`. */
  predicate Present(m: Tree, src: Path, c: Label, i: int)
  {
    IsFile(m, src + [FileName(c, i)])
  }

  /** The indices in `[lo, hi)` whose image of class `c` is not in the pool, ascending. */
  function MissingIndices(m: Tree, src: Path, c: Label, lo: int, hi: int): seq<int>
    decreases hi - lo
  {
    if hi <= lo then []
    else MissingIndices(m, src, c, lo, hi - 1) + (if Present(m, src, c, hi - 1) then [] else [hi - 1])
  }

  /** An index is listed exactly when it lies in the range and its image is missing. */
  lemma {:induction false} MissingIndicesMember(m: Tree, src: Path, c: Label, lo: int, hi: int, i: int)
    ensures i in MissingIndices(m, src, c, lo, hi) <==> lo <= i < hi && !Present(m, src, c, i)
    decreases hi - lo
  {
    if lo < hi {
      MissingIndicesMember(m, src, c, lo, hi - 1, i);
    }
  }

  /** The listed indices are strictly increasing, so each is listed once. */
  lemma {:induction false} MissingIndicesAscending(m: Tree, src: Path, c: Label, lo: int, hi: int)
    ensures forall a, b :: 0 <= a < b < |MissingIndices(m, src, c, lo, hi)| ==>
      MissingIndices(m, src, c, lo, hi)[a] < MissingIndices(m, src, c, lo, hi)[b]
    decreases hi - lo
  {
    if lo < hi {
      MissingIndicesAscending(m, src, c, lo, hi - 1);
      var prefix := MissingIndices(m, src, c, lo, hi - 1);
      forall a | 0 <= a < |prefix| ensures prefix[a] < hi - 1 {
        MissingIndicesMember(m, src, c, lo, hi - 1, prefix[a]);
      }
    }
  }

  /** The names `{c}-{i}.jpg` of the indices `ixs`, in the same order. */
  function NamesOf(c: Label, ixs: seq<int>): (r: seq<string>)
    ensures |r| == |ixs|
    decreases |ixs|
  {
    if ixs == [] then [] else NamesOf(c, ixs[..|ixs| - 1]) + [FileName(c, ixs[|ixs| - 1])]
  }

  lemma {:induction false} NamesOfSpec(c: Label, ixs: seq<int>)
    ensures forall k :: 0 <= k < |ixs| ==> NamesOf(c, ixs)[k] == FileName(c, ixs[k])
    ensures forall d: Label, j: int :: FileName(d, j) in NamesOf(c, ixs) <==> d == c && j in ixs
    decreases |ixs|
  {
    if ixs != [] {
      var prefix := ixs[..|ixs| - 1];
      NamesOfSpec(c, prefix);
      forall d: Label, j: int ensures FileName(d, j) == FileName(c, ixs[|ixs| - 1]) <==> d == c && j == ixs[|ixs| - 1] {
        FileNameInjective(d, j, c, ixs[|ixs| - 1]);
      }
      assert ixs == prefix + [ixs[|ixs| - 1]];
    }
  }

  /** The names reported missing, class by class in the order of `classes`. */
  function Reported(m: Tree, src: Path, classes: seq<Label>, lo: int, hi: int): seq<string>
    decreases |classes|
  {
    if classes == [] then []
    else
      var c := classes[|classes| - 1];
      Reported(m, src, classes[..|classes| - 1], lo, hi) + NamesOf(c, MissingIndices(m, src, c, lo, hi))
  }

  /**
    The tree after the images of class `c` with index in `[lo, hi)` were copied
    from the pool `src` of the original tree `m0` into `dst`, starting from `base`.
   */
  function ClassCopied(m0: Tree, base: Tree, src: Path, dst: Path, c: Label, lo: int, hi: int): Tree
    decreases hi - lo
  {
    if hi <= lo then base
    else
      var before := ClassCopied(m0, base, src, dst, c, lo, hi - 1);
      var name := FileName(c, hi - 1);
      if Present(m0, src, c, hi - 1) then before[dst + [name] := m0[src + [name]]] else before
  }

  /** The tree after the classes `classes` were distributed from `src` into `out`. */
  function Distributed(m: Tree, src: Path, out: Path, classes: seq<Label>, lo: int, hi: int): Tree
    decreases |classes|
  {
    if classes == [] then m
    else
      var c := classes[|classes| - 1];
      ClassCopied(m, Distributed(m, src, out, classes[..|classes| - 1], lo, hi), src, out + [c.Marker()], c, lo, hi)
  }

  /**
    `p` is the copy of an image of class `c` with index in `[lo, hi)` that the
    pool `src` of `m0` holds: the entry named `{c}-{i}.jpg` directly inside `dst`.
   */
  predicate Target(m0: Tree, src: Path, dst: Path, c: Label, lo: int, hi: int, p: Path)
  {
    && |p| == |dst| + 1 && p[..|dst|] == dst
    && match ParseFileName(p[|dst|])
       case None => false
       case Some(ci) => ci.0 == c && lo <= ci.1 < hi && FileName(c, ci.1) == p[|dst|] && Present(m0, src, c, ci.1)
  }

  lemma TargetOf(m0: Tree, src: Path, dst: Path, c: Label, lo: int, hi: int, i: int)
    ensures Target(m0, src, dst, c, lo, hi, dst + [FileName(c, i)]) <==> lo <= i < hi && Present(m0, src, c, i)
  {
    FileNameRoundTrip(c, i);
    var p := dst + [FileName(c, i)];
    assert p[..|dst|] == dst && p[|dst|] == FileName(c, i);
  }

  /**
    The copies of one class, entry by entry: every present image of the range
    lands in `dst` under its own name with its content; no other entry is
    created or changed.
   */
  lemma {:induction false} ClassCopiedAt(m0: Tree, base: Tree, src: Path, dst: Path, c: Label, lo: int, hi: int, p: Path)
    ensures p in ClassCopied(m0, base, src, dst, c, lo, hi) <==> p in base || Target(m0, src, dst, c, lo, hi, p)
    ensures Target(m0, src, dst, c, lo, hi, p) ==>
      ClassCopied(m0, base, src, dst, c, lo, hi)[p] == m0[src + [p[|dst|]]]
    ensures p in base && !Target(m0, src, dst, c, lo, hi, p) ==>
      ClassCopied(m0, base, src, dst, c, lo, hi)[p] == base[p]
    decreases hi - lo
  {
    if lo < hi {
      ClassCopiedAt(m0, base, src, dst, c, lo, hi - 1, p);
      var q := dst + [FileName(c, hi - 1)];
      TargetOf(m0, src, dst, c, lo, hi, hi - 1);
      assert q[|dst|] == FileName(c, hi - 1);
      assert Target(m0, src, dst, c, lo, hi, p) <==>
        Target(m0, src, dst, c, lo, hi - 1, p) || (p == q && Present(m0, src, c, hi - 1)) by {
        if p == q {
          TargetOf(m0, src, dst, c, lo, hi - 1, hi - 1);
        } else if |p| == |dst| + 1 && p[..|dst|] == dst {
          assert p == dst + [p[|dst|]];
        }
      }
    }
  }

  /** One more index of the inner loop. */
  lemma StepIndex(m: Tree, src: Path, c: Label, lo: int, i: int)
    requires lo <= i
    ensures Present(m, src, c, i) ==> MissingIndices(m, src, c, lo, i + 1) == MissingIndices(m, src, c, lo, i)
    ensures !Present(m, src, c, i) ==> MissingIndices(m, src, c, lo, i + 1) == MissingIndices(m, src, c, lo, i) + [i]
  {
    assert MissingIndices(m, src, c, lo, i) + [] == MissingIndices(m, src, c, lo, i);
  }

  lemma StepNames(c: Label, ixs: seq<int>, i: int)
    ensures NamesOf(c, ixs + [i]) == NamesOf(c, ixs) + [FileName(c, i)]
  {
    assert (ixs + [i])[..|ixs|] == ixs;
  }

  /** One more class of the outer loop. */
  lemma StepClass(m: Tree, src: Path, out: Path, classes: seq<Label>, k: int, lo: int, hi: int)
    requires 0 <= k < |classes|
    ensures Reported(m, src, classes[..k + 1], lo, hi)
         == Reported(m, src, classes[..k], lo, hi) + NamesOf(classes[k], MissingIndices(m, src, classes[k], lo, hi))
    ensures Distributed(m, src, out, classes[..k + 1], lo, hi)
         == ClassCopied(m, Distributed(m, src, out, classes[..k], lo, hi), src, out + [classes[k].Marker()], classes[k], lo, hi)
  {
    assert classes[..k + 1][..k] == classes[..k];
  }

  /** The pool and the output directories the distributor relies on. */
  ghost predicate Layout(m: Tree, src: Path, out: Path)
  {
    && WellFormed(m)
    && NoSubdirs(m, src)
    && IsDir(m, out + ["true"]) && NoSubdirs(m, out + ["true"])
    && IsDir(m, out + ["false"]) && NoSubdirs(m, out + ["false"])
    && src != out + ["true"] && src != out + ["false"]
  }

  /** The pool `src` of `m'` holds the same files as that of `m`. */
  ghost predicate SamePool(m: Tree, m': Tree, src: Path)
  {
    forall n :: (src + [n] in m' <==> src + [n] in m) && (src + [n] in m ==> m'[src + [n]] == m[src + [n]])
  }

  /** Writing an image into a class directory keeps the layout and leaves the pool as it was. */
  lemma CopyKeepsLayout(m0: Tree, m: Tree, src: Path, out: Path, c: Label, name: string, data: Bytes)
    requires Layout(m, src, out) && SamePool(m0, m, src)
    ensures Layout(m[out + [c.Marker()] + [name] := File(data)], src, out)
    ensures SamePool(m0, m[out + [c.Marker()] + [name] := File(data)], src)
  {
    var p := out + [c.Marker()] + [name];
    var m' := m[p := File(data)];
    assert Parent(p) == out + [c.Marker()];
    forall n ensures src + [n] != p {
      AppendDiffers(src, n, out + [c.Marker()], name);
    }
    forall c': Label, n | out + [c'.Marker()] + [n] in m' ensures m'[out + [c'.Marker()] + [n]].File? {
      if out + [c'.Marker()] + [n] != p {
        assert out + [c'.Marker()] + [n] in m;
      }
    }
    assert True.Marker() == "true" && False.Marker() == "false";
    assert out + ["true"] != p && out + ["false"] != p;
  }

  /**
    The invariant of the inner loop for class `c` after the indices `[start, i)`:
    the layout and the pool are intact, the missing names so far are collected,
    and the images so far are copied.
   */
  ghost predicate CopiedUpTo(m0: Tree, base: Tree, src: Path, out: Path, c: Label, start: int, i: int,
                             m: Tree, missing: seq<string>)
  {
    && Layout(m, src, out) && SamePool(m0, m, src)
    && missing == NamesOf(c, MissingIndices(m0, src, c, start, i))
    && m == ClassCopied(m0, base, src, out + [c.Marker()], c, start, i)
  }

  /** One iteration of the inner loop keeps its invariant when the image is missing from the pool: it is reported. */
  lemma CopyMissing(m0: Tree, m: Tree, base: Tree, src: Path, out: Path, c: Label, start: int, i: int, missing: seq<string>)
    requires start <= i && CopiedUpTo(m0, base, src, out, c, start, i, m, missing)
    requires src + [FileName(c, i)] !in m
    ensures CopiedUpTo(m0, base, src, out, c, start, i + 1, m, missing + [FileName(c, i)])
  {
    StepIndex(m0, src, c, start, i);
    StepNames(c, MissingIndices(m0, src, c, start, i), i);
    assert !Present(m0, src, c, i);
  }

  /** One iteration of the inner loop keeps its invariant when the image is in the pool: it is copied. */
  lemma CopyPresent(m0: Tree, m: Tree, base: Tree, src: Path, out: Path, c: Label, start: int, i: int, missing: seq<string>)
    requires start <= i && CopiedUpTo(m0, base, src, out, c, start, i, m, missing)
    requires src + [FileName(c, i)] in m
    ensures var name := FileName(c, i);
      var dst := out + [c.Marker()];
      && m[src + [name]].File?
      && IsDir(m, dst) && !IsDir(m, dst + [name]) && Parent(dst + [name]) == dst && WellFormed(m)
      && CopiedUpTo(m0, base, src, out, c, start, i + 1, m[dst + [name] := File(m[src + [name]].data)], missing)
  {
    var name := FileName(c, i);
    var dst := out + [c.Marker()];
    StepIndex(m0, src, c, start, i);
    assert True.Marker() == "true" && False.Marker() == "false";
    assert m[src + [name]] == m0[src + [name]];
    CopyKeepsLayout(m0, m, src, out, c, name, m[src + [name]].data);
    assert Parent(dst + [name]) == dst;
  }

  /** Where the inner loop stops, its invariant is the specification of the whole loop. */
  lemma CopyDone(m0: Tree, base: Tree, src: Path, out: Path, c: Label, start: int, end: int, i: int,
                 m: Tree, missing: seq<string>)
    requires CopiedUpTo(m0, base, src, out, c, start, i, m, missing)
    requires i == end || (i == start && end <= start)
    ensures Layout(m, src, out) && SamePool(m0, m, src)
    ensures missing == NamesOf(c, MissingIndices(m0, src, c, start, end))
    ensures m == ClassCopied(m0, base, src, out + [c.Marker()], c, start, end)
  {
  }

  /**
    The inner loop for one class: the images `[start, end)` of class `c` are
    copied from the pool into `out/{c}`; the names of those missing from the
    pool are returned in increasing index order.
   */
  method CopyClass(fs: FileSystem, ghost m0: Tree, start: int, end: int, src: Path, out: Path, c: Label)
    returns (missing: seq<string>)
    requires Layout(fs.entries, src, out) && SamePool(m0, fs.entries, src)
    modifies fs
    ensures Layout(fs.entries, src, out) && SamePool(m0, fs.entries, src)
    ensures missing == NamesOf(c, MissingIndices(m0, src, c, start, end))
    ensures fs.entries == ClassCopied(m0, old(fs.entries), src, out + [c.Marker()], c, start, end)
  {
    ghost var base := fs.entries;
    var dst := out + [c.Marker()];
    missing := [];
    var i := start;
    while i < end
      invariant start <= i && (i <= end || i == start)
      invariant CopiedUpTo(m0, base, src, out, c, start, i, fs.entries, missing)
      decreases end - i
    {
      var name := FileName(c, i);
      if src + [name] in fs.entries {
        CopyPresent(m0, fs.entries, base, src, out, c, start, i, missing);
        fs.WriteFile(dst + [name], fs.entries[src + [name]].data);
      } else {
        CopyMissing(m0, fs.entries, base, src, out, c, start, i, missing);
        missing := missing + [name];
      }
      assert CopiedUpTo(m0, base, src, out, c, start, i + 1, fs.entries, missing);
      i := i + 1;
    }
    CopyDone(m0, base, src, out, c, start, end, i, fs.entries, missing);
  }

  // ---------------------------------------------------------------------------
  // What a whole distribution does
  // ---------------------------------------------------------------------------

  /** An entry of the pool is never the copy of an image: the pool is not a class directory. */
  lemma PoolNotTarget(m0: Tree, src: Path, out: Path, c: Label, lo: int, hi: int, n: string)
    requires src != out + [c.Marker()]
    ensures !Target(m0, src, out + [c.Marker()], c, lo, hi, src + [n])
  {
    var dst := out + [c.Marker()];
    if |src + [n]| == |dst| + 1 {
      assert (src + [n])[..|src|] == src;
    }
  }

  /** The two class directories never share a copy. */
  lemma TargetsApart(m0: Tree, src: Path, out: Path, lo: int, hi: int, p: Path)
    ensures !(Target(m0, src, out + ["true"], True, lo, hi, p) && Target(m0, src, out + ["false"], False, lo, hi, p))
  {
    if |p| == |out| + 2 {
      assert (out + ["true"])[|out|] != (out + ["false"])[|out|];
    }
  }

  /** The distribution over `DataClasses`: the `true` images first, then the `false` ones. */
  lemma TwoClasses(m: Tree, src: Path, out: Path, lo: int, hi: int)
    ensures Distributed(m, src, out, DataClasses, lo, hi)
         == ClassCopied(m, ClassCopied(m, m, src, out + ["true"], True, lo, hi), src, out + ["false"], False, lo, hi)
    ensures Reported(m, src, DataClasses, lo, hi)
         == NamesOf(True, MissingIndices(m, src, True, lo, hi)) + NamesOf(False, MissingIndices(m, src, False, lo, hi))
  {
    assert DataClasses[..2] == DataClasses && DataClasses[..0] == [];
    assert out + [True.Marker()] == out + ["true"] && out + [False.Marker()] == out + ["false"];
    StepClass(m, src, out, DataClasses, 0, lo, hi);
    ghost var d1 := Distributed(m, src, out, DataClasses[..1], lo, hi);
    assert d1 == ClassCopied(m, m, src, out + ["true"], True, lo, hi);
    ghost var r1 := Reported(m, src, DataClasses[..1], lo, hi);
    ghost var ts := NamesOf(True, MissingIndices(m, src, True, lo, hi));
    assert r1 == [] + ts == ts;
    StepClass(m, src, out, DataClasses, 1, lo, hi);
  }

  /**
    The whole distribution, entry by entry: the copy of every image of either
    class with index in `[lo, hi)` that the pool holds is in that class's
    directory with the image's content, and every other entry is left as it was.
   */
  lemma DistributedAt(m: Tree, src: Path, out: Path, lo: int, hi: int, p: Path)
    ensures p in Distributed(m, src, out, DataClasses, lo, hi) <==>
      p in m || Target(m, src, out + ["true"], True, lo, hi, p) || Target(m, src, out + ["false"], False, lo, hi, p)
    ensures Target(m, src, out + ["true"], True, lo, hi, p) ==>
      Distributed(m, src, out, DataClasses, lo, hi)[p] == m[src + [p[|out| + 1]]]
    ensures Target(m, src, out + ["false"], False, lo, hi, p) ==>
      Distributed(m, src, out, DataClasses, lo, hi)[p] == m[src + [p[|out| + 1]]]
    ensures p in m && !Target(m, src, out + ["true"], True, lo, hi, p) && !Target(m, src, out + ["false"], False, lo, hi, p) ==>
      Distributed(m, src, out, DataClasses, lo, hi)[p] == m[p]
  {
    TwoClasses(m, src, out, lo, hi);
    var mid := ClassCopied(m, m, src, out + ["true"], True, lo, hi);
    ClassCopiedAt(m, m, src, out + ["true"], True, lo, hi, p);
    ClassCopiedAt(m, mid, src, out + ["false"], False, lo, hi, p);
    TargetsApart(m, src, out, lo, hi, p);
  }

  /** A name is reported exactly when it is an image of the range missing from the pool. */
  lemma ReportedAt(m: Tree, src: Path, lo: int, hi: int, c: Label, i: int)
    ensures FileName(c, i) in Reported(m, src, DataClasses, lo, hi) <==> lo <= i < hi && !Present(m, src, c, i)
  {
    TwoClasses(m, src, [], lo, hi);
    NamesOfSpec(True, MissingIndices(m, src, True, lo, hi));
    NamesOfSpec(False, MissingIndices(m, src, False, lo, hi));
    MissingIndicesMember(m, src, c, lo, hi, i);
  }

  /** An empty or reversed range copies nothing and reports nothing. */
  lemma EmptyRange(m: Tree, src: Path, out: Path, lo: int, hi: int)
    requires hi <= lo
    ensures Reported(m, src, DataClasses, lo, hi) == []
    ensures Distributed(m, src, out, DataClasses, lo, hi) == m
  {
    TwoClasses(m, src, out, lo, hi);
  }

  /** Two trees whose pools hold the same images miss the same indices. */
  lemma {:induction false} SameMissing(m: Tree, m': Tree, src: Path, c: Label, lo: int, hi: int)
    requires forall i :: lo <= i < hi ==> (Present(m, src, c, i) <==> Present(m', src, c, i))
    ensures MissingIndices(m, src, c, lo, hi) == MissingIndices(m', src, c, lo, hi)
    decreases hi - lo
  {
    if lo < hi {
      SameMissing(m, m', src, c, lo, hi - 1);
    }
  }

  /** A distribution leaves the pool as it was. */
  lemma DistributionKeepsPool(m: Tree, src: Path, out: Path, lo: int, hi: int, n: string)
    requires src != out + ["true"] && src != out + ["false"]
    ensures src + [n] in Distributed(m, src, out, DataClasses, lo, hi) <==> src + [n] in m
    ensures src + [n] in m ==> Distributed(m, src, out, DataClasses, lo, hi)[src + [n]] == m[src + [n]]
  {
    assert True.Marker() == "true" && False.Marker() == "false";
    DistributedAt(m, src, out, lo, hi, src + [n]);
    PoolNotTarget(m, src, out, True, lo, hi, n);
    PoolNotTarget(m, src, out, False, lo, hi, n);
  }

  /** `DistributionIdempotent` for one entry. */
  lemma DistributionIdempotentAt(m: Tree, src: Path, out: Path, lo: int, hi: int, p: Path)
    requires src != out + ["true"] && src != out + ["false"]
    ensures var d := Distributed(m, src, out, DataClasses, lo, hi);
      && (p in Distributed(d, src, out, DataClasses, lo, hi) <==> p in d)
      && (p in d ==> Distributed(d, src, out, DataClasses, lo, hi)[p] == d[p])
  {
    var d := Distributed(m, src, out, DataClasses, lo, hi);
    forall n ensures (src + [n] in d <==> src + [n] in m) && (src + [n] in m ==> d[src + [n]] == m[src + [n]]) {
      DistributionKeepsPool(m, src, out, lo, hi, n);
    }
    DistributedAt(m, src, out, lo, hi, p);
    DistributedAt(d, src, out, lo, hi, p);
    SameTargets(m, d, src, out + ["true"], True, lo, hi, p);
    SameTargets(m, d, src, out + ["false"], False, lo, hi, p);
  }

  /**
    Distributing the same range a second time changes nothing: the copies
    overwrite themselves with their own content.
   */
  lemma DistributionIdempotent(m: Tree, src: Path, out: Path, lo: int, hi: int)
    requires src != out + ["true"] && src != out + ["false"]
    ensures Distributed(Distributed(m, src, out, DataClasses, lo, hi), src, out, DataClasses, lo, hi)
         == Distributed(m, src, out, DataClasses, lo, hi)
  {
    var d := Distributed(m, src, out, DataClasses, lo, hi);
    forall p ensures (p in Distributed(d, src, out, DataClasses, lo, hi) <==> p in d)
      && (p in d ==> Distributed(d, src, out, DataClasses, lo, hi)[p] == d[p])
    {
      DistributionIdempotentAt(m, src, out, lo, hi, p);
    }
  }

  /** A second distribution of the same range reports the same missing names as the first. */
  lemma ReportedAgain(m: Tree, src: Path, out: Path, lo: int, hi: int)
    requires src != out + ["true"] && src != out + ["false"]
    ensures Reported(Distributed(m, src, out, DataClasses, lo, hi), src, DataClasses, lo, hi)
         == Reported(m, src, DataClasses, lo, hi)
  {
    var d := Distributed(m, src, out, DataClasses, lo, hi);
    MissingAgain(m, src, out, lo, hi, True);
    MissingAgain(m, src, out, lo, hi, False);
    TwoClasses(m, src, out, lo, hi);
    TwoClasses(d, src, out, lo, hi);
  }

  lemma MissingAgain(m: Tree, src: Path, out: Path, lo: int, hi: int, c: Label)
    requires src != out + ["true"] && src != out + ["false"]
    ensures MissingIndices(Distributed(m, src, out, DataClasses, lo, hi), src, c, lo, hi) == MissingIndices(m, src, c, lo, hi)
  {
    var d := Distributed(m, src, out, DataClasses, lo, hi);
    forall i | lo <= i < hi ensures Present(m, src, c, i) <==> Present(d, src, c, i) {
      DistributionKeepsPool(m, src, out, lo, hi, FileName(c, i));
    }
    SameMissing(m, d, src, c, lo, hi);
  }

  /** Which entries are copies depends only on the images the pool holds. */
  lemma SameTargets(m: Tree, m': Tree, src: Path, dst: Path, c: Label, lo: int, hi: int, p: Path)
    requires forall n :: (src + [n] in m' <==> src + [n] in m) && (src + [n] in m ==> m'[src + [n]] == m[src + [n]])
    ensures Target(m, src, dst, c, lo, hi, p) <==> Target(m', src, dst, c, lo, hi, p)
  {
  }

  /**
    The outcome of a distribution for one image, read off the final tree:
    every image of the range the pool holds has a copy in its class directory,
    and the images of the range the pool lacks are exactly the ones reported.
   */
  lemma DistributionResult(m: Tree, src: Path, out: Path, lo: int, hi: int, c: Label, i: int)
    requires src != out + ["true"] && src != out + ["false"]
    ensures var d := Distributed(m, src, out, DataClasses, lo, hi);
      lo <= i < hi && Present(d, src, c, i) ==>
        && out + [c.Marker()] + [FileName(c, i)] in d
        && d[out + [c.Marker()] + [FileName(c, i)]] == d[src + [FileName(c, i)]]
    ensures FileName(c, i) in Reported(m, src, DataClasses, lo, hi) <==>
      lo <= i < hi && !Present(Distributed(m, src, out, DataClasses, lo, hi), src, c, i)
  {
    var p := out + [c.Marker()] + [FileName(c, i)];
    assert c.Marker() == "true" || c.Marker() == "false";
    DistributionKeepsPool(m, src, out, lo, hi, FileName(c, i));
    ReportedAt(m, src, lo, hi, c, i);
    TargetOf(m, src, out + [c.Marker()], c, lo, hi, i);
    DistributedAt(m, src, out, lo, hi, p);
    assert p[|out| + 1] == FileName(c, i);
    TargetsApart(m, src, out, lo, hi, p);
  }

  /**
    Inside a class directory, after a distribution: what was there before, and
    the copies of the images of that class of the range that the pool holds.
   */
  lemma DistributedNew(m: Tree, src: Path, out: Path, lo: int, hi: int, c: Label, n: string)
    requires src != out + ["true"] && src != out + ["false"]
    ensures var p := out + [c.Marker()] + [n];
      p in Distributed(m, src, out, DataClasses, lo, hi) <==>
        p in m || Target(Distributed(m, src, out, DataClasses, lo, hi), src, out + [c.Marker()], c, lo, hi, p)
  {
    var p := out + [c.Marker()] + [n];
    var d := Distributed(m, src, out, DataClasses, lo, hi);
    assert p[..|out| + 1] == out + [c.Marker()] && p[|out| + 1] == n;
    DistributedAt(m, src, out, lo, hi, p);
    match ParseFileName(n)
    case None =>
    case Some(ci) =>
      DistributionKeepsPool(m, src, out, lo, hi, FileName(ci.0, ci.1));
      assert (out + ["true"])[|out|] != (out + ["false"])[|out|];
  }

  /** A distribution touches nothing but the entries directly inside the class directories of `out`. */
  lemma DistributedElsewhere(m: Tree, src: Path, out: Path, lo: int, hi: int, p: Path)
    requires |p| != |out| + 2 || p[..|out|] != out
    ensures p in Distributed(m, src, out, DataClasses, lo, hi) <==> p in m
    ensures p in m ==> Distributed(m, src, out, DataClasses, lo, hi)[p] == m[p]
  {
    DistributedAt(m, src, out, lo, hi, p);
    if |p| == |out| + 2 {
      assert p[..|out| + 1][..|out|] == p[..|out|];
    }
  }

  /**
    The distribution of the images `[start, end)` of the pool `src` into the
    class directories of `out`. A missing image never stops the loop; the
    warning is issued exactly when something was missing.
   */
  method DataDistribution(fs: FileSystem, start: int, end: int, src: Path, out: Path)
    returns (notFound: seq<string>, warned: bool)
    requires Layout(fs.entries, src, out)
    modifies fs
    ensures Layout(fs.entries, src, out)
    ensures notFound == Reported(old(fs.entries), src, DataClasses, start, end)
    ensures fs.entries == Distributed(old(fs.entries), src, out, DataClasses, start, end)
    ensures warned <==> notFound != []
  {
    ghost var m := fs.entries;
    notFound := [];
    for k := 0 to |DataClasses|
      invariant Layout(fs.entries, src, out) && SamePool(m, fs.entries, src)
      invariant notFound == Reported(m, src, DataClasses[..k], start, end)
      invariant fs.entries == Distributed(m, src, out, DataClasses[..k], start, end)
    {
      StepClass(m, src, out, DataClasses, k, start, end);
      var missing := CopyClass(fs, m, start, end, src, out, DataClasses[k]);
      notFound := notFound + missing;
    }
    assert DataClasses[..|DataClasses|] == DataClasses;
    warned := notFound != [];
  }
}
