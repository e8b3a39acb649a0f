/**
  The two-level file counter (`FileHandler.counting_files_in_dirs`): for each
  directory given, the files directly inside each of its immediate
  subdirectories are counted, and the counts are added up.
 */
module Accounting {
  import opened Disk

  /**
    The files two levels below `d`: the regular files directly inside some
    directory directly inside `d`. Files directly in `d`, and anything deeper,
    are not among them.
   */
  function GrandFiles(m: Tree, d: Path): set<Path>
  {
    set p | p in m && |p| == |d| + 2 && p[..|d|] == d && m[p].File?
  }

  /** What `counting_files_in_dirs` counts for one directory. */
  function DirCount(m: Tree, d: Path): nat
  {
    |GrandFiles(m, d)|
  }

  /** What `counting_files_in_dirs` returns: the counts of the directories, repetitions included. */
  function TotalFiles(m: Tree, dirs: seq<Path>): nat
    decreases |dirs|
  {
    if dirs == [] then 0 else TotalFiles(m, dirs[..|dirs| - 1]) + DirCount(m, dirs[|dirs| - 1])
  }

  /** The files two levels below `d` that sit in one of the subdirectories `names`. */
  function Within(m: Tree, d: Path, names: set<string>): set<Path>
  {
    set p | p in m && |p| == |d| + 2 && p[..|d|] == d && p[|d|] in names && m[p].File?
  }

  /** In a well-formed tree every file two levels below `d` sits in a subdirectory of `d`. */
  lemma WithinSubdirs(m: Tree, d: Path)
    requires WellFormed(m) && |d| > 0
    ensures Within(m, d, Subdirs(m, d)) == GrandFiles(m, d)
  {
    forall p | p in GrandFiles(m, d) ensures p[|d|] in Subdirs(m, d) {
      assert Parent(p) == d + [p[|d|]];
    }
  }

  /** `n` distinct names placed in one directory are `n` distinct paths. */
  lemma {:induction false} PlacedCount(d: Path, names: set<string>)
    ensures |Placed(d, names)| == |names|
    decreases |names|
  {
    if names != {} {
      var x :| x in names;
      PlacedCount(d, names - {x});
      assert Placed(d, names) == Placed(d, names - {x}) + {d + [x]} by {
        assert (d + [x])[..|d|] == d && (d + [x])[|d|] == x;
      }
      assert d + [x] !in Placed(d, names - {x}) by {
        assert (d + [x])[|d|] == x;
      }
    }
  }

  /** The files two levels below `d` that sit in the subdirectory `s` are the files of `s`. */
  lemma WithinOne(m: Tree, d: Path, s: string)
    ensures Within(m, d, {s}) == Placed(d + [s], Files(m, d + [s]))
  {
    var placed := Placed(d + [s], Files(m, d + [s]));
    forall p | p in placed ensures p in Within(m, d, {s}) {
      assert p[..|d|] == (d + [s])[..|d|] == d;
      assert p[|d|] == (d + [s])[|d|] == s;
    }
    forall p | p in Within(m, d, {s}) ensures p in placed {
      assert p[..|d| + 1] == d + [s];
      assert p == (d + [s]) + [p[|d| + 1]];
    }
  }

  /** Files in different subdirectories are different files. */
  lemma WithinUnion(m: Tree, d: Path, names: set<string>, s: string)
    requires s !in names
    ensures Within(m, d, names + {s}) == Within(m, d, names) + Within(m, d, {s})
    ensures Within(m, d, names) !! Within(m, d, {s})
  {
  }

  /** One more subdirectory `s` adds exactly its own files. */
  lemma WithinAdd(m: Tree, d: Path, names: set<string>, s: string)
    requires s !in names
    ensures |Within(m, d, names + {s})| == |Within(m, d, names)| + |Files(m, d + [s])|
  {
    WithinUnion(m, d, names, s);
    WithinOne(m, d, s);
    PlacedCount(d + [s], Files(m, d + [s]));
  }

  /** One more subdirectory of the walk: its files, listed without repetition, are added to the count. */
  lemma SubdirStep(m: Tree, d: Path, folders: seq<string>, j: int, files: seq<string>)
    requires Distinct(folders) && 0 <= j < |folders|
    requires Distinct(files) && forall n :: n in files <==> IsFile(m, d + [folders[j]] + [n])
    ensures |Within(m, d, Elements(folders[..j + 1]))| == |Within(m, d, Elements(folders[..j]))| + |files|
  {
    DistinctCount(files);
    assert Elements(files) == Files(m, d + [folders[j]]);
    assert Elements(folders[..j + 1]) == Elements(folders[..j]) + {folders[j]} by {
      assert folders[..j + 1] == folders[..j] + [folders[j]];
    }
    WithinAdd(m, d, Elements(folders[..j]), folders[j]);
  }

  /** Once every subdirectory of the walk is done, the count of `d` is complete. */
  lemma DirDone(m: Tree, d: Path, folders: seq<string>)
    requires WellFormed(m) && |d| > 0 && forall n :: n in folders <==> IsDir(m, d + [n])
    ensures |Within(m, d, Elements(folders[..|folders|]))| == DirCount(m, d)
  {
    assert Elements(folders[..|folders|]) == Subdirs(m, d) by {
      assert folders[..|folders|] == folders;
    }
    WithinSubdirs(m, d);
  }

  /** A directory without subdirectories contributes nothing. */
  lemma NoSubdirsCountNothing(m: Tree, d: Path)
    requires WellFormed(m) && |d| > 0 && Subdirs(m, d) == {}
    ensures DirCount(m, d) == 0
  {
    WithinSubdirs(m, d);
  }

  /** Adding or replacing an entry that is not two levels below `d` leaves its count as it was. */
  lemma CountIgnores(m: Tree, d: Path, p: Path, e: Entry)
    requires |p| != |d| + 2 || p[..|d|] != d
    ensures DirCount(m[p := e], d) == DirCount(m, d)
  {
    assert GrandFiles(m[p := e], d) == GrandFiles(m, d);
  }

  /** Each argument is counted on its own: the total over a concatenation is the sum of the totals. */
  lemma {:induction false} TotalAppend(m: Tree, xs: seq<Path>, ys: seq<Path>)
    ensures TotalFiles(m, xs + ys) == TotalFiles(m, xs) + TotalFiles(m, ys)
    decreases |ys|
  {
    if ys == [] {
      assert xs + ys == xs;
    } else {
      var prefix := ys[..|ys| - 1];
      TotalAppend(m, xs, prefix);
      assert (xs + ys)[..|xs + ys| - 1] == xs + prefix;
    }
  }

  /**
    `counting_files_in_dirs(*dirs)`: every directory must exist (the walk of a
    missing one has no first level). Nothing changes.
   */
  method CountingFilesInDirs(fs: FileSystem, dirs: seq<Path>) returns (counter: int)
    requires fs.Valid() && forall i :: 0 <= i < |dirs| ==> |dirs[i]| > 0 && IsDir(fs.entries, dirs[i])
    ensures counter == TotalFiles(fs.entries, dirs)
  {
    counter := 0;
    for i := 0 to |dirs|
      invariant counter == TotalFiles(fs.entries, dirs[..i])
    {
      var directory := dirs[i];
      var folders := fs.ListSubdirs(directory);
      ghost var base := counter;
      for j := 0 to |folders|
        invariant counter == base + |Within(fs.entries, directory, Elements(folders[..j]))|
      {
        var files := fs.ListFiles(directory + [folders[j]]);
        SubdirStep(fs.entries, directory, folders, j, files);
        counter := counter + |files|;
      }
      DirDone(fs.entries, directory, folders);
      assert dirs[..i + 1][..i] == dirs[..i];
    }
    assert dirs[..|dirs|] == dirs;
  }
}
