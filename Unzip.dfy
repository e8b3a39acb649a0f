/**
  The archive extractor (`FileHandler.__unzip_data`): every archive of a
  directory is unpacked into one output directory. The archive format is not
  modelled: what an archive holds is given by a function from its bytes to its
  members, each a file name and the file's content, in the order the archive
  stores them.
 */
module Unzip {
  import opened Disk

  /** One file stored in an archive. */
  datatype Member = Member(name: string, data: Bytes)

  /** The names of the files an archive holds. */
  function MemberNames(members: seq<Member>): (r: set<string>)
    ensures forall n :: n in r <==> exists k :: 0 <= k < |members| && members[k].name == n
  {
    set k | 0 <= k < |members| :: members[k].name
  }

  /** `members[k]` is the last member named `n`: the one whose content survives extraction. */
  predicate LastNamed(members: seq<Member>, n: string, k: int)
  {
    0 <= k < |members| && members[k].name == n && forall j :: k < j < |members| ==> members[j].name != n
  }

  /** The tree after `members` were extracted into `out`, one after the other. */
  function Extracted(m: Tree, out: Path, members: seq<Member>): Tree
    decreases |members|
  {
    if members == [] then m
    else
      var last := members[|members| - 1];
      Extracted(m, out, members[..|members| - 1])[out + [last.name] := File(last.data)]
  }

  /**
    Extraction, entry by entry inside `out`: the files of the archive appear
    there, each with the content of the last member of that name, and the
    other entries of `out` stay.
   */
  lemma {:induction false} ExtractedAt(m: Tree, out: Path, members: seq<Member>, n: string)
    ensures out + [n] in Extracted(m, out, members) <==> out + [n] in m || n in MemberNames(members)
    ensures forall k :: LastNamed(members, n, k) ==> Extracted(m, out, members)[out + [n]] == File(members[k].data)
    ensures out + [n] in m && n !in MemberNames(members) ==> Extracted(m, out, members)[out + [n]] == m[out + [n]]
    decreases |members|
  {
    if members != [] {
      var prefix := members[..|members| - 1];
      var last := members[|members| - 1];
      ExtractedAt(m, out, prefix, n);
      assert out + [n] == out + [last.name] <==> n == last.name by {
        if out + [n] == out + [last.name] {
          assert (out + [n])[|out|] == n;
        }
      }
      assert MemberNames(members) == MemberNames(prefix) + {last.name} by {
        assert forall k :: 0 <= k < |prefix| ==> prefix[k] == members[k];
      }
      forall k | LastNamed(members, n, k) && k < |prefix|
        ensures Extracted(m, out, members)[out + [n]] == File(members[k].data)
      {
        assert members[|members| - 1].name != n;
        assert prefix[k] == members[k];
        assert forall j :: k < j < |prefix| ==> prefix[j].name != n by {
          assert forall j :: k < j < |prefix| ==> prefix[j] == members[j];
        }
      }
    }
  }

  /** Extraction touches nothing but the entries directly inside `out`. */
  lemma {:induction false} ExtractedElsewhere(m: Tree, out: Path, members: seq<Member>, p: Path)
    requires |p| != |out| + 1 || p[..|out|] != out
    ensures p in Extracted(m, out, members) <==> p in m
    ensures p in m ==> Extracted(m, out, members)[p] == m[p]
    decreases |members|
  {
    if members != [] {
      ExtractedElsewhere(m, out, members[..|members| - 1], p);
      var q := out + [members[|members| - 1].name];
      assert q[..|out|] == out;
    }
  }

  /** The tree after the archives `archives` of `zip` (as `m` holds them) were unpacked into `out`, in that order. */
  function Unzipped(m: Tree, zip: Path, out: Path, archives: seq<string>, unpack: Bytes -> seq<Member>): Tree
    decreases |archives|
  {
    if archives == [] then m
    else
      var last := archives[|archives| - 1];
      Extracted(Unzipped(m, zip, out, archives[..|archives| - 1], unpack), out, unpack(DataAt(m, zip + [last])))
  }

  /** The names of all files the archives `archives` of `zip` hold. */
  function ArchiveNames(m: Tree, zip: Path, archives: seq<string>, unpack: Bytes -> seq<Member>): set<string>
    decreases |archives|
  {
    if archives == [] then {}
    else
      var last := archives[|archives| - 1];
      ArchiveNames(m, zip, archives[..|archives| - 1], unpack) + MemberNames(unpack(DataAt(m, zip + [last])))
  }

  /** Which names the archives hold depends only on the archive files themselves. */
  lemma {:induction false} SameArchiveNames(m: Tree, m': Tree, zip: Path, archives: seq<string>, unpack: Bytes -> seq<Member>)
    requires forall j :: 0 <= j < |archives| ==> DataAt(m, zip + [archives[j]]) == DataAt(m', zip + [archives[j]])
    ensures ArchiveNames(m, zip, archives, unpack) == ArchiveNames(m', zip, archives, unpack)
    decreases |archives|
  {
    if archives != [] {
      SameArchiveNames(m, m', zip, archives[..|archives| - 1], unpack);
    }
  }

  /** After unpacking, `out` holds what it held before and the files of every archive. */
  lemma {:induction false} UnzippedAt(m: Tree, zip: Path, out: Path, archives: seq<string>,
                                      unpack: Bytes -> seq<Member>, n: string)
    ensures out + [n] in Unzipped(m, zip, out, archives, unpack) <==>
      out + [n] in m || n in ArchiveNames(m, zip, archives, unpack)
    ensures out + [n] in Unzipped(m, zip, out, archives, unpack) ==>
      || Unzipped(m, zip, out, archives, unpack)[out + [n]].File?
      || (out + [n] in m && Unzipped(m, zip, out, archives, unpack)[out + [n]] == m[out + [n]])
    decreases |archives|
  {
    if archives != [] {
      var prefix := archives[..|archives| - 1];
      UnzippedAt(m, zip, out, prefix, unpack, n);
      var members := unpack(DataAt(m, zip + [archives[|archives| - 1]]));
      ExtractedAt(Unzipped(m, zip, out, prefix, unpack), out, members, n);
      if n in MemberNames(members) {
        LastOccurrence(members, n);
      }
    }
  }

  /** A name an archive holds has a last occurrence among its members. */
  lemma {:induction false} LastOccurrence(members: seq<Member>, n: string)
    requires n in MemberNames(members)
    ensures exists k :: LastNamed(members, n, k)
    decreases |members|
  {
    var last := |members| - 1;
    if members[last].name == n {
      assert LastNamed(members, n, last);
    } else {
      var prefix := members[..last];
      assert n in MemberNames(prefix) by {
        var k :| 0 <= k < |members| && members[k].name == n;
        assert prefix[k] == members[k];
      }
      LastOccurrence(prefix, n);
      var k :| LastNamed(prefix, n, k);
      assert LastNamed(members, n, k) by {
        assert forall j :: k < j < last ==> prefix[j] == members[j];
      }
    }
  }

  /** Unpacking touches nothing but the entries directly inside `out`. */
  lemma {:induction false} UnzippedElsewhere(m: Tree, zip: Path, out: Path, archives: seq<string>,
                                             unpack: Bytes -> seq<Member>, p: Path)
    requires |p| != |out| + 1 || p[..|out|] != out
    ensures p in Unzipped(m, zip, out, archives, unpack) <==> p in m
    ensures p in m ==> Unzipped(m, zip, out, archives, unpack)[p] == m[p]
    decreases |archives|
  {
    if archives != [] {
      var prefix := archives[..|archives| - 1];
      UnzippedElsewhere(m, zip, out, prefix, unpack, p);
      ExtractedElsewhere(Unzipped(m, zip, out, prefix, unpack), out,
                         unpack(DataAt(m, zip + [archives[|archives| - 1]])), p);
    }
  }

  /** `shutil.unpack_archive` into the directory `out`, which holds no subdirectory. */
  method UnpackArchive(fs: FileSystem, out: Path, members: seq<Member>)
    requires fs.Valid() && |out| > 0 && IsDir(fs.entries, out) && NoSubdirs(fs.entries, out)
    modifies fs
    ensures fs.Valid() && IsDir(fs.entries, out) && NoSubdirs(fs.entries, out)
    ensures fs.entries == Extracted(old(fs.entries), out, members)
  {
    ghost var m := fs.entries;
    for k := 0 to |members|
      invariant fs.Valid() && IsDir(fs.entries, out) && NoSubdirs(fs.entries, out)
      invariant fs.entries == Extracted(m, out, members[..k])
    {
      var p := out + [members[k].name];
      assert Parent(p) == out;
      assert members[..k + 1][..k] == members[..k];
      fs.WriteFile(p, members[k].data);
      forall n | out + [n] in fs.entries ensures fs.entries[out + [n]].File? {
        if n != members[k].name {
          assert out + [n] != p by {
            assert (out + [n])[|out|] == n;
          }
        }
      }
    }
    assert members[..|members|] == members;
  }

  /**
    `__unzip_data(zip, out)`: every archive directly inside `zip`, in the order
    the directory walk yields them, is unpacked into `out`. A walk of a
    directory that does not exist yields nothing, so then nothing is unpacked.
   */
  method UnzipData(fs: FileSystem, zip: Path, out: Path, unpack: Bytes -> seq<Member>)
    returns (archives: seq<string>)
    requires fs.Valid() && |zip| > 0 && NoSubdirs(fs.entries, zip)
    requires |out| > 0 && IsDir(fs.entries, out) && NoSubdirs(fs.entries, out) && zip != out
    modifies fs
    ensures fs.Valid() && IsDir(fs.entries, out) && NoSubdirs(fs.entries, out)
    ensures Distinct(archives) && forall n :: n in archives <==> IsFile(old(fs.entries), zip + [n])
    ensures fs.entries == Unzipped(old(fs.entries), zip, out, archives, unpack)
  {
    ghost var m := fs.entries;
    if !IsDir(fs.entries, zip) {
      ChildrenOnlyOfDirs(fs.entries, zip);
      return [];
    }
    archives := fs.ListFiles(zip);
    for k := 0 to |archives|
      invariant fs.Valid() && IsDir(fs.entries, out) && NoSubdirs(fs.entries, out)
      invariant fs.entries == Unzipped(m, zip, out, archives[..k], unpack)
    {
      var p := zip + [archives[k]];
      assert |p| != |out| + 1 || p[..|out|] != out by {
        if |p| == |out| + 1 {
          assert p[..|zip|] == zip;
        }
      }
      UnzippedElsewhere(m, zip, out, archives[..k], unpack, p);
      assert archives[..k + 1][..k] == archives[..k];
      UnpackArchive(fs, out, unpack(fs.entries[p].data));
    }
    assert archives[..|archives|] == archives;
  }
}
