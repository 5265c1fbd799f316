/** What each archive holds, and which old file each new file is best rebuilt from. */
module Analysis {
  import opened Bytes
  import opened DeltaOps
  import opened RollingSum
  import opened TarModel
  import R = Rollsum

  type Digest = Bytes

  datatype TarFileInfo = TarFileInfo(index: nat, basename: Path, path: Path, size: nat, sha1: Digest, blobs: seq<Blob>,
                                     overwritten: bool)

  /** The last element of a path. */
  function BaseName(path: Path): Path
  {
    if path == [] || path[|path| - 1] == 47 then [] else BaseName(path[..|path| - 1]) + [path[|path| - 1]]
  }

  // ----- One archive

  /** `f` describes its entry; it is overwritten if its path turns up again among the first `n` entries. */
  ghost predicate Describes(entries: seq<Entry>, n: nat, f: TarFileInfo, sha: Bytes -> Digest, crc: Bytes -> nat)
    requires n <= |entries|
  {
    && f.index < n && UseTarFile(entries[f.index])
    && var e := entries[f.index];
       && f.path == e.path && f.basename == BaseName(e.path) && f.size == e.size
       && f.sha1 == sha(e.data) && f.blobs == BlobsOf(e.data, 0, crc)
       && (f.overwritten <==> PathLater(entries, f.index, n, e.path))
  }

  ghost predicate FilesOk(entries: seq<Entry>, n: nat, files: seq<TarFileInfo>, sha: Bytes -> Digest, crc: Bytes -> nat)
    requires n <= |entries|
  {
    && (forall k | 0 <= k < |files| :: Describes(entries, n, files[k], sha, crc))
    && (forall k, l | 0 <= k < l < |files| :: files[k].index < files[l].index)
    && (forall i | 0 <= i < n && UseTarFile(entries[i]) :: exists k :: 0 <= k < |files| && files[k].index == i)
  }

  /** Described are just the ordinary files that are not empty, not sparse, and readable by everyone. */
  lemma DescribedExactly(entries: seq<Entry>, files: seq<TarFileInfo>, sha: Bytes -> Digest, crc: Bytes -> nat, i: nat)
    requires FilesOk(entries, |entries|, files, sha, crc) && i < |entries|
    ensures
      var e := entries[i];
      (exists k :: 0 <= k < |files| && files[k].index == i) <==>
        e.path != [] && e.regular && !e.sparse && e.size > 0 && e.mode % 8 >= 4
  {
    hide BlobsOf, BaseName, UseTarFile, PathLater;
    Usable(entries[i]);
    if k :| 0 <= k < |files| && files[k].index == i {
      assert Describes(entries, |entries|, files[k], sha, crc);
    }
  }

  lemma Usable(e: Entry)
    ensures UseTarFile(e) <==> e.path != [] && e.regular && !e.sparse && e.size > 0 && e.mode % 8 >= 4
  {
  }

  /** Each path leads to its last file. */
  ghost predicate ByPath(files: seq<TarFileInfo>, infoByPath: map<Path, nat>)
  {
    && (forall p | p in infoByPath :: infoByPath[p] < |files| && files[infoByPath[p]].path == p)
    && (forall k | 0 <= k < |files| :: files[k].path in infoByPath && k <= infoByPath[files[k].path])
  }

  lemma DescribesNext(entries: seq<Entry>, n: nat, f: TarFileInfo, sha: Bytes -> Digest, crc: Bytes -> nat)
    requires n < |entries| && Describes(entries, n, f, sha, crc)
    ensures f.index < n
    ensures Describes(entries, n + 1, if f.path == entries[n].path then f.(overwritten := true) else f, sha, crc)
  {
  }

  lemma AlreadyMarked(entries: seq<Entry>, n: nat, f: TarFileInfo, g: TarFileInfo, sha: Bytes -> Digest,
                      crc: Bytes -> nat)
    requires n <= |entries| && Describes(entries, n, f, sha, crc) && Describes(entries, n, g, sha, crc)
    requires f.index < g.index && f.path == g.path
    ensures f.overwritten
  {
  }

  /** All but the coverage of entry `n` itself. */
  ghost predicate FilesBefore(entries: seq<Entry>, n: nat, files: seq<TarFileInfo>, sha: Bytes -> Digest,
                              crc: Bytes -> nat)
    requires n < |entries|
  {
    && (forall k | 0 <= k < |files| :: Describes(entries, n + 1, files[k], sha, crc) && files[k].index < n)
    && (forall k, l | 0 <= k < l < |files| :: files[k].index < files[l].index)
    && (forall i | 0 <= i < n && UseTarFile(entries[i]) :: exists k :: 0 <= k < |files| && files[k].index == i)
  }

  /** Marks the file last seen under the path of entry `n`. */
  lemma MarkOverwritten(entries: seq<Entry>, n: nat, files: seq<TarFileInfo>, infoByPath: map<Path, nat>,
                        marked: seq<TarFileInfo>, sha: Bytes -> Digest, crc: Bytes -> nat)
    requires n < |entries| && FilesOk(entries, n, files, sha, crc) && ByPath(files, infoByPath)
    requires var p := entries[n].path;
             marked
             == if p in infoByPath then files[infoByPath[p] := files[infoByPath[p]].(overwritten := true)] else files
    ensures FilesBefore(entries, n, marked, sha, crc)
    ensures ByPath(marked, infoByPath)
  {
    hide UseTarFile, Describes;
    var p := entries[n].path;
    forall k | 0 <= k < |marked|
      ensures Describes(entries, n + 1, marked[k], sha, crc) && marked[k].index == files[k].index < n
      ensures marked[k].path == files[k].path
    {
      assert Describes(entries, n, files[k], sha, crc);
      DescribesNext(entries, n, files[k], sha, crc);
      if files[k].path == p && k != infoByPath[p] {
        AlreadyMarked(entries, n, files[k], files[infoByPath[p]], sha, crc);
        assert files[k] == files[k].(overwritten := true);
      }
    }
    forall i | 0 <= i < n && UseTarFile(entries[i])
      ensures exists k :: 0 <= k < |marked| && marked[k].index == i
    {
      var k :| 0 <= k < |files| && files[k].index == i;
      assert marked[k].index == i;
    }
  }

  method DescribeFile(e: Entry, index: nat, sha: Bytes -> Digest, crc: Bytes -> nat) returns (f: TarFileInfo)
    ensures f == TarFileInfo(index, BaseName(e.path), e.path, e.size, sha(e.data), BlobsOf(e.data, 0, crc), false)
  {
    var r := new R.Rollsum(crc);
    var _ := r.Write(e.data);
    assert r.data == e.data && r.base == 0 && r.done == [];
    var blobs := r.GetBlobs();
    f := TarFileInfo(index, BaseName(e.path), e.path, e.size, sha(e.data), blobs, false);
  }

  method AnalyzeTar(t: Tar, sha: Bytes -> Digest, crc: Bytes -> nat) returns (files: seq<TarFileInfo>)
    ensures FilesOk(t.entries, |t.entries|, files, sha, crc)
  {
    hide FilesOk, FilesBefore, UseTarFile;
    NoFiles(t.entries, sha, crc);
    files := [];
    var infoByPath: map<Path, nat> := map[];
    for index := 0 to |t.entries|
      invariant FilesOk(t.entries, index, files, sha, crc) && ByPath(files, infoByPath)
    {
      var e := t.entries[index];
      ghost var before := files;
      if e.path in infoByPath {
        var oldIndex := infoByPath[e.path];
        files := files[oldIndex := files[oldIndex].(overwritten := true)];
      }
      MarkOverwritten(t.entries, index, before, infoByPath, files, sha, crc);
      ghost var marked := files;
      if UseTarFile(e) {
        var f := DescribeFile(e, index, sha, crc);
        infoByPath := infoByPath[e.path := |files|];
        files := files + [f];
        FileAdded(t.entries, index, marked, f, sha, crc);
      } else {
        FileSkipped(t.entries, index, marked, sha, crc);
      }
    }
  }

  lemma FileAdded(entries: seq<Entry>, n: nat, files: seq<TarFileInfo>, f: TarFileInfo, sha: Bytes -> Digest,
                  crc: Bytes -> nat)
    requires n < |entries| && UseTarFile(entries[n]) && FilesBefore(entries, n, files, sha, crc)
    requires var e := entries[n];
             f == TarFileInfo(n, BaseName(e.path), e.path, e.size, sha(e.data), BlobsOf(e.data, 0, crc), false)
    ensures FilesOk(entries, n + 1, files + [f], sha, crc)
  {
    hide UseTarFile, BaseName, BlobsOf;
    var all := files + [f];
    assert Describes(entries, n + 1, f, sha, crc);
    forall i | 0 <= i < n + 1 && UseTarFile(entries[i])
      ensures exists k :: 0 <= k < |all| && all[k].index == i
    {
      if i == n {
        assert all[|files|].index == i;
      } else {
        var k :| 0 <= k < |files| && files[k].index == i;
        assert all[k].index == i;
      }
    }
  }

  lemma NoFiles(entries: seq<Entry>, sha: Bytes -> Digest, crc: Bytes -> nat)
    ensures FilesOk(entries, 0, [], sha, crc)
  {
  }

  lemma FileSkipped(entries: seq<Entry>, n: nat, files: seq<TarFileInfo>, sha: Bytes -> Digest, crc: Bytes -> nat)
    requires n < |entries| && !UseTarFile(entries[n]) && FilesBefore(entries, n, files, sha, crc)
    ensures FilesOk(entries, n + 1, files, sha, crc)
  {
  }
}
