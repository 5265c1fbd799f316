/** Tar archives as sequences of (header, data, padding) segments and a trailer. */
module TarModel {
  import opened Bytes
  import opened DeltaOps

  /** `path` is the cleaned path; `size` is the header's size field. */
  datatype Entry = Entry(header: Bytes, path: Path, regular: bool, sparse: bool, mode: nat, size: nat, data: Bytes,
                         padding: Bytes)

  datatype Tar = Tar(entries: seq<Entry>, trailer: Bytes)

  function EntryBytes(e: Entry): Bytes
  {
    e.header + e.data + e.padding
  }

  /** The bytes of the first `i` entries. */
  function Prefix(entries: seq<Entry>, i: nat): Bytes
    requires i <= |entries|
  {
    if i == 0 then [] else Prefix(entries, i - 1) + EntryBytes(entries[i - 1])
  }

  function TarBytes(t: Tar): Bytes
  {
    Prefix(t.entries, |t.entries|) + t.trailer
  }

  const ROOT: Path := [46]

  /**
   The size field of an ordinary file is the number of its data bytes; Go sizes are below 2^63; a cleaned path is never
   ".", but empty for the root.
   */
  ghost predicate WellFormed(t: Tar)
  {
    && (forall i | 0 <= i < |t.entries| ::
          var e := t.entries[i];
          && e.path != ROOT && |e.data| < 0x8000_0000_0000_0000 && e.size < 0x8000_0000_0000_0000
          && (e.regular && !e.sparse ==> e.size == |e.data|))
  }

  /** Files worth a delta: ordinary, non-empty, not sparse, readable by everyone. */
  predicate UseTarFile(e: Entry)
  {
    e.path != [] && e.regular && e.size != 0 && !e.sparse && e.mode / 4 % 2 != 0
  }

  /** How a reader of the archive calls the root. */
  function NameOf(path: Path): Path
  {
    if path == [] then ROOT else path
  }

  /** The contents a reader of the archive sees by path: the last entry of a path wins. */
  function FilesOf(entries: seq<Entry>): Files
  {
    if entries == [] then map[]
    else
      var e := entries[|entries| - 1];
      FilesOf(entries[..|entries| - 1])[NameOf(e.path) := e.data]
  }

  ghost predicate PathLater(entries: seq<Entry>, i: nat, n: nat, path: Path)
    requires n <= |entries|
  {
    exists j :: i < j < n && entries[j].path == path
  }

  ghost predicate NoPathTwice(entries: seq<Entry>)
  {
    forall i, j | 0 <= i < j < |entries| :: entries[i].path != entries[j].path
  }

  /** Every file worth a delta is found by its path, with its content if the path does not come up again. */
  ghost predicate Finds(files: Files, entries: seq<Entry>)
  {
    forall i | 0 <= i < |entries| && UseTarFile(entries[i]) ::
      && entries[i].path in files
      && (!PathLater(entries, i, |entries|, entries[i].path) ==> files[entries[i].path] == entries[i].data)
  }

  /** A reader of the archive does so. */
  lemma FilesOfFinds(t: Tar)
    requires WellFormed(t)
    ensures Finds(FilesOf(t.entries), t.entries)
  {
    hide FilesOf, PathLater;
    forall i | 0 <= i < |t.entries| && UseTarFile(t.entries[i])
      ensures var p := t.entries[i].path;
              && p in FilesOf(t.entries)
              && (!PathLater(t.entries, i, |t.entries|, p) ==> FilesOf(t.entries)[p] == t.entries[i].data)
    {
      PathFound(t.entries, i);
      if !PathLater(t.entries, i, |t.entries|, t.entries[i].path) {
        LastOfPath(t.entries, i);
      }
    }
  }

  lemma {:induction false} LastOfPath(entries: seq<Entry>, i: nat)
    requires i < |entries| && !PathLater(entries, i, |entries|, entries[i].path)
    requires forall j | 0 <= j < |entries| :: entries[j].path != ROOT
    ensures NameOf(entries[i].path) in FilesOf(entries)
    ensures FilesOf(entries)[NameOf(entries[i].path)] == entries[i].data
    decreases |entries|
  {
    var init := entries[..|entries| - 1];
    if i >= |init| {
    } else {
      assert !PathLater(init, i, |init|, init[i].path);
      LastOfPath(init, i);
    }
  }

  lemma {:induction false} PathFound(entries: seq<Entry>, i: nat)
    requires i < |entries|
    ensures NameOf(entries[i].path) in FilesOf(entries)
    decreases |entries|
  {
    if i >= |entries| - 1 {
    } else {
      PathFound(entries[..|entries| - 1], i);
    }
  }

  lemma {:induction false} FilesFromEntries(entries: seq<Entry>)
    ensures forall p | p in FilesOf(entries) :: exists i :: 0 <= i < |entries| && FilesOf(entries)[p] == entries[i].data
    decreases |entries|
  {
    if entries == [] {
    } else {
      var init := entries[..|entries| - 1];
      FilesFromEntries(init);
      forall p | p in FilesOf(entries)
        ensures exists i :: 0 <= i < |entries| && FilesOf(entries)[p] == entries[i].data
      {
        if p == NameOf(entries[|entries| - 1].path) {
          assert FilesOf(entries)[p] == entries[|entries| - 1].data;
        } else {
          var i :| 0 <= i < |init| && FilesOf(init)[p] == init[i].data;
          assert FilesOf(entries)[p] == entries[i].data;
        }
      }
    }
  }

  lemma {:induction false} PrefixBytes(t: Tar, i: nat)
    requires i <= |t.entries|
    ensures |Prefix(t.entries, i)| <= |TarBytes(t)| && TarBytes(t)[..|Prefix(t.entries, i)|] == Prefix(t.entries, i)
    decreases |t.entries| - i
  {
    if i >= |t.entries| {
    } else {
      PrefixBytes(t, i + 1);
      assert Prefix(t.entries, i + 1)[..|Prefix(t.entries, i)|] == Prefix(t.entries, i);
    }
  }

  /** Where the header and the data of entry `i` lie. */
  lemma EntryRange(t: Tar, i: nat)
    requires i < |t.entries|
    ensures var e, p := t.entries[i], |Prefix(t.entries, i)|;
            && p + |e.header| + |e.data| + |e.padding| == |Prefix(t.entries, i + 1)| <= |TarBytes(t)|
            && TarBytes(t)[p + |e.header|..p + |e.header| + |e.data|] == e.data
  {
    PrefixBytes(t, i + 1);
    var e, p, q := t.entries[i], |Prefix(t.entries, i)|, Prefix(t.entries, i + 1);
    assert q == Prefix(t.entries, i) + (e.header + e.data + e.padding);
    assert q[p + |e.header|..p + |e.header| + |e.data|] == e.data;
    var from, to := p + |e.header|, p + |e.header| + |e.data|;
    assert TarBytes(t)[..|q|][from..to] == q[from..to];
  }
}
