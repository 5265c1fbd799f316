/** The files of an archive, read in place through one cursor over a file-backed reader. */
module DataSource {
  import opened Bytes
  import opened DeltaOps
  import opened Options
  import opened TarModel
  import opened FileBackedReader

  datatype SourceEntry = SourceEntry(size: nat, pos: nat)

  /** Where the data of each path's last entry starts among the first `n` entries, and what its header says of it. */
  ghost function Table(entries: seq<Entry>, n: nat): map<Path, SourceEntry>
    requires n <= |entries|
  {
    if n == 0 then map[]
    else
      var e := entries[n - 1];
      Table(entries, n - 1)[NameOf(e.path) := SourceEntry(e.size, |Prefix(entries, n - 1)| + |e.header|)]
  }

  /** The bytes at a table entry, as far as there are any. */
  function BytesAt(data: Bytes, e: SourceEntry): (r: Bytes)
    ensures |r| <= e.size
  {
    if e.pos >= |data| then []
    else if e.pos + e.size <= |data| then data[e.pos..e.pos + e.size]
    else data[e.pos..]
  }

  lemma TableStarts(entries: seq<Entry>)
    ensures Prefix(entries, 0) == [] && Table(entries, 0) == map[]
  {
  }

  lemma TableNext(entries: seq<Entry>, n: nat)
    requires 0 < n <= |entries|
    ensures
      var e := entries[n - 1];
      Table(entries, n)
      == Table(entries, n - 1)[NameOf(e.path) := SourceEntry(e.size, |Prefix(entries, n - 1)| + |e.header|)]
  {
  }

  /** What the data source shows under each path. */
  ghost function Shown(t: Tar): Files
  {
    map p | p in Table(t.entries, |t.entries|) :: BytesAt(TarBytes(t), Table(t.entries, |t.entries|)[p])
  }

  /** The size field of every header is the number of its data bytes. */
  ghost predicate SizesTell(t: Tar)
  {
    forall i | 0 <= i < |t.entries| :: t.entries[i].size == |t.entries[i].data|
  }

  lemma FilesOfNext(entries: seq<Entry>, n: nat)
    requires 0 < n <= |entries|
    ensures FilesOf(entries[..n]) == FilesOf(entries[..n - 1])[NameOf(entries[n - 1].path) := entries[n - 1].data]
  {
    assert entries[..n][..n - 1] == entries[..n - 1];
  }

  lemma {:induction false} TableShows(t: Tar, n: nat)
    requires n <= |t.entries| && SizesTell(t)
    ensures Table(t.entries, n).Keys == FilesOf(t.entries[..n]).Keys
    ensures forall p :: p in Table(t.entries, n) ==>
      BytesAt(TarBytes(t), Table(t.entries, n)[p]) == FilesOf(t.entries[..n])[p]
  {
    hide TarBytes, Prefix, FilesOf;
    if n == 0 {
      assert t.entries[..0] == [];
      NoFilesOfNone();
    } else {
      TableShows(t, n - 1);
      FilesOfNext(t.entries, n);
      EntryRange(t, n - 1);
    }
  }

  lemma NoFilesOfNone()
    ensures FilesOf([]) == map[]
  {
  }

  /** Where header sizes tell, that is the content of the last entry. */
  lemma ShownAreFiles(t: Tar)
    requires SizesTell(t)
    ensures Shown(t) == FilesOf(t.entries)
  {
    hide TarBytes, Prefix, FilesOf, BytesAt, Table;
    TableShows(t, |t.entries|);
    assert t.entries[..|t.entries|] == t.entries;
  }

  /** The table entry of a path that does not come up again. */
  lemma {:induction false} TableLast(entries: seq<Entry>, i: nat, n: nat)
    requires i < n <= |entries| && !PathLater(entries, i, n, entries[i].path)
    requires forall j | 0 <= j < |entries| :: entries[j].path != ROOT
    ensures
      var name := NameOf(entries[i].path);
      && name in Table(entries, n)
      && Table(entries, n)[name] == SourceEntry(entries[i].size, |Prefix(entries, i)| + |entries[i].header|)
    decreases n
  {
    hide Prefix;
    if i == n - 1 {
    } else {
      assert !PathLater(entries, i, n - 1, entries[i].path);
      TableLast(entries, i, n - 1);
    }
  }

  lemma {:induction false} NameInTable(entries: seq<Entry>, i: nat, n: nat)
    requires i < n <= |entries|
    ensures NameOf(entries[i].path) in Table(entries, n)
    decreases n
  {
    hide Prefix;
    if i == n - 1 {
    } else {
      NameInTable(entries, i, n - 1);
    }
  }

  /** Whatever the headers of other entries say, every file worth a delta is found in the data source. */
  lemma ShownFinds(t: Tar)
    requires WellFormed(t)
    ensures Finds(Shown(t), t.entries)
  {
    hide TarBytes, Prefix, Table, PathLater;
    forall i | 0 <= i < |t.entries| && UseTarFile(t.entries[i])
      ensures var p := t.entries[i].path;
              && p in Shown(t)
              && (!PathLater(t.entries, i, |t.entries|, p) ==> Shown(t)[p] == t.entries[i].data)
    {
      NameInTable(t.entries, i, |t.entries|);
      if !PathLater(t.entries, i, |t.entries|, t.entries[i].path) {
        TableLast(t.entries, i, |t.entries|);
        EntryRange(t, i);
      }
    }
  }

  /** No file shown is longer than its header says. */
  lemma {:induction false} TableSizes(entries: seq<Entry>, n: nat)
    requires n <= |entries|
    ensures forall p | p in Table(entries, n) :: exists i :: 0 <= i < n && Table(entries, n)[p].size == entries[i].size
  {
    hide Prefix;
    if n == 0 {
    } else {
      TableSizes(entries, n - 1);
      assert forall p | p in Table(entries, n) && p != NameOf(entries[n - 1].path) ::
        exists i :: 0 <= i < n - 1 && Table(entries, n)[p].size == entries[i].size;
      assert Table(entries, n)[NameOf(entries[n - 1].path)].size == entries[n - 1].size;
    }
  }

  /** `want` bytes at `at`, or as many as there are. */
  function PartAt(content: Bytes, at: nat, want: nat): (p: Bytes)
    ensures |p| == if at >= |content| then 0 else if want <= |content| - at then want else |content| - at
  {
    if at >= |content| then [] else if want <= |content| - at then content[at..at + want] else content[at..]
  }

  /** Reads exactly `n` bytes, or as many as there are. */
  method ReadFull(rsc: FileBackedReadSeekCloser, n: nat) returns (p: Bytes)
    requires rsc.Valid()
    modifies rsc
    ensures rsc.Valid() && rsc.offsetFile == old(rsc.offsetFile) + |p|
    ensures p == PartAt(rsc.data, old(rsc.offsetFile), n)
  {
    p := [];
    ghost var at := rsc.offsetFile;
    while |p| < n
      invariant rsc.Valid() && |p| <= n && rsc.offsetFile == at + |p|
      invariant p != [] ==> rsc.offsetFile <= |rsc.data| && p == rsc.data[at..rsc.offsetFile]
      decreases n - |p|
    {
      var r := rsc.Read(n - |p|);
      if r.eof {
        break;
      }
      ghost var mid := at + |p|;
      assert rsc.data[at..mid] + rsc.data[mid..rsc.offsetFile] == rsc.data[at..rsc.offsetFile];
      p := p + r.bytes;
    }
  }

  class DataSource {
    ghost const tar: Tar
    const rsc: FileBackedReadSeekCloser
    var entries: map<Path, SourceEntry>
    var current: Option<SourceEntry>
    var currentPos: nat
    ghost var name: Path // the path that is open

    ghost predicate Valid()
      reads this, rsc
    {
      && rsc.Valid() && rsc.data == TarBytes(tar)
      && entries == Table(tar.entries, |tar.entries|)
      && (current.Some? ==>
            && name in entries && current.value == entries[name]
            && currentPos == rsc.offsetFile
            && current.value.pos <= currentPos <= current.value.pos + current.value.size)
    }

    /** The map from paths to contents that the archive stands for. */
    ghost function Contents(): Files
    {
      Shown(tar)
    }

    /** The cursor within the open file. */
    ghost function Cursor(): int
      reads this
      requires current.Some?
    {
      currentPos - current.value.pos
    }

    constructor (tar: Tar)
      ensures Valid() && fresh(rsc) && this.tar == tar && current == None
    {
      this.tar := tar;
      rsc := new FileBackedReadSeekCloser(TarBytes(tar));
      entries, current, currentPos, name := map[], None, 0, [];
      new;
      ReadEntries(tar);
    }

    /** Steps through the archive and notes where the data of each entry starts; later entries of a path win. */
    method ReadEntries(t: Tar)
      requires t == tar && rsc.Valid() && rsc.data == TarBytes(tar) && rsc.offsetFile == 0
      requires entries == map[] && current == None
      modifies this`entries, rsc
      ensures Valid() && current == None
    {
      hide TarBytes, Prefix, Table, EntryBytes;
      TableStarts(t.entries);
      var skip := 0;
      for i := 0 to |t.entries|
        invariant rsc.Valid() && rsc.offsetFile + skip == |Prefix(t.entries, i)| && 0 <= skip
        invariant entries == Table(t.entries, i)
      {
        EntryRange(t, i);
        PrefixBytes(t, i);
        TableNext(t.entries, i + 1);
        var e := t.entries[i];
        Discard(skip);
        var _ := ReadFull(rsc, |e.header|);
        var pos, _ := rsc.Seek(0, SeekCurrent);
        entries := entries[NameOf(e.path) := SourceEntry(e.size, pos)];
        skip := |e.data| + |e.padding|;
      }
    }

    /** Skips ahead by seeking to the last byte to skip and reading it. */
    method Discard(n: nat)
      requires rsc.Valid() && rsc.offsetFile + n <= |rsc.data|
      modifies rsc
      ensures rsc.Valid() && rsc.offsetFile == old(rsc.offsetFile) + n
    {
      if n > 0 {
        var _, _ := rsc.Seek(n - 1, SeekCurrent);
        var _ := ReadFull(rsc, 1);
      }
    }

    /** Opens a file at its start; an unknown path is an error and changes nothing. */
    method SetCurrentFile(file: Path) returns (ok: bool)
      requires Valid()
      modifies this`current, this`currentPos, this`name, rsc`offsetFile
      ensures Valid() && (ok <==> file in entries) && (ok <==> file in Contents())
      ensures ok ==> current == Some(entries[file]) && name == file && Cursor() == 0
      ensures !ok ==> current == old(current) && currentPos == old(currentPos) && name == old(name)
    {
      if file !in entries {
        return false;
      }
      current := Some(entries[file]);
      currentPos := entries[file].pos;
      name := file;
      var pos, _ := rsc.Seek(currentPos, SeekStart);
      currentPos := pos;
      return true;
    }

    /** Moves the cursor within the open file as its header has it; a target outside is an error and changes nothing. */
    method Seek(offset: int, whence: Whence) returns (pos: int, ok: bool)
      requires Valid() && current.Some?
      modifies this`currentPos, rsc`offsetFile
      ensures Valid() && current == old(current)
      ensures
        var size := current.value.size;
        var target := offset + match whence
          case SeekStart => 0
          case SeekCurrent => old(Cursor())
          case SeekEnd => size;
        && (ok <==> 0 <= target <= size)
        && (if ok then Cursor() == pos == target else Cursor() == old(Cursor()))
    {
      var e := current.value;
      var newPos := match whence
        case SeekStart => e.pos + offset
        case SeekCurrent => currentPos + offset
        case SeekEnd => e.size + e.pos + offset;
      if newPos < e.pos || newPos > e.size + e.pos {
        return 0, false;
      }
      var p, _ := rsc.Seek(newPos, SeekStart);
      currentPos := p;
      return p - e.pos, true;
    }

    /** Reads the open file's bytes at the cursor; the end is reported when there are fewer than asked for. */
    method Read(want: nat) returns (p: Bytes, eof: bool, ok: bool)
      requires Valid()
      modifies this`currentPos, rsc
      ensures Valid() && current == old(current) && (ok <==> current.Some?)
      ensures ok ==>
        var content, at := Contents()[name], old(if current.Some? then Cursor() else 0);
        && at >= 0
        && p == PartAt(content, at, want)
        && Cursor() == at + |p| && (eof <==> |p| < want)
    {
      hide TarBytes, Table, PartAt, BytesAt;
      if current.None? {
        return [], false, false;
      }
      var e := current.value;
      var bytesLeftInFile := e.size - (currentPos - e.pos);
      var n := if want < bytesLeftInFile then want else bytesLeftInFile;
      assert Contents()[name] == BytesAt(rsc.data, e);
      BytesAtRead(rsc.data, e, currentPos, want);
      p := ReadFull(rsc, n);
      currentPos := currentPos + |p|;
      eof := |p| < want;
      ok := true;
    }
  }

  /** A read that stops where the header has the entry end gives a part of the entry's bytes. */
  lemma BytesAtRead(data: Bytes, e: SourceEntry, pos: nat, want: nat)
    requires e.pos <= pos <= e.pos + e.size
    ensures
      var left := e.pos + e.size - pos;
      PartAt(data, pos, if want < left then want else left) == PartAt(BytesAt(data, e), pos - e.pos, want)
  {
    var content, at := BytesAt(data, e), pos - e.pos;
    if e.pos < |data| {
      var end := if e.pos + e.size <= |data| then e.pos + e.size else |data|;
      assert content == data[e.pos..end];
      var n := |PartAt(content, at, want)|;
      if n > 0 {
        SliceOfSlice(data, e.pos, end - e.pos, at, n);
      }
    }
  }
}
