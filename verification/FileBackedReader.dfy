/** A seekable reader over a stream: what has been read is kept in a file, and read again from there. */
module FileBackedReader {
  import opened Bytes

  datatype Whence = SeekStart | SeekCurrent | SeekEnd

  /** Outcome of a read: bytes, and whether the end was reported. */
  datatype ReadResult = ReadResult(bytes: Bytes, eof: bool)

  class FileBackedReadSeekCloser {
    // The wrapped reader: its content, and how much has been taken from it
    const data: Bytes
    var taken: nat
    // The backing file, and what is still in the write buffer
    var backing: Bytes
    var pending: Bytes
    var offsetReader: nat
    var offsetFile: nat

    /** The file and the write buffer hold exactly what has been taken from the reader. */
    ghost predicate Valid()
      reads this
    {
      taken <= |data| && offsetReader == taken && backing + pending == data[..taken]
    }

    constructor (data: Bytes)
      ensures Valid() && this.data == data && offsetFile == 0 && taken == 0
    {
      this.data, taken, backing, pending, offsetReader, offsetFile := data, 0, [], [], 0, 0;
    }

    /** Reads from the wrapped reader; the bytes also go to the write buffer, which may spill at any time. */
    method Take(want: nat) returns (p: Bytes)
      requires taken <= |data| && backing + pending == data[..taken]
      modifies this`taken, this`backing, this`pending
      ensures |p| <= want && taken == old(taken) + |p| <= |data| && p == data[old(taken)..taken]
      ensures want > 0 && old(taken) < |data| ==> p != []
      ensures backing + pending == data[..taken]
    {
      var n: nat := 0;
      if want > 0 && taken < |data| {
        n :| 0 < n <= want && n <= |data| - taken;
      }
      p := data[taken..taken + n];
      taken := taken + n;
      var spill: nat :| spill <= |pending + p|;
      assert backing + (pending + p)[..spill] + (pending + p)[spill..] == backing + pending + p;
      backing, pending := backing + (pending + p)[..spill], (pending + p)[spill..];
    }

    /** Reads until `want` bytes have come or the wrapped reader is exhausted. */
    method TakeAll(want: nat) returns (p: Bytes)
      requires taken <= |data| && backing + pending == data[..taken]
      modifies this`taken, this`backing, this`pending
      ensures |p| == if want <= |data| - old(taken) then want else |data| - old(taken)
      ensures taken == old(taken) + |p| <= |data| && p == data[old(taken)..taken]
      ensures backing + pending == data[..taken]
    {
      p := [];
      while |p| < want && taken < |data|
        invariant |p| <= want && taken == old(taken) + |p| <= |data| && p == data[old(taken)..taken]
        invariant backing + pending == data[..taken]
        decreases want - |p|
      {
        var q := Take(want - |p|);
        p := p + q;
      }
    }

    method Flush()
      modifies this`backing, this`pending
      ensures backing == old(backing + pending) && pending == []
    {
      backing := backing + pending;
      pending := [];
    }

    /** Whatever has been read and sought before, a read yields the bytes at the cursor. */
    method Read(want: nat) returns (r: ReadResult)
      requires Valid()
      modifies this
      ensures Valid() && |r.bytes| <= want && offsetFile == old(offsetFile) + |r.bytes|
      ensures r.bytes != [] ==> offsetFile <= |data| && r.bytes == data[old(offsetFile)..offsetFile]
      ensures want > 0 ==> (r.eof <==> old(offsetFile) >= |data|)
      ensures want > 0 && old(offsetFile) < |data| ==> r.bytes != []
      ensures want == 0 ==> !r.eof
    {
      if offsetReader < offsetFile {
        var bytesBehind := offsetFile - offsetReader;
        var skipped := TakeAll(bytesBehind);
        offsetReader := offsetReader + |skipped|;
      }
      if offsetReader == offsetFile {
        var p := Take(want);
        if p == [] && want > 0 {
          return ReadResult([], true);
        }
        offsetReader := offsetReader + |p|;
        offsetFile := offsetFile + |p|;
        return ReadResult(p, false);
      }
      var p := ReadBoth(want);
      r := ReadResult(p, p == [] && want > 0);
    }

    /** Reads what the file has and then from the wrapped reader. */
    method ReadBoth(want: nat) returns (p: Bytes)
      requires Valid() && offsetReader != offsetFile && (offsetReader < offsetFile ==> taken == |data|)
      modifies this
      ensures Valid() && |p| <= want && offsetFile == old(offsetFile) + |p|
      ensures p != [] ==> offsetFile <= |data| && p == data[old(offsetFile)..offsetFile]
      ensures want > 0 ==> (p == [] <==> old(offsetFile) >= |data|)
    {
      Flush();
      assert backing == data[..taken];
      var bytesFromFile := if offsetReader > offsetFile then offsetReader - offsetFile else 0;
      var fromFile := if bytesFromFile == 0 then []
                      else backing[offsetFile..offsetFile + if want < bytesFromFile then want else bytesFromFile];
      var rest := [];
      if |fromFile| < want {
        rest := TakeAll(want - |fromFile|);
      }
      p := fromFile + rest;
      if p == [] && want > 0 {
        return;
      }
      offsetReader := offsetReader + if |p| > bytesFromFile then |p| - bytesFromFile else 0;
      offsetFile := offsetFile + |p|;
    }

    /** Seeking past the end is fine; a negative target fails and leaves the cursor at 0. */
    method Seek(offset: int, whence: Whence) returns (pos: nat, ok: bool)
      requires Valid()
      modifies this`offsetFile
      ensures Valid() && offsetFile == pos
      ensures var base := match whence
                case SeekStart => 0
                case SeekCurrent => old(offsetFile)
                case SeekEnd => |backing|;
              ok <==> base + offset >= 0
      ensures var base := match whence
                case SeekStart => 0
                case SeekCurrent => old(offsetFile)
                case SeekEnd => |backing|;
              pos == if ok then base + offset else 0
      ensures whence.SeekEnd? && ok ==> (pos == |data| + offset <==> taken == |data| && pending == [])
    {
      assert whence.SeekEnd? ==> |backing| + |pending| == |data[..taken]|;
      var target := match whence
        case SeekStart => offset
        case SeekCurrent => offsetFile + offset
        case SeekEnd => |backing| + offset;
      ok := target >= 0;
      pos := if ok then target else 0;
      offsetFile := pos;
    }
  }
}
