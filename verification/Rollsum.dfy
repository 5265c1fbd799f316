/** The chunker: cuts what is written to it into blobs at content-defined places. */
module Rollsum {
  import opened Bytes
  import opened RollingSum

  const HEADER_SIZE := 16

  type Word32 = w: nat | w < WORD32

  function Wrap32(x: int): Word32
  {
    x % WORD32
  }

  /** Where the ring buffer holds the `k`-th newest byte when the next one goes to `wofs`. */
  function Ring(wofs: nat, k: nat): int
  {
    if k < wofs then wofs - 1 - k else wofs + WINDOW_SIZE - 1 - k
  }

  lemma WrapAdds(a: int, b: int)
    ensures Wrap32(a + Wrap32(b)) == Wrap32(a + b) == Wrap32(Wrap32(a) + b)
    ensures Wrap32(a - Wrap32(b)) == Wrap32(a - b)
  {
    WrapPeriod(a + Wrap32(b), b / WORD32);
    WrapPeriod(Wrap32(a) + b, a / WORD32);
    WrapPeriod(a - b, b / WORD32);
  }

  lemma WrapPeriod(x: int, q: int)
    ensures Wrap32(x + q * WORD32) == Wrap32(x)
  {
  }

  lemma InitialWords()
    ensures Wrap32(WINDOW_SIZE * CHAR_OFFSET) == WINDOW_SIZE * CHAR_OFFSET
    ensures Wrap32(WINDOW_SIZE * (WINDOW_SIZE - 1) * CHAR_OFFSET) == WINDOW_SIZE * (WINDOW_SIZE - 1) * CHAR_OFFSET
  {
  }

  lemma HoldsZeros(ring: seq<Byte>)
    requires |ring| == WINDOW_SIZE && forall k | 0 <= k < WINDOW_SIZE :: ring[k] == 0
    ensures Holds(ring, 0, [])
  {
  }

  /** Rolled sums wrap like the sums themselves. */
  lemma RollWraps(sum1: int, sum2: int, d: int, e: int)
    ensures Wrap32(Wrap32(sum1) + d) == Wrap32(sum1 + d)
    ensures Wrap32(Wrap32(sum2) + Wrap32(sum1 + d) - e) == Wrap32(sum2 + (sum1 + d) - e)
  {
  }

  /** The ring buffer holds the window of the blob so far. */
  ghost predicate Holds(ring: seq<Byte>, wofs: nat, cur: Bytes)
  {
    && |ring| == WINDOW_SIZE && wofs == |cur| % WINDOW_SIZE
    && forall k {:trigger Window(cur, k)} | 0 <= k < WINDOW_SIZE :: ring[Ring(wofs, k)] == Window(cur, k)
  }

  lemma HoldsNext(ring: seq<Byte>, wofs: nat, cur: Bytes, ch: Byte)
    requires Holds(ring, wofs, cur)
    ensures ring[wofs] == Window(cur, WINDOW_SIZE - 1)
    ensures Holds(ring[wofs := ch], (wofs + 1) % WINDOW_SIZE, cur + [ch])
  {
    assert Ring(wofs, WINDOW_SIZE - 1) == wofs;
    assert Window(cur, WINDOW_SIZE - 1) == ring[wofs];
    var next := (wofs + 1) % WINDOW_SIZE;
    forall k {:trigger Window(cur + [ch], k)} | 0 <= k < WINDOW_SIZE
      ensures ring[wofs := ch][Ring(next, k)] == Window(cur + [ch], k)
    {
      if k == 0 {
        assert Ring(next, 0) == wofs;
      } else {
        assert Window(cur + [ch], k) == Window(cur, k - 1);
        assert Ring(next, k) == Ring(wofs, k - 1) != wofs;
      }
    }
  }

  /** One more byte: either it completes a blob, or nothing has split yet. */
  lemma ByteAdded(blobs: seq<Blob>, data: Bytes, base: nat, start: nat, cur: Bytes, b: Byte, crc: Bytes -> nat)
    requires start <= |data| && cur == data[start..] && NoSplit(cur) && Closed(blobs, data[..start], base, crc)
    ensures (data + [b])[start..] == cur + [b] && (data + [b])[..start] == data[..start]
    ensures Splits(cur + [b]) ==>
      Closed(blobs + [Blob(base + start, |cur| + 1, crc(cur + [b]))], data + [b], base, crc)
    ensures !Splits(cur + [b]) ==> NoSplit(cur + [b])
  {
    hide Splits, Closed;
    assert (cur + [b])[..|cur|] == cur;
    if Splits(cur + [b]) {
      ClosedMore(blobs, data[..start], base, cur + [b], crc);
      assert data[..start] + (cur + [b]) == data + [b];
    } else {
      forall n | 1 <= n <= |cur + [b]|
        ensures !Splits((cur + [b])[..n])
      {
        assert n <= |cur| ==> (cur + [b])[..n] == cur[..n];
        assert n == |cur| + 1 ==> (cur + [b])[..n] == cur + [b];
      }
    }
  }

  class Rollsum {
    const crc: Bytes -> nat
    // Current blob
    var blobStart: nat
    var blobSize: nat
    var blobCrc: Bytes // what the blob's hash has seen
    // Rolling sums
    var s1: Word32
    var s2: Word32
    const window: array<Byte>
    var wofs: nat
    // Results
    var header: Bytes
    var blobs: seq<Blob>
    // All bytes written
    ghost var all: Bytes
    // Those since the last flush, the position and the blobs at that flush, the blobs since, and the current bytes
    ghost var data: Bytes
    ghost var base: nat
    ghost var done: seq<Blob>
    ghost var closed: seq<Blob>
    ghost var cur: Bytes

    ghost predicate Rolling()
      reads this, window
    {
      && window.Length == WINDOW_SIZE && blobSize == |cur|
      && s1 == Wrap32(Sum1(cur)) && s2 == Wrap32(Sum2(cur))
      && Holds(window[..], wofs, cur)
    }

    ghost predicate Chunked()
      reads this
    {
      && base <= blobStart <= base + |data| && cur == data[blobStart - base..]
      && blobs == done + closed
      && NoSplit(cur) && Closed(closed, data[..blobStart - base], base, crc)
    }

    /** The first 16 bytes are kept. */
    ghost predicate HeaderOk()
      reads this
    {
      header == all[..if |all| < HEADER_SIZE then |all| else HEADER_SIZE]
    }

    ghost predicate Valid()
      reads this, window
    {
      && Rolling() && Chunked() && blobCrc == cur
      && HeaderOk()
    }

    lemma IsRolling()
      requires window.Length == WINDOW_SIZE && blobSize == |cur|
      requires s1 == Wrap32(Sum1(cur)) && s2 == Wrap32(Sum2(cur)) && Holds(window[..], wofs, cur)
      ensures Rolling()
    {
      hide Holds, Sum1, Sum2, Wrap32;
    }

    method ClearWindow()
      modifies window
      ensures forall k | 0 <= k < window.Length :: window[k] == 0
    {
      for i := 0 to window.Length
        invariant forall k | 0 <= k < i :: window[k] == 0
      {
        window[i] := 0;
      }
    }

    method Init()
      requires window.Length == WINDOW_SIZE
      modifies this`blobStart, this`blobSize, this`blobCrc, this`s1, this`s2, this`wofs, this`cur, window
      ensures blobStart == old(blobStart + blobSize)
      ensures cur == [] && blobCrc == [] && Rolling()
    {
      hide Window, Sum1, Sum2, Plain, Weighted, Holds, Wrap32, Rolling;
      blobStart := blobStart + blobSize;
      blobSize := 0;
      blobCrc := [];
      s1 := WINDOW_SIZE * CHAR_OFFSET;
      s2 := WINDOW_SIZE * (WINDOW_SIZE - 1) * CHAR_OFFSET;
      wofs := 0;
      ClearWindow();
      cur := [];
      EmptySums();
      InitialWords();
      HoldsZeros(window[..]);
      IsRolling();
    }

    constructor (crc: Bytes -> nat)
      ensures Valid() && fresh(window) && all == data == [] && base == 0 && done == [] && this.crc == crc
    {
      hide Rolling, Window, Sum1, Sum2, Plain, Weighted, Splits, Holds, Closed, NoSplit, BlobsOf, Cut, Wrap32;
      this.crc := crc;
      header, blobs, all, data, base, done, closed := [], [], [], [], 0, [], [];
      blobStart, blobSize, wofs := 0, 0, 0;
      blobCrc, cur := [], [];
      s1, s2 := 0, 0;
      window := new Byte[WINDOW_SIZE](_ => 0);
      new;
      Init();
      StartAfresh();
    }

    method Add(drop: Byte, add: Byte)
      modifies this`s1, this`s2
      ensures s1 == Wrap32(old(s1) + add - drop)
      ensures s2 == Wrap32(old(s2) + s1 - WINDOW_SIZE * (drop + CHAR_OFFSET))
    {
      hide Wrap32;
      WrapAdds(s1, add - drop);
      s1 := Wrap32(s1 + Wrap32(add - drop));
      WrapAdds(s1, WINDOW_SIZE * (drop + CHAR_OFFSET));
      WrapAdds(s2, s1 - Wrap32(WINDOW_SIZE * (drop + CHAR_OFFSET)));
      WrapAdds(s2 + s1, WINDOW_SIZE * (drop + CHAR_OFFSET));
      s2 := Wrap32(s2 + Wrap32(s1 - Wrap32(WINDOW_SIZE * (drop + CHAR_OFFSET))));
    }

    method Roll(ch: Byte)
      requires Rolling() && wofs < WINDOW_SIZE
      modifies this`blobSize, this`s1, this`s2, this`wofs, this`cur, window
      ensures Rolling() && cur == old(cur) + [ch]
    {
      hide Window, Sum1, Sum2, Wrap32, Holds;
      blobSize := blobSize + 1;
      RollSums(cur, ch);
      HoldsNext(window[..], wofs, cur, ch);
      RollWraps(Sum1(cur), Sum2(cur), ch - Window(cur, WINDOW_SIZE - 1),
                WINDOW_SIZE * (Window(cur, WINDOW_SIZE - 1) + CHAR_OFFSET));
      Add(window[wofs], ch);
      window[wofs] := ch;
      wofs := (wofs + 1) % WINDOW_SIZE;
      cur := cur + [ch];
    }

    predicate ShouldSplit()
      requires Rolling()
      reads this, window
      ensures ShouldSplit() <==> Splits(cur)
    {
      blobSize == MAX_BLOB_SIZE || s2 % BLOB_SIZE == BLOB_SIZE - 1
    }

    method AddBlob()
      requires Rolling() && blobCrc == cur
      modifies this`blobs, this`closed, this`blobStart, this`blobSize, this`blobCrc, this`s1, this`s2, this`wofs,
        this`cur, window
      ensures Rolling() && cur == [] && blobCrc == [] && blobStart == old(blobStart + |cur|)
      ensures blobs == old(blobs + [Blob(blobStart, |cur|, crc(cur))])
      ensures closed == old(closed + [Blob(blobStart, |cur|, crc(cur))])
    {
      hide Holds, Sum1, Sum2;
      closed := closed + [Blob(blobStart, blobSize, crc(blobCrc))];
      blobs := blobs + [Blob(blobStart, blobSize, crc(blobCrc))];
      Init();
    }

    /** Keeps the first 16 bytes for type detection. */
    method FillHeader(p: Bytes)
      modifies this`header
      ensures header == old(header) +
                p[..if |old(header)| + |p| <= HEADER_SIZE then |p|
                    else if |old(header)| < HEADER_SIZE then HEADER_SIZE - |old(header)| else 0]
    {
      var i := 0;
      while |header| < HEADER_SIZE && i < |p|
        invariant 0 <= i <= |p|
        invariant header == old(header) + p[..i]
        invariant |old(header)| >= HEADER_SIZE ==> i == 0
        invariant |old(header)| < HEADER_SIZE ==> |old(header)| + i <= HEADER_SIZE
      {
        header := header + [p[i]];
        i := i + 1;
      }
    }

    /** Rolls one byte and says whether the blob ends with it. */
    method Take(b: Byte) returns (split: bool)
      requires Rolling() && Chunked()
      modifies this`blobSize, this`s1, this`s2, this`wofs, this`cur, this`data, window
      ensures Rolling() && data == old(data) + [b] && cur == old(cur) + [b]
      ensures base <= blobStart && blobStart + |cur| == base + |data| && blobs == done + closed
      ensures split ==> Closed(closed + [Blob(blobStart, |cur|, crc(cur))], data, base, crc)
      ensures !split ==> Chunked()
    {
      hide Holds, Sum1, Sum2, Splits, NoSplit, Closed;
      HoldsBound(window[..], wofs, cur);
      ByteAdded(closed, data, base, blobStart - base, cur, b, crc);
      Roll(b);
      data := data + [b];
      split := ShouldSplit();
    }

    method WriteBytes(p: Bytes)
      requires Rolling() && Chunked() && blobCrc == cur
      modifies this`blobStart, this`blobSize, this`blobCrc, this`s1, this`s2, this`wofs, this`blobs, this`closed,
        this`cur, this`data, window
      ensures Rolling() && Chunked() && blobCrc == cur && data == old(data) + p
    {
      hide Holds, Sum1, Sum2, NoSplit, Closed;
      var start := 0;
      for i := 0 to |p|
        invariant 0 <= start <= i
        invariant Rolling() && Chunked() && data == old(data) + p[..i]
        invariant cur == blobCrc + p[start..i]
      {
        var split := Take(p[i]);
        assert p[..i + 1] == p[..i] + [p[i]] && p[start..i + 1] == p[start..i] + [p[i]];
        if split {
          blobCrc := blobCrc + p[start..i + 1];
          start := i + 1;
          AddBlob();
          assert blobs == done + closed;
          Emptied(data, blobStart - base);
        }
      }
      if start < |p| {
        blobCrc := blobCrc + p[start..];
      }
    }

    /** Whatever is written, in whatever portions, only the bytes count. */
    method Write(p: Bytes) returns (nn: nat)
      requires Valid()
      modifies this, window
      ensures Valid() && data == old(data) + p && all == old(all) + p && nn == |p|
      ensures base == old(base) && done == old(done)
    {
      hide Holds, Sum1, Sum2, Wrap32, NoSplit, Closed;
      nn := |p|;
      if nn == 0 {
        assert data == data + p && all == all + p;
        return;
      }
      FillHeader(p);
      all := all + p;
      WriteBytes(p);
    }

    /** Pending bytes become a blob. */
    method CloseBlob()
      requires Rolling() && blobCrc == cur && blobs == done + closed
      modifies this`blobs, this`closed, this`blobStart, this`blobSize, this`blobCrc, this`s1, this`s2, this`wofs,
        this`cur, window
      ensures Rolling() && cur == [] && blobCrc == [] && blobStart == old(blobStart + |cur|) && blobs == done + closed
      ensures closed == old(closed) + old(if cur == [] then [] else [Blob(blobStart, |cur|, crc(cur))])
    {
      hide Holds, Sum1, Sum2, Wrap32;
      if blobSize > 0 {
        AddBlob();
        assert blobs == done + closed;
      }
    }

    /** From then on chunking starts afresh. */
    ghost method StartAfresh()
      requires Rolling() && cur == [] && blobCrc == [] && blobStart == base + |data| && HeaderOk()
      modifies this`base, this`data, this`done, this`closed
      ensures Valid() && data == [] && base == old(base) + |old(data)| && done == blobs
    {
      hide *;
      RollingFacts();
      base, data, done, closed := base + |data|, [], blobs, [];
      IsRolling();
      IsValid();
    }

    lemma RollingFacts()
      requires Rolling() && HeaderOk()
      ensures header == all[..if |all| < HEADER_SIZE then |all| else HEADER_SIZE]
      ensures window.Length == WINDOW_SIZE && blobSize == |cur|
      ensures s1 == Wrap32(Sum1(cur)) && s2 == Wrap32(Sum2(cur)) && Holds(window[..], wofs, cur)
    {
      hide Holds, Sum1, Sum2, Wrap32;
    }

    /** With nothing written since the last flush. */
    lemma IsValid()
      requires Rolling() && cur == blobCrc == data == [] && closed == [] && blobStart == base && blobs == done
      requires header == all[..if |all| < HEADER_SIZE then |all| else HEADER_SIZE]
      ensures Valid()
    {
      hide Rolling, Closed, NoSplit;
      Emptied([], 0);
      NothingClosed(base, crc);
    }

    /** Closing what is pending gives the blobs of everything since the last flush. */
    lemma PendingNow()
      requires Chunked()
      ensures BlobsOf(data, base, crc) == closed + if cur == [] then [] else [Blob(blobStart, |cur|, crc(cur))]
    {
      hide Splits, NoSplit, Closed, BlobsOf;
      Pending(closed, data, base, blobStart - base, crc);
    }

    method Flush()
      requires Valid()
      modifies this`blobs, this`closed, this`blobStart, this`blobSize, this`blobCrc, this`s1, this`s2, this`wofs,
        this`cur, this`base, this`data, this`done, window
      ensures Valid() && data == []
      ensures base == old(base) + |old(data)| && done == blobs == old(done) + BlobsOf(old(data), old(base), crc)
    {
      hide Rolling, Splits, NoSplit, Closed, BlobsOf, Window, Sum1, Sum2, Plain, Weighted, Holds, Wrap32, Cut;
      ghost var blobsOf := BlobsOf(data, base, crc);
      PendingNow();
      CloseBlob();
      assert closed == blobsOf;
      StartAfresh();
    }

    /** The blobs of everything written, bytes before and after an earlier flush being chunked apart. */
    method GetBlobs() returns (bs: seq<Blob>)
      requires Valid()
      modifies this`blobs, this`closed, this`blobStart, this`blobSize, this`blobCrc, this`s1, this`s2, this`wofs,
        this`cur, this`base, this`data, this`done, window
      ensures Valid() && data == []
      ensures base == old(base) + |old(data)| && done == bs == old(done) + BlobsOf(old(data), old(base), crc)
    {
      Flush();
      bs := blobs;
    }
  }

  /** What is closed and one blob of what is pending are the blobs of all of it. */
  lemma Pending(bs: seq<Blob>, data: Bytes, base: nat, start: nat, crc: Bytes -> nat)
    requires start <= |data| && Closed(bs, data[..start], base, crc) && NoSplit(data[start..])
    ensures
      var cur := data[start..];
      BlobsOf(data, base, crc) == bs + if cur == [] then [] else [Blob(base + start, |cur|, crc(cur))]
  {
    hide Closed, NoSplit, BlobsOf;
    ClosedThen(bs, data[..start], base, data[start..], crc);
    LastBlob(data[start..], base + start, crc);
    assert data == data[..start] + data[start..];
  }

  lemma NothingClosed(base: nat, crc: Bytes -> nat)
    ensures Closed([], [], base, crc)
  {
  }

  lemma HoldsBound(ring: seq<Byte>, wofs: nat, cur: Bytes)
    requires Holds(ring, wofs, cur)
    ensures wofs < WINDOW_SIZE
  {
  }

  lemma Emptied(data: Bytes, start: nat)
    requires start == |data|
    ensures data[start..] == [] && data[..start] == data && NoSplit([])
  {
  }
}
