/** Direct definitions behind content-defined chunking: window sums, split points, and the blobs of a byte string. */
module RollingSum {
  import opened Bytes

  const MAX_BLOB_SIZE := 8192 * 4
  const CHAR_OFFSET := 31
  const BLOB_SIZE := 8192
  const WINDOW_SIZE := 128
  const WORD32 := 0x1_0000_0000

  /** The part of the second sum that does not depend on the window. */
  const SUM2_CONSTANT := 248000

  datatype Blob = Blob(offset: nat, size: nat, crc32: nat)

  // ----- The two sums

  /** The `k`-th byte before the end of the blob so far; the window starts out as zeros. */
  function Window(cur: Bytes, k: nat): Byte
  {
    if k < |cur| then cur[|cur| - 1 - k] else 0
  }

  /** The `m` newest window bytes, each raised by 31. */
  ghost function Plain(cur: Bytes, m: nat): int
  {
    if m == 0 then 0 else Plain(cur, m - 1) + (Window(cur, m - 1) + CHAR_OFFSET)
  }

  /** The same, the newest byte weighing 1 and the `m`-th newest `m`. */
  ghost function Weighted(cur: Bytes, m: nat): int
  {
    if m == 0 then 0 else Weighted(cur, m - 1) + m * (Window(cur, m - 1) + CHAR_OFFSET)
  }

  ghost function Sum1(cur: Bytes): int
  {
    Plain(cur, WINDOW_SIZE)
  }

  ghost function Sum2(cur: Bytes): int
  {
    Weighted(cur, WINDOW_SIZE) + SUM2_CONSTANT
  }

  lemma {:induction false} RollPrefix(cur: Bytes, b: Byte, m: nat)
    ensures Plain(cur + [b], m + 1) == (b + CHAR_OFFSET) + Plain(cur, m)
    ensures Weighted(cur + [b], m + 1) == (b + CHAR_OFFSET) + Weighted(cur, m) + Plain(cur, m)
  {
    if m > 0 {
      RollPrefix(cur, b, m - 1);
      var x := Window(cur, m - 1) + CHAR_OFFSET;
      assert Window(cur + [b], m) == Window(cur, m - 1);
      assert (m + 1) * x == m * x + x;
    } else {
      assert Window(cur + [b], 0) == b;
      assert Plain(cur + [b], 0) == 0 && Weighted(cur + [b], 0) == 0;
    }
  }

  /** Rolling one byte in and the oldest one out. */
  lemma RollSums(cur: Bytes, b: Byte)
    ensures var drop := Window(cur, WINDOW_SIZE - 1);
            && Sum1(cur + [b]) == Sum1(cur) + b - drop
            && Sum2(cur + [b]) == Sum2(cur) + Sum1(cur + [b]) - WINDOW_SIZE * (drop + CHAR_OFFSET)
  {
    RollPrefix(cur, b, WINDOW_SIZE - 1);
  }

  lemma {:induction false} EmptyPrefix(m: nat)
    ensures Plain([], m) == m * CHAR_OFFSET
    ensures 2 * Weighted([], m) == m * (m + 1) * CHAR_OFFSET
  {
    if m == 0 {
    } else {
      EmptyPrefix(m - 1);
      assert m * (m + 1) == (m - 1) * m + 2 * m;
    }
  }

  /** The values `init` starts from. */
  lemma EmptySums()
    ensures Sum1([]) == WINDOW_SIZE * CHAR_OFFSET
    ensures Sum2([]) == WINDOW_SIZE * (WINDOW_SIZE - 1) * CHAR_OFFSET
  {
    EmptyPrefix(WINDOW_SIZE);
  }

  /** The blob so far ends here: a property of its size and its last 128 bytes. */
  ghost predicate Splits(cur: Bytes)
  {
    |cur| == MAX_BLOB_SIZE || Sum2(cur) % WORD32 % BLOB_SIZE == BLOB_SIZE - 1
  }

  // ----- Blobs

  lemma {:induction false} WindowTells(a: Bytes, b: Bytes, m: nat)
    requires forall k :: 0 <= k < m ==> Window(a, k) == Window(b, k)
    ensures Weighted(a, m) == Weighted(b, m)
  {
    if m == 0 {
    } else {
      WindowTells(a, b, m - 1);
    }
  }

  /** Blobs of one size with the same last 128 bytes split alike, whatever comes before. */
  lemma SplitsAlike(a: Bytes, b: Bytes)
    requires |a| == |b|
    requires
      var n := if |a| < WINDOW_SIZE then |a| else WINDOW_SIZE;
      a[|a| - n..] == b[|b| - n..]
    ensures Splits(a) <==> Splits(b)
  {
    var n := if |a| < WINDOW_SIZE then |a| else WINDOW_SIZE;
    forall k | 0 <= k < WINDOW_SIZE
      ensures Window(a, k) == Window(b, k)
    {
      if k < |a| {
        assert a[|a| - n..][n - 1 - k] == a[|a| - 1 - k];
        assert b[|b| - n..][n - 1 - k] == b[|b| - 1 - k];
      }
    }
    WindowTells(a, b, WINDOW_SIZE);
  }

  /** Length of the first blob of non-empty data, of which `n` bytes are known not to split. */
  ghost function Cut(data: Bytes, n: nat): (m: nat)
    requires n < |data|
    ensures n < m <= |data|
    decreases |data| - n
  {
    if n + 1 == |data| || Splits(data[..n + 1]) then n + 1 else Cut(data, n + 1)
  }

  ghost function BlobsOf(data: Bytes, offset: nat, crc: Bytes -> nat): seq<Blob>
    decreases |data|
  {
    if data == [] then []
    else
      var n := Cut(data, 0);
      [Blob(offset, n, crc(data[..n]))] + BlobsOf(data[n..], offset + n, crc)
  }

  lemma {:induction false} CutBound(data: Bytes, n: nat)
    requires n < |data| && n < MAX_BLOB_SIZE
    ensures Cut(data, n) <= MAX_BLOB_SIZE
    decreases |data| - n
  {
    if n + 1 >= |data| || Splits(data[..n + 1]) {
    } else {
      CutBound(data, n + 1);
    }
  }

  /** Blob `b` describes its part of data that starts at `offset`. */
  ghost predicate Describes(b: Blob, data: Bytes, offset: nat, crc: Bytes -> nat)
  {
    && 1 <= b.size <= MAX_BLOB_SIZE
    && offset <= b.offset && b.offset + b.size <= offset + |data|
    && b.crc32 == crc(data[b.offset - offset..b.offset - offset + b.size])
  }

  /** Blobs follow each other from `offset` to the end of the data, have sizes 1 to 32768 and their bytes' checksums. */
  ghost predicate Tile(bs: seq<Blob>, data: Bytes, offset: nat, crc: Bytes -> nat)
  {
    && (data == [] <==> bs == [])
    && (bs != [] ==> bs[0].offset == offset && bs[|bs| - 1].offset + bs[|bs| - 1].size == offset + |data|)
    && (forall i, j | 0 <= i && j == i + 1 < |bs| :: bs[j].offset == bs[i].offset + bs[i].size)
    && (forall i | 0 <= i < |bs| :: Describes(bs[i], data, offset, crc))
  }

  lemma TileCons(rest: seq<Blob>, data: Bytes, offset: nat, n: nat, crc: Bytes -> nat)
    requires 1 <= n <= |data| && n <= MAX_BLOB_SIZE && Tile(rest, data[n..], offset + n, crc)
    ensures Tile([Blob(offset, n, crc(data[..n]))] + rest, data, offset, crc)
  {
    var bs := [Blob(offset, n, crc(data[..n]))] + rest;
    forall i | 0 <= i < |bs|
      ensures Describes(bs[i], data, offset, crc)
    {
      if i > 0 {
        var b := rest[i - 1];
        assert Describes(b, data[n..], offset + n, crc);
        var o := b.offset - (offset + n);
        assert data[n..][o..o + b.size] == data[o + n..o + n + b.size];
      }
    }
  }

  lemma BlobsStep(data: Bytes, offset: nat, crc: Bytes -> nat) returns (n: nat)
    ensures data == [] ==> BlobsOf(data, offset, crc) == [] && Tile([], data, offset, crc)
    ensures data != [] ==>
              && 1 <= n <= |data| && n <= MAX_BLOB_SIZE && n == Cut(data, 0)
              && BlobsOf(data, offset, crc) == [Blob(offset, n, crc(data[..n]))] + BlobsOf(data[n..], offset + n, crc)
  {
    hide Splits;
    n := 0;
    if data != [] {
      n := Cut(data, 0);
      CutBound(data, 0);
    }
  }

  lemma {:induction false} BlobsTile(data: Bytes, offset: nat, crc: Bytes -> nat)
    ensures Tile(BlobsOf(data, offset, crc), data, offset, crc)
    decreases |data|
  {
    hide *;
    var n := BlobsStep(data, offset, crc);
    if data == [] {
    } else {
      BlobsTile(data[n..], offset + n, crc);
      TileCons(BlobsOf(data[n..], offset + n, crc), data, offset, n, crc);
    }
  }

  /** A boundary: a blob of 32768 bytes, or 13 low bits of the second sum set; that it wraps around does not matter. */
  lemma SplitsExactly(cur: Bytes)
    ensures Splits(cur) <==> |cur| == 32768 || Sum2(cur) % 8192 == 8191
  {
  }

  lemma {:induction false} CutIsFirst(data: Bytes, n: nat)
    requires n < |data|
    ensures forall m | n < m < Cut(data, n) :: !Splits(data[..m])
    ensures Cut(data, n) == |data| || Splits(data[..Cut(data, n)])
    decreases |data| - n
  {
    hide Splits;
    if n + 1 == |data| || Splits(data[..n + 1]) {
    } else {
      CutIsFirst(data, n + 1);
    }
  }

  /** After `from` the first boundary is `to`, or that is the end. */
  ghost predicate EndsFirst(data: Bytes, from: int, to: int)
  {
    && 0 <= from <= to <= |data|
    && (forall m | from < m < to :: !Splits(data[from..m]))
    && (to == |data| || Splits(data[from..to]))
  }

  lemma EndsFirstLater(data: Bytes, n: nat, from: nat, to: nat)
    requires n <= |data| && EndsFirst(data[n..], from, to)
    ensures EndsFirst(data, n + from, n + to)
  {
    hide Splits;
    forall m | from <= m <= to
      ensures data[n..][from..m] == data[n + from..n + m]
    {
    }
    var first, last := n + from, n + to;
    forall m | first < m < last
      ensures !Splits(data[first..m])
    {
      assert !Splits(data[n..][from..m - n]);
    }
  }

  lemma EndsFirstCut(data: Bytes)
    requires data != []
    ensures EndsFirst(data, 0, Cut(data, 0))
  {
    hide Splits, Cut;
    CutIsFirst(data, 0);
    forall m | 0 <= m <= |data|
      ensures data[0..m] == data[..m]
    {
    }
  }

  /** Every blob ends at the first boundary after its start, or at the end of the data. */
  lemma {:induction false} BlobsEnd(data: Bytes, offset: nat, crc: Bytes -> nat, k: nat)
    requires k < |BlobsOf(data, offset, crc)|
    ensures var b := BlobsOf(data, offset, crc)[k]; EndsFirst(data, b.offset - offset, b.offset - offset + b.size)
    decreases |data|
  {
    hide Splits, Cut, BlobsOf, EndsFirst;
    var n := BlobsStep(data, offset, crc);
    if k == 0 {
      EndsFirstCut(data);
    } else {
      BlobsEnd(data[n..], offset + n, crc, k - 1);
      var b := BlobsOf(data[n..], offset + n, crc)[k - 1];
      assert b == BlobsOf(data, offset, crc)[k];
      assert EndsFirst(data[n..], b.offset - (offset + n), b.offset - (offset + n) + b.size);
      EndsFirstIn(data[n..], b.offset - (offset + n), b.offset - (offset + n) + b.size);
      EndsFirstLater(data, n, b.offset - (offset + n), b.offset - (offset + n) + b.size);
    }
  }

  lemma EndsFirstIn(data: Bytes, from: int, to: int)
    requires EndsFirst(data, from, to)
    ensures 0 <= from <= to <= |data|
  {
  }

  function Shift(bs: seq<Blob>, d: nat): seq<Blob>
  {
    if bs == [] then [] else [bs[0].(offset := bs[0].offset + d)] + Shift(bs[1..], d)
  }

  /** Chunking has no memory across boundaries: blobs of later data are those of that data alone, moved. */
  lemma {:induction false} BlobsShift(data: Bytes, offset: nat, d: nat, crc: Bytes -> nat)
    ensures BlobsOf(data, offset + d, crc) == Shift(BlobsOf(data, offset, crc), d)
    decreases |data|
  {
    if data == [] {
    } else {
      var n := Cut(data, 0);
      BlobsShift(data[n..], offset + n, d, crc);
      var bs := BlobsOf(data, offset, crc);
      assert bs[1..] == BlobsOf(data[n..], offset + n, crc);
    }
  }

  // ----- Blobs that later data cannot change

  ghost predicate NoSplit(cur: Bytes)
  {
    forall n | 1 <= n <= |cur| :: !Splits(cur[..n])
  }

  /** The data ends at a split, and `bs` are its blobs. */
  ghost predicate Closed(bs: seq<Blob>, data: Bytes, offset: nat, crc: Bytes -> nat)
    decreases |bs|
  {
    if bs == [] then data == []
    else
      var n := bs[0].size;
      && 1 <= n <= |data|
      && bs[0] == Blob(offset, n, crc(data[..n]))
      && Splits(data[..n]) && NoSplit(data[..n - 1])
      && Closed(bs[1..], data[n..], offset + n, crc)
  }

  lemma {:induction false} CutAt(data: Bytes, n: nat, m: nat)
    requires n < m <= |data|
    requires forall i | n < i < m :: !Splits(data[..i])
    requires m == |data| || Splits(data[..m])
    ensures Cut(data, n) == m
    decreases m - n
  {
    hide Splits;
    if n + 1 >= m {
    } else {
      CutAt(data, n + 1, m);
    }
  }

  lemma FirstCut(data: Bytes, n: nat)
    requires 1 <= n <= |data| && Splits(data[..n]) && NoSplit(data[..n - 1])
    ensures Cut(data, 0) == n
  {
    hide Splits, Cut;
    forall i | 0 < i < n
      ensures !Splits(data[..i])
    {
      assert data[..i] == data[..n - 1][..i];
    }
    CutAt(data, 0, n);
  }

  lemma {:induction false} ClosedThen(bs: seq<Blob>, data: Bytes, offset: nat, rest: Bytes, crc: Bytes -> nat)
    requires Closed(bs, data, offset, crc)
    ensures BlobsOf(data + rest, offset, crc) == bs + BlobsOf(rest, offset + |data|, crc)
    decreases |bs|
  {
    hide Splits, Cut, NoSplit, BlobsOf;
    if bs == [] {
      assert data + rest == rest;
    } else {
      var n, all := bs[0].size, data + rest;
      assert all[..n] == data[..n] && all[..n - 1] == data[..n - 1];
      FirstCut(all, n);
      var m := BlobsStep(all, offset, crc);
      ClosedThen(bs[1..], data[n..], offset + n, rest, crc);
      assert all[n..] == data[n..] + rest;
      assert bs == [bs[0]] + bs[1..];
    }
  }

  /** Two files that each have a boundary before the same bytes have the same blobs from there on. */
  lemma Resynchronised(bs: seq<Blob>, x: Bytes, cs: seq<Blob>, y: Bytes, rest: Bytes, crc: Bytes -> nat)
    requires Closed(bs, x, 0, crc) && Closed(cs, y, 0, crc)
    ensures BlobsOf(x + rest, 0, crc) == bs + Shift(BlobsOf(rest, 0, crc), |x|)
    ensures BlobsOf(y + rest, 0, crc) == cs + Shift(BlobsOf(rest, 0, crc), |y|)
  {
    hide BlobsOf, Closed;
    ClosedThen(bs, x, 0, rest, crc);
    ClosedThen(cs, y, 0, rest, crc);
    BlobsShift(rest, 0, |x|, crc);
    BlobsShift(rest, 0, |y|, crc);
  }

  lemma ClosedOne(offset: nat, cur: Bytes, crc: Bytes -> nat)
    requires cur != [] && Splits(cur) && NoSplit(cur[..|cur| - 1])
    ensures Closed([Blob(offset, |cur|, crc(cur))], cur, offset, crc)
  {
    hide Splits, NoSplit;
    assert cur[..|cur|] == cur && cur[|cur|..] == [];
    assert Closed([], cur[|cur|..], offset + |cur|, crc);
    assert [Blob(offset, |cur|, crc(cur))][1..] == [];
  }

  lemma {:induction false} ClosedMore(bs: seq<Blob>, data: Bytes, offset: nat, cur: Bytes, crc: Bytes -> nat)
    requires Closed(bs, data, offset, crc) && cur != [] && Splits(cur) && NoSplit(cur[..|cur| - 1])
    ensures Closed(bs + [Blob(offset + |data|, |cur|, crc(cur))], data + cur, offset, crc)
    decreases |bs|
  {
    hide Splits, NoSplit;
    var blob := Blob(offset + |data|, |cur|, crc(cur));
    if bs == [] {
      assert data + cur == cur && bs + [blob] == [blob];
      ClosedOne(offset, cur, crc);
    } else {
      var n := bs[0].size;
      ClosedMore(bs[1..], data[n..], offset + n, cur, crc);
      assert (bs + [blob])[1..] == bs[1..] + [blob];
      assert (data + cur)[..n] == data[..n] && (data + cur)[..n - 1] == data[..n - 1] == data[..n][..n - 1];
      assert (data + cur)[n..] == data[n..] + cur;
    }
  }

  /** Pending bytes that never split make one last blob. */
  lemma LastBlob(cur: Bytes, offset: nat, crc: Bytes -> nat)
    requires NoSplit(cur)
    ensures BlobsOf(cur, offset, crc) == if cur == [] then [] else [Blob(offset, |cur|, crc(cur))]
  {
    hide Splits;
    if cur != [] {
      CutAt(cur, 0, |cur|);
      assert cur[..|cur|] == cur && cur[|cur|..] == [];
    }
  }
}
