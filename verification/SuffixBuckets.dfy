/** The bucket sort by first byte with which suffix sorting starts. */
module SuffixBuckets {
  import opened Bytes
  import opened SuffixOrder
  import opened SuffixRanks
  import opened SuffixSort

  /** Occurrences of byte `c` before position `i`. */
  ghost function Occ(buf: Bytes, i: nat, c: nat): nat
    requires i <= |buf|
  {
    if i == 0 then 0 else Occ(buf, i - 1, c) + if buf[i - 1] == c then 1 else 0
  }

  /** Occurrences before position `i` of bytes smaller than `c`. */
  ghost function Sum(buf: Bytes, i: nat, c: nat): nat
    requires i <= |buf|
  {
    if c == 0 then 0 else Sum(buf, i, c - 1) + Occ(buf, i, c - 1)
  }

  /** The last index of the bucket of byte `c`; index 0 belongs to the empty suffix. */
  ghost function Last(buf: Bytes, c: nat): nat
  {
    Sum(buf, |buf|, c + 1)
  }

  /** The index at which position `j` is placed. */
  ghost function Slot(buf: Bytes, j: nat): nat
    requires j < |buf|
  {
    Sum(buf, |buf|, buf[j]) + Occ(buf, j, buf[j]) + 1
  }

  lemma {:induction false} SumStep(buf: Bytes, i: nat, c: nat)
    requires i < |buf|
    ensures Sum(buf, i + 1, c) == Sum(buf, i, c) + if buf[i] < c then 1 else 0
  {
    if c == 0 {
    } else {
      SumStep(buf, i, c - 1);
    }
  }

  lemma {:induction false} SumAll(buf: Bytes, i: nat)
    requires i <= |buf|
    ensures Sum(buf, i, 256) == i
  {
    if i > 0 {
      SumAll(buf, i - 1);
      SumStep(buf, i - 1, 256);
    } else {
      SumZero(buf, 256);
    }
  }

  lemma {:induction false} SumZero(buf: Bytes, c: nat)
    ensures Sum(buf, 0, c) == 0
  {
    if c == 0 {
    } else {
      SumZero(buf, c - 1);
    }
  }

  lemma {:induction false} SumMonotone(buf: Bytes, i: nat, c: nat, d: nat)
    requires i <= |buf| && c <= d
    ensures Sum(buf, i, c) <= Sum(buf, i, d)
    decreases d
  {
    if c >= d {
    } else {
      SumMonotone(buf, i, c, d - 1);
    }
  }

  lemma {:induction false} OccMonotone(buf: Bytes, i: nat, j: nat, c: nat)
    requires i <= j <= |buf|
    ensures Occ(buf, i, c) <= Occ(buf, j, c)
    ensures i < j && buf[i] == c ==> Occ(buf, i, c) < Occ(buf, j, c)
    decreases j
  {
    if i + 1 >= j {
    } else {
      OccMonotone(buf, i, j - 1, c);
    }
  }

  lemma SlotBounds(buf: Bytes, j: nat)
    requires j < |buf|
    ensures Sum(buf, |buf|, buf[j]) < Slot(buf, j) <= Last(buf, buf[j]) <= |buf|
  {
    var c: nat := buf[j];
    OccMonotone(buf, j, |buf|, c);
    SumMonotone(buf, |buf|, c + 1, 256);
    SumAll(buf, |buf|);
  }

  lemma SlotDistinct(buf: Bytes, i: nat, j: nat)
    requires i < j < |buf|
    ensures Slot(buf, i) != Slot(buf, j)
    ensures buf[i] < buf[j] ==> Slot(buf, i) <= Last(buf, buf[i]) < Slot(buf, j)
    ensures buf[i] > buf[j] ==> Slot(buf, j) <= Last(buf, buf[j]) < Slot(buf, i)
  {
    SlotBounds(buf, i);
    SlotBounds(buf, j);
    var c: nat, d: nat := buf[i], buf[j];
    if c == d {
      OccMonotone(buf, i, j, c);
    } else if c < d {
      SumMonotone(buf, |buf|, c + 1, d);
    } else {
      SumMonotone(buf, |buf|, d + 1, c);
    }
  }

  /** The listing after placement, with ranks. */
  ghost predicate Placed(buf: Bytes, V: seq<int>, p: seq<int>)
  {
    && |p| == |V| == |buf| + 1
    && p[0] == |buf| && V[|buf|] == 0
    && (forall j | 0 <= j < |buf| :: Slot(buf, j) <= |buf| && p[Slot(buf, j)] == j)
    && (forall j | 0 <= j < |buf| :: V[j] == Last(buf, buf[j]))
  }

  lemma PlacedPerm(buf: Bytes, V: seq<int>, p: seq<int>)
    requires Placed(buf, V, p)
    ensures (forall k | 0 <= k < |p| :: p[k] >= 0) && Perm(p)
  {
    forall a: nat | a < |p|
      ensures a in p
    {
      if a == |buf| {
        assert p[0] == a;
      } else {
        assert p[Slot(buf, a)] == a;
      }
    }
    OntoPerm(p);
  }

  /** Every index but the first holds the position whose slot it is. */
  lemma PlacedSlot(buf: Bytes, V: seq<int>, p: seq<nat>, k: nat)
    requires Placed(buf, V, p) && Perm(p) && 0 < k < |p|
    ensures p[k] < |buf| && Slot(buf, p[k]) == k
    ensures Sum(buf, |buf|, buf[p[k]]) < k <= V[p[k]] == Last(buf, buf[p[k]]) <= |buf|
  {
    PermDistinct(p);
    SlotBounds(buf, p[k]);
  }

  lemma RankOrder(buf: Bytes, V: seq<int>, p: seq<nat>, k: nat, l: nat)
    requires Placed(buf, V, p) && Perm(p) && 0 < k < |p| && 0 < l < |p|
    ensures p[k] < |buf| && p[l] < |buf|
    ensures buf[p[k]] < buf[p[l]] ==> V[p[k]] < l
    ensures V[p[k]] == V[p[l]] <==> buf[p[k]] == buf[p[l]]
    ensures V[p[k]] < V[p[l]] <==> buf[p[k]] < buf[p[l]]
  {
    PlacedSlot(buf, V, p, k);
    PlacedSlot(buf, V, p, l);
    var c: nat, d: nat := buf[p[k]], buf[p[l]];
    if c < d {
      SumMonotone(buf, |buf|, c + 1, d);
    } else if d < c {
      SumMonotone(buf, |buf|, d + 1, c);
    }
  }

  lemma PlacedOrdered(buf: Bytes, V: seq<int>, p: seq<nat>)
    requires Placed(buf, V, p) && Perm(p)
    ensures Ranked(buf, V, 1)
  {
    forall a: nat, b: nat | a < |V| && b < |V| && a != b
      ensures V[a] < V[b] ==> Lt(buf, a, b)
      ensures V[a] == V[b] ==> Agree(buf, a, b, 1)
    {
      var k := PermOnto(p, a);
      var l := PermOnto(p, b);
      if k > 0 {
        PlacedSlot(buf, V, p, k);
      }
      if l > 0 {
        PlacedSlot(buf, V, p, l);
      }
      if k > 0 && l > 0 {
        RankOrder(buf, V, p, k, l);
      }
    }
  }

  lemma PlacedGrouped(buf: Bytes, V: seq<int>, p: seq<nat>)
    requires Placed(buf, V, p) && Perm(p)
    ensures Grouped(V, p, 0, |p|)
  {
    forall k | 0 <= k < |p|
      ensures k <= V[p[k]] < |p|
    {
      if k > 0 {
        PlacedSlot(buf, V, p, k);
      }
    }
    forall k, l | 0 <= k <= l < |p| && l <= V[p[k]]
      ensures V[p[l]] == V[p[k]]
    {
      if k > 0 {
        RankOrder(buf, V, p, k, l);
        RankOrder(buf, V, p, l, k);
        PlacedSlot(buf, V, p, k);
        PlacedSlot(buf, V, p, l);
      }
    }
  }

  /** The index of a bucket of one position, other than that of byte 0. */
  ghost predicate Lone(buf: Bytes, c: nat)
  {
    0 < c && Last(buf, c) == Last(buf, c - 1) + 1
  }

  lemma LoneSingle(buf: Bytes, V: seq<int>, p: seq<nat>, c: nat)
    requires Placed(buf, V, p) && Perm(p) && c < 256 && Lone(buf, c)
    ensures 0 < Last(buf, c) < |p| && Single(V, p, Last(buf, c))
  {
    var k := Last(buf, c);
    SumMonotone(buf, |buf|, c + 1, 256);
    SumAll(buf, |buf|);
    PlacedSlot(buf, V, p, k);
    var d: nat := buf[p[k]];
    if d < c {
      SumMonotone(buf, |buf|, d + 1, c);
    } else if c < d {
      SumMonotone(buf, |buf|, c + 1, d);
    }
    if k > 1 {
      RankOrder(buf, V, p, k - 1, k);
      PlacedSlot(buf, V, p, k - 1);
    }
  }

  /** The array handed to the first doubling pass. */
  lemma PlacedScan(buf: Bytes, V: seq<int>, p: seq<nat>, I: seq<int>)
    requires Placed(buf, V, p) && Perm(p) && |I| == |p|
    requires forall k | 0 <= k < |I| ::
               || I[k] == p[k]
               || (I[k] == -1 && (k == 0 || exists c: nat | c < 256 && Lone(buf, c) :: k == Last(buf, c)))
    requires I[0] == -1
    ensures Scan(buf, V, p, I, 1, 0)
  {
    PlacedOrdered(buf, V, p);
    PlacedGrouped(buf, V, p);
    forall k | 0 <= k < |p|
      ensures I[k] == p[k] || (I[k] == -1 && Single(V, p, k))
      ensures k > 0 ==> p[k] < |buf|
    {
      if k > 0 {
        PlacedSlot(buf, V, p, k);
        if I[k] != p[k] {
          var c: nat :| c < 256 && Lone(buf, c) && k == Last(buf, c);
          LoneSingle(buf, V, p, c);
        }
      }
    }
    forall k {:trigger I[k]} | 0 <= k < |p| && I[k] < 0
      ensures Run(V, p, I, k, k - I[k])
    {
    }
  }

  // ----- The bucket sort itself

  method CountBytes(buf: Bytes) returns (buckets: array<int>)
    ensures fresh(buckets) && buckets.Length == 256
    ensures forall c | 0 <= c < 256 :: buckets[c] == Sum(buf, |buf|, c)
  {
    hide Sum;
    buckets := new int[256](_ => 0);
    for i := 0 to |buf|
      invariant forall c | 0 <= c < 256 :: buckets[c] == Occ(buf, i, c)
    {
      buckets[buf[i]] := buckets[buf[i]] + 1;
    }
    AddUp(buckets, buf);
    ShiftUp(buckets, buf);
  }

  /** From counts to running totals. */
  method AddUp(buckets: array<int>, buf: Bytes)
    requires buckets.Length == 256 && forall c | 0 <= c < 256 :: buckets[c] == Occ(buf, |buf|, c)
    modifies buckets
    ensures forall c | 0 <= c < 256 :: buckets[c] == Sum(buf, |buf|, c + 1)
  {
    hide Occ;
    for i := 1 to 256
      invariant forall c | 0 <= c < i :: buckets[c] == Sum(buf, |buf|, c + 1)
      invariant forall c | i <= c < 256 :: buckets[c] == Occ(buf, |buf|, c)
    {
      buckets[i] := buckets[i] + buckets[i - 1];
    }
  }

  /** From the totals up to a byte to those below it. */
  method ShiftUp(buckets: array<int>, buf: Bytes)
    requires buckets.Length == 256 && forall c | 0 <= c < 256 :: buckets[c] == Sum(buf, |buf|, c + 1)
    modifies buckets
    ensures forall c | 0 <= c < 256 :: buckets[c] == Sum(buf, |buf|, c)
  {
    hide Occ;
    for i := 255 downto 0
      invariant forall c | 0 <= c <= i :: buckets[c] == Sum(buf, |buf|, c + 1)
      invariant forall c | i < c < 256 :: buckets[c] == Sum(buf, |buf|, c)
    {
      buckets[i + 1] := buckets[i];
    }
    buckets[0] := 0;
  }

  /** Lists the positions by first byte. */
  method Place(iii: array<int>, buckets: array<int>, buf: Bytes)
    requires iii != buckets && buckets.Length == 256 && iii.Length == |buf| + 1
    requires forall c | 0 <= c < 256 :: buckets[c] == Sum(buf, |buf|, c)
    modifies iii, buckets
    ensures forall c | 0 <= c < 256 :: buckets[c] == Last(buf, c)
    ensures iii[0] == |buf|
    ensures forall j | 0 <= j < |buf| :: Slot(buf, j) <= |buf| && iii[Slot(buf, j)] == j
  {
    hide Slot, Sum;
    for i := 0 to |buf|
      invariant forall c | 0 <= c < 256 :: buckets[c] == Sum(buf, |buf|, c) + Occ(buf, i, c)
      invariant forall j | 0 <= j < i :: Slot(buf, j) <= |buf| && iii[Slot(buf, j)] == j
    {
      EarlierSlots(buf, i);
      buckets[buf[i]] := buckets[buf[i]] + 1;
      iii[buckets[buf[i]]] := i;
    }
    PlaceDone(buf);
    iii[0] := |buf|;
  }

  lemma EarlierSlots(buf: Bytes, i: nat)
    requires i < |buf|
    ensures Slot(buf, i) == Sum(buf, |buf|, buf[i]) + Occ(buf, i, buf[i]) + 1 <= |buf|
    ensures forall j | 0 <= j < i :: Slot(buf, j) != Slot(buf, i)
  {
    SlotBounds(buf, i);
    forall j | 0 <= j < i
      ensures Slot(buf, j) != Slot(buf, i)
    {
      SlotDistinct(buf, j, i);
    }
  }

  lemma PlaceDone(buf: Bytes)
    ensures forall c | 0 <= c < 256 :: Last(buf, c) == Sum(buf, |buf|, c) + Occ(buf, |buf|, c)
    ensures forall j | 0 <= j < |buf| :: 0 < Slot(buf, j)
  {
  }

  /** Marks the buckets of one position; that of byte 0 stays unmarked. */
  method MarkLone(iii: array<int>, buckets: array<int>, buf: Bytes)
    requires iii != buckets && buckets.Length == 256 && iii.Length == |buf| + 1
    requires forall c | 0 <= c < 256 :: buckets[c] == Last(buf, c)
    modifies iii
    ensures iii[0] == -1
    ensures forall k | 0 < k < iii.Length ::
              || iii[k] == old(iii[k])
              || (iii[k] == -1 && exists c: nat | c < 256 && Lone(buf, c) :: k == Last(buf, c))
  {
    for i := 1 to 256
      invariant forall k | 0 <= k < iii.Length ::
                  || iii[k] == old(iii[k])
                  || (iii[k] == -1 && exists c: nat | c < 256 && Lone(buf, c) :: k == Last(buf, c))
    {
      SumMonotone(buf, |buf|, i + 1, 256);
      SumAll(buf, |buf|);
      if buckets[i] == buckets[i - 1] + 1 {
        assert Lone(buf, i);
        iii[buckets[i]] := -1;
      }
    }
    iii[0] := -1;
  }

  // ----- The sort

  /** `I` lists all suffixes of `buf`, the empty one included, in strictly increasing lexicographic order. */
  ghost predicate IsSuffixArray(I: seq<int>, buf: Bytes)
  {
    && |I| == |buf| + 1
    && (forall k | 0 <= k < |I| :: 0 <= I[k] <= |buf|)
    && (forall a | 0 <= a <= |buf| :: a in I)
    && (forall k, l | 0 <= k < l < |I| :: LexLess(buf[I[k]..], buf[I[l]..]))
  }

  lemma {:induction false} LexLessOneWay(s: Bytes, t: Bytes)
    ensures !(LexLess(s, t) && LexLess(t, s))
    decreases |s|
  {
    if s == [] || t == [] {
    } else {
      LexLessOneWay(s[1..], t[1..]);
    }
  }

  /** A suffix listed at `k` that is not among the first `k` of another listing comes there no earlier. */
  lemma NotBefore(I: seq<int>, J: seq<int>, buf: Bytes, k: nat)
    requires IsSuffixArray(I, buf) && IsSuffixArray(J, buf) && k < |I| && I[..k] == J[..k]
    ensures I[k] == J[k] || LexLess(buf[J[k]..], buf[I[k]..])
  {
    Irreflexive(buf[I[k]..]);
    forall m | 0 <= m < k
      ensures J[m] != I[k]
    {
      assert J[m] == J[..k][m] == I[..k][m] == I[m];
    }
    assert I[k] in J;
    var i :| 0 <= i < |J| && J[i] == I[k];
  }

  lemma {:induction false} SameFirst(I: seq<int>, J: seq<int>, buf: Bytes, n: nat)
    requires IsSuffixArray(I, buf) && IsSuffixArray(J, buf) && n <= |I|
    ensures I[..n] == J[..n]
  {
    if n == 0 {
    } else {
      var k := n - 1;
      SameFirst(I, J, buf, k);
      NotBefore(I, J, buf, k);
      NotBefore(J, I, buf, k);
      LexLessOneWay(buf[I[k]..], buf[J[k]..]);
      assert I[..n] == I[..k] + [I[k]] && J[..n] == J[..k] + [J[k]];
    }
  }

  lemma {:induction false} Irreflexive(s: Bytes)
    ensures !LexLess(s, s)
    decreases |s|
  {
    if s == [] {
    } else {
      Irreflexive(s[1..]);
    }
  }

  /** There is only one suffix array. */
  lemma OneSuffixArray(I: seq<int>, J: seq<int>, buf: Bytes)
    requires IsSuffixArray(I, buf) && IsSuffixArray(J, buf)
    ensures I == J
  {
    SameFirst(I, J, buf, |I|);
    assert I[..|I|] == I && J[..|J|] == J;
  }

  lemma SortedArray(buf: Bytes, V: seq<int>, p: seq<nat>, I: seq<int>)
    requires |I| == |p| == |V| == |buf| + 1 && Perm(p) && Ordered(buf, V)
    requires forall k | 0 <= k < |p| :: Single(V, p, k)
    requires forall a | 0 <= a < |V| :: 0 <= V[a] < |I| && I[V[a]] == a
    ensures IsSuffixArray(I, buf)
  {
    forall k | 0 <= k < |p|
      ensures V[p[k]] == k && I[k] == p[k]
    {
      assert Single(V, p, k);
    }
    forall a | 0 <= a <= |buf|
      ensures a in I
    {
      assert I[V[a]] == a;
    }
    forall k, l | 0 <= k < l < |I|
      ensures LexLess(buf[I[k]..], buf[I[l]..])
    {
      LtIsLexLess(buf, p[k], p[l]);
    }
  }

  /** Bucket sort by the first byte: the state in which the first doubling pass starts. */
  method BucketSort(iii: array<int>, vvv: array<int>, buf: Bytes) returns (ghost p: seq<nat>)
    requires iii != vvv && iii.Length == vvv.Length == |buf| + 1
    modifies iii, vvv
    ensures Scan(buf, vvv[..], p, iii[..], 1, 0)
  {
    var buckets := CountBytes(buf);
    Place(iii, buckets, buf);
    ghost var q: seq<int> := iii[..];
    RankByBucket(vvv, buckets, buf);
    assert q == iii[..];
    PlacedPerm(buf, vvv[..], q);
    p := q;
    MarkLone(iii, buckets, buf);
    PlacedScan(buf, vvv[..], p, iii[..]);
  }

  method RankByBucket(vvv: array<int>, buckets: array<int>, buf: Bytes)
    requires vvv != buckets && buckets.Length == 256 && vvv.Length == |buf| + 1
    requires forall c | 0 <= c < 256 :: buckets[c] == Last(buf, c)
    modifies vvv
    ensures vvv[|buf|] == 0 && forall j | 0 <= j < |buf| :: vvv[j] == Last(buf, buf[j])
  {
    for i := 0 to |buf|
      invariant forall j | 0 <= j < i :: vvv[j] == Last(buf, buf[j])
    {
      vvv[i] := buckets[buf[i]];
    }
    vvv[|buf|] := 0;
  }

  /** Reads the sorted listing off the ranks. */
  method Invert(iii: array<int>, vvv: array<int>, ghost buf: Bytes, ghost p: seq<nat>)
    requires iii != vvv && iii.Length == vvv.Length == |buf| + 1 == |p| && Perm(p) && Ordered(buf, vvv[..])
    requires forall k | 0 <= k < |p| :: Single(vvv[..], p, k)
    modifies iii
    ensures IsSuffixArray(iii[..], buf)
  {
    ghost var V := vvv[..];
    RanksDistinct(V, p);
    for i := 0 to iii.Length
      invariant V == vvv[..]
      invariant forall a | 0 <= a < i :: iii[V[a]] == a
    {
      iii[vvv[i]] := i;
    }
    SortedArray(buf, V, p, iii[..]);
  }

  lemma RanksDistinct(V: seq<int>, p: seq<nat>)
    requires |V| == |p| && Perm(p) && forall k | 0 <= k < |p| :: Single(V, p, k)
    ensures forall a | 0 <= a < |V| :: 0 <= V[a] < |V|
    ensures forall a, b | 0 <= a < b < |V| :: V[a] != V[b]
  {
    forall a: nat | a < |V|
      ensures 0 <= V[a] < |V| && p[V[a]] == a
    {
      var k := PermOnto(p, a);
      assert Single(V, p, k);
    }
  }

  lemma ScanComplete(buf: Bytes, V: seq<int>, p: seq<nat>, I: seq<int>, h: nat)
    requires Scan(buf, V, p, I, h, 0) && I[0] == -(|buf| + 1)
    ensures Ordered(buf, V)
    ensures forall k | 0 <= k < |p| :: Single(V, p, k)
  {
  }

  /** The suffix sort: afterwards `iii` is the suffix array of `buf`. */
  method QSufSort(iii: array<int>, buf: Bytes)
    requires iii.Length == |buf| + 1
    modifies iii
    ensures IsSuffixArray(iii[..], buf)
  {
    hide Scan, Settled, Grouped, IsSuffixArray;
    var n := |buf|;
    var vvv := new int[iii.Length];
    ghost var p := BucketSort(iii, vvv, buf);
    var h: nat := 1;
    while iii[0] != -(n + 1)
      invariant h > 0 && Scan(buf, vvv[..], p, iii[..], h, 0)
      decreases if h <= n then n - h + 2 else if iii[0] != -(n + 1) then 1 else 0
    {
      p := Pass(iii, vvv, h, buf, p);
      h := h + h;
    }
    ScanBounds(buf, vvv[..], p, iii[..], h, 0);
    ScanComplete(buf, vvv[..], p, iii[..], h);
    Invert(iii, vvv, buf, p);
  }
}
