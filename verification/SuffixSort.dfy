/** Larsson-Sadakane suffix sorting, in place on the arrays `iii` (suffixes by index) and `vvv` (ranks by suffix). */
module SuffixSort {
  import opened Bytes
  import opened SuffixOrder
  import opened SuffixRanks

  ghost predicate Swapped(p: seq<nat>, q: seq<nat>, i: nat, j: nat)
  {
    && i < |p| == |q| && j < |p|
    && q[i] == p[j] && q[j] == p[i]
    && forall m | 0 <= m < |p| && m != i && m != j :: q[m] == p[m]
  }

  /** The key by which the suffix listed at `m` is sorted in a pass: the rank of the suffix `h` further on. */
  ghost function Key(V: seq<int>, p: seq<nat>, h: nat, m: nat): int
  {
    if m < |p| && p[m] + h < |V| then V[p[m] + h] else 0
  }

  /** On `lo..hi` the array contents `I` are `p`, and the keys of its suffixes at distance `h` can be read. */
  ghost predicate Listed(I: seq<int>, p: seq<nat>, lo: nat, hi: nat, h: nat)
  {
    && Perm(p)
    && lo <= hi <= |p| == |I|
    && forall m | lo <= m < hi :: I[m] == p[m] && p[m] + h < |p|
  }

  lemma ListedPart(I: seq<int>, J: seq<int>, p: seq<nat>, lo: nat, hi: nat, from: nat, to: nat, h: nat)
    requires Listed(I, p, lo, hi, h) && lo <= from <= to <= hi && |I| == |J|
    requires forall m | from <= m < to :: J[m] == I[m]
    ensures Listed(J, p, from, to, h)
  {
  }

  lemma KeysSwapped(V: seq<int>, p: seq<nat>, q: seq<nat>, h: nat, i: nat, j: nat)
    requires Swapped(p, q, i, j)
    ensures Key(V, q, h, i) == Key(V, p, h, j) && Key(V, q, h, j) == Key(V, p, h, i)
    ensures forall m: nat | m != i && m != j :: Key(V, q, h, m) == Key(V, p, h, m)
  {
  }

  lemma SwapMultiset(p: seq<nat>, i: nat, j: nat)
    requires i < |p| && j < |p|
    ensures multiset(p[i := p[j]][j := p[i]]) == multiset(p)
  {
  }

  /** Swaps two entries of the part `lo..hi` under rearrangement. */
  method Exchange(iii: array<int>, i: nat, j: nat, lo: nat, hi: nat, h: nat, ghost p: seq<nat>)
    returns (ghost q: seq<nat>)
    requires Listed(iii[..], p, lo, hi, h) && lo <= i < hi && lo <= j < hi
    modifies iii
    ensures Listed(iii[..], q, lo, hi, h) && Swapped(p, q, i, j)
    ensures forall m | 0 <= m < iii.Length && !(lo <= m < hi) :: iii[m] == old(iii[m])
  {
    SwapMultiset(p, i, j);
    q := p[i := p[j]][j := p[i]];
    iii[i], iii[j] := iii[j], iii[i];
  }

  /** Moves the suffixes of `k..end` with the smallest key to the front; there are `j` of them. */
  method SelectMin(iii: array<int>, vvv: array<int>, k: nat, end: nat, h: nat, ghost p: seq<nat>, ghost V: seq<int>)
    returns (j: nat, ghost q: seq<nat>)
    requires iii != vvv && vvv[..] == V && |V| == |p| && k < end && Listed(iii[..], p, k, end, h)
    modifies iii
    ensures 0 < j <= end - k && Listed(iii[..], q, k, end, h) && SameOutside(p, q, k, end)
    ensures forall m | 0 <= m < iii.Length && !(k <= m < end) :: iii[m] == old(iii[m])
    ensures forall m, l | k <= m < k + j && k <= l < k + j :: Key(V, q, h, m) == Key(V, q, h, l)
    ensures forall m, l | k <= m < k + j <= l < end :: Key(V, q, h, m) < Key(V, q, h, l)
  {
    q := p;
    j := 1;
    var x := vvv[iii[k] + h];
    var i := 1;
    while k + i < end
      invariant 1 <= i <= end - k && 0 < j <= i
      invariant vvv[..] == V
      invariant Listed(iii[..], q, k, end, h) && SameOutside(p, q, k, end)
      invariant forall m | 0 <= m < iii.Length && !(k <= m < end) :: iii[m] == old(iii[m])
      invariant forall m | k <= m < k + j :: Key(V, q, h, m) == x
      invariant forall m | k + j <= m < k + i :: Key(V, q, h, m) > x
    {
      assert vvv[iii[k + i] + h] == Key(V, q, h, k + i);
      if vvv[iii[k + i] + h] < x {
        x := vvv[iii[k + i] + h];
        j := 0;
      }
      if vvv[iii[k + i] + h] == x {
        ghost var q0 := q;
        q := Exchange(iii, k + j, k + i, k, end, h, q0);
        KeysSwapped(V, q0, q, h, k + j, k + i);
        j := j + 1;
      }
      i := i + 1;
    }
  }

  /** Gives the suffixes listed at `lo..hi` the rank `hi - 1`. */
  method AssignRanks(iii: array<int>, vvv: array<int>, lo: nat, hi: nat, ghost p: seq<nat>, h: nat)
    requires iii != vvv && vvv.Length == |p| && lo < hi && Listed(iii[..], p, lo, hi, h)
    modifies vvv
    ensures Assigned(old(vvv[..]), vvv[..], p, lo, hi)
  {
    PermDistinct(p);
    var i := lo;
    while i < hi
      invariant lo <= i <= hi
      invariant forall m | lo <= m < i :: vvv[p[m]] == hi - 1
      invariant forall m | 0 <= m < |p| && !(lo <= m < i) :: vvv[p[m]] == old(vvv[p[m]])
    {
      vvv[iii[i]] := hi - 1;
      i := i + 1;
    }
  }

  // ----- Three-way partition

  /** -1, 0 or 1: how the key of the suffix listed at `m` compares with `x`. */
  ghost function Class(V: seq<int>, p: seq<nat>, h: nat, x: int, m: nat): int
  {
    var v := Key(V, p, h, m);
    if v < x then -1 else if v == x then 0 else 1
  }

  ghost function CountClass(V: seq<int>, p: seq<nat>, h: nat, x: int, lo: nat, hi: nat, c: int): nat
    requires lo <= hi
    decreases hi
  {
    if lo == hi then 0
    else CountClass(V, p, h, x, lo, hi - 1, c) + if Class(V, p, h, x, hi - 1) == c then 1 else 0
  }

  lemma {:induction false} CountSplit(V: seq<int>, p: seq<nat>, h: nat, x: int, lo: nat, mid: nat, hi: nat, c: int)
    requires lo <= mid <= hi
    ensures CountClass(V, p, h, x, lo, hi, c) ==
            CountClass(V, p, h, x, lo, mid, c) + CountClass(V, p, h, x, mid, hi, c)
    decreases hi
  {
    if mid >= hi {
    } else {
      CountSplit(V, p, h, x, lo, mid, hi - 1, c);
    }
  }

  lemma {:induction false} CountWhole(V: seq<int>, p: seq<nat>, h: nat, x: int, lo: nat, hi: nat, c: int, d: int)
    requires lo <= hi
    requires forall m | lo <= m < hi :: Class(V, p, h, x, m) == d
    ensures CountClass(V, p, h, x, lo, hi, c) == if c == d then hi - lo else 0
    decreases hi
  {
    if lo >= hi {
    } else {
      CountWhole(V, p, h, x, lo, hi - 1, c, d);
    }
  }

  lemma {:induction false} CountSome(V: seq<int>, p: seq<nat>, h: nat, x: int, lo: nat, hi: nat, m: nat)
    requires lo <= m < hi
    ensures CountClass(V, p, h, x, lo, hi, Class(V, p, h, x, m)) >= 1
  {
    CountSplit(V, p, h, x, lo, m + 1, hi, Class(V, p, h, x, m));
  }

  lemma {:induction false} CountTotal(V: seq<int>, p: seq<nat>, h: nat, x: int, lo: nat, hi: nat)
    requires lo <= hi
    ensures CountClass(V, p, h, x, lo, hi, -1) + CountClass(V, p, h, x, lo, hi, 0) + CountClass(V, p, h, x, lo, hi, 1)
         == hi - lo
    decreases hi
  {
    if lo >= hi {
    } else {
      CountTotal(V, p, h, x, lo, hi - 1);
    }
  }

  lemma {:induction false} CountSame(V: seq<int>, p: seq<nat>, q: seq<nat>, h: nat, x: int, lo: nat, hi: nat, c: int)
    requires lo <= hi <= |p| == |q|
    requires forall m | lo <= m < hi :: q[m] == p[m]
    ensures CountClass(V, p, h, x, lo, hi, c) == CountClass(V, q, h, x, lo, hi, c)
    decreases hi
  {
    if lo >= hi {
    } else {
      CountSame(V, p, q, h, x, lo, hi - 1, c);
    }
  }

  lemma CountSwapped(V: seq<int>, p: seq<nat>, q: seq<nat>, h: nat, x: int, lo: nat, hi: nat, i: nat, j: nat, c: int)
    requires lo <= i < j < hi <= |p| && Swapped(p, q, i, j)
    ensures CountClass(V, p, h, x, lo, hi, c) == CountClass(V, q, h, x, lo, hi, c)
  {
    CountSplit(V, p, h, x, lo, i + 1, hi, c);
    CountSplit(V, p, h, x, i + 1, j + 1, hi, c);
    CountSplit(V, q, h, x, lo, i + 1, hi, c);
    CountSplit(V, q, h, x, i + 1, j + 1, hi, c);
    CountSame(V, p, q, h, x, lo, i, c);
    CountSame(V, p, q, h, x, i + 1, j, c);
    CountSame(V, p, q, h, x, j + 1, hi, c);
  }

  /** A block of class `c` and one more suffix of class `c` elsewhere. */
  lemma Room(V: seq<int>, p: seq<nat>, h: nat, x: int, lo: nat, hi: nat, a: nat, b: nat, i: nat, c: int)
    requires lo <= a <= b <= hi && lo <= i < hi && !(a <= i < b)
    requires (forall m | a <= m < b :: Class(V, p, h, x, m) == c) && Class(V, p, h, x, i) == c
    ensures b - a < CountClass(V, p, h, x, lo, hi, c)
  {
    CountSplit(V, p, h, x, lo, a, hi, c);
    CountSplit(V, p, h, x, a, b, hi, c);
    CountWhole(V, p, h, x, a, b, c, c);
    if i < a {
      CountSome(V, p, h, x, lo, a, i);
    } else {
      CountSome(V, p, h, x, b, hi, i);
    }
  }

  /** A block that holds all suffixes of class `c`. */
  lemma Full(V: seq<int>, p: seq<nat>, h: nat, x: int, lo: nat, hi: nat, a: nat, b: nat, c: int)
    requires lo <= a <= b <= hi && CountClass(V, p, h, x, lo, hi, c) == b - a
    requires forall m | a <= m < b :: Class(V, p, h, x, m) == c
    ensures forall i | lo <= i < hi && !(a <= i < b) :: Class(V, p, h, x, i) != c
  {
    forall i | lo <= i < hi && !(a <= i < b)
      ensures Class(V, p, h, x, i) != c
    {
      if Class(V, p, h, x, i) == c {
        Room(V, p, h, x, lo, hi, a, b, i, c);
      }
    }
  }

  ghost predicate Counted(V: seq<int>, p: seq<nat>, h: nat, x: int, lo: nat, jj: nat, kk: nat, hi: nat)
  {
    && lo <= jj <= kk <= hi
    && CountClass(V, p, h, x, lo, hi, -1) == jj - lo
    && CountClass(V, p, h, x, lo, hi, 0) == kk - jj
    && CountClass(V, p, h, x, lo, hi, 1) == hi - kk
  }

  lemma CountedSwapped(V: seq<int>, p: seq<nat>, q: seq<nat>, h: nat, x: int, lo: nat, jj: nat, kk: nat, hi: nat,
                       i: nat, j: nat)
    requires Counted(V, p, h, x, lo, jj, kk, hi) && lo <= i < j < hi <= |p| && Swapped(p, q, i, j)
    ensures Counted(V, q, h, x, lo, jj, kk, hi)
  {
    CountSwapped(V, p, q, h, x, lo, hi, i, j, -1);
    CountSwapped(V, p, q, h, x, lo, hi, i, j, 0);
    CountSwapped(V, p, q, h, x, lo, hi, i, j, 1);
  }

  method CountKeys(iii: array<int>, vvv: array<int>, x: int, start: nat, end: nat, h: nat, ghost p: seq<nat>,
                   ghost V: seq<int>)
    returns (jj: nat, kk: nat)
    requires vvv[..] == V && |V| == |p| && Listed(iii[..], p, start, end, h)
    ensures Counted(V, p, h, x, start, jj, kk, end)
  {
    jj, kk := 0, 0;
    var i := start;
    while i < end
      invariant start <= i <= end
      invariant jj == CountClass(V, p, h, x, start, i, -1)
      invariant kk == CountClass(V, p, h, x, start, i, 0)
    {
      assert vvv[iii[i] + h] == Key(V, p, h, i);
      if vvv[iii[i] + h] < x {
        jj := jj + 1;
      } else if vvv[iii[i] + h] == x {
        kk := kk + 1;
      }
      i := i + 1;
    }
    CountTotal(V, p, h, x, start, end);
    jj := jj + start;
    kk := kk + jj;
  }

  /** Partition under way: `start..i` is below `x`, `jj..jj + j` equal to it, `kk..kk + k` above it. */
  ghost predicate Parted(V: seq<int>, p: seq<nat>, h: nat, x: int, start: nat, i: nat, jj: nat, j: nat, kk: nat, k: nat,
                         end: nat)
  {
    && start <= i <= jj && jj + j <= kk && kk + k <= end
    && Counted(V, p, h, x, start, jj, kk, end)
    && (forall m | start <= m < i :: Key(V, p, h, m) < x)
    && (forall m | jj <= m < jj + j :: Key(V, p, h, m) == x)
    && (forall m | kk <= m < kk + k :: Key(V, p, h, m) > x)
  }

  /** A suffix with the pivot's key outside the equal block: there is room for it there. */
  lemma EqualRoom(V: seq<int>, p: seq<nat>, h: nat, x: int, start: nat, i: nat, jj: nat, j: nat, kk: nat, k: nat,
                  end: nat)
    requires Parted(V, p, h, x, start, i, jj, j, kk, k, end) && i < jj && Key(V, p, h, i) == x
    ensures jj + j < kk
  {
    Room(V, p, h, x, start, end, jj, jj + j, i, 0);
  }

  lemma EqualMoved(V: seq<int>, p: seq<nat>, q: seq<nat>, h: nat, x: int, start: nat, i: nat, jj: nat, j: nat, kk: nat,
                   k: nat, end: nat)
    requires Parted(V, p, h, x, start, i, jj, j, kk, k, end) && i < jj && Key(V, p, h, i) == x && jj + j < kk
    requires end <= |p| && Swapped(p, q, i, jj + j)
    ensures Parted(V, q, h, x, start, i, jj, j + 1, kk, k, end)
  {
    KeysSwapped(V, p, q, h, i, jj + j);
    CountedSwapped(V, p, q, h, x, start, jj, kk, end, i, jj + j);
  }

  lemma AboveRoom(V: seq<int>, p: seq<nat>, h: nat, x: int, start: nat, i: nat, jj: nat, j: nat, kk: nat, k: nat,
                  end: nat, a: nat)
    requires Parted(V, p, h, x, start, i, jj, j, kk, k, end) && start <= a < kk && Key(V, p, h, a) > x
    ensures kk + k < end
  {
    Room(V, p, h, x, start, end, kk, kk + k, a, 1);
  }

  lemma AboveMoved(V: seq<int>, p: seq<nat>, q: seq<nat>, h: nat, x: int, start: nat, i: nat, jj: nat, j: nat, kk: nat,
                   k: nat, end: nat, a: nat)
    requires Parted(V, p, h, x, start, i, jj, j, kk, k, end) && kk + k < end && Key(V, p, h, a) > x
    requires i <= a < jj || jj + j <= a < kk
    requires end <= |p| && Swapped(p, q, a, kk + k)
    ensures Parted(V, q, h, x, start, i, jj, j, kk, k + 1, end)
  {
    KeysSwapped(V, p, q, h, a, kk + k);
    CountedSwapped(V, p, q, h, x, start, jj, kk, end, a, kk + k);
  }

  lemma PartedBelow(V: seq<int>, p: seq<nat>, h: nat, x: int, start: nat, jj: nat, j: nat, kk: nat, k: nat, end: nat)
    requires Parted(V, p, h, x, start, jj, jj, j, kk, k, end)
    ensures forall m | jj <= m < end :: Key(V, p, h, m) >= x
    ensures jj + j == kk ==> forall m | kk <= m < end :: Key(V, p, h, m) > x
  {
    Full(V, p, h, x, start, end, start, jj, -1);
    forall m | jj <= m < end
      ensures Key(V, p, h, m) >= x
    {
      assert Class(V, p, h, x, m) != -1;
    }
    if jj + j == kk {
      Full(V, p, h, x, start, end, jj, kk, 0);
      forall m | kk <= m < end
        ensures Key(V, p, h, m) > x
      {
        assert Class(V, p, h, x, m) != 0;
      }
    }
  }

  /** First partition loop: afterwards `start..jj` is below the pivot. */
  method PartitionBelow(iii: array<int>, vvv: array<int>, pivot: int, start: nat, jj: nat, kk: nat, end: nat, h: nat,
                        ghost p: seq<nat>, ghost V: seq<int>)
    returns (j: nat, k: nat, ghost q: seq<nat>)
    requires iii != vvv && vvv[..] == V && |V| == |p| && Listed(iii[..], p, start, end, h)
    requires Counted(V, p, h, pivot, start, jj, kk, end)
    modifies iii
    ensures Listed(iii[..], q, start, end, h) && SameOutside(p, q, start, end)
    ensures forall m | 0 <= m < iii.Length && !(start <= m < end) :: iii[m] == old(iii[m])
    ensures Parted(V, q, h, pivot, start, jj, jj, j, kk, k, end)
  {
    hide Perm, CountClass;
    q := p;
    var i: nat := start;
    j, k := 0, 0;
    while i < jj
      invariant vvv[..] == V
      invariant Listed(iii[..], q, start, end, h) && SameOutside(p, q, start, end)
      invariant forall m | 0 <= m < iii.Length && !(start <= m < end) :: iii[m] == old(iii[m])
      invariant Parted(V, q, h, pivot, start, i, jj, j, kk, k, end)
      decreases jj - i + (kk - jj - j) + (end - kk - k)
    {
      assert vvv[iii[i] + h] == Key(V, q, h, i);
      if vvv[iii[i] + h] < pivot {
        i := i + 1;
      } else if vvv[iii[i] + h] == pivot {
        EqualRoom(V, q, h, pivot, start, i, jj, j, kk, k, end);
        ghost var q0 := q;
        q := Exchange(iii, i, jj + j, start, end, h, q0);
        EqualMoved(V, q0, q, h, pivot, start, i, jj, j, kk, k, end);
        j := j + 1;
      } else {
        AboveRoom(V, q, h, pivot, start, i, jj, j, kk, k, end, i);
        ghost var q0 := q;
        q := Exchange(iii, i, kk + k, start, end, h, q0);
        AboveMoved(V, q0, q, h, pivot, start, i, jj, j, kk, k, end, i);
        k := k + 1;
      }
    }
  }

  /** Second partition loop: afterwards `jj..kk` is equal to the pivot. */
  method PartitionEqual(iii: array<int>, vvv: array<int>, pivot: int, start: nat, jj: nat, j0: nat, kk: nat, k0: nat,
                        end: nat, h: nat, ghost p: seq<nat>, ghost V: seq<int>)
    returns (ghost q: seq<nat>)
    requires iii != vvv && vvv[..] == V && |V| == |p| && Listed(iii[..], p, start, end, h)
    requires Parted(V, p, h, pivot, start, jj, jj, j0, kk, k0, end)
    modifies iii
    ensures Listed(iii[..], q, start, end, h) && SameOutside(p, q, start, end)
    ensures forall m | 0 <= m < iii.Length && !(start <= m < end) :: iii[m] == old(iii[m])
    ensures Parted(V, q, h, pivot, start, jj, jj, kk - jj, kk, end - kk, end)
  {
    hide Perm, Counted;
    q := p;
    var j, k := j0, k0;
    while jj + j < kk
      invariant vvv[..] == V
      invariant Listed(iii[..], q, start, end, h) && SameOutside(p, q, start, end)
      invariant forall m | 0 <= m < iii.Length && !(start <= m < end) :: iii[m] == old(iii[m])
      invariant Parted(V, q, h, pivot, start, jj, jj, j, kk, k, end)
      decreases (kk - jj - j) + (end - kk - k)
    {
      assert vvv[iii[jj + j] + h] == Key(V, q, h, jj + j);
      if vvv[iii[jj + j] + h] == pivot {
        j := j + 1;
      } else {
        PartedBelow(V, q, h, pivot, start, jj, j, kk, k, end);
        AboveRoom(V, q, h, pivot, start, jj, jj, j, kk, k, end, jj + j);
        ghost var q0 := q;
        q := Exchange(iii, jj + j, kk + k, start, end, h, q0);
        AboveMoved(V, q0, q, h, pivot, start, jj, jj, j, kk, k, end, jj + j);
        k := k + 1;
      }
    }
    PartedBelow(V, q, h, pivot, start, jj, j, kk, k, end);
  }

  /** Three-way partition of `start..start + ln` around the key of its middle suffix. */
  method Partition(iii: array<int>, vvv: array<int>, start: nat, ln: nat, h: nat, ghost p: seq<nat>, ghost V: seq<int>)
    returns (jj: nat, kk: nat, ghost q: seq<nat>)
    requires iii != vvv && vvv[..] == V && |V| == |p| && ln > 0 && Listed(iii[..], p, start, start + ln, h)
    modifies iii
    ensures start <= jj < kk <= start + ln
    ensures Listed(iii[..], q, start, start + ln, h) && SameOutside(p, q, start, start + ln)
    ensures forall m | 0 <= m < iii.Length && !(start <= m < start + ln) :: iii[m] == old(iii[m])
    ensures forall m | start <= m < jj :: Key(V, q, h, m) < Key(V, q, h, jj)
    ensures forall m | jj <= m < kk :: Key(V, q, h, m) == Key(V, q, h, jj)
    ensures forall m | kk <= m < start + ln :: Key(V, q, h, m) > Key(V, q, h, jj)
  {
    var pivot := vvv[iii[start + ln / 2] + h];
    jj, kk := CountKeys(iii, vvv, pivot, start, start + ln, h, p, V);
    CountSome(V, p, h, pivot, start, start + ln, start + ln / 2);
    var j, k;
    j, k, q := PartitionBelow(iii, vvv, pivot, start, jj, kk, start + ln, h, p, V);
    q := PartitionEqual(iii, vvv, pivot, start, jj, j, kk, k, start + ln, h, q, V);
  }

  // ----- Splitting a group

  ghost predicate Single(V: seq<int>, p: seq<nat>, k: nat)
    requires Perm(p) && |V| == |p| && k < |p|
  {
    V[p[k]] == k && (k == 0 || V[p[k - 1]] != k)
  }

  /** Settled entries hold -1 where a suffix has found its final place. */
  ghost predicate Marked(I: seq<int>, V: seq<int>, p: seq<nat>, lo: nat, hi: nat)
  {
    && Perm(p) && |V| == |p| == |I| && lo <= hi <= |p|
    && forall k | lo <= k < hi :: I[k] == if Single(V, p, k) then -1 else p[k]
  }

  lemma MarkedThen(I: seq<int>, W: seq<int>, q: seq<nat>, J: seq<int>, X: seq<int>, r: seq<nat>,
                   lo: nat, mid: nat, hi: nat)
    requires Marked(I, W, q, lo, mid) && Frame(W, q, X, r, mid, hi) && Marked(J, X, r, mid, hi)
    requires forall k | lo <= k < mid :: J[k] == I[k]
    ensures Marked(J, X, r, lo, hi)
  {
  }

  /** A freshly ranked group `from..to`. */
  lemma MarkedGroup(J: seq<int>, X: seq<int>, p: seq<nat>, from: nat, to: nat)
    requires Perm(p) && |X| == |p| == |J| && from < to <= |p|
    requires from > 0 ==> X[p[from - 1]] < from
    requires forall k | from <= k < to :: X[p[k]] == to - 1
    requires forall k | from <= k < to :: J[k] == if to == from + 1 then -1 else p[k]
    ensures Marked(J, X, p, from, to)
  {
  }

  lemma KeyInGroup(buf: Bytes, V: seq<int>, p: seq<nat>, start: nat, end: nat, r: nat, h: nat, k: nat)
    requires Group(buf, V, p, start, end, r, h) && start <= k < end
    ensures p[k] + h < |V| && V[p[k]] == r && Key(V, p, h, k) == V[p[k] + h]
  {
  }

  /** What key comparisons within a group say about its suffixes. */
  lemma KeysSeparate(buf: Bytes, V: seq<int>, p: seq<nat>, from: nat, to: nat, end: nat, r: nat, h: nat)
    requires Group(buf, V, p, from, end, r, h) && from <= to <= end
    requires forall m, l | from <= m < to <= l < end :: Key(V, p, h, m) < Key(V, p, h, l)
    ensures forall k, l | from <= k < to <= l < end :: Lt(buf, p[k], p[l])
  {
    forall k, l | from <= k < to <= l < end
      ensures Lt(buf, p[k], p[l])
    {
      KeyInGroup(buf, V, p, from, end, r, h, k);
      KeyInGroup(buf, V, p, from, end, r, h, l);
      KeyOrders(buf, V, h, p[k], p[l]);
    }
  }

  lemma KeysAgree(buf: Bytes, V: seq<int>, p: seq<nat>, start: nat, from: nat, to: nat, end: nat, r: nat, h: nat)
    requires Group(buf, V, p, start, end, r, h) && start <= from <= to <= end
    requires forall m, l | from <= m < to && from <= l < to :: Key(V, p, h, m) == Key(V, p, h, l)
    ensures forall k, l | from <= k < to && from <= l < to && k != l :: Agree(buf, p[k], p[l], 2 * h)
  {
    PermDistinct(p);
    forall k, l | from <= k < to && from <= l < to && k != l
      ensures Agree(buf, p[k], p[l], 2 * h)
    {
      KeyInGroup(buf, V, p, start, end, r, h, k);
      KeyInGroup(buf, V, p, start, end, r, h, l);
      KeyResolves(buf, V, h, p[k], p[l]);
    }
  }

  lemma SplitStarts(buf: Bytes, V: seq<int>, I: seq<int>, p: seq<nat>, start: nat, end: nat, r: nat, h: nat)
    requires Group(buf, V, p, start, end, r, h) && |I| == |p|
    ensures start <= end
    ensures Frame(V, p, V, p, start, end) && Settled(buf, V, p, start, start, h) && Marked(I, V, p, start, start)
  {
  }

  lemma ListedSame(I: seq<int>, p: seq<nat>, q: seq<nat>, lo: nat, hi: nat, h: nat)
    requires Listed(I, q, lo, hi, h) && SameOutside(p, q, lo, hi)
    ensures Perm(q) && |q| == |p|
  {
  }

  /** One step of splitting: `from..to` of the rearranged listing `q` has been ranked and marked. */
  lemma StepDone(buf: Bytes, V: seq<int>, p: seq<nat>, W: seq<int>, q0: seq<nat>, X: seq<int>, q: seq<nat>,
                 I: seq<int>, K: seq<int>, J: seq<int>, start: nat, from: nat, to: nat, end: nat, r: nat, h: nat)
    requires Frame(V, p, W, q0, start, end) && Settled(buf, W, q, start, from, h) && Marked(I, W, q0, start, from)
    requires Perm(q) && SameOutside(q0, q, from, end) && Refined(buf, W, q, X, q, from, to, h)
    requires Group(buf, W, q, from, end, r, h) && to <= end && Assigned(W, X, q, from, to)
    requires Listed(J, q, from, end, h) && |I| == |J| == |K|
    requires forall m | start <= m < from :: J[m] == I[m]
    requires K == if to == from + 1 then J[from := -1] else J
    ensures Frame(V, p, X, q, start, end) && Settled(buf, X, q, start, to, h) && Marked(K, X, q, start, to)
  {
    FrameThen(V, p, W, q0, q, X, q, start, end, from, end, from, to);
    SettledThen(buf, W, q, X, q, start, from, to, h);
    MarkedGroup(K, X, q, from, to);
    MarkedThen(I, W, q, K, X, q, start, from, to);
  }

  method SplitSmall(iii: array<int>, vvv: array<int>, start: nat, end: nat, h: nat, ghost buf: Bytes, ghost p: seq<nat>,
                    ghost r: nat)
    returns (ghost q: seq<nat>)
    requires iii != vvv && iii.Length == vvv.Length == |p|
    requires Group(buf, vvv[..], p, start, end, r, h) && Listed(iii[..], p, start, end, h)
    modifies iii, vvv
    ensures Refined(buf, old(vvv[..]), p, vvv[..], q, start, end, h)
    ensures forall m | 0 <= m < iii.Length && !(start <= m < end) :: iii[m] == old(iii[m])
    ensures Marked(iii[..], vvv[..], q, start, end)
  {
    hide *;
    SplitStarts(buf, vvv[..], iii[..], p, start, end, r, h);
    q := p;
    var k := start;
    while k < end
      invariant start <= k <= end <= |q| == |p|
      invariant Frame(old(vvv[..]), p, vvv[..], q, start, end)
      invariant Settled(buf, vvv[..], q, start, k, h)
      invariant k < end ==> Group(buf, vvv[..], q, k, end, r, h) && Listed(iii[..], q, k, end, h)
      invariant forall m | 0 <= m < iii.Length && !(start <= m < end) :: iii[m] == old(iii[m])
      invariant Marked(iii[..], vvv[..], q, start, k)
    {
      ghost var q0, W, I := q, vvv[..], iii[..];
      var j;
      j, q := SelectMin(iii, vvv, k, end, h, q0, W);
      ListedSame(iii[..], q0, q, k, end, h);
      GroupRearranged(buf, W, q0, q, k, end, r, h);
      SettledRearranged(buf, W, q0, q, start, k, end, h);
      KeysSeparate(buf, W, q, k, k + j, end, r, h);
      KeysAgree(buf, W, q, k, k, k + j, end, r, h);
      ghost var J := iii[..];
      ListedPart(J, J, q, k, end, k, k + j, h);
      AssignRanks(iii, vvv, k, k + j, q, h);
      AssignStep(buf, W, vvv[..], q, k, k + j, end, r, h);
      if j == 1 {
        iii[k] := -1;
      }
      StepDone(buf, old(vvv[..]), p, W, q0, vvv[..], q, I, iii[..], J, start, k, k + j, end, r, h);
      ListedPart(J, iii[..], q, k, end, k + j, end, h);
      k := k + j;
    }
    RefinedFrom(buf, old(vvv[..]), p, vvv[..], q, start, end, h);
  }

  lemma ListedAfter(I: seq<int>, J: seq<int>, p: seq<nat>, q: seq<nat>, lo: nat, from: nat, hi: nat, h: nat)
    requires Listed(I, p, lo, hi, h) && Perm(q) && SameOutside(p, q, lo, from) && lo <= from <= hi && |J| == |I|
    requires forall m | from <= m < hi :: J[m] == I[m]
    ensures Listed(J, q, from, hi, h)
  {
  }

  /** After the partition, the part below the pivot is itself a group. */
  lemma GroupBelow(buf: Bytes, V: seq<int>, p: seq<nat>, start: nat, jj: nat, end: nat, r: nat, h: nat)
    requires Group(buf, V, p, start, end, r, h) && start < jj < end
    requires forall k, l | start <= k < jj <= l < end :: Lt(buf, p[k], p[l])
    ensures Group(buf, V, p, start, jj, r, h)
  {
  }

  /** Once the first part of a group is refined, the rest is a group. */
  lemma GroupRest(buf: Bytes, V: seq<int>, p: seq<nat>, W: seq<int>, q: seq<nat>, start: nat, jj: nat, end: nat, r: nat,
                  h: nat)
    requires Group(buf, V, p, start, end, r, h) && start <= jj < end && Refined(buf, V, p, W, q, start, jj, h)
    ensures Group(buf, W, q, jj, end, r, h)
  {
  }

  /** The pivot's part, untouched by work on the part before it, is separated from what follows. */
  lemma PivotPart(buf: Bytes, V: seq<int>, p: seq<nat>, q: seq<nat>, start: nat, jj: nat, kk: nat, end: nat, r: nat,
                  h: nat)
    requires Group(buf, V, p, start, end, r, h) && start <= jj < kk <= end && SameOutside(p, q, start, jj)
    requires forall m | jj <= m < kk :: Key(V, p, h, m) == Key(V, p, h, jj)
    requires forall m | kk <= m < end :: Key(V, p, h, m) > Key(V, p, h, jj)
    ensures forall k, l | jj <= k < kk <= l < end :: Lt(buf, q[k], q[l])
    ensures forall k, l | jj <= k < kk && jj <= l < kk && k != l :: Agree(buf, q[k], q[l], 2 * h)
  {
    KeysAgree(buf, V, p, start, jj, kk, end, r, h);
    forall k, l | jj <= k < kk <= l < end
      ensures Lt(buf, q[k], q[l])
    {
      KeyInGroup(buf, V, p, start, end, r, h, k);
      KeyInGroup(buf, V, p, start, end, r, h, l);
      KeyOrders(buf, V, h, p[k], p[l]);
    }
  }

  /** A refined part joins the parts already done. */
  lemma PartDone(buf: Bytes, V: seq<int>, p: seq<nat>, W: seq<int>, q: seq<nat>, X: seq<int>, s: seq<nat>,
                 I: seq<int>, K: seq<int>, start: nat, from: nat, to: nat, end: nat, h: nat)
    requires Frame(V, p, W, q, start, end) && Settled(buf, W, q, start, from, h) && Marked(I, W, q, start, from)
    requires Refined(buf, W, q, X, s, from, to, h) && Marked(K, X, s, from, to) && to <= end
    requires forall m | start <= m < from :: K[m] == I[m]
    ensures Frame(V, p, X, s, start, end) && Settled(buf, X, s, start, to, h) && Marked(K, X, s, start, to)
  {
    FrameThen(V, p, W, q, q, X, s, start, end, start, end, from, to);
    SettledThen(buf, W, q, X, s, start, from, to, h);
    MarkedThen(I, W, q, K, X, s, start, from, to);
  }

  lemma AssignDone(buf: Bytes, W: seq<int>, X: seq<int>, q: seq<nat>, I: seq<int>, K: seq<int>, from: nat, to: nat,
                   end: nat, r: nat, h: nat)
    requires Group(buf, W, q, from, end, r, h) && to <= end && Assigned(W, X, q, from, to)
    requires Listed(I, q, from, end, h)
    requires K == if to == from + 1 then I[from := -1] else I
    ensures Marked(K, X, q, from, to)
  {
  }

  lemma PartitionStarts(buf: Bytes, V: seq<int>, I: seq<int>, p: seq<nat>, q: seq<nat>, start: nat, end: nat, r: nat,
                        h: nat)
    requires Group(buf, V, p, start, end, r, h) && Listed(I, q, start, end, h) && SameOutside(p, q, start, end)
    ensures Frame(V, p, V, q, start, end) && Settled(buf, V, q, start, start, h) && Marked(I, V, q, start, start)
    ensures Group(buf, V, q, start, end, r, h) && Refined(buf, V, q, V, q, start, start, h)
  {
    GroupRearranged(buf, V, p, q, start, end, r, h);
  }

  /** Ranks and marks the pivot's part `jj..kk`, the smallest of what is left of its group. */
  method RankPivotPart(iii: array<int>, vvv: array<int>, jj: nat, kk: nat, end: nat, h: nat, ghost buf: Bytes,
                       ghost q: seq<nat>, ghost r: nat)
    requires iii != vvv && iii.Length == vvv.Length == |q| && jj < kk <= end
    requires Group(buf, vvv[..], q, jj, end, r, h) && Listed(iii[..], q, jj, end, h)
    requires forall k, l | jj <= k < kk <= l < end :: Lt(buf, q[k], q[l])
    requires forall k, l | jj <= k < kk && jj <= l < kk && k != l :: Agree(buf, q[k], q[l], 2 * h)
    modifies iii, vvv
    ensures Refined(buf, old(vvv[..]), q, vvv[..], q, jj, kk, h) && Marked(iii[..], vvv[..], q, jj, kk)
    ensures forall m | 0 <= m < iii.Length && !(jj <= m < kk) :: iii[m] == old(iii[m])
    ensures kk < end ==> Group(buf, vvv[..], q, kk, end, r, h)
    ensures Listed(iii[..], q, kk, end, h)
  {
    hide *;
    ghost var W, I := vvv[..], iii[..];
    ListedPart(I, I, q, jj, end, jj, kk, h);
    AssignRanks(iii, vvv, jj, kk, q, h);
    if jj == kk - 1 {
      iii[jj] := -1;
    }
    AssignStep(buf, W, vvv[..], q, jj, kk, end, r, h);
    AssignDone(buf, W, vvv[..], q, I, iii[..], jj, kk, end, r, h);
    ListedPart(I, iii[..], q, jj, end, kk, end, h);
  }

  /** Sorts a group by rank `h` further on, splitting it into groups that agree on `2 * h` bytes. */
  method Split(iii: array<int>, vvv: array<int>, start: nat, ln: nat, h: nat, ghost buf: Bytes, ghost p: seq<nat>,
               ghost r: nat)
    returns (ghost q: seq<nat>)
    requires iii != vvv && iii.Length == vvv.Length == |p|
    requires Group(buf, vvv[..], p, start, start + ln, r, h) && Listed(iii[..], p, start, start + ln, h)
    modifies iii, vvv
    ensures Refined(buf, old(vvv[..]), p, vvv[..], q, start, start + ln, h)
    ensures forall m | 0 <= m < iii.Length && !(start <= m < start + ln) :: iii[m] == old(iii[m])
    ensures Marked(iii[..], vvv[..], q, start, start + ln)
    decreases ln
  {
    hide *;
    if ln < 16 {
      q := SplitSmall(iii, vvv, start, start + ln, h, buf, p, r);
      return;
    }
    var end := start + ln;
    ghost var V := vvv[..];
    GroupBounds(buf, V, p, start, end, r, h);
    var jj, kk;
    ghost var q1;
    jj, kk, q1 := Partition(iii, vvv, start, ln, h, p, V);
    ghost var I1 := iii[..];
    PartitionStarts(buf, V, I1, p, q1, start, end, r, h);
    q := q1;
    if jj > start {
      KeysSeparate(buf, V, q1, start, jj, end, r, h);
      GroupBelow(buf, V, q1, start, jj, end, r, h);
      ListedPart(I1, I1, q1, start, end, start, jj, h);
      q := Split(iii, vvv, start, jj - start, h, buf, q1, r);
      PartDone(buf, V, p, V, q1, vvv[..], q, I1, iii[..], start, start, jj, end, h);
    }
    ghost var W, I2 := vvv[..], iii[..];
    RefinedFacts(buf, V, q1, W, q, start, jj, h);
    PivotPart(buf, V, q1, q, start, jj, kk, end, r, h);
    GroupRest(buf, V, q1, W, q, start, jj, end, r, h);
    ListedAfter(I1, I2, q1, q, start, jj, end, h);
    RankPivotPart(iii, vvv, jj, kk, end, h, buf, q, r);
    ghost var X, I3 := vvv[..], iii[..];
    PartDone(buf, V, p, W, q, X, q, I2, I3, start, jj, kk, end, h);
    if start + ln > kk {
      ghost var q3 := q;
      q := Split(iii, vvv, kk, start + ln - kk, h, buf, q3, r);
      PartDone(buf, V, p, X, q3, vvv[..], q, I3, iii[..], start, kk, end, end, h);
    }
    RefinedFrom(buf, V, p, vvv[..], q, start, end, h);
  }

  lemma GroupBounds(buf: Bytes, V: seq<int>, p: seq<nat>, start: nat, end: nat, r: nat, h: nat)
    requires Group(buf, V, p, start, end, r, h)
    ensures start < end <= r + 1 <= |p| == |V|
  {
  }

  lemma RefinedFacts(buf: Bytes, V: seq<int>, p: seq<nat>, W: seq<int>, q: seq<nat>, lo: nat, hi: nat, h: nat)
    requires Refined(buf, V, p, W, q, lo, hi, h)
    ensures Perm(q) && SameOutside(p, q, lo, hi) && |p| == |q| == |V| == |W|
  {
  }

  // ----- One doubling pass

  /** Suffixes in final place, and marked so. */
  ghost predicate Run(V: seq<int>, p: seq<nat>, I: seq<int>, lo: nat, hi: nat)
  {
    && |I| == |p| == |V| && Perm(p) && lo <= hi <= |p|
    && forall m {:trigger I[m]} {:trigger Single(V, p, m)} | lo <= m < hi :: Single(V, p, m) && I[m] < 0
  }

  /**
   The array `I` during a scan that has reached index `i`: a non-negative entry lists its suffix, a negative entry
   `-m` starts a run of `m` suffixes in final place.  An unmarked suffix in final place lies ahead and has `h` bytes.
   */
  ghost predicate Entries(n: nat, V: seq<int>, p: seq<nat>, I: seq<int>, h: nat, i: nat)
  {
    && |I| == |p| == |V| == n + 1 && i <= |p| && Perm(p)
    && (forall k {:trigger I[k]} | 0 <= k < |p| && I[k] >= 0 :: I[k] == p[k])
    && (forall k {:trigger I[k]} | 0 <= k < |p| && I[k] < 0 :: Run(V, p, I, k, k - I[k]))
    && (forall k {:trigger I[k]} | 0 <= k < i && Single(V, p, k) :: I[k] < 0)
    && (forall k {:trigger I[k]} | i <= k < |p| && Single(V, p, k) && I[k] >= 0 :: p[k] + h <= n)
  }

  ghost predicate Scan(buf: Bytes, V: seq<int>, p: seq<nat>, I: seq<int>, h: nat, i: nat)
  {
    && Entries(|buf|, V, p, I, h, i)
    && Settled(buf, V, p, 0, i, h)
    && Grouped(V, p, i, |p|)
  }

  lemma ScanBounds(buf: Bytes, V: seq<int>, p: seq<nat>, I: seq<int>, h: nat, i: nat)
    requires Scan(buf, V, p, I, h, i)
    ensures |I| == |p| == |V| == |buf| + 1 && i <= |p| && Perm(p)
    ensures i < |p| && I[i] < 0 ==> i - I[i] <= |p| && Run(V, p, I, i, i - I[i])
    ensures i < |p| && I[i] >= 0 ==> I[i] == p[i] < |V| && i <= V[I[i]] < |p|
  {
  }

  lemma SingleSettled(buf: Bytes, V: seq<int>, p: seq<nat>, h: nat, i: nat)
    requires Settled(buf, V, p, 0, i, h) && i < |p| && Single(V, p, i)
    ensures Settled(buf, V, p, 0, i + 1, h)
  {
  }

  lemma {:induction false} ScanSkips(buf: Bytes, V: seq<int>, p: seq<nat>, I: seq<int>, h: nat, i: nat, j: nat)
    requires Scan(buf, V, p, I, h, i) && i <= j && Run(V, p, I, i, j)
    ensures Scan(buf, V, p, I, h, j)
    decreases j
  {
    if i >= j {
    } else {
      ScanSkips(buf, V, p, I, h, i, j - 1);
      SingleSettled(buf, V, p, h, j - 1);
    }
  }

  lemma ScanRun(buf: Bytes, V: seq<int>, p: seq<nat>, I: seq<int>, h: nat, i: nat, j: nat)
    requires Scan(buf, V, p, I, h, i) && j < i && Run(V, p, I, j, i)
    ensures Scan(buf, V, p, I[j := j - i], h, i) && Run(V, p, I[j := j - i], j, i)
  {
  }

  lemma EntriesGroup(n: nat, V: seq<int>, p: seq<nat>, I: seq<int>, h: nat, i: nat, r: nat)
    requires Entries(n, V, p, I, h, i) && Grouped(V, p, i, |p|) && i < |p| && I[i] >= 0 && r == V[p[i]]
    requires forall a: nat, b: nat | a < |V| && b < |V| && a != b && V[a] == V[b] :: a + h <= n
    ensures i <= r < |p| && Listed(I, p, i, r + 1, h)
  {
    PermDistinct(p);
    forall k | i <= k <= r
      ensures I[k] == p[k] && p[k] + h <= n
    {
      assert V[p[k]] == r && I[k] == I[k];
      if i < r {
        var l := if k < r then r else r - 1;
        assert V[p[l]] == r && !Single(V, p, k);
        assert V[p[k]] == V[p[l]];
      }
    }
  }

  lemma ScanGroup(buf: Bytes, V: seq<int>, p: seq<nat>, I: seq<int>, h: nat, i: nat)
    requires Scan(buf, V, p, I, h, i) && i < |p| && I[i] >= 0
    ensures var r := V[p[i]]; i <= r < |p| && Group(buf, V, p, i, r + 1, r, h) && Listed(I, p, i, r + 1, h)
  {
    EntriesGroup(|buf|, V, p, I, h, i, V[p[i]]);
  }

  lemma GroupedRest(V: seq<int>, p: seq<nat>, W: seq<int>, q: seq<nat>, i: nat, j: nat)
    requires Frame(V, p, W, q, i, j) && Grouped(V, p, i, |p|)
    ensures Grouped(W, q, j, |q|)
  {
  }

  lemma EntriesSplit(n: nat, V: seq<int>, p: seq<nat>, I: seq<int>, W: seq<int>, q: seq<nat>, J: seq<int>, h: nat,
                     i: nat, j: nat)
    requires Entries(n, V, p, I, h, i) && Frame(V, p, W, q, i, j) && Marked(J, W, q, i, j)
    requires forall m | 0 <= m < |I| && !(i <= m < j) :: J[m] == I[m]
    requires i < j && V[p[j - 1]] == j - 1 == W[q[j - 1]] && I[i] >= 0
    ensures Entries(n, W, q, J, h, j)
  {
    forall m | 0 <= m < |q| && !(i <= m < j)
      ensures Single(W, q, m) <==> Single(V, p, m)
    {
    }
    forall k {:trigger J[k]} | 0 <= k < |q| && J[k] < 0
      ensures Run(W, q, J, k, k - J[k])
    {
      if !(i <= k < j) {
        assert Run(V, p, I, k, k - I[k]);
        assert k < i ==> k - I[k] <= i;
      }
    }
  }

  lemma ScanSplit(buf: Bytes, V: seq<int>, p: seq<nat>, I: seq<int>, W: seq<int>, q: seq<nat>, J: seq<int>, h: nat,
                  i: nat, j: nat)
    requires Scan(buf, V, p, I, h, i) && Refined(buf, V, p, W, q, i, j, h) && Marked(J, W, q, i, j)
    requires forall m | 0 <= m < |I| && !(i <= m < j) :: J[m] == I[m]
    requires i < j && V[p[j - 1]] == j - 1 && I[i] >= 0
    ensures Scan(buf, W, q, J, h, j)
  {
    SettledThen(buf, V, p, W, q, 0, i, j, h);
    GroupedRest(V, p, W, q, i, j);
    assert W[q[j - 1]] == j - 1;
    EntriesSplit(|buf|, V, p, I, W, q, J, h, i, j);
  }

  lemma ResolvedDoubles(buf: Bytes, V: seq<int>, p: seq<nat>, h: nat)
    requires Settled(buf, V, p, 0, |p|, h)
    ensures Resolved(buf, V, 2 * h)
  {
    forall a: nat, b: nat | a < |V| && b < |V| && a != b && V[a] == V[b]
      ensures Agree(buf, a, b, 2 * h)
    {
      var k := PermOnto(p, a);
      var l := PermOnto(p, b);
    }
  }

  lemma ScanDoubles(buf: Bytes, V: seq<int>, p: seq<nat>, I: seq<int>, h: nat)
    requires Scan(buf, V, p, I, h, |p|)
    ensures Scan(buf, V, p, I, 2 * h, 0)
  {
    ResolvedDoubles(buf, V, p, h);
  }

  /** Once `h` exceeds the length, every suffix has found its place. */
  lemma ScanFinal(buf: Bytes, V: seq<int>, p: seq<nat>, I: seq<int>, h: nat)
    requires Scan(buf, V, p, I, h, 0) && h > |buf|
    ensures Run(V, p, I, 0, |p|)
  {
    PermDistinct(p);
    assert forall a: nat, b: nat | a < |V| && b < |V| && a != b && V[a] == V[b] :: Agree(buf, a, b, h);
    forall k | 0 <= k < |p|
      ensures Single(V, p, k) && I[k] < 0
    {
      var e := V[p[k]];
      assert V[p[e]] == e;
      assert k > 0 ==> p[k - 1] != p[k];
    }
  }

  lemma RunJoins(V: seq<int>, p: seq<nat>, I: seq<int>, lo: nat, mid: nat, hi: nat)
    requires Run(V, p, I, lo, mid) && Run(V, p, I, mid, hi)
    ensures Run(V, p, I, lo, hi)
  {
  }

  lemma RunEmpty(buf: Bytes, V: seq<int>, p: seq<nat>, I: seq<int>, h: nat, i: nat)
    requires Scan(buf, V, p, I, h, i)
    ensures Run(V, p, I, i, i)
  {
  }

  lemma RunPart(V: seq<int>, p: seq<nat>, I: seq<int>, lo: nat, mid: nat, hi: nat)
    requires Run(V, p, I, lo, hi) && lo <= mid < hi
    ensures I[mid] < 0
  {
  }

  /** One doubling pass: splits every group by the ranks `h` further on and merges the runs it skips. */
  method Pass(iii: array<int>, vvv: array<int>, h: nat, ghost buf: Bytes, ghost p: seq<nat>) returns (ghost q: seq<nat>)
    requires iii != vvv && iii.Length == vvv.Length == |buf| + 1 && Scan(buf, vvv[..], p, iii[..], h, 0)
    modifies iii, vvv
    ensures Scan(buf, vvv[..], q, iii[..], 2 * h, 0)
    ensures h > |buf| ==> iii[0] == -(|buf| + 1)
  {
    hide *;
    q := p;
    var i, ln := 0, 0;
    if h > |buf| {
      ScanFinal(buf, vvv[..], p, iii[..], h);
    }
    ScanBounds(buf, vvv[..], p, iii[..], h, 0);
    RunEmpty(buf, vvv[..], p, iii[..], h, 0);
    while i < iii.Length
      invariant 0 <= ln <= i <= iii.Length == |q|
      invariant Scan(buf, vvv[..], q, iii[..], h, i)
      invariant Run(vvv[..], q, iii[..], i - ln, i)
      invariant h > |buf| ==> ln == i && Run(vvv[..], q, iii[..], 0, |q|)
      decreases iii.Length - i
    {
      ghost var V, I := vvv[..], iii[..];
      ScanBounds(buf, V, q, I, h, i);
      if iii[i] < 0 {
        ScanSkips(buf, V, q, I, h, i, i - iii[i]);
        RunJoins(V, q, I, i - ln, i, i - iii[i]);
        ln := ln - iii[i];
        i := i - iii[i];
      } else {
        if h > |buf| {
          RunPart(V, q, I, 0, i, |q|);
        }
        if ln != 0 {
          ScanRun(buf, V, q, I, h, i, i - ln);
          iii[i - ln] := -ln;
        }
        ghost var J, q0 := iii[..], q;
        ScanBounds(buf, V, q, J, h, i);
        ScanGroup(buf, V, q, J, h, i);
        ln := vvv[iii[i]] + 1 - i;
        q := Split(iii, vvv, i, ln, h, buf, q0, i + ln - 1);
        ScanSplit(buf, V, q0, J, vvv[..], q, iii[..], h, i, i + ln);
        i := i + ln;
        ln := 0;
        RunEmpty(buf, vvv[..], q, iii[..], h, i);
      }
    }
    if ln != 0 {
      ScanRun(buf, vvv[..], q, iii[..], h, i, i - ln);
      iii[i - ln] := -ln;
    }
    ScanDoubles(buf, vvv[..], q, iii[..], h);
  }
}
