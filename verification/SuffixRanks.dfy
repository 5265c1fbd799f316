/**
 The theory of rank refinement behind the suffix sorter.  `V[a]` is the rank of the suffix at `a`, `p[k]` is the
 suffix listed at index `k`.  A group is a maximal run of indices whose suffixes have the same rank; the rank of a
 group is its last index.
 */
module SuffixRanks {
  import opened Bytes
  import opened SuffixOrder

  ghost function Below(n: nat): multiset<int>
  {
    if n == 0 then multiset{} else Below(n - 1) + multiset{n - 1}
  }

  /** `p` lists each number below `|p|` once. */
  ghost predicate Perm(p: seq<nat>)
  {
    (forall k | 0 <= k < |p| :: p[k] < |p|) && multiset(p) == Below(|p|)
  }

  /** Rank order is sound: a smaller rank means a smaller suffix. */
  ghost predicate Ordered(buf: Bytes, V: seq<int>)
  {
    forall a: nat, b: nat | a < |V| && b < |V| && V[a] < V[b] :: Lt(buf, a, b)
  }

  /** Distinct suffixes of equal rank agree on `h` bytes. */
  ghost predicate Resolved(buf: Bytes, V: seq<int>, h: nat)
  {
    forall a: nat, b: nat | a < |V| && b < |V| && a != b && V[a] == V[b] :: Agree(buf, a, b, h)
  }

  ghost predicate Ranked(buf: Bytes, V: seq<int>, h: nat)
  {
    |V| == |buf| + 1 && Ordered(buf, V) && Resolved(buf, V, h)
  }

  /** Indices `start..end` still hold suffixes of the common rank `r`; those at `end..r+1` share it but come later. */
  ghost predicate Group(buf: Bytes, V: seq<int>, p: seq<nat>, start: nat, end: nat, r: nat, h: nat)
  {
    && start < end <= r + 1 <= |p| == |V|
    && Perm(p)
    && Ranked(buf, V, h)
    && (forall k | 0 <= k < start :: V[p[k]] < start)
    && (forall k | start <= k <= r :: V[p[k]] == r)
    && (forall k | r < k < |p| :: V[p[k]] > r)
    && (forall k, l | start <= k < end <= l <= r :: Lt(buf, p[k], p[l]))
    && (forall k | start <= k < end :: p[k] + h <= |buf|)
  }

  /** Ranks on `lo..hi` are those of groups tiling `lo..hi`. */
  ghost predicate Grouped(V: seq<int>, p: seq<nat>, lo: nat, hi: nat)
    requires hi <= |p| == |V| && Perm(p)
  {
    && (forall k | lo <= k < hi :: k <= V[p[k]] < hi)
    && (forall k, l | lo <= k <= l < hi && l <= V[p[k]] :: V[p[l]] == V[p[k]])
  }

  ghost predicate SameOutside(p: seq<nat>, q: seq<nat>, lo: nat, hi: nat)
  {
    |p| == |q| && forall k | 0 <= k < |p| && !(lo <= k < hi) :: q[k] == p[k]
  }

  /** Neither the listing nor the ranks differ outside `lo..hi`. */
  ghost predicate Frame(V: seq<int>, p: seq<nat>, W: seq<int>, q: seq<nat>, lo: nat, hi: nat)
  {
    && lo <= hi <= |p| == |V| == |W|
    && Perm(p) && Perm(q) && SameOutside(p, q, lo, hi)
    && forall k | 0 <= k < |p| && !(lo <= k < hi) :: W[q[k]] == V[p[k]]
  }

  /** `lo..hi` is tiled by groups that agree on `2 * h` bytes. */
  ghost predicate Settled(buf: Bytes, W: seq<int>, q: seq<nat>, lo: nat, hi: nat, h: nat)
  {
    && lo <= hi <= |q| == |W|
    && Perm(q) && Ranked(buf, W, h)
    && Grouped(W, q, lo, hi)
    && (forall k, l | lo <= k < hi && lo <= l < hi && k != l && W[q[k]] == W[q[l]] :: Agree(buf, q[k], q[l], 2 * h))
  }

  /** `lo..hi` has been rearranged and re-ranked into groups that agree on `2 * h` bytes; nothing else changed. */
  ghost predicate Refined(buf: Bytes, V: seq<int>, p: seq<nat>, W: seq<int>, q: seq<nat>, lo: nat, hi: nat, h: nat)
  {
    Frame(V, p, W, q, lo, hi) && Settled(buf, W, q, lo, hi, h)
  }

  /** Ranks `W` are ranks `V` after the suffixes at `lo..hi` got the rank `hi - 1`. */
  ghost predicate Assigned(V: seq<int>, W: seq<int>, p: seq<nat>, lo: nat, hi: nat)
  {
    && Perm(p) && lo < hi <= |p| == |V| == |W|
    && (forall k | lo <= k < hi :: W[p[k]] == hi - 1)
    && (forall k | 0 <= k < |p| && !(lo <= k < hi) :: W[p[k]] == V[p[k]])
  }

  lemma {:induction false} BelowCount(n: nat, a: nat)
    ensures Below(n)[a] == if a < n then 1 else 0
  {
    if n == 0 {
    } else {
      BelowCount(n - 1, a);
    }
  }

  /** Every suffix is listed somewhere. */
  lemma PermOnto(p: seq<nat>, a: nat) returns (k: nat)
    requires Perm(p) && a < |p|
    ensures k < |p| && p[k] == a
  {
    BelowCount(|p|, a);
    assert a in multiset(p);
    k :| k < |p| && p[k] == a;
  }

  lemma PermDistinct(p: seq<nat>)
    requires Perm(p)
    ensures forall k, l | 0 <= k < l < |p| :: p[k] != p[l]
  {
    forall k, l | 0 <= k < l < |p|
      ensures p[k] != p[l]
    {
      BelowCount(|p|, p[k]);
      assert p == p[..l] + [p[l]] + p[l + 1..];
      assert p[k] in p[..l];
    }
  }

  lemma {:induction false} OntoMultiset(p: seq<int>, s: multiset<int>, n: nat)
    requires s <= multiset(p) && |s| + n == |p|
    requires forall a: nat | a < n :: a in p && s[a] == 0
    ensures multiset(p) == s + Below(n)
    decreases n
  {
    if n > 0 {
      assert (n - 1) in multiset(p);
      OntoMultiset(p, s + multiset{n - 1}, n - 1);
    } else {
      assert |multiset(p) - s| == |multiset(p)| - |s| == 0;
      assert multiset(p) == s + (multiset(p) - s);
    }
  }

  /** A listing of every number below its length lists each once. */
  lemma OntoPerm(p: seq<int>)
    requires forall a: nat | a < |p| :: a in p
    ensures forall k | 0 <= k < |p| :: 0 <= p[k] < |p|
    ensures multiset(p) == Below(|p|)
  {
    OntoMultiset(p, multiset{}, |p|);
    forall k | 0 <= k < |p|
      ensures 0 <= p[k] < |p|
    {
      assert p[k] in multiset(p);
      BelowValues(|p|, p[k]);
    }
  }

  lemma {:induction false} BelowValues(n: nat, a: int)
    requires a in Below(n)
    ensures 0 <= a < n
  {
    if n == 0 || a == n - 1 {
    } else {
      BelowValues(n - 1, a);
    }
  }

  lemma KeyOrders(buf: Bytes, V: seq<int>, h: nat, a: nat, b: nat)
    requires Ranked(buf, V, h) && a < |V| && b < |V| && a + h < |V| && b + h < |V|
    requires V[a] == V[b] && V[a + h] < V[b + h]
    ensures Lt(buf, a, b)
  {
    LtAfterAgree(buf, a, b, h);
  }

  lemma KeyResolves(buf: Bytes, V: seq<int>, h: nat, a: nat, b: nat)
    requires Ranked(buf, V, h) && a < |V| && b < |V| && a + h < |V| && b + h < |V|
    requires a != b && V[a] == V[b] && V[a + h] == V[b + h]
    ensures Agree(buf, a, b, 2 * h)
  {
    AgreeLonger(buf, a, b, h, h);
  }

  /** Ranking the smallest part of a group keeps rank order sound. */
  lemma AssignOrdered(buf: Bytes, V: seq<int>, W: seq<int>, p: seq<nat>, from: nat, to: nat, end: nat, r: nat, h: nat)
    requires Group(buf, V, p, from, end, r, h) && to <= end && Assigned(V, W, p, from, to)
    requires forall k, l | from <= k < to <= l < end :: Lt(buf, p[k], p[l])
    ensures Ordered(buf, W)
  {
    forall a: nat, b: nat | a < |W| && b < |W| && W[a] < W[b]
      ensures Lt(buf, a, b)
    {
      var k := PermOnto(p, a);
      var l := PermOnto(p, b);
      if from <= k < to && to <= l <= r {
        assert Lt(buf, p[k], p[l]);
      } else {
        assert V[p[k]] < V[p[l]];
      }
    }
  }

  lemma AssignResolved(buf: Bytes, V: seq<int>, W: seq<int>, p: seq<nat>, from: nat, to: nat, end: nat, r: nat, h: nat)
    requires Group(buf, V, p, from, end, r, h) && to <= end && Assigned(V, W, p, from, to)
    ensures Resolved(buf, W, h)
  {
    forall a: nat, b: nat | a < |W| && b < |W| && a != b && W[a] == W[b]
      ensures Agree(buf, a, b, h)
    {
      var k := PermOnto(p, a);
      var l := PermOnto(p, b);
      assert V[p[k]] == V[p[l]];
    }
  }

  /** Ranking the smallest part `from..to` of a group: that part is refined, the rest is still a group. */
  lemma AssignStep(buf: Bytes, V: seq<int>, W: seq<int>, p: seq<nat>, from: nat, to: nat, end: nat, r: nat, h: nat)
    requires Group(buf, V, p, from, end, r, h) && to <= end && Assigned(V, W, p, from, to)
    requires forall k, l | from <= k < to <= l < end :: Lt(buf, p[k], p[l])
    requires forall k, l | from <= k < to && from <= l < to && k != l :: Agree(buf, p[k], p[l], 2 * h)
    ensures Refined(buf, V, p, W, p, from, to, h)
    ensures to < end ==> Group(buf, W, p, to, end, r, h)
  {
    AssignOrdered(buf, V, W, p, from, to, end, r, h);
    AssignResolved(buf, V, W, p, from, to, end, r, h);
  }

  lemma SettledThen(buf: Bytes, W: seq<int>, q: seq<nat>, X: seq<int>, r: seq<nat>, lo: nat, mid: nat, hi: nat, h: nat)
    requires Settled(buf, W, q, lo, mid, h) && Refined(buf, W, q, X, r, mid, hi, h)
    ensures Settled(buf, X, r, lo, hi, h)
  {
  }

  lemma RefinedFrom(buf: Bytes, V: seq<int>, p: seq<nat>, W: seq<int>, q: seq<nat>, lo: nat, hi: nat, h: nat)
    requires Frame(V, p, W, q, lo, hi) && Settled(buf, W, q, lo, hi, h)
    ensures Refined(buf, V, p, W, q, lo, hi, h)
  {
  }

  /** After changes inside `lo..hi`, rearrange `a..b` and then change `c..d`, both inside `lo..hi`. */
  lemma FrameThen(V: seq<int>, p: seq<nat>, W: seq<int>, q: seq<nat>, r: seq<nat>, X: seq<int>, s: seq<nat>,
                  lo: nat, hi: nat, a: nat, b: nat, c: nat, d: nat)
    requires Frame(V, p, W, q, lo, hi) && Perm(r) && SameOutside(q, r, a, b) && Frame(W, r, X, s, c, d)
    requires lo <= a && b <= hi && lo <= c && d <= hi
    ensures Frame(V, p, X, s, lo, hi)
  {
  }

  lemma SettledRearranged(buf: Bytes, W: seq<int>, q: seq<nat>, r: seq<nat>, lo: nat, hi: nat, end: nat, h: nat)
    requires Settled(buf, W, q, lo, hi, h) && Perm(r) && SameOutside(q, r, hi, end)
    ensures Settled(buf, W, r, lo, hi, h)
  {
  }

  /** A rearrangement inside a group leaves it a group. */
  lemma GroupRearranged(buf: Bytes, V: seq<int>, p: seq<nat>, q: seq<nat>, start: nat, end: nat, r: nat, h: nat)
    requires Group(buf, V, p, start, end, r, h) && Perm(q) && SameOutside(p, q, start, end)
    ensures Group(buf, V, q, start, end, r, h)
  {
    PermDistinct(q);
    forall k | start <= k < end
      ensures V[q[k]] == r && q[k] + h <= |buf|
      ensures forall l | end <= l <= r :: Lt(buf, q[k], q[l])
    {
      var j := PermOnto(p, q[k]);
    }
  }
}
