/** Binary search for a long match in a suffix array. */
module Search {
  import opened Bytes
  import opened SuffixBuckets

  // ----- Lexicographic order and common prefixes

  lemma {:induction false} CommonBelow(a: Bytes, b: Bytes, t: Bytes)
    requires LexLess(a, b) && LexLess(b, t)
    ensures Common(a, t) <= Common(b, t) && LexLess(a, t)
    decreases |t|
  {
    if a == [] || b == [] || !(a[0] == b[0] == t[0]) {
    } else {
      CommonBelow(a[1..], b[1..], t[1..]);
    }
  }

  lemma {:induction false} CommonAbove(a: Bytes, b: Bytes, t: Bytes)
    requires LexLess(a, b) && !LexLess(a, t)
    ensures Common(b, t) <= Common(a, t)
    decreases |t|
  {
    if a == [] || t == [] || !(a[0] == b[0] == t[0]) {
    } else {
      CommonAbove(a[1..], b[1..], t[1..]);
    }
  }

  /** `s` is a proper prefix of `t`. */
  predicate ProperPrefix(s: Bytes, t: Bytes)
  {
    |s| < |t| && s == t[..|s|]
  }

  /** The comparison `search` makes: only the bytes both have. */
  predicate TruncatedLess(s: Bytes, t: Bytes)
  {
    var n := if |s| < |t| then |s| else |t|;
    LexLess(s[..n], t[..n])
  }

  lemma {:induction false} TruncatedVersusFull(s: Bytes, t: Bytes)
    ensures TruncatedLess(s, t) <==> LexLess(s, t) && !ProperPrefix(s, t)
    ensures ProperPrefix(s, t) ==> Common(s, t) == |s| && LexLess(s, t)
    decreases |s|
  {
    if s == [] || t == [] {
      assert !TruncatedLess(s, t);
    } else {
      var n := if |s| < |t| then |s| else |t|;
      assert s[..n][1..] == s[1..][..n - 1] && t[..n][1..] == t[1..][..n - 1];
      if s[0] == t[0] {
        TruncatedVersusFull(s[1..], t[1..]);
        assert ProperPrefix(s, t) <==> ProperPrefix(s[1..], t[1..]) by {
          assert |s| < |t| ==> t[..|s|] == [t[0]] + t[1..][..|s| - 1];
          assert s == [s[0]] + s[1..];
        }
      } else {
        assert !ProperPrefix(s, t);
      }
    }
  }

  // ----- The search

  /** Length of the match at the suffix listed at `k`. */
  function MatchAt(I: seq<int>, oldbin: Bytes, newbin: Bytes, k: nat): nat
    requires IsSuffixArray(I, oldbin) && k < |I|
  {
    Common(oldbin[I[k]..], newbin)
  }

  /** What `search` returns on the range `st..en`: the length and the position of its match. */
  function Found(I: seq<int>, oldbin: Bytes, newbin: Bytes, st: nat, en: nat): (r: (nat, int))
    requires IsSuffixArray(I, oldbin) && st <= en < |I|
    ensures 0 <= r.1 <= |oldbin| && r.0 == Common(oldbin[r.1..], newbin)
    decreases en - st
  {
    if en - st < 2 then
      var x, y := MatchAt(I, oldbin, newbin, st), MatchAt(I, oldbin, newbin, en);
      if x > y then (x, I[st]) else (y, I[en])
    else
      var x := st + (en - st) / 2;
      if TruncatedLess(oldbin[I[x]..], newbin) then Found(I, oldbin, newbin, x, en)
      else Found(I, oldbin, newbin, st, x)
  }

  /** No position of `oldbin` matches more than `n` bytes of `newbin`. */
  ghost predicate Longest(oldbin: Bytes, newbin: Bytes, n: nat)
  {
    forall p | 0 <= p <= |oldbin| :: Common(oldbin[p..], newbin) <= n
  }

  /** The suffix listed at `x` ends inside the query although another one matches further. */
  ghost predicate FallsShort(I: seq<int>, oldbin: Bytes, newbin: Bytes, x: nat)
    requires IsSuffixArray(I, oldbin) && x < |I|
  {
    ProperPrefix(oldbin[I[x]..], newbin) && !Longest(oldbin, newbin, |oldbin| - I[x])
  }

  /** Some midpoint of the bisection of `st..en` falls short. */
  ghost predicate ProbesShort(I: seq<int>, oldbin: Bytes, newbin: Bytes, st: nat, en: nat)
    requires IsSuffixArray(I, oldbin) && st <= en < |I|
    decreases en - st
  {
    en - st >= 2 &&
    var x := st + (en - st) / 2;
    || FallsShort(I, oldbin, newbin, x)
    || if TruncatedLess(oldbin[I[x]..], newbin) then ProbesShort(I, oldbin, newbin, x, en)
       else ProbesShort(I, oldbin, newbin, st, x)
  }

  /** How the matches at `k` compare with that of a probe at `x`. */
  lemma ProbeCompares(I: seq<int>, oldbin: Bytes, newbin: Bytes, x: nat, k: nat)
    requires IsSuffixArray(I, oldbin) && x < |I| && k < |I|
    ensures k < x && LexLess(oldbin[I[x]..], newbin) ==> MatchAt(I, oldbin, newbin, k) <= MatchAt(I, oldbin, newbin, x)
    ensures k > x && !LexLess(oldbin[I[x]..], newbin) ==> MatchAt(I, oldbin, newbin, k) <= MatchAt(I, oldbin, newbin, x)
    ensures TruncatedLess(oldbin[I[x]..], newbin) ==> LexLess(oldbin[I[x]..], newbin)
    ensures !TruncatedLess(oldbin[I[x]..], newbin) && LexLess(oldbin[I[x]..], newbin) ==>
              ProperPrefix(oldbin[I[x]..], newbin)
    ensures ProperPrefix(oldbin[I[x]..], newbin) ==>
              MatchAt(I, oldbin, newbin, x) == |oldbin| - I[x] && LexLess(oldbin[I[x]..], newbin)
    ensures x > 0 ==> I[x] < |oldbin|
  {
    TruncatedVersusFull(oldbin[I[x]..], newbin);
    if k < x && LexLess(oldbin[I[x]..], newbin) {
      CommonBelow(oldbin[I[k]..], oldbin[I[x]..], newbin);
    }
    if k > x && !LexLess(oldbin[I[x]..], newbin) {
      CommonAbove(oldbin[I[x]..], oldbin[I[k]..], newbin);
    }
    if x > 0 {
      assert LexLess(oldbin[I[0]..], oldbin[I[x]..]);
    }
  }

  /** Every index of the range matches less than `n` bytes. */
  lemma {:induction false} FoundBelow(I: seq<int>, oldbin: Bytes, newbin: Bytes, st: nat, en: nat, n: nat)
    requires IsSuffixArray(I, oldbin) && st <= en < |I|
    requires forall k | st <= k <= en :: MatchAt(I, oldbin, newbin, k) < n
    ensures Found(I, oldbin, newbin, st, en).0 < n
    decreases en - st
  {
    hide LexLess, TruncatedLess, MatchAt, IsSuffixArray;
    if en - st < 2 {
    } else {
      var x := st + (en - st) / 2;
      FoundBelow(I, oldbin, newbin, x, en, n);
      FoundBelow(I, oldbin, newbin, st, x, n);
    }
  }

  /** A probe that falls short and everything before it match less than the longest match. */
  lemma ShortBelow(I: seq<int>, oldbin: Bytes, newbin: Bytes, x: nat, k: nat)
    requires IsSuffixArray(I, oldbin) && x < |I| && k < |I|
    requires Longest(oldbin, newbin, MatchAt(I, oldbin, newbin, k))
    requires ProperPrefix(oldbin[I[x]..], newbin)
    ensures FallsShort(I, oldbin, newbin, x) <==>
            MatchAt(I, oldbin, newbin, x) < MatchAt(I, oldbin, newbin, k)
    ensures forall j | 0 <= j <= x :: MatchAt(I, oldbin, newbin, j) <= MatchAt(I, oldbin, newbin, x)
  {
    hide LexLess, Common, TruncatedLess;
    ProbeCompares(I, oldbin, newbin, x, x);
    forall j | 0 <= j < x
      ensures MatchAt(I, oldbin, newbin, j) <= MatchAt(I, oldbin, newbin, x)
    {
      ProbeCompares(I, oldbin, newbin, x, j);
    }
  }

  /** If the longest match lies in the range, it is found exactly when no probe falls short. */
  lemma {:induction false} FoundExact(I: seq<int>, oldbin: Bytes, newbin: Bytes, st: nat, en: nat, k: nat)
    requires IsSuffixArray(I, oldbin) && st <= k <= en < |I|
    requires Longest(oldbin, newbin, MatchAt(I, oldbin, newbin, k))
    ensures Found(I, oldbin, newbin, st, en).0 == MatchAt(I, oldbin, newbin, k)
       <==> !ProbesShort(I, oldbin, newbin, st, en)
    decreases en - st
  {
    hide LexLess, TruncatedLess, MatchAt, Longest, FallsShort;
    var m := MatchAt(I, oldbin, newbin, k);
    if en - st >= 2 {
      var x := st + (en - st) / 2;
      ProbeCompares(I, oldbin, newbin, x, k);
      LongestBounds(I, oldbin, newbin, x, k);
      if TruncatedLess(oldbin[I[x]..], newbin) {
        FoundExact(I, oldbin, newbin, x, en, if k < x then x else k);
        NotShort(I, oldbin, newbin, x);
      } else if FallsShort(I, oldbin, newbin, x) {
        ShortIsPrefix(I, oldbin, newbin, x);
        ShortBelow(I, oldbin, newbin, x, k);
        FoundBelow(I, oldbin, newbin, st, x, m);
      } else {
        if ProperPrefix(oldbin[I[x]..], newbin) {
          ShortBelow(I, oldbin, newbin, x, k);
        }
        FoundExact(I, oldbin, newbin, st, x, if k > x then x else k);
      }
    } else {
      LongestBounds(I, oldbin, newbin, st, k);
      LongestBounds(I, oldbin, newbin, en, k);
    }
  }

  lemma LongestBounds(I: seq<int>, oldbin: Bytes, newbin: Bytes, x: nat, k: nat)
    requires IsSuffixArray(I, oldbin) && x < |I| && k < |I|
    requires Longest(oldbin, newbin, MatchAt(I, oldbin, newbin, k))
    ensures MatchAt(I, oldbin, newbin, x) <= MatchAt(I, oldbin, newbin, k)
  {
  }

  lemma NotShort(I: seq<int>, oldbin: Bytes, newbin: Bytes, x: nat)
    requires IsSuffixArray(I, oldbin) && x < |I| && TruncatedLess(oldbin[I[x]..], newbin)
    ensures !FallsShort(I, oldbin, newbin, x)
  {
    TruncatedVersusFull(oldbin[I[x]..], newbin);
  }

  lemma ShortIsPrefix(I: seq<int>, oldbin: Bytes, newbin: Bytes, x: nat)
    requires IsSuffixArray(I, oldbin) && x < |I| && FallsShort(I, oldbin, newbin, x)
    ensures ProperPrefix(oldbin[I[x]..], newbin)
  {
  }

  /** An index among the first `n` with the longest match there. */
  lemma {:induction false} BestIndex(I: seq<int>, oldbin: Bytes, newbin: Bytes, n: nat) returns (k: nat)
    requires IsSuffixArray(I, oldbin) && 0 < n <= |I|
    ensures k < n && forall j | 0 <= j < n :: MatchAt(I, oldbin, newbin, j) <= MatchAt(I, oldbin, newbin, k)
    decreases n
  {
    hide MatchAt, LexLess;
    k := n - 1;
    if n <= 1 {
    } else {
      var l := BestIndex(I, oldbin, newbin, n - 1);
      k := if MatchAt(I, oldbin, newbin, l) > MatchAt(I, oldbin, newbin, k) then l else k;
    }
  }

  lemma LongestIndex(I: seq<int>, oldbin: Bytes, newbin: Bytes) returns (k: nat)
    requires IsSuffixArray(I, oldbin)
    ensures k < |I| && Longest(oldbin, newbin, MatchAt(I, oldbin, newbin, k))
  {
    hide LexLess, Common;
    k := BestIndex(I, oldbin, newbin, |I|);
    forall p | 0 <= p <= |oldbin|
      ensures Common(oldbin[p..], newbin) <= MatchAt(I, oldbin, newbin, k)
    {
      assert p in I;
      var j: nat :| j < |I| && I[j] == p;
      assert MatchAt(I, oldbin, newbin, j) == Common(oldbin[p..], newbin);
    }
  }

  /** The search returns the longest match exactly when none of its probes falls short. */
  lemma SearchExact(I: seq<int>, oldbin: Bytes, newbin: Bytes)
    requires IsSuffixArray(I, oldbin)
    ensures Longest(oldbin, newbin, Found(I, oldbin, newbin, 0, |oldbin|).0)
       <==> !ProbesShort(I, oldbin, newbin, 0, |oldbin|)
  {
    hide LexLess, Common;
    var k := LongestIndex(I, oldbin, newbin);
    FoundExact(I, oldbin, newbin, 0, |oldbin|, k);
    var p := Found(I, oldbin, newbin, 0, |oldbin|).1;
    assert Common(oldbin[p..], newbin) <= MatchAt(I, oldbin, newbin, k);
    assert MatchAt(I, oldbin, newbin, k) == Common(oldbin[I[k]..], newbin);
  }

  /** In particular when no non-empty suffix of the old data is a proper prefix of the query. */
  lemma SearchLongest(I: seq<int>, oldbin: Bytes, newbin: Bytes)
    requires IsSuffixArray(I, oldbin)
    requires forall p | 0 <= p < |oldbin| :: !ProperPrefix(oldbin[p..], newbin)
    ensures Longest(oldbin, newbin, Found(I, oldbin, newbin, 0, |oldbin|).0)
  {
    hide LexLess, Common;
    SearchExact(I, oldbin, newbin);
    NeverShort(I, oldbin, newbin, 0, |oldbin|);
  }

  lemma {:induction false} NeverShort(I: seq<int>, oldbin: Bytes, newbin: Bytes, st: nat, en: nat)
    requires IsSuffixArray(I, oldbin) && st <= en < |I|
    requires forall p | 0 <= p < |oldbin| :: !ProperPrefix(oldbin[p..], newbin)
    ensures !ProbesShort(I, oldbin, newbin, st, en)
    decreases en - st
  {
    hide LexLess, Common, Longest;
    if en - st < 2 {
    } else {
      var x := st + (en - st) / 2;
      ProbeCompares(I, oldbin, newbin, x, x);
      NeverShort(I, oldbin, newbin, x, en);
      NeverShort(I, oldbin, newbin, st, x);
    }
  }

  /** The search is not always the longest match: "ab" in "aba" stops at the suffix "a". */
  lemma SearchNotLongest(I: seq<int>, oldbin: Bytes, newbin: Bytes)
    requires I == [3, 2, 0, 1] && oldbin == [97, 98, 97] && newbin == [97, 98]
    ensures IsSuffixArray(I, oldbin)
    ensures Found(I, oldbin, newbin, 0, 3) == (1, 2)
    ensures Common(oldbin, newbin) == 2 && !Longest(oldbin, newbin, 1)
  {
    assert oldbin[3..] == [] && oldbin[2..] == [97] && oldbin[1..] == [98, 97] && oldbin[0..] == oldbin;
    assert IsSuffixArray(I, oldbin) by {
      assert I[0] == 3 && I[1] == 2 && I[2] == 0 && I[3] == 1;
    }
    assert newbin[..1] == [97];
    assert Common([97], newbin) == 1;
    assert Common(oldbin[1..], newbin[1..]) == 1;
    assert Common(oldbin[0..], newbin) == 2;
    assert !TruncatedLess(oldbin[I[1]..], newbin);
    assert Found(I, oldbin, newbin, 0, 1) == (1, 2);
  }

  /** If some byte of the old data starts the query, the match is not empty. */
  lemma {:induction false} FoundNonEmpty(I: seq<int>, oldbin: Bytes, newbin: Bytes, st: nat, en: nat, k: nat)
    requires IsSuffixArray(I, oldbin) && st <= k <= en < |I| && MatchAt(I, oldbin, newbin, k) > 0
    ensures Found(I, oldbin, newbin, st, en).0 > 0
    decreases en - st
  {
    hide LexLess, TruncatedLess, MatchAt;
    if en - st < 2 {
    } else {
      var x := st + (en - st) / 2;
      ProbeCompares(I, oldbin, newbin, x, k);
      if TruncatedLess(oldbin[I[x]..], newbin) {
        FoundNonEmpty(I, oldbin, newbin, x, en, if k < x then x else k);
      } else {
        FoundNonEmpty(I, oldbin, newbin, st, x, if k > x then x else k);
      }
    }
  }

  /** An empty match means that the first byte of the query does not occur in the old data at all. */
  lemma EmptyMatch(I: seq<int>, oldbin: Bytes, newbin: Bytes, p: nat)
    requires IsSuffixArray(I, oldbin) && newbin != [] && p < |oldbin|
    requires Found(I, oldbin, newbin, 0, |oldbin|).0 == 0
    ensures oldbin[p] != newbin[0]
  {
    hide LexLess;
    if oldbin[p] == newbin[0] {
      assert p in I;
      var k: nat :| k < |I| && I[k] == p;
      assert oldbin[p..][0] == newbin[0];
      FoundNonEmpty(I, oldbin, newbin, 0, |oldbin|, k);
    }
  }

  // ----- The methods

  method MatchLen(oldbin: Bytes, newbin: Bytes) returns (i: nat)
    ensures i == Common(oldbin, newbin)
  {
    i := 0;
    while i < |oldbin| && i < |newbin|
      invariant i <= |oldbin| && i <= |newbin|
      invariant Common(oldbin, newbin) == i + Common(oldbin[i..], newbin[i..])
    {
      if oldbin[i] != newbin[i] {
        break;
      }
      assert oldbin[i..][1..] == oldbin[i + 1..] && newbin[i..][1..] == newbin[i + 1..];
      i := i + 1;
    }
  }

  method Search(iii: array<int>, oldbin: Bytes, newbin: Bytes, st: nat, en: nat) returns (ln: nat, pos: int)
    requires st <= en < iii.Length && IsSuffixArray(iii[..], oldbin)
    ensures (ln, pos) == Found(iii[..], oldbin, newbin, st, en)
    decreases en - st
  {
    hide LexLess, Common;
    if en - st < 2 {
      var x := MatchLen(oldbin[iii[st]..], newbin);
      var y := MatchLen(oldbin[iii[en]..], newbin);
      if x > y {
        return x, iii[st];
      }
      return y, iii[en];
    }
    var x := st + (en - st) / 2;
    var cmpln := if |oldbin| - iii[x] < |newbin| then |oldbin| - iii[x] else |newbin|;
    assert oldbin[iii[x]..][..cmpln] == oldbin[iii[x]..iii[x] + cmpln];
    if LexLess(oldbin[iii[x]..iii[x] + cmpln], newbin[..cmpln]) {
      ln, pos := Search(iii, oldbin, newbin, x, en);
    } else {
      ln, pos := Search(iii, oldbin, newbin, st, x);
    }
  }
}
