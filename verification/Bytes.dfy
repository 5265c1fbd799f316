/** Bytes, byte strings and the lexicographic order on them. */
module Bytes {

  type Byte = b: int | 0 <= b < 256

  type Bytes = seq<Byte>

  /** Strict lexicographic order: a proper prefix comes before its extensions. */
  predicate LexLess(s: Bytes, t: Bytes)
  {
    if t == [] then false
    else if s == [] then true
    else if s[0] != t[0] then s[0] < t[0]
    else LexLess(s[1..], t[1..])
  }

  /** Length of the longest common prefix. */
  function Common(s: Bytes, t: Bytes): (n: nat)
    ensures n <= |s| && n <= |t|
    ensures s[..n] == t[..n]
    ensures n < |s| && n < |t| ==> s[n] != t[n]
  {
    if s == [] || t == [] || s[0] != t[0] then 0
    else
      var n := 1 + Common(s[1..], t[1..]);
      assert s[..n] == [s[0]] + s[1..][..n - 1];
      assert t[..n] == [t[0]] + t[1..][..n - 1];
      n
  }

  lemma SliceOfSlice(s: Bytes, i: nat, n: nat, j: nat, m: nat)
    requires i + n <= |s| && j + m <= n
    ensures s[i..i + n][j..j + m] == s[i + j..i + j + m]
  {
    var a, b := s[i..i + n][j..j + m], s[i + j..i + j + m];
    assert forall k | 0 <= k < m :: a[k] == b[k];
  }
}
