/**
 The order of the suffixes of a byte string, addressed by their start positions.
 Position |buf| is the empty suffix, which precedes every other suffix.
 */
module SuffixOrder {
  import opened Bytes

  /** The suffix at `a` comes strictly before the suffix at `b`. */
  predicate Lt(buf: Bytes, a: nat, b: nat)
    decreases |buf| - a
  {
    if b >= |buf| then false
    else if a >= |buf| then true
    else if buf[a] != buf[b] then buf[a] < buf[b]
    else Lt(buf, a + 1, b + 1)
  }

  /** The suffixes at `a` and `b` both have `h` bytes, and the same ones. */
  ghost predicate Agree(buf: Bytes, a: nat, b: nat, h: nat)
  {
    a + h <= |buf| && b + h <= |buf| && buf[a..a + h] == buf[b..b + h]
  }

  lemma {:induction false} LtIsLexLess(buf: Bytes, a: nat, b: nat)
    requires a <= |buf| && b <= |buf|
    ensures Lt(buf, a, b) <==> LexLess(buf[a..], buf[b..])
    decreases |buf| - a
  {
    if a >= |buf| || b >= |buf| || buf[a] != buf[b] {
    } else {
      LtIsLexLess(buf, a + 1, b + 1);
      assert buf[a..][1..] == buf[a + 1..] && buf[b..][1..] == buf[b + 1..];
    }
  }

  lemma {:induction false} LtAfterAgree(buf: Bytes, a: nat, b: nat, h: nat)
    requires Agree(buf, a, b, h) && Lt(buf, a + h, b + h)
    ensures Lt(buf, a, b)
    decreases h
  {
    if h == 0 {
    } else {
      assert buf[a] == buf[a..a + h][0] == buf[b];
      assert buf[a + 1..a + h] == buf[a..a + h][1..] == buf[b + 1..b + h];
      LtAfterAgree(buf, a + 1, b + 1, h - 1);
    }
  }

  lemma AgreeLonger(buf: Bytes, a: nat, b: nat, h: nat, k: nat)
    requires Agree(buf, a, b, h) && Agree(buf, a + h, b + h, k)
    ensures Agree(buf, a, b, h + k)
  {
    assert buf[a..a + h + k] == buf[a..a + h] + buf[a + h..a + h + k];
    assert buf[b..b + h + k] == buf[b..b + h] + buf[b + h..b + h + k];
  }
}
