/** What bsdiff aims at: alignments of new data with old data, and the segments it cuts the new data into. */
module Segments {
  import opened Bytes
  import opened DeltaOps
  import opened DeltaWriter
  import opened Options
  import opened SuffixBuckets
  import opened Search

  // ----- Alignments

  /** New byte `j` equals the old byte at distance `off`. */
  predicate Hit(oldbin: Bytes, newbin: Bytes, off: int, j: int)
  {
    0 <= j < |newbin| && 0 <= j + off < |oldbin| && oldbin[j + off] == newbin[j]
  }

  /** Number of hits in `from..to`. */
  ghost function Hits(oldbin: Bytes, newbin: Bytes, off: int, from: int, to: int): nat
    decreases -from + to
  {
    if to <= from then 0
    else Hits(oldbin, newbin, off, from, to - 1) + if Hit(oldbin, newbin, off, to - 1) then 1 else 0
  }

  lemma {:induction false} HitsFirst(oldbin: Bytes, newbin: Bytes, off: int, from: int, to: int)
    requires from < to
    ensures Hits(oldbin, newbin, off, from, to) ==
            (if Hit(oldbin, newbin, off, from) then 1 else 0) + Hits(oldbin, newbin, off, from + 1, to)
    decreases -from + to
  {
    if from + 1 < to {
      HitsFirst(oldbin, newbin, off, from, to - 1);
    } else {
      assert Hits(oldbin, newbin, off, from, from) == 0;
    }
  }

  lemma {:induction false} HitsNone(oldbin: Bytes, newbin: Bytes, off: int, from: int, to: int)
    requires forall j | from <= j < to :: !Hit(oldbin, newbin, off, j)
    ensures Hits(oldbin, newbin, off, from, to) == 0
    decreases -from + to
  {
    if from >= to {
    } else {
      HitsNone(oldbin, newbin, off, from, to - 1);
    }
  }

  /** The value of extending an alignment forward over `n` bytes: twice its hits less its length. */
  ghost function Worth(oldbin: Bytes, newbin: Bytes, off: int, from: int, n: int): int
  {
    2 * Hits(oldbin, newbin, off, from, from + n) - n
  }

  /** The value of extending an alignment backward over `n` bytes. */
  ghost function WorthBack(oldbin: Bytes, newbin: Bytes, off: int, to: int, n: int): int
  {
    2 * Hits(oldbin, newbin, off, to - n, to) - n
  }

  /** `n` is the shortest forward extension from `scan` of the greatest worth among those up to `limit`. */
  ghost predicate BestForward(oldbin: Bytes, newbin: Bytes, off: int, scan: int, limit: int, n: nat)
  {
    && n <= limit
    && (forall i | 0 <= i <= limit :: Worth(oldbin, newbin, off, scan, i) <= Worth(oldbin, newbin, off, scan, n))
    && (forall i | 0 <= i < n :: Worth(oldbin, newbin, off, scan, i) < Worth(oldbin, newbin, off, scan, n))
  }

  /** `n` is the shortest backward extension from `scan` of the greatest worth among those up to `limit`. */
  ghost predicate BestBackward(oldbin: Bytes, newbin: Bytes, off: int, scan: int, limit: int, n: nat)
  {
    && n <= limit
    && (forall i | 0 <= i <= limit ::
          WorthBack(oldbin, newbin, off, scan, i) <= WorthBack(oldbin, newbin, off, scan, n))
    && (forall i | 0 <= i < n :: WorthBack(oldbin, newbin, off, scan, i) < WorthBack(oldbin, newbin, off, scan, n))
  }

  /** What is gained by giving the first `i` bytes from `at` to the alignment `offA` rather than `offB`. */
  ghost function Gain(oldbin: Bytes, newbin: Bytes, offA: int, offB: int, at: int, i: int): int
  {
    Hits(oldbin, newbin, offA, at, at + i) - Hits(oldbin, newbin, offB, at, at + i)
  }

  /** `n` is the smallest cut of an overlap of `limit` bytes with the greatest gain. */
  ghost predicate BestCut(oldbin: Bytes, newbin: Bytes, offA: int, offB: int, at: int, limit: int, n: nat)
  {
    && n <= limit
    && (forall i | 0 <= i <= limit ::
          Gain(oldbin, newbin, offA, offB, at, i) <= Gain(oldbin, newbin, offA, offB, at, n))
    && (forall i | 0 <= i < n :: Gain(oldbin, newbin, offA, offB, at, i) < Gain(oldbin, newbin, offA, offB, at, n))
  }

  // ----- Where a segment ends

  /** Length of the match found at `s`. */
  ghost function MatchLength(I: seq<int>, oldbin: Bytes, newbin: Bytes, s: nat): nat
    requires IsSuffixArray(I, oldbin) && s <= |newbin|
  {
    Found(I, oldbin, newbin[s..], 0, |oldbin|).0
  }

  /** How far the matches found at `start..s + 1` reach. */
  ghost function Reach(I: seq<int>, oldbin: Bytes, newbin: Bytes, start: nat, s: nat): nat
    requires IsSuffixArray(I, oldbin) && start <= s <= |newbin|
    decreases s
  {
    var e := s + MatchLength(I, oldbin, newbin, s);
    if s == start then e
    else
      var r := Reach(I, oldbin, newbin, start, s - 1);
      if r < e then e else r
  }

  /** The scan stops at `s`: the match there just continues the alignment `off`, or beats it by more than 8 bytes. */
  ghost predicate Stops(I: seq<int>, oldbin: Bytes, newbin: Bytes, off: int, start: nat, s: nat)
    requires IsSuffixArray(I, oldbin) && start <= s <= |newbin|
  {
    var ln := MatchLength(I, oldbin, newbin, s);
    var hits := Hits(oldbin, newbin, off, s, Reach(I, oldbin, newbin, start, s));
    (ln == hits && ln != 0) || ln > hits + 8
  }

  // ----- Segments

  /**
   A segment of the new data: from `lastscan`, aligned with `lastpos` of the old data, up to a match of `scan` with
   `pos`.  `fwd` and `bwd` extend the two alignments towards each other; `cut` divides what both would cover.
   */
  datatype Segment = Segment(lastscan: nat, lastpos: nat, scan: nat, pos: nat, fwd: nat, bwd: nat, cut: nat)
  {
    function Overlap(): int
    {
      if lastscan + fwd > scan - bwd then (lastscan + fwd) - (scan - bwd) else 0
    }

    /** Bytes added to old data. */
    function Lenf(): int
    {
      fwd - Overlap() + cut
    }

    /** Bytes of the match at `scan` that the next segment starts with early. */
    function Lenb(): int
    {
      bwd - cut
    }
  }

  function Min(a: int, b: int): int
  {
    if a < b then a else b
  }

  /** The extensions and the cut of a segment are the best ones. */
  ghost predicate Aligns(oldbin: Bytes, newbin: Bytes, s: Segment)
  {
    && s.lastscan <= s.scan <= |newbin| && s.lastpos <= |oldbin| && s.pos <= |oldbin|
    && BestForward(oldbin, newbin, s.lastpos - s.lastscan, s.lastscan,
                   Min(s.scan - s.lastscan, |oldbin| - s.lastpos), s.fwd)
    && (if s.scan == |newbin| then s.bwd == 0
        else BestBackward(oldbin, newbin, s.pos - s.scan, s.scan, Min(s.scan - s.lastscan, s.pos), s.bwd))
    && BestCut(oldbin, newbin, s.lastpos - s.lastscan, s.pos - s.scan, s.scan - s.bwd, s.Overlap(), s.cut)
  }

  /** A segment is aligned as well as can be, and ends where a match beats its alignment by more than 8 bytes. */
  ghost predicate SegmentOk(I: seq<int>, oldbin: Bytes, newbin: Bytes, s: Segment)
    requires IsSuffixArray(I, oldbin)
  {
    && Aligns(oldbin, newbin, s)
    && (s.scan < |newbin| ==>
          && s.pos == Found(I, oldbin, newbin[s.scan..], 0, |oldbin|).1
          && var ln := MatchLength(I, oldbin, newbin, s.scan);
             ln > 8 + Hits(oldbin, newbin, s.lastpos - s.lastscan, s.scan, s.scan + ln))
  }

  /** The ranges of a segment are in bounds and nothing has negative length. */
  predicate Fits(oldbin: Bytes, newbin: Bytes, s: Segment)
  {
    && 0 <= s.Lenf() && 0 <= s.Lenb() <= s.scan && s.Lenb() <= s.pos
    && s.lastscan + s.Lenf() <= s.scan - s.Lenb() <= |newbin|
    && s.lastpos + s.Lenf() <= |oldbin|
    && s.pos - s.Lenb() <= |oldbin|
  }

  /** A well-chosen segment fits; where its two extensions overlapped, nothing is left between them. */
  lemma SegmentRanges(oldbin: Bytes, newbin: Bytes, s: Segment)
    requires Aligns(oldbin, newbin, s)
    ensures Fits(oldbin, newbin, s)
    ensures s.Overlap() > 0 ==> s.lastscan + s.Lenf() == s.scan - s.Lenb()
  {
  }

  // ----- The segments bsdiff cuts the new data into

  /** The first place from `s` where a scan that began at `start` stops, or the end. */
  ghost function FirstStop(I: seq<int>, oldbin: Bytes, newbin: Bytes, off: int, start: nat, s: nat): (r: nat)
    requires IsSuffixArray(I, oldbin) && start <= s <= |newbin|
    ensures s <= r <= |newbin| && (r < |newbin| ==> Stops(I, oldbin, newbin, off, start, r))
    decreases |newbin| - s
  {
    if s == |newbin| || Stops(I, oldbin, newbin, off, start, s) then s
    else FirstStop(I, oldbin, newbin, off, start, s + 1)
  }

  lemma {:induction false} FirstStopIs(I: seq<int>, oldbin: Bytes, newbin: Bytes, off: int, start: nat, s: nat, r: nat)
    requires IsSuffixArray(I, oldbin) && start <= s <= r <= |newbin|
    requires forall k | s <= k < r :: !Stops(I, oldbin, newbin, off, start, k)
    requires r < |newbin| ==> Stops(I, oldbin, newbin, off, start, r)
    ensures FirstStop(I, oldbin, newbin, off, start, s) == r
    decreases |newbin| - s
  {
    hide Stops;
    if s == r {
    } else {
      FirstStopIs(I, oldbin, newbin, off, start, s + 1, r);
    }
  }

  /** `s` ends at this match, extended and cut in the best way. */
  ghost predicate Ends(oldbin: Bytes, newbin: Bytes, lastscan: int, lastpos: int, scan: int, pos: int, s: Segment)
  {
    s.lastscan == lastscan && s.lastpos == lastpos && s.scan == scan && s.pos == pos && Aligns(oldbin, newbin, s)
  }

  lemma ForwardOnce(oldbin: Bytes, newbin: Bytes, off: int, scan: int, limit: int, n: nat, m: nat)
    requires BestForward(oldbin, newbin, off, scan, limit, n) && BestForward(oldbin, newbin, off, scan, limit, m)
    ensures n == m
  {
    hide Worth;
    assert Worth(oldbin, newbin, off, scan, n) == Worth(oldbin, newbin, off, scan, m);
  }

  lemma BackwardOnce(oldbin: Bytes, newbin: Bytes, off: int, scan: int, limit: int, n: nat, m: nat)
    requires BestBackward(oldbin, newbin, off, scan, limit, n) && BestBackward(oldbin, newbin, off, scan, limit, m)
    ensures n == m
  {
    hide WorthBack;
    assert WorthBack(oldbin, newbin, off, scan, n) == WorthBack(oldbin, newbin, off, scan, m);
  }

  lemma CutOnce(oldbin: Bytes, newbin: Bytes, offA: int, offB: int, at: int, limit: int, n: nat, m: nat)
    requires BestCut(oldbin, newbin, offA, offB, at, limit, n) && BestCut(oldbin, newbin, offA, offB, at, limit, m)
    ensures n == m
  {
    hide Gain;
    assert Gain(oldbin, newbin, offA, offB, at, n) == Gain(oldbin, newbin, offA, offB, at, m);
  }

  /** There is only one such segment. */
  lemma EndsOnce(oldbin: Bytes, newbin: Bytes, s: Segment, t: Segment)
    requires Aligns(oldbin, newbin, s) && Aligns(oldbin, newbin, t)
    requires s.lastscan == t.lastscan && s.lastpos == t.lastpos && s.scan == t.scan && s.pos == t.pos
    ensures s == t
  {
    hide BestForward, BestBackward, BestCut;
    ForwardOnce(oldbin, newbin, s.lastpos - s.lastscan, s.lastscan,
                Min(s.scan - s.lastscan, |oldbin| - s.lastpos), s.fwd, t.fwd);
    if s.scan < |newbin| {
      BackwardOnce(oldbin, newbin, s.pos - s.scan, s.scan, Min(s.scan - s.lastscan, s.pos), s.bwd, t.bwd);
    }
    CutOnce(oldbin, newbin, s.lastpos - s.lastscan, s.pos - s.scan, s.scan - s.bwd, s.Overlap(), s.cut, t.cut);
  }

  ghost function TheSegment(oldbin: Bytes, newbin: Bytes, lastscan: int, lastpos: int, scan: int, pos: int): Segment
  {
    if exists s :: Ends(oldbin, newbin, lastscan, lastpos, scan, pos, s) then
      var s :| Ends(oldbin, newbin, lastscan, lastpos, scan, pos, s); s
    else Segment(0, 0, 0, 0, 0, 0, 0)
  }

  lemma TheSegmentIs(oldbin: Bytes, newbin: Bytes, s: Segment)
    requires Aligns(oldbin, newbin, s)
    ensures TheSegment(oldbin, newbin, s.lastscan, s.lastpos, s.scan, s.pos) == s
  {
    assert Ends(oldbin, newbin, s.lastscan, s.lastpos, s.scan, s.pos, s);
    var t := TheSegment(oldbin, newbin, s.lastscan, s.lastpos, s.scan, s.pos);
    EndsOnce(oldbin, newbin, s, t);
  }

  /** A stop is at a match that is not empty. */
  lemma StopMatches(I: seq<int>, oldbin: Bytes, newbin: Bytes, off: int, start: nat, s: nat)
    requires IsSuffixArray(I, oldbin) && start <= s < |newbin| && Stops(I, oldbin, newbin, off, start, s)
    ensures
      var (ln, pos) := Found(I, oldbin, newbin[s..], 0, |oldbin|);
      0 < ln && s + ln <= |newbin|
  {
  }

  /** Where a scan stops: the match there and the hits of the alignment up to where the matches seen reach. */
  datatype Stop = Stop(scan: nat, len: nat, pos: int, hits: nat)

  /** The stop of a scan that starts at `start`; at the end of the new data the last match found, or `pos`, is kept. */
  ghost function NextStop(I: seq<int>, oldbin: Bytes, newbin: Bytes, start: nat, pos: int, off: int): (t: Stop)
    requires IsSuffixArray(I, oldbin) && start <= |newbin|
    ensures start <= t.scan <= |newbin| && (t.scan < |newbin| ==> 0 < t.len && t.scan + t.len <= |newbin|)
  {
    var scan := FirstStop(I, oldbin, newbin, off, start, start);
    if scan == |newbin| then
      Stop(scan, 0, if scan > start then Found(I, oldbin, newbin[scan - 1..], 0, |oldbin|).1 else pos, 0)
    else
      StopMatches(I, oldbin, newbin, off, start, scan);
      var (ln, p) := Found(I, oldbin, newbin[scan..], 0, |oldbin|);
      Stop(scan, ln, p, Hits(oldbin, newbin, off, scan, Reach(I, oldbin, newbin, start, scan)))
  }

  /**
   A scan passes over no match that continues the alignment up to where the matches seen reach, or that beats it by more
   than 8 bytes; and it stops only at such a match.
   */
  lemma NextStopExactly(I: seq<int>, oldbin: Bytes, newbin: Bytes, start: nat, pos: int, off: int, s: nat)
    requires IsSuffixArray(I, oldbin) && start <= s < |newbin|
    ensures
      var t := NextStop(I, oldbin, newbin, start, pos, off);
      var ln := MatchLength(I, oldbin, newbin, s);
      var hits := Hits(oldbin, newbin, off, s, Reach(I, oldbin, newbin, start, s));
      && (s < t.scan ==> ln <= hits + 8 && (ln == hits ==> ln == 0))
      && (s == t.scan ==> (ln == hits > 0 || ln > hits + 8) && t.len == ln && t.hits == hits)
  {
    hide Hits, Reach, Found, IsSuffixArray;
    PassedOver(I, oldbin, newbin, off, start, start, s);
  }

  lemma {:induction false} PassedOver(I: seq<int>, oldbin: Bytes, newbin: Bytes, off: int, start: nat, from: nat,
                                      s: nat)
    requires IsSuffixArray(I, oldbin) && start <= from <= s < |newbin|
    ensures s < FirstStop(I, oldbin, newbin, off, start, from) ==> !Stops(I, oldbin, newbin, off, start, s)
    decreases s - from
  {
    hide Stops;
    if s == from || Stops(I, oldbin, newbin, off, start, from) {
    } else {
      PassedOver(I, oldbin, newbin, off, start, from + 1, s);
    }
  }

  /**
   The segments from a scan that starts at `start`, with the last match at `pos` and the last segment ending where
   `lastscan` is aligned with `lastpos`.  A stop whose match just continues the alignment ends no segment.
   */
  ghost function SegmentsFrom(I: seq<int>, oldbin: Bytes, newbin: Bytes, start: nat, pos: int, lastscan: int,
                              lastpos: int): seq<Segment>
    requires IsSuffixArray(I, oldbin) && start <= |newbin|
    decreases |newbin| - start
  {
    var t := NextStop(I, oldbin, newbin, start, pos, lastpos - lastscan);
    var s := TheSegment(oldbin, newbin, lastscan, lastpos, t.scan, t.pos);
    if t.scan == |newbin| then [s]
    else if t.len != t.hits then
      [s] + SegmentsFrom(I, oldbin, newbin, t.scan + t.len, t.pos, s.scan - s.Lenb(), s.pos - s.Lenb())
    else SegmentsFrom(I, oldbin, newbin, t.scan + t.len, t.pos, lastscan, lastpos)
  }

  /** All segments of the new data. */
  ghost function SegmentsOf(oldbin: Bytes, newbin: Bytes): seq<Segment>
  {
    if newbin == [] || !exists I :: IsSuffixArray(I, oldbin) then []
    else
      var I :| IsSuffixArray(I, oldbin);
      SegmentsFrom(I, oldbin, newbin, 0, 0, 0, 0)
  }

  lemma SegmentsOfIs(I: seq<int>, oldbin: Bytes, newbin: Bytes)
    requires IsSuffixArray(I, oldbin)
    ensures SegmentsOf(oldbin, newbin) == if newbin == [] then [] else SegmentsFrom(I, oldbin, newbin, 0, 0, 0, 0)
  {
    hide SegmentsFrom, IsSuffixArray;
    forall J | IsSuffixArray(J, oldbin)
      ensures J == I
    {
      OneSuffixArray(I, J, oldbin);
    }
  }

  // ----- The calls a segment makes

  function SubByte(x: int, y: int): Byte
  {
    (x - y) % 256
  }

  function SubBytes(a: Bytes, b: Bytes): (c: Bytes)
    requires |a| == |b|
    ensures |c| == |a|
  {
    seq(|a|, i requires 0 <= i < |a| => SubByte(a[i], b[i]))
  }

  lemma AddAfterSub(a: Bytes, b: Bytes)
    requires |a| == |b|
    ensures AddBytes(SubBytes(a, b), b) == a
  {
  }

  function SegmentCalls(oldbin: Bytes, newbin: Bytes, s: Segment): seq<Call>
    requires Fits(oldbin, newbin, s)
  {
    var a, b := s.lastscan + s.Lenf(), s.scan - s.Lenb();
    [WriteAddContent(SubBytes(newbin[s.lastscan..a], oldbin[s.lastpos..s.lastpos + s.Lenf()]))] +
    ([WriteContent(newbin[a..b])] +
     [SeekForward(Wrap((s.pos - s.Lenb()) - (s.lastpos + s.Lenf())))])
  }

  /** The segments tile the new data up to `scan`; the next one starts aligned with `pos`. */
  ghost predicate Tiled(oldbin: Bytes, newbin: Bytes, segs: seq<Segment>, scan: nat, pos: nat)
    decreases |segs|
  {
    if segs == [] then scan == 0 && pos == 0
    else
      var s := segs[|segs| - 1];
      && Fits(oldbin, newbin, s)
      && scan == s.scan - s.Lenb() && pos == s.pos - s.Lenb()
      && Tiled(oldbin, newbin, segs[..|segs| - 1], s.lastscan, s.lastpos)
  }

  ghost function CallsOf(oldbin: Bytes, newbin: Bytes, segs: seq<Segment>): seq<Call>
    decreases |segs|
  {
    if segs == [] || !Fits(oldbin, newbin, segs[|segs| - 1]) then []
    else CallsOf(oldbin, newbin, segs[..|segs| - 1]) + SegmentCalls(oldbin, newbin, segs[|segs| - 1])
  }

  lemma IntendInTurn(files: Files, st: State, c: Call, calls: seq<Call>)
    ensures IntendAll(files, Some(st), [c] + calls) == IntendAll(files, Intend(files, st, c), calls)
    ensures IntendAll(files, Some(st), [c]) == Intend(files, st, c)
  {
  }

  // ----- What a segment does to a file

  /** `file` has what the segment reads of the old data, and reaches as far as the segment moves. */
  predicate Agrees(oldbin: Bytes, newbin: Bytes, file: Bytes, s: Segment)
  {
    Fits(oldbin, newbin, s) ==>
      && s.lastpos + s.Lenf() <= |file| && s.pos - s.Lenb() <= |file|
      && file[s.lastpos..s.lastpos + s.Lenf()] == oldbin[s.lastpos..s.lastpos + s.Lenf()]
  }

  predicate AllAgree(oldbin: Bytes, newbin: Bytes, file: Bytes, segs: seq<Segment>)
  {
    forall i :: 0 <= i < |segs| ==> Agrees(oldbin, newbin, file, segs[i])
  }

  /** The old data itself always agrees. */
  lemma OwnAgrees(oldbin: Bytes, newbin: Bytes, segs: seq<Segment>)
    ensures AllAgree(oldbin, newbin, oldbin, segs)
  {
  }

  /** What a segment makes of a file. */
  function SegmentOut(oldbin: Bytes, newbin: Bytes, file: Bytes, s: Segment): (r: Option<Bytes>)
    requires Fits(oldbin, newbin, s)
    ensures r.Some? ==> |r.value| == s.scan - s.Lenb() - s.lastscan
  {
    var a, b, c := s.lastscan + s.Lenf(), s.scan - s.Lenb(), s.lastpos + s.Lenf();
    if c <= |file| && s.pos - s.Lenb() <= |file| then
      Some(AddBytes(SubBytes(newbin[s.lastscan..a], oldbin[s.lastpos..c]), file[s.lastpos..c]) + newbin[a..b])
    else None
  }

  lemma SplitSame(a: Bytes, b: Bytes, c: Bytes, d: Bytes)
    requires |a| == |c|
    ensures a + b == c + d <==> a == c && b == d
  {
    if a + b == c + d {
      assert (a + b)[..|a|] == a && (a + b)[|a|..] == b;
      assert (c + d)[..|a|] == c && (c + d)[|a|..] == d;
    }
  }

  /** Adding the differences to other bytes gives the new bytes only if those are the old ones. */
  lemma AddAgrees(a: Bytes, b: Bytes, c: Bytes)
    requires |a| == |b| == |c|
    ensures AddBytes(SubBytes(a, b), c) == a <==> b == c
  {
    if AddBytes(SubBytes(a, b), c) == a {
      forall i | 0 <= i < |a|
        ensures b[i] == c[i]
      {
        assert AddByte(SubByte(a[i], b[i]), c[i]) == a[i];
      }
    }
  }

  /** A segment makes its part of the new data exactly of a file that agrees. */
  lemma SegmentAgrees(oldbin: Bytes, newbin: Bytes, file: Bytes, s: Segment)
    requires Fits(oldbin, newbin, s)
    ensures SegmentOut(oldbin, newbin, file, s) == Some(newbin[s.lastscan..s.scan - s.Lenb()]) <==>
            Agrees(oldbin, newbin, file, s)
  {
    hide AddBytes, SubBytes;
    var a, b, c := s.lastscan + s.Lenf(), s.scan - s.Lenb(), s.lastpos + s.Lenf();
    var whole, add := newbin[s.lastscan..b], newbin[s.lastscan..a];
    assert whole == add + newbin[a..b];
    if c <= |file| {
      AddAgrees(add, oldbin[s.lastpos..c], file[s.lastpos..c]);
      var made := AddBytes(SubBytes(add, oldbin[s.lastpos..c]), file[s.lastpos..c]);
      SplitSame(made, newbin[a..b], add, newbin[a..b]);
    }
  }

  lemma SeekIntends(files: Files, st: State, pos: nat)
    requires st.file in files && pos < WORD
    ensures Intend(files, st, SeekForward(Wrap(pos - st.pos))) ==
            if pos <= |files[st.file]| then Some(State(st.out, st.file, pos)) else None
  {
    hide Wrap;
    WrapCancels(st.pos, pos);
  }

  /** More output, and the cursor at `pos`. */
  function Onward(st: State, out: Option<Bytes>, pos: nat): Option<State>
  {
    if out == None then None else Some(State(st.out + out.value, st.file, pos))
  }

  /** Carrying out the calls of one segment. */
  lemma SegmentDoes(files: Files, oldbin: Bytes, newbin: Bytes, s: Segment, st: State)
    requires Fits(oldbin, newbin, s) && |oldbin| < WORD && st.file in files && st.pos == s.lastpos
    ensures IntendAll(files, Some(st), SegmentCalls(oldbin, newbin, s)) ==
            Onward(st, SegmentOut(oldbin, newbin, files[st.file], s), s.pos - s.Lenb())
  {
    hide SubBytes, AddBytes, Wrap, IntendAll;
    var a, b, c := s.lastscan + s.Lenf(), s.scan - s.Lenb(), s.lastpos + s.Lenf();
    var diff, file := SubBytes(newbin[s.lastscan..a], oldbin[s.lastpos..c]), files[st.file];
    var add, extra := WriteAddContent(diff), WriteContent(newbin[a..b]);
    var seek := SeekForward(Wrap((s.pos - s.Lenb()) - c));
    IntendInTurn(files, st, add, [extra] + [seek]);
    if c > |file| {
      NoneStays(files, [extra] + [seek]);
    } else {
      var made := AddBytes(diff, file[s.lastpos..c]);
      var st1 := State(st.out + made, st.file, c);
      var st2 := st1.(out := st1.out + newbin[a..b]);
      SeekIntends(files, st2, s.pos - s.Lenb());
      IntendInTurn(files, st1, extra, [seek]);
      IntendInTurn(files, st2, seek, []);
      assert st.out + made + newbin[a..b] == st.out + (made + newbin[a..b]);
    }
  }

  /** A negative distance passed as an unsigned word cancels. */
  lemma WrapCancels(from: nat, to: nat)
    requires to < WORD
    ensures Wrap(from + Wrap(to - from)) == to
  {
  }

  lemma {:induction false} IntendAppend(files: Files, st: Option<State>, a: seq<Call>, b: seq<Call>)
    ensures IntendAll(files, st, a + b) == IntendAll(files, IntendAll(files, st, a), b)
    decreases |a|
  {
    if a == [] {
      assert a + b == b;
    } else if st.Some? {
      assert (a + b)[1..] == a[1..] + b;
      IntendAppend(files, Intend(files, st.value, a[0]), a[1..], b);
    }
  }

  /** What segments make of a file one after the other. */
  ghost function SegmentsOut(oldbin: Bytes, newbin: Bytes, file: Bytes, segs: seq<Segment>): Option<Bytes>
    decreases |segs|
  {
    if segs == [] then Some([])
    else
      var init, s := SegmentsOut(oldbin, newbin, file, segs[..|segs| - 1]), segs[|segs| - 1];
      if init == None || !Fits(oldbin, newbin, s) then None
      else
        var last := SegmentOut(oldbin, newbin, file, s);
        if last == None then None else Some(init.value + last.value)
  }

  /** The last of some tiling segments. */
  lemma LastSegment(oldbin: Bytes, newbin: Bytes, file: Bytes, segs: seq<Segment>, scan: nat, pos: nat)
    requires Tiled(oldbin, newbin, segs, scan, pos) && segs != []
    ensures
      var init, s := segs[..|segs| - 1], segs[|segs| - 1];
      && Tiled(oldbin, newbin, init, s.lastscan, s.lastpos) && Fits(oldbin, newbin, s)
      && s.lastscan <= scan <= |newbin| && scan == s.scan - s.Lenb() && pos == s.pos - s.Lenb()
      && CallsOf(oldbin, newbin, segs) == CallsOf(oldbin, newbin, init) + SegmentCalls(oldbin, newbin, s)
      && var before, last := SegmentsOut(oldbin, newbin, file, init), SegmentOut(oldbin, newbin, file, s);
         SegmentsOut(oldbin, newbin, file, segs)
         == if before == None || last == None then None else Some(before.value + last.value)
  {
    hide SegmentOut, SegmentCalls;
  }

  lemma OnwardTwice(st: State, out: Option<Bytes>, last: Option<Bytes>, pos: nat, end: nat)
    requires out.Some?
    ensures Onward(Onward(st, out, pos).value, last, end) ==
            Onward(st, if last == None then None else Some(out.value + last.value), end)
  {
    if last.Some? {
      assert st.out + out.value + last.value == st.out + (out.value + last.value);
    }
  }

  lemma NoSegment(files: Files, oldbin: Bytes, newbin: Bytes, scan: nat, pos: nat, st: State)
    requires Tiled(oldbin, newbin, [], scan, pos) && st.file in files && st.pos == 0
    ensures IntendAll(files, Some(st), CallsOf(oldbin, newbin, [])) ==
            Onward(st, SegmentsOut(oldbin, newbin, files[st.file], []), pos)
  {
    assert st.out + [] == st.out;
  }

  /** Segments that tile the new data up to `scan` leave the cursor where the next one is aligned. */
  lemma {:induction false} SegmentsDo(files: Files, oldbin: Bytes, newbin: Bytes, segs: seq<Segment>, scan: nat,
                                      pos: nat, st: State)
    requires Tiled(oldbin, newbin, segs, scan, pos) && |oldbin| < WORD && st.file in files && st.pos == 0
    ensures IntendAll(files, Some(st), CallsOf(oldbin, newbin, segs)) ==
            Onward(st, SegmentsOut(oldbin, newbin, files[st.file], segs), pos)
    decreases |segs|
  {
    hide SegmentCalls, SegmentOut, Fits, CallsOf, SegmentsOut, Tiled, IntendAll;
    if segs == [] {
      NoSegment(files, oldbin, newbin, scan, pos, st);
    } else {
      var init, s, file := segs[..|segs| - 1], segs[|segs| - 1], files[st.file];
      LastSegment(oldbin, newbin, file, segs, scan, pos);
      SegmentsDo(files, oldbin, newbin, init, s.lastscan, s.lastpos, st);
      IntendAppend(files, Some(st), CallsOf(oldbin, newbin, init), SegmentCalls(oldbin, newbin, s));
      var out := SegmentsOut(oldbin, newbin, file, init);
      if out == None {
        NoneStays(files, SegmentCalls(oldbin, newbin, s));
      } else {
        SegmentDoes(files, oldbin, newbin, s, State(st.out + out.value, st.file, s.lastpos));
        OnwardTwice(st, out, SegmentOut(oldbin, newbin, file, s), s.lastpos, pos);
      }
    }
  }

  /** Tiling segments make the new data up to `scan` exactly of a file that agrees with the old data for all of them. */
  lemma {:induction false} SegmentsAgree(oldbin: Bytes, newbin: Bytes, file: Bytes, segs: seq<Segment>, scan: nat,
                                         pos: nat)
    requires Tiled(oldbin, newbin, segs, scan, pos)
    ensures scan <= |newbin|
    ensures SegmentsOut(oldbin, newbin, file, segs).Some? ==> |SegmentsOut(oldbin, newbin, file, segs).value| == scan
    ensures SegmentsOut(oldbin, newbin, file, segs) == Some(newbin[..scan]) <==> AllAgree(oldbin, newbin, file, segs)
    decreases |segs|
  {
    if segs == [] {
      assert newbin[..0] == [];
    } else {
      hide SegmentOut, Agrees, Fits, Tiled, SegmentsOut, AllAgree;
      var init, s := segs[..|segs| - 1], segs[|segs| - 1];
      LastSegment(oldbin, newbin, file, segs, scan, pos);
      SegmentsAgree(oldbin, newbin, file, init, s.lastscan, s.lastpos);
      SegmentAgrees(oldbin, newbin, file, s);
      AgreeLast(oldbin, newbin, file, segs);
      var out, last := SegmentsOut(oldbin, newbin, file, init), SegmentOut(oldbin, newbin, file, s);
      if out.Some? && last.Some? {
        BothSame(out.value, last.value, newbin, s.lastscan, scan);
      }
    }
  }

  /** Bytes of the right lengths are the start of `data` exactly if each of them is its part of it. */
  lemma BothSame(a: Bytes, b: Bytes, data: Bytes, mid: nat, end: nat)
    requires |a| == mid <= end <= |data| && |b| == end - mid
    ensures |a + b| == end
    ensures a + b == data[..end] <==> a == data[..mid] && b == data[mid..end]
  {
    assert data[..end] == data[..mid] + data[mid..end];
    SplitSame(a, b, data[..mid], data[mid..end]);
  }

  lemma AgreeLast(oldbin: Bytes, newbin: Bytes, file: Bytes, segs: seq<Segment>)
    requires segs != []
    ensures AllAgree(oldbin, newbin, file, segs) <==>
            && AllAgree(oldbin, newbin, file, segs[..|segs| - 1])
            && Agrees(oldbin, newbin, file, segs[|segs| - 1])
  {
    hide Agrees;
  }
}
