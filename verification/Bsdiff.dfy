/** The bsdiff segmenter: rewrites new data as differences to old data, extra bytes and seeks. */
module Bsdiff {
  import opened Bytes
  import opened DeltaWriter
  import opened SuffixBuckets
  import opened Search
  import opened Segments

  // ----- Extending and dividing alignments

  method ForwardLength(oldbin: Bytes, newbin: Bytes, lastscan: nat, lastpos: nat, scan: nat) returns (lenf: nat)
    requires lastscan <= scan <= |newbin| && lastpos <= |oldbin|
    ensures BestForward(oldbin, newbin, lastpos - lastscan, lastscan, Min(scan - lastscan, |oldbin| - lastpos), lenf)
    ensures lastscan + lenf <= scan && lastpos + lenf <= |oldbin|
  {
    var s, Sf, i := 0, 0, 0;
    lenf := 0;
    ghost var off := lastpos - lastscan;
    while lastscan + i < scan && lastpos + i < |oldbin|
      invariant 0 <= i <= Min(scan - lastscan, |oldbin| - lastpos)
      invariant s == Hits(oldbin, newbin, off, lastscan, lastscan + i)
      invariant 2 * Sf - lenf == Worth(oldbin, newbin, off, lastscan, lenf)
      invariant BestForward(oldbin, newbin, off, lastscan, i, lenf)
    {
      if oldbin[lastpos + i] == newbin[lastscan + i] {
        s := s + 1;
      }
      i := i + 1;
      assert Worth(oldbin, newbin, off, lastscan, i) == 2 * s - i;
      if s * 2 - i > Sf * 2 - lenf {
        Sf := s;
        lenf := i;
      }
    }
  }

  method BackwardLength(oldbin: Bytes, newbin: Bytes, lastscan: nat, scan: nat, pos: nat) returns (lenb: nat)
    requires lastscan <= scan < |newbin| && pos <= |oldbin|
    ensures BestBackward(oldbin, newbin, pos - scan, scan, Min(scan - lastscan, pos), lenb)
    ensures lastscan + lenb <= scan && lenb <= pos
  {
    var s, Sb, i := 0, 0, 1;
    lenb := 0;
    ghost var off := pos - scan;
    while scan >= lastscan + i && pos >= i
      invariant 1 <= i <= Min(scan - lastscan, pos) + 1
      invariant s == Hits(oldbin, newbin, off, scan - (i - 1), scan)
      invariant 2 * Sb - lenb == WorthBack(oldbin, newbin, off, scan, lenb)
      invariant BestBackward(oldbin, newbin, off, scan, i - 1, lenb)
    {
      HitsFirst(oldbin, newbin, off, scan - i, scan);
      if oldbin[pos - i] == newbin[scan - i] {
        s := s + 1;
      }
      assert WorthBack(oldbin, newbin, off, scan, i) == 2 * s - i;
      if s * 2 - i > Sb * 2 - lenb {
        Sb := s;
        lenb := i;
      }
      i := i + 1;
    }
  }

  /** Divides an overlap that starts at new byte `at`. */
  method CutOverlap(oldbin: Bytes, newbin: Bytes, at: nat, posA: nat, posB: nat, overlap: nat) returns (lens: nat)
    requires at + overlap <= |newbin| && posA + overlap <= |oldbin| && posB + overlap <= |oldbin|
    ensures BestCut(oldbin, newbin, posA - at, posB - at, at, overlap, lens) && lens <= overlap
  {
    var s, Ss, i := 0, 0, 0;
    lens := 0;
    while i < overlap
      invariant 0 <= i <= overlap
      invariant s == Gain(oldbin, newbin, posA - at, posB - at, at, i)
      invariant Ss == Gain(oldbin, newbin, posA - at, posB - at, at, lens)
      invariant BestCut(oldbin, newbin, posA - at, posB - at, at, i, lens)
    {
      if newbin[at + i] == oldbin[posA + i] {
        s := s + 1;
      }
      if newbin[at + i] == oldbin[posB + i] {
        s := s - 1;
      }
      assert s == Gain(oldbin, newbin, posA - at, posB - at, at, i + 1);
      if s > Ss {
        Ss := s;
        lens := i + 1;
      }
      i := i + 1;
    }
  }

  // ----- Scanning for the end of a segment

  lemma EmptyMatchNoHit(I: seq<int>, oldbin: Bytes, newbin: Bytes, off: int, s: nat)
    requires IsSuffixArray(I, oldbin) && s < |newbin| && MatchLength(I, oldbin, newbin, s) == 0
    ensures !Hit(oldbin, newbin, off, s)
  {
    if 0 <= s + off < |oldbin| {
      EmptyMatch(I, oldbin, newbin[s..], s + off);
    }
  }

  /** Counts the hits up to the end of the match at `scan`. */
  method CatchUp(oldbin: Bytes, newbin: Bytes, off: int, scan: nat, ln: nat, scsc0: nat, oldscore0: int)
    returns (scsc: nat, oldscore: int)
    requires scan + ln <= |newbin| && scsc0 + off >= 0
    requires oldscore0 == Hits(oldbin, newbin, off, scan, scsc0)
    requires forall j | scsc0 <= j < scan :: !Hit(oldbin, newbin, off, j)
    ensures scsc == if scsc0 < scan + ln then scan + ln else scsc0
    ensures oldscore == Hits(oldbin, newbin, off, scan, scsc)
  {
    scsc, oldscore := scsc0, oldscore0;
    while scsc < scan + ln
      invariant scsc0 <= scsc
      invariant scsc0 < scan + ln ==> scsc <= scan + ln
      invariant scsc0 >= scan + ln ==> scsc == scsc0
      invariant oldscore == Hits(oldbin, newbin, off, scan, scsc)
    {
      if scsc + off < |oldbin| && oldbin[scsc + off] == newbin[scsc] {
        assert Hit(oldbin, newbin, off, scsc);
        oldscore := oldscore + 1;
      }
      scsc := scsc + 1;
    }
  }

  /** Takes the byte at `scan` out of the count. */
  method LetGo(oldbin: Bytes, newbin: Bytes, off: int, scan: nat, scsc: nat, oldscore0: int) returns (oldscore: int)
    requires scan < |newbin| && scan + off >= 0 && scan <= scsc && oldscore0 == Hits(oldbin, newbin, off, scan, scsc)
    requires scan == scsc ==> !Hit(oldbin, newbin, off, scan)
    ensures oldscore == Hits(oldbin, newbin, off, scan + 1, scsc)
    ensures forall j | scsc <= j < scan + 1 :: !Hit(oldbin, newbin, off, j)
  {
    oldscore := oldscore0;
    if scsc > scan {
      HitsFirst(oldbin, newbin, off, scan, scsc);
    }
    if scan + off < |oldbin| && oldbin[scan + off] == newbin[scan] {
      assert Hit(oldbin, newbin, off, scan);
      oldscore := oldscore - 1;
    }
  }

  /** The variables of the scan loop hold the next stop. */
  ghost predicate Stopped(I: seq<int>, oldbin: Bytes, newbin: Bytes, start: nat, pos0: int, off: int, scan: nat,
                          ln: int, pos: int, oldscore: int)
    requires IsSuffixArray(I, oldbin) && start <= |newbin|
  {
    var t := NextStop(I, oldbin, newbin, start, pos0, off);
    t.scan == scan && t.pos == pos && (scan < |newbin| ==> t.len == ln && t.hits == oldscore)
  }

  lemma StoppedAt(I: seq<int>, oldbin: Bytes, newbin: Bytes, start: nat, pos0: int, off: int, scan: nat, ln: int,
                  pos: int, oldscore: int)
    requires IsSuffixArray(I, oldbin) && start <= scan <= |newbin|
    requires forall k | start <= k < scan :: !Stops(I, oldbin, newbin, off, start, k)
    requires scan < |newbin| ==>
               && Stops(I, oldbin, newbin, off, start, scan)
               && (ln, pos) == Found(I, oldbin, newbin[scan..], 0, |oldbin|)
               && oldscore == Hits(oldbin, newbin, off, scan, Reach(I, oldbin, newbin, start, scan))
    requires scan == |newbin| ==>
               pos == if scan > start then Found(I, oldbin, newbin[scan - 1..], 0, |oldbin|).1 else pos0
    ensures Stopped(I, oldbin, newbin, start, pos0, off, scan, ln, pos, oldscore)
  {
    hide Stops, Found, Hits, Reach, FirstStop, IsSuffixArray;
    FirstStopIs(I, oldbin, newbin, off, start, start, scan);
  }

  /** Advances `scan` to the first place from `start` where the scan stops, or to the end of the new data. */
  method FindStop(iii: array<int>, oldbin: Bytes, newbin: Bytes, start: nat, off: int, ln0: nat, pos0: int,
                  ghost I: seq<int>)
    returns (scan: nat, ln: nat, pos: int, oldscore: int)
    requires iii.Length == |oldbin| + 1 && I == iii[..] && IsSuffixArray(I, oldbin)
    requires start <= |newbin| && start + off >= 0 && 0 <= pos0 <= |oldbin|
    ensures start <= scan <= |newbin| && 0 <= pos <= |oldbin|
    ensures forall s | start <= s < scan :: !Stops(I, oldbin, newbin, off, start, s)
    ensures scan < |newbin| ==>
              && Stops(I, oldbin, newbin, off, start, scan)
              && (ln, pos) == Found(I, oldbin, newbin[scan..], 0, |oldbin|)
              && oldscore == Hits(oldbin, newbin, off, scan, Reach(I, oldbin, newbin, start, scan))
    ensures scan == |newbin| && scan > start ==> (ln, pos) == Found(I, oldbin, newbin[scan - 1..], 0, |oldbin|)
    ensures scan == start == |newbin| ==> ln == ln0 && pos == pos0
    ensures scan < |newbin| ==> 0 < ln && scan + ln <= |newbin| && MatchLength(I, oldbin, newbin, scan) == ln
    ensures Stopped(I, oldbin, newbin, start, pos0, off, scan, ln, pos, oldscore)
  {
    hide *;
    scan, ln, pos, oldscore := start, ln0, pos0, 0;
    var scsc := start;
    HitsNone(oldbin, newbin, off, start, start);
    while scan < |newbin|
      invariant start <= scan <= |newbin| && 0 <= pos <= |oldbin| && start <= scsc
      invariant scsc == if scan == start then start else Reach(I, oldbin, newbin, start, scan - 1)
      invariant oldscore == Hits(oldbin, newbin, off, scan, scsc)
      invariant forall j | scsc <= j < scan :: !Hit(oldbin, newbin, off, j)
      invariant forall s | start <= s < scan :: !Stops(I, oldbin, newbin, off, start, s)
      invariant if scan == start then ln == ln0 && pos == pos0
                else (ln, pos) == Found(I, oldbin, newbin[scan - 1..], 0, |oldbin|)
      decreases |newbin| - scan
    {
      ln, pos := Search.Search(iii, oldbin, newbin[scan..], 0, |oldbin|);
      FoundMatch(I, oldbin, newbin, scan);
      StopsAt(I, oldbin, newbin, off, start, scan);
      scsc, oldscore := CatchUp(oldbin, newbin, off, scan, ln, scsc, oldscore);
      if ln == oldscore && ln != 0 {
        break;
      }
      if ln > oldscore + 8 {
        break;
      }
      if ln == 0 {
        EmptyMatchNoHit(I, oldbin, newbin, off, scan);
      }
      oldscore := LetGo(oldbin, newbin, off, scan, scsc, oldscore);
      scan := scan + 1;
    }
    if scan < |newbin| {
      StopMatches(I, oldbin, newbin, off, start, scan);
      FoundMatch(I, oldbin, newbin, scan);
    }
    StoppedAt(I, oldbin, newbin, start, pos0, off, scan, ln, pos, oldscore);
  }

  lemma StopsAt(I: seq<int>, oldbin: Bytes, newbin: Bytes, off: int, start: nat, s: nat)
    requires IsSuffixArray(I, oldbin) && start <= s <= |newbin|
    ensures var ln, reach := MatchLength(I, oldbin, newbin, s), Reach(I, oldbin, newbin, start, s);
            && reach == (var r := if s == start then start else Reach(I, oldbin, newbin, start, s - 1);
                         if r < s + ln then s + ln else r)
            && var hits := Hits(oldbin, newbin, off, s, reach);
               Stops(I, oldbin, newbin, off, start, s) <==> (ln == hits && ln != 0) || ln > hits + 8
  {
  }

  lemma FoundMatch(I: seq<int>, oldbin: Bytes, newbin: Bytes, s: nat)
    requires IsSuffixArray(I, oldbin) && s <= |newbin|
    ensures var (ln, pos) := Found(I, oldbin, newbin[s..], 0, |oldbin|);
            MatchLength(I, oldbin, newbin, s) == ln && s + ln <= |newbin| && 0 <= pos <= |oldbin|
  {
  }

  // ----- bsdiff

  /** Resolves the end of a segment: the extensions of both alignments and the cut between them. */
  method EndSegment(oldbin: Bytes, newbin: Bytes, lastscan: nat, lastpos: nat, scan: nat, pos: nat)
    returns (lenf: nat, lenb: nat, ghost s: Segment)
    requires lastscan <= scan <= |newbin| && lastpos <= |oldbin| && pos <= |oldbin|
    ensures Aligns(oldbin, newbin, s) && Fits(oldbin, newbin, s)
    ensures s.lastscan == lastscan && s.lastpos == lastpos && s.scan == scan && s.pos == pos
    ensures lenf == s.Lenf() && lenb == s.Lenb() && lastscan <= scan - lenb && lenb <= pos
    ensures scan == |newbin| ==> lenb == 0
  {
    hide BestForward, BestBackward, BestCut;
    lenf := ForwardLength(oldbin, newbin, lastscan, lastpos, scan);
    lenb := 0;
    if scan < |newbin| {
      lenb := BackwardLength(oldbin, newbin, lastscan, scan, pos);
    }
    s := Segment(lastscan, lastpos, scan, pos, lenf, lenb, 0);
    if lastscan + lenf > scan - lenb {
      var overlap: nat := (lastscan + lenf) - (scan - lenb);
      var lens := CutOverlap(oldbin, newbin, scan - lenb, lastpos + lenf - overlap, pos - lenb, overlap);
      s := s.(cut := lens);
      lenf := lenf + lens - overlap;
      lenb := lenb - lens;
    } else {
      NoCut(oldbin, newbin, lastpos - lastscan, pos - scan, scan - lenb);
    }
    SegmentRanges(oldbin, newbin, s);
  }

  lemma NoCut(oldbin: Bytes, newbin: Bytes, offA: int, offB: int, at: int)
    ensures BestCut(oldbin, newbin, offA, offB, at, 0, 0)
  {
  }

  method Difference(newPart: Bytes, oldPart: Bytes) returns (db: Bytes)
    requires |newPart| == |oldPart|
    ensures db == SubBytes(newPart, oldPart)
  {
    db := [];
    for i := 0 to |newPart|
      invariant |db| == i && db == SubBytes(newPart, oldPart)[..i]
    {
      db := db + [SubByte(newPart[i], oldPart[i])];
    }
  }

  /** Writes a segment: differences to old bytes, extra bytes, and the move to the next alignment. */
  method EmitSegment(dw: Writer, oldbin: Bytes, newbin: Bytes, lastscan: nat, lastpos: nat, scan: nat, pos: nat,
                     lenf: nat, lenb: nat, ghost s: Segment)
    requires dw.Valid() && Fits(oldbin, newbin, s)
    requires s.lastscan == lastscan && s.lastpos == lastpos && s.scan == scan && s.pos == pos
    requires s.Lenf() == lenf && s.Lenb() == lenb
    modifies dw
    ensures dw.Valid() && dw.State() == ApplyAll(old(dw.State()), SegmentCalls(oldbin, newbin, s))
  {
    hide Apply, ApplyAll, Wrap, SubBytes;
    var ebpos := lastscan + lenf;
    var eblen := (scan - lenb) - ebpos;
    var slen := (pos - lenb) - (lastpos + lenf);
    var db := Difference(newbin[lastscan..ebpos], oldbin[lastpos..lastpos + lenf]);
    ghost var w := dw.State();
    ghost var add, extra := WriteAddContent(db), WriteContent(newbin[ebpos..ebpos + eblen]);
    ghost var seek := SeekForward(Wrap(slen));
    ApplyInTurn(w, add, [extra] + [seek]);
    ApplyInTurn(Apply(w, add), extra, [seek]);
    ApplyLast(Apply(Apply(w, add), extra), seek);
    dw.WriteAddContent(db);
    dw.WriteContent(newbin[ebpos..ebpos + eblen]);
    dw.SeekForward(Wrap(slen));
  }

  /** Ends a segment at a stop and writes it. */
  method PutSegment(dw: Writer, oldbin: Bytes, newbin: Bytes, lastscan: nat, lastpos: nat, scan: nat, pos: nat,
                    ghost I: seq<int>, ghost start: nat, ghost off: int)
    returns (lenb: nat, ghost s: Segment)
    requires dw.Valid() && IsSuffixArray(I, oldbin) && off == lastpos - lastscan
    requires lastscan <= scan <= |newbin| && lastpos <= |oldbin| && pos <= |oldbin|
    requires scan < |newbin| ==>
               && start <= scan && Stops(I, oldbin, newbin, off, start, scan)
               && pos == Found(I, oldbin, newbin[scan..], 0, |oldbin|).1
               && MatchLength(I, oldbin, newbin, scan)
                    != Hits(oldbin, newbin, off, scan, Reach(I, oldbin, newbin, start, scan))
    modifies dw
    ensures s.lastscan == lastscan && s.lastpos == lastpos && s.scan == scan && s.pos == pos
    ensures lenb == s.Lenb() && lastscan <= scan - lenb && lenb <= pos && (scan == |newbin| ==> lenb == 0)
    ensures Fits(oldbin, newbin, s) && SegmentOk(I, oldbin, newbin, s)
    ensures s == TheSegment(oldbin, newbin, lastscan, lastpos, scan, pos)
    ensures dw.Valid() && dw.State() == ApplyAll(old(dw.State()), SegmentCalls(oldbin, newbin, s))
  {
    hide *;
    var lenf;
    lenf, lenb, s := EndSegment(oldbin, newbin, lastscan, lastpos, scan, pos);
    StopBeats(I, oldbin, newbin, off, start, s);
    TheSegmentIs(oldbin, newbin, s);
    EmitSegment(dw, oldbin, newbin, lastscan, lastpos, scan, pos, lenf, lenb, s);
  }

  lemma {:induction false} HitsGrow(oldbin: Bytes, newbin: Bytes, off: int, lo: int, mid: int, hi: int)
    requires mid <= hi
    ensures Hits(oldbin, newbin, off, lo, mid) <= Hits(oldbin, newbin, off, lo, hi)
    decreases hi - mid
  {
    if mid >= hi {
    } else {
      HitsGrow(oldbin, newbin, off, lo, mid, hi - 1);
    }
  }

  /** A stop that does not just continue the alignment beats it. */
  lemma StopBeats(I: seq<int>, oldbin: Bytes, newbin: Bytes, off: int, start: nat, s: Segment)
    requires IsSuffixArray(I, oldbin) && Aligns(oldbin, newbin, s) && off == s.lastpos - s.lastscan
    requires s.scan < |newbin| ==>
               && start <= s.scan && Stops(I, oldbin, newbin, off, start, s.scan)
               && s.pos == Found(I, oldbin, newbin[s.scan..], 0, |oldbin|).1
               && MatchLength(I, oldbin, newbin, s.scan)
                    != Hits(oldbin, newbin, off, s.scan, Reach(I, oldbin, newbin, start, s.scan))
    ensures SegmentOk(I, oldbin, newbin, s)
  {
    hide Aligns, Found, Hits, Stops, Reach, MatchLength;
    if s.scan < |newbin| {
      StopsAt(I, oldbin, newbin, off, start, s.scan);
      HitsGrow(oldbin, newbin, off, s.scan, s.scan + MatchLength(I, oldbin, newbin, s.scan),
               Reach(I, oldbin, newbin, start, s.scan));
    }
  }

  lemma {:induction false} ApplyAppend(w: WriterState, a: seq<Call>, b: seq<Call>)
    ensures ApplyAll(w, a + b) == ApplyAll(ApplyAll(w, a), b)
    decreases |a|
  {
    if a == [] {
      assert a + b == b;
    } else {
      assert (a + b)[1..] == a[1..] + b;
      ApplyAppend(Apply(w, a[0]), a[1..], b);
    }
  }

  lemma MoreCalls(oldbin: Bytes, newbin: Bytes, segs: seq<Segment>, s: Segment, w: WriterState)
    requires Fits(oldbin, newbin, s)
    ensures ApplyAll(w, CallsOf(oldbin, newbin, segs + [s])) ==
            ApplyAll(ApplyAll(w, CallsOf(oldbin, newbin, segs)), SegmentCalls(oldbin, newbin, s))
  {
    hide SegmentCalls;
    assert (segs + [s])[..|segs|] == segs;
    ApplyAppend(w, CallsOf(oldbin, newbin, segs), SegmentCalls(oldbin, newbin, s));
  }

  lemma NoCalls(oldbin: Bytes, newbin: Bytes, w: WriterState)
    ensures ApplyAll(w, CallsOf(oldbin, newbin, [])) == w
  {
  }

  /** The segments to come after a stop at `scan`. */
  ghost function Remaining(I: seq<int>, oldbin: Bytes, newbin: Bytes, scan: nat, ln: int, pos: int, lastscan: int,
                           lastpos: int): seq<Segment>
    requires IsSuffixArray(I, oldbin)
  {
    if scan < |newbin| && 0 <= ln && scan + ln <= |newbin| then
      SegmentsFrom(I, oldbin, newbin, scan + ln, pos, lastscan, lastpos)
    else []
  }

  /** One stop: it ends a segment, or it just continues the alignment. */
  lemma SegmentsStep(I: seq<int>, oldbin: Bytes, newbin: Bytes, start: nat, pos0: int, lastscan: int, lastpos: int,
                     off: int, scan: nat, ln: int, pos: int, oldscore: int)
    requires IsSuffixArray(I, oldbin) && off == lastpos - lastscan && start <= |newbin|
    requires Stopped(I, oldbin, newbin, start, pos0, off, scan, ln, pos, oldscore)
    ensures
      var s := TheSegment(oldbin, newbin, lastscan, lastpos, scan, pos);
      SegmentsFrom(I, oldbin, newbin, start, pos0, lastscan, lastpos)
      == if ln != oldscore || scan == |newbin| then
           [s] + Remaining(I, oldbin, newbin, scan, ln, pos, s.scan - s.Lenb(), s.pos - s.Lenb())
         else Remaining(I, oldbin, newbin, scan, ln, pos, lastscan, lastpos)
  {
    hide NextStop, TheSegment, IsSuffixArray;
  }

  /** The segments cut so far tile the new data up to the next one, and the rest is still to come. */
  ghost predicate Progress(I: seq<int>, oldbin: Bytes, newbin: Bytes, segs: seq<Segment>, scan: nat, ln: int, pos: int,
                           lastscan: nat, lastpos: nat)
    requires IsSuffixArray(I, oldbin)
  {
    && Tiled(oldbin, newbin, segs, lastscan, lastpos)
    && (forall i | 0 <= i < |segs| :: SegmentOk(I, oldbin, newbin, segs[i]))
    && SegmentsOf(oldbin, newbin) == segs + Remaining(I, oldbin, newbin, scan, ln, pos, lastscan, lastpos)
  }

  lemma ProgressStarts(I: seq<int>, oldbin: Bytes, newbin: Bytes)
    requires IsSuffixArray(I, oldbin)
    ensures Progress(I, oldbin, newbin, [], 0, 0, 0, 0, 0)
  {
    hide SegmentsOf, SegmentsFrom, IsSuffixArray;
    SegmentsOfIs(I, oldbin, newbin);
  }

  lemma TiledMore(oldbin: Bytes, newbin: Bytes, segs: seq<Segment>, s: Segment)
    ensures Tiled(oldbin, newbin, segs, s.lastscan, s.lastpos) && Fits(oldbin, newbin, s) ==>
              Tiled(oldbin, newbin, segs + [s], s.scan - s.Lenb(), s.pos - s.Lenb())
  {
    assert (segs + [s])[..|segs|] == segs;
  }

  lemma RemainingIs(I: seq<int>, oldbin: Bytes, newbin: Bytes, scan: nat, ln: nat, pos: int, lastscan: int,
                    lastpos: int)
    requires IsSuffixArray(I, oldbin) && scan < |newbin| && scan + ln <= |newbin|
    ensures Remaining(I, oldbin, newbin, scan, ln, pos, lastscan, lastpos) ==
            SegmentsFrom(I, oldbin, newbin, scan + ln, pos, lastscan, lastpos)
  {
    hide SegmentsFrom, IsSuffixArray;
  }

  /** A stop ends a segment that is cut off from what was to come, or leaves that as it is. */
  lemma ProgressAt(I: seq<int>, oldbin: Bytes, newbin: Bytes, segs: seq<Segment>, scan0: nat, ln0: nat, pos0: int,
                   lastscan: nat, lastpos: nat, scan: nat, ln: int, pos: int, oldscore: int)
    requires IsSuffixArray(I, oldbin) && scan0 < |newbin| && scan0 + ln0 <= |newbin|
    requires Progress(I, oldbin, newbin, segs, scan0, ln0, pos0, lastscan, lastpos)
    requires Stopped(I, oldbin, newbin, scan0 + ln0, pos0, lastpos - lastscan, scan, ln, pos, oldscore)
    ensures
      if ln != oldscore || scan == |newbin| then
        var s := TheSegment(oldbin, newbin, lastscan, lastpos, scan, pos);
        && s.lastscan == lastscan && s.lastpos == lastpos
        && Fits(oldbin, newbin, s) && SegmentOk(I, oldbin, newbin, s) ==>
          Progress(I, oldbin, newbin, segs + [s], scan, ln, pos, s.scan - s.Lenb(), s.pos - s.Lenb())
      else Progress(I, oldbin, newbin, segs, scan, ln, pos, lastscan, lastpos)
  {
    hide SegmentsOf, SegmentsFrom, IsSuffixArray, Stopped, TheSegment, SegmentOk, Fits, Tiled, Remaining;
    RemainingIs(I, oldbin, newbin, scan0, ln0, pos0, lastscan, lastpos);
    SegmentsStep(I, oldbin, newbin, scan0 + ln0, pos0, lastscan, lastpos, lastpos - lastscan, scan, ln, pos, oldscore);
    if ln != oldscore || scan == |newbin| {
      var s := TheSegment(oldbin, newbin, lastscan, lastpos, scan, pos);
      var rest := Remaining(I, oldbin, newbin, scan, ln, pos, s.scan - s.Lenb(), s.pos - s.Lenb());
      assert segs + ([s] + rest) == (segs + [s]) + rest;
      TiledMore(oldbin, newbin, segs, s);
    }
  }

  lemma ProgressEnds(I: seq<int>, oldbin: Bytes, newbin: Bytes, segs: seq<Segment>, scan: nat, ln: int, pos: int,
                     lastscan: nat, lastpos: nat)
    requires IsSuffixArray(I, oldbin) && scan >= |newbin|
    requires Progress(I, oldbin, newbin, segs, scan, ln, pos, lastscan, lastpos)
    ensures segs == SegmentsOf(oldbin, newbin) && Tiled(oldbin, newbin, segs, lastscan, lastpos)
    ensures forall i | 0 <= i < |segs| :: SegmentOk(I, oldbin, newbin, segs[i])
  {
    hide SegmentsOf, SegmentsFrom, IsSuffixArray, SegmentOk, Tiled;
  }

  /** The old data's cursor is at 0 when the calls start; the segments say which calls are made. */
  method Bsdiff(oldbin: Bytes, newbin: Bytes, dw: Writer)
    returns (ghost segs: seq<Segment>, ghost I: seq<int>, ghost end: nat)
    requires dw.Valid()
    modifies dw
    ensures IsSuffixArray(I, oldbin) && Tiled(oldbin, newbin, segs, |newbin|, end)
    ensures segs == SegmentsOf(oldbin, newbin) && forall i | 0 <= i < |segs| :: SegmentOk(I, oldbin, newbin, segs[i])
    ensures dw.Valid() && dw.State() == ApplyAll(old(dw.State()), CallsOf(oldbin, newbin, segs))
  {
    hide *;
    var iii := new int[|oldbin| + 1];
    QSufSort(iii, oldbin);
    I := iii[..];
    segs := [];
    NoCalls(oldbin, newbin, dw.State());
    ProgressStarts(I, oldbin, newbin);
    var newsize := |newbin|;
    var scan: nat, ln: nat, lastscan: nat, lastpos: nat, lastoffset, pos := 0, 0, 0, 0, 0, 0;
    while scan < newsize
      invariant I == iii[..] && IsSuffixArray(I, oldbin)
      invariant lastscan <= scan <= newsize && lastpos <= |oldbin| && 0 <= pos <= |oldbin|
      invariant lastoffset == lastpos - lastscan
      invariant scan < newsize ==> scan + ln <= newsize
      invariant scan == newsize ==> lastscan == newsize
      invariant Progress(I, oldbin, newbin, segs, scan, ln, pos, lastscan, lastpos)
      invariant dw.Valid() && dw.State() == ApplyAll(old(dw.State()), CallsOf(oldbin, newbin, segs))
      decreases if scan >= newsize then 0 else newsize - scan - ln + 1
    {
      var oldscore;
      ghost var scan0, ln0, pos0 := scan, ln, pos;
      scan, ln, pos, oldscore := FindStop(iii, oldbin, newbin, scan + ln, lastoffset, ln, pos, I);
      ProgressAt(I, oldbin, newbin, segs, scan0, ln0, pos0, lastscan, lastpos, scan, ln, pos, oldscore);
      if ln != oldscore || scan == newsize {
        var lenb;
        ghost var s;
        lenb, s := PutSegment(dw, oldbin, newbin, lastscan, lastpos, scan, pos, I, scan0 + ln0, lastoffset);
        MoreCalls(oldbin, newbin, segs, s, old(dw.State()));
        segs := segs + [s];
        lastscan := scan - lenb;
        lastpos := pos - lenb;
        lastoffset := pos - scan;
      }
    }
    ProgressEnds(I, oldbin, newbin, segs, scan, ln, pos, lastscan, lastpos);
    end := lastpos;
  }
}
