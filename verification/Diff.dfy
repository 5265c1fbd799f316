/** The whole differ: analyses both archives and writes a delta that turns the old one into the new one. */
module Diff {
  import opened Bytes
  import opened DeltaOps
  import opened DeltaWriter
  import opened Options
  import opened Origins
  import opened RollingSum
  import opened Segments
  import opened Matches
  import opened TarModel
  import opened SourceChoice
  import opened DeltaAnalysis
  import opened Generator
  import A = Analysis

  /** The target of new entry `i` describes that entry, and its source is one a reader finds. */
  ghost predicate EntryFits(files: Files, a: DeltaAnalysis, newTar: Tar, i: nat)
  {
    i in a.targets && a.targets[i].source.Some? ==>
      && i < |newTar.entries| && a.targets[i].file.size == |newTar.entries[i].data|
      && SourceFits(files, a, a.targets[i])
  }

  /** Nothing that generating entry `i` reads is missing. */
  ghost predicate EntryReads(files: Files, a: DeltaAnalysis, newTar: Tar, i: nat, maxBsdiffSize: nat)
    requires EntryFits(files, a, newTar, i)
  {
    i in a.targets && a.targets[i].source.Some? ==> TargetReads(a, a.targets[i], maxBsdiffSize)
  }

  /** The delta reproduces entry `i`. */
  ghost predicate EntryRight(files: Files, a: DeltaAnalysis, newTar: Tar, i: nat, maxBsdiffSize: nat)
    requires EntryFits(files, a, newTar, i)
  {
    i in a.targets && a.targets[i].source.Some? ==>
      TargetRight(files, a, a.targets[i], maxBsdiffSize, newTar.entries[i].data)
  }

  /** Interpreted on the files, the delta yields the archive. */
  predicate Yields(files: Files, stream: Bytes, t: Tar)
  {
    var m := Interpret(files, stream);
    m.Some? && m.value.out == TarBytes(t)
  }

  /** Where the bytes of entry `i` come from: without a source its data is sent. */
  ghost function EntryOrigins(files: Files, a: DeltaAnalysis, newTar: Tar, i: nat, maxBsdiffSize: nat): seq<Origin>
    requires EntryFits(files, a, newTar, i) && i < |newTar.entries|
  {
    if i in a.targets && a.targets[i].source.Some? then
      TargetOrigins(files, a, a.targets[i], maxBsdiffSize, newTar.entries[i].data)
    else All(Sent, |newTar.entries[i].data|)
  }

  ghost predicate EntryTiles(files: Files, a: DeltaAnalysis, newTar: Tar, i: nat, maxBsdiffSize: nat)
    requires EntryFits(files, a, newTar, i) && i < |newTar.entries|
  {
    && |EntryOrigins(files, a, newTar, i, maxBsdiffSize)| == |newTar.entries[i].data|
    && (i in a.targets && a.targets[i].source.Some? ==>
          TargetTiles(files, a, a.targets[i], maxBsdiffSize, newTar.entries[i].data))
  }

  /** Where the bytes of the first `n` entries come from: headers and padding are sent. */
  ghost function OriginsTo(files: Files, a: DeltaAnalysis, newTar: Tar, maxBsdiffSize: nat, n: nat): seq<Origin>
    requires n <= |newTar.entries| && forall i: nat :: EntryFits(files, a, newTar, i)
  {
    if n == 0 then []
    else
      var e := newTar.entries[n - 1];
      OriginsTo(files, a, newTar, maxBsdiffSize, n - 1) +
      (All(Sent, |e.header|) + EntryOrigins(files, a, newTar, n - 1, maxBsdiffSize) + All(Sent, |e.padding|))
  }

  /** The delta makes each byte of the archive in this way. */
  ghost predicate MadeOf(files: Files, a: DeltaAnalysis, newTar: Tar, maxBsdiffSize: nat, stream: Bytes)
    requires forall i: nat :: EntryFits(files, a, newTar, i)
  {
    && (forall i | 0 <= i < |newTar.entries| ::
          EntryTiles(files, a, newTar, i, maxBsdiffSize))
    && DecodeAll(stream).Some?
    && OriginsOf(DecodeAll(stream).value)
       == OriginsTo(files, a, newTar, maxBsdiffSize, |newTar.entries|) + All(Sent, |newTar.trailer|)
  }

  /**
   The differ fails exactly if some entry misses extracted data; its delta is right exactly if every entry is, and it
   sends, adds and copies just what the branches of the entries say.
   */
  ghost predicate Verdict(files: Files, a: DeltaAnalysis, newTar: Tar, maxBsdiffSize: nat, r: Option<Bytes>)
  {
    && (forall i: nat :: EntryFits(files, a, newTar, i))
    && (r.Some? <==> forall i: nat :: EntryReads(files, a, newTar, i, maxBsdiffSize))
    && (r.Some? ==>
          && (Yields(files, r.value, newTar) <==> forall i: nat :: EntryRight(files, a, newTar, i, maxBsdiffSize))
          && MadeOf(files, a, newTar, maxBsdiffSize, r.value))
  }

  /** What becomes of the entry whose header was read last. */
  method GenerateEntry(g: DeltaGenerator, i: nat, ghost files: Files, ghost fate: Standing)
    returns (ok: bool, ghost after: Standing)
    requires g.Valid() && FilesFit(files) && g.Synced(files, g.stealing.cursor, fate)
    requires g.next == i + 1 && g.rest == |g.tar.entries[i].data| && EntryFits(files, g.analysis, g.tar, i)
    modifies g`rest, g.stealing, g.dw
    ensures ok <==> EntryReads(files, g.analysis, g.tar, i, g.maxBsdiffSize)
    ensures ok ==>
      && g.Valid() && g.Synced(files, g.stealing.cursor, after)
      && after == After(fate, EntryRight(files, g.analysis, g.tar, i, g.maxBsdiffSize))
      && EntryTiles(files, g.analysis, g.tar, i, g.maxBsdiffSize)
      && Leaves(old(g.dw.State()), g.dw.State(), g.rest,
                EntryOrigins(files, g.analysis, g.tar, i, g.maxBsdiffSize))
  {
    hide Stands, FilesFit, TarBytes, Prefix, TargetReads, TargetRight, SourceFits, Adds, All, TargetOrigins, Leaves;
    ok, after := true, fate;
    ghost var w := g.dw.State();
    LeavesAll(w, g.rest);
    if i in g.analysis.targets && g.analysis.targets[i].source.Some? {
      ok, after := g.GenerateForFile(g.analysis.targets[i], files, fate);
      if ok {
        LeavesNone(w, g.dw.State(), EntryOrigins(files, g.analysis, g.tar, i, g.maxBsdiffSize));
      }
    }
  }

  /** With `rest` more bytes sent, what has been written has these origins. */
  predicate Leaves(before: WriterState, after: WriterState, rest: nat, os: seq<Origin>)
  {
    Made(after) + All(Sent, rest) == Made(before) + os
  }

  lemma LeavesAll(w: WriterState, rest: nat)
    ensures Leaves(w, w, rest, All(Sent, rest))
  {
  }

  lemma LeavesNone(before: WriterState, after: WriterState, os: seq<Origin>)
    requires Adds(before, after, os)
    ensures Leaves(before, after, 0, os)
  {
    hide Made;
    assert All(Sent, 0) == [];
    Regroup(Made(after), [], []);
  }

  /** All of the first `n` entries are written once `rest` more bytes are sent. */
  ghost predicate MadeTo(files: Files, a: DeltaAnalysis, newTar: Tar, maxBsdiffSize: nat, n: nat, w: WriterState,
                         rest: nat)
    requires n <= |newTar.entries| && forall i: nat :: EntryFits(files, a, newTar, i)
  {
    && (forall i | 0 <= i < n :: EntryTiles(files, a, newTar, i, maxBsdiffSize))
    && Made(w) + All(Sent, rest) == OriginsTo(files, a, newTar, maxBsdiffSize, n)
  }

  lemma MadeNone(files: Files, a: DeltaAnalysis, newTar: Tar, maxBsdiffSize: nat)
    requires forall i: nat :: EntryFits(files, a, newTar, i)
    ensures MadeTo(files, a, newTar, maxBsdiffSize, 0, FRESH, 0) && Prefix(newTar.entries, 0) == []
  {
  }

  lemma MadeOne(files: Files, a: DeltaAnalysis, newTar: Tar, maxBsdiffSize: nat, n: nat, w0: WriterState,
                w1: WriterState, w2: WriterState, rest0: nat, rest2: nat)
    requires n < |newTar.entries| && forall i: nat :: EntryFits(files, a, newTar, i)
    requires MadeTo(files, a, newTar, maxBsdiffSize, n, w0, rest0)
    requires Adds(w0, w1, All(Sent, rest0 + |newTar.entries[n].header|))
    requires EntryTiles(files, a, newTar, n, maxBsdiffSize)
    requires Leaves(w1, w2, rest2, EntryOrigins(files, a, newTar, n, maxBsdiffSize))
    ensures MadeTo(files, a, newTar, maxBsdiffSize, n + 1, w2, rest2 + |newTar.entries[n].padding|)
  {
    hide Made, All, EntryOrigins, EntryTiles;
    var e, os := newTar.entries[n], EntryOrigins(files, a, newTar, n, maxBsdiffSize);
    var h, p := All(Sent, |e.header|), All(Sent, |e.padding|);
    AllMore(Sent, rest0, |e.header|);
    AllMore(Sent, rest2, |e.padding|);
    var before := OriginsTo(files, a, newTar, maxBsdiffSize, n);
    calc {
      Made(w2) + All(Sent, rest2 + |e.padding|);
      { Regroup(Made(w2), All(Sent, rest2), p); }
      Made(w1) + os + p;
      Made(w0) + (All(Sent, rest0) + h) + os + p;
      { Regroup(Made(w0), All(Sent, rest0), h); }
      before + h + os + p;
      { Regroup(before, h, os);
        Regroup(before, h + os, p); }
      before + (h + os + p);
    }
  }

  /** All entries are written, and so is the trailer once `rest` more bytes are sent. */
  ghost predicate MadeEnd(files: Files, a: DeltaAnalysis, newTar: Tar, maxBsdiffSize: nat, w: WriterState, rest: nat)
    requires forall i: nat :: EntryFits(files, a, newTar, i)
  {
    && (forall i | 0 <= i < |newTar.entries| ::
          EntryTiles(files, a, newTar, i, maxBsdiffSize))
    && Made(w) + All(Sent, rest)
       == OriginsTo(files, a, newTar, maxBsdiffSize, |newTar.entries|) + All(Sent, |newTar.trailer|)
  }

  lemma MadeAll(files: Files, a: DeltaAnalysis, newTar: Tar, maxBsdiffSize: nat, w0: WriterState, w1: WriterState,
                rest: nat, at: nat, cursor: nat)
    requires forall i: nat :: EntryFits(files, a, newTar, i)
    requires MadeTo(files, a, newTar, maxBsdiffSize, |newTar.entries|, w0, rest)
    requires at <= cursor <= |TarBytes(newTar)| && at + rest == |Prefix(newTar.entries, |newTar.entries|)|
    requires Adds(w0, w1, All(Sent, cursor - at))
    ensures MadeEnd(files, a, newTar, maxBsdiffSize, w1, |TarBytes(newTar)| - cursor)
  {
    hide Made, All, EntryOrigins, EntryTiles, OriginsTo;
    var n := |TarBytes(newTar)| - cursor;
    Regroup(Made(w0), All(Sent, cursor - at), All(Sent, n));
    AllMore(Sent, cursor - at, n);
    Regroup(Made(w0), All(Sent, rest), All(Sent, |newTar.trailer|));
    AllMore(Sent, rest, |newTar.trailer|);
  }

  /** Steals what is left of the archive and flushes. */
  method Finish(g: DeltaGenerator, ghost files: Files, ghost fate: Standing) returns (stream: Bytes)
    requires g.stealing.stealer == g.dw && g.stealing.source == TarBytes(g.tar) && g.dw.Valid() && FilesFit(files)
    requires g.stealing.cursor <= |g.stealing.source| && !g.stealing.ignore
    requires g.Synced(files, g.stealing.cursor, fate)
    modifies g.stealing`cursor, g.dw
    ensures fate == Fine ==> Yields(files, stream, g.tar)
    ensures fate == Wrong ==> !Yields(files, stream, g.tar)
    ensures DecodeAll(stream).Some?
    ensures OriginsOf(DecodeAll(stream).value)
         == old(Made(g.dw.State())) + All(Sent, |g.stealing.source| - old(g.stealing.cursor))
  {
    hide Stands, FilesFit, TarBytes, Yields, EncodeAll, Made, All, DecodeAll, OriginsOf;
    var _ := g.Pull(|g.stealing.source| - g.stealing.cursor, files, fate);
    Finished(files, g.dw.State(), g.tar, fate);
    FlushAdds(g.dw.State());
    StreamRoundTrip(Flushed(g.dw.State()).ops);
    g.dw.FlushBuffer();
    stream := g.dw.stream;
  }

  ghost predicate AllRead(files: Files, a: DeltaAnalysis, newTar: Tar, maxBsdiffSize: nat, n: nat)
    requires forall i: nat :: EntryFits(files, a, newTar, i)
  {
    forall i: nat :: i < n ==> EntryReads(files, a, newTar, i, maxBsdiffSize)
  }

  ghost predicate AllRight(files: Files, a: DeltaAnalysis, newTar: Tar, maxBsdiffSize: nat, n: nat)
    requires forall i: nat :: EntryFits(files, a, newTar, i)
  {
    forall i: nat :: i < n ==> EntryRight(files, a, newTar, i, maxBsdiffSize)
  }

  /** The first `n` entries have been read and stand as said. */
  ghost predicate Judging(files: Files, a: DeltaAnalysis, newTar: Tar, maxBsdiffSize: nat, n: nat, fate: Standing)
    requires forall i: nat :: EntryFits(files, a, newTar, i)
  {
    && AllRead(files, a, newTar, maxBsdiffSize, n)
    && (fate == Fine <==> AllRight(files, a, newTar, maxBsdiffSize, n))
  }

  /** The generator has written them, up to where it stands in the last one. */
  ghost predicate Underway(g: DeltaGenerator, files: Files, n: nat, fate: Standing)
    requires forall i: nat :: EntryFits(files, g.analysis, g.tar, i)
    reads g, g.stealing, g.dw
  {
    && g.Valid() && g.next == n && g.Synced(files, g.stealing.cursor, fate)
    && g.stealing.cursor <= |Prefix(g.tar.entries, n)|
    && MadeTo(files, g.analysis, g.tar, g.maxBsdiffSize, n, g.dw.State(),
              |Prefix(g.tar.entries, n)| - g.stealing.cursor)
  }

  /** The next entry, if there is one. */
  method GenerateNext(g: DeltaGenerator, index: nat, ghost files: Files, ghost fate: Standing)
    returns (more: bool, ok: bool, ghost after: Standing)
    requires FilesFit(files) && (forall i: nat :: EntryFits(files, g.analysis, g.tar, i))
    requires Underway(g, files, index, fate)
    modifies g`next, g`rest, g.stealing, g.dw
    ensures more ==> index < |g.tar.entries| && (ok <==> EntryReads(files, g.analysis, g.tar, index, g.maxBsdiffSize))
    ensures more && ok ==>
      && Underway(g, files, index + 1, after)
      && after == After(fate, EntryRight(files, g.analysis, g.tar, index, g.maxBsdiffSize))
    ensures !more ==>
      && index == |g.tar.entries| && after == fate && !g.stealing.ignore && g.dw.Valid()
      && g.stealing.cursor <= |g.stealing.source| && g.stealing.source == TarBytes(g.tar)
      && g.stealing.stealer == g.dw
      && g.Synced(files, g.stealing.cursor, fate)
      && MadeEnd(files, g.analysis, g.tar, g.maxBsdiffSize, g.dw.State(), |g.stealing.source| - g.stealing.cursor)
  {
    hide Stands, FilesFit, TarBytes, EntryReads, EntryRight, EntryFits, EntryOrigins, EntryTiles, MadeTo, MadeEnd,
         Made, Adds, Leaves, All, Prefix, EntryBytes;
    g.SetSkip(false);
    ghost var w0, at := g.dw.State(), g.stealing.cursor;
    ghost var rest0 := |Prefix(g.tar.entries, index)| - at;
    more := g.Next(files, fate);
    ok, after := true, fate;
    if !more {
      MadeAll(files, g.analysis, g.tar, g.maxBsdiffSize, w0, g.dw.State(), rest0, at, g.stealing.cursor);
      return;
    }
    EntryRange(g.tar, index);
    ghost var w1 := g.dw.State();
    ok, after := GenerateEntry(g, index, files, fate);
    if ok {
      MadeOne(files, g.analysis, g.tar, g.maxBsdiffSize, index, w0, w1, g.dw.State(), rest0, g.rest);
    }
  }

  /** Reads the new archive once and writes the delta. */
  method GenerateDelta(newTar: Tar, a: DeltaAnalysis, maxBsdiffSize: nat, ghost files: Files)
    returns (r: Option<Bytes>)
    requires FilesFit(files) && forall i: nat :: EntryFits(files, a, newTar, i)
    ensures Verdict(files, a, newTar, maxBsdiffSize, r)
  {
    hide *;
    StartsRight(files, a, newTar, maxBsdiffSize);
    var dw := new Writer();
    var stealing := new StealerReader(TarBytes(newTar), dw);
    var g := new DeltaGenerator(newTar, dw, stealing, a, maxBsdiffSize);
    var index := 0;
    ghost var fate := Fine;
    StartsUnderway(g, files);
    while true
      invariant Underway(g, files, index, fate) && Judging(files, a, newTar, maxBsdiffSize, index, fate)
      invariant index <= |newTar.entries| && fresh(dw) && fresh(stealing) && fresh(g)
      decreases |newTar.entries| - index
    {
      var more, ok;
      ghost var before := fate;
      more, ok, fate := GenerateNext(g, index, files, fate);
      if !more {
        break;
      }
      if !ok {
        NoneJudged(files, a, newTar, maxBsdiffSize, index);
        return None;
      }
      OneMore(files, a, newTar, maxBsdiffSize, index, before, fate);
      index := index + 1;
    }
    ghost var w, rest := g.dw.State(), |g.stealing.source| - g.stealing.cursor;
    var stream := Finish(g, files, fate);
    r := Some(stream);
    MadeIs(files, a, newTar, maxBsdiffSize, w, rest, stream);
    Judged(files, a, newTar, maxBsdiffSize, stream, fate);
  }

  lemma StartsUnderway(g: DeltaGenerator, files: Files)
    requires forall i: nat :: EntryFits(files, g.analysis, g.tar, i)
    requires g.Valid() && g.next == 0 && g.stealing.cursor == 0 && g.dw.State() == FRESH
    ensures Underway(g, files, 0, Fine)
  {
    hide EntryFits, MadeTo, EntryBytes, TarBytes, Stands;
    Fresh(files, g.stealing.source);
    MadeNone(files, g.analysis, g.tar, g.maxBsdiffSize);
  }

  lemma MadeIs(files: Files, a: DeltaAnalysis, newTar: Tar, maxBsdiffSize: nat, w: WriterState, rest: nat,
               stream: Bytes)
    requires forall i: nat :: EntryFits(files, a, newTar, i)
    requires MadeEnd(files, a, newTar, maxBsdiffSize, w, rest)
    requires DecodeAll(stream).Some? && OriginsOf(DecodeAll(stream).value) == Made(w) + All(Sent, rest)
    ensures MadeOf(files, a, newTar, maxBsdiffSize, stream)
  {
  }

  lemma NoneJudged(files: Files, a: DeltaAnalysis, newTar: Tar, maxBsdiffSize: nat, index: nat)
    requires forall i: nat :: EntryFits(files, a, newTar, i)
    requires !EntryReads(files, a, newTar, index, maxBsdiffSize)
    ensures Verdict(files, a, newTar, maxBsdiffSize, None)
  {
  }

  lemma StartsRight(files: Files, a: DeltaAnalysis, newTar: Tar, maxBsdiffSize: nat)
    requires forall i: nat :: EntryFits(files, a, newTar, i)
    ensures Judging(files, a, newTar, maxBsdiffSize, 0, Fine)
  {
  }

  lemma OneMore(files: Files, a: DeltaAnalysis, newTar: Tar, maxBsdiffSize: nat, index: nat, fate: Standing,
                after: Standing)
    requires forall i: nat :: EntryFits(files, a, newTar, i)
    requires Judging(files, a, newTar, maxBsdiffSize, index, fate)
    requires EntryReads(files, a, newTar, index, maxBsdiffSize)
    requires after == After(fate, EntryRight(files, a, newTar, index, maxBsdiffSize))
    ensures Judging(files, a, newTar, maxBsdiffSize, index + 1, after)
  {
    hide EntryReads, EntryRight, EntryFits;
  }

  lemma Judged(files: Files, a: DeltaAnalysis, newTar: Tar, maxBsdiffSize: nat, stream: Bytes, fate: Standing)
    requires forall i: nat :: EntryFits(files, a, newTar, i)
    requires Judging(files, a, newTar, maxBsdiffSize, |newTar.entries|, fate)
    requires fate == Fine ==> Yields(files, stream, newTar)
    requires fate == Wrong ==> !Yields(files, stream, newTar)
    requires MadeOf(files, a, newTar, maxBsdiffSize, stream)
    ensures Verdict(files, a, newTar, maxBsdiffSize, Some(stream))
  {
    hide EntryReads, EntryRight, EntryFits, Yields, MadeOf;
    forall i: nat
      ensures i >= |newTar.entries| ==> EntryReads(files, a, newTar, i, maxBsdiffSize)
      ensures i >= |newTar.entries| ==> EntryRight(files, a, newTar, i, maxBsdiffSize)
    {
      BeyondEnd(files, a, newTar, i, maxBsdiffSize);
    }
  }

  lemma BeyondEnd(files: Files, a: DeltaAnalysis, newTar: Tar, i: nat, maxBsdiffSize: nat)
    requires EntryFits(files, a, newTar, i)
    ensures i >= |newTar.entries| ==> EntryReads(files, a, newTar, i, maxBsdiffSize)
    ensures i >= |newTar.entries| ==> EntryRight(files, a, newTar, i, maxBsdiffSize)
  {
  }

  lemma Fresh(files: Files, source: Bytes)
    ensures Stands(files, FRESH, source, 0, Fine)
  {
  }

  lemma Finished(files: Files, w: WriterState, t: Tar, fate: Standing)
    requires Stands(files, w, TarBytes(t), |TarBytes(t)|, fate)
    ensures fate == Fine ==> Yields(files, EncodeAll(Flushed(w).ops), t)
    ensures fate == Wrong ==> !Yields(files, EncodeAll(Flushed(w).ops), t)
  {
    FlushMeans(files, w);
    StreamRoundTrip(Flushed(w).ops);
    assert TarBytes(t)[..|TarBytes(t)|] == TarBytes(t);
  }

  // ----- From the analysis to the generator

  /** The new file's branch reads its source, and the source's path comes up again later in the old archive. */
  predicate ReadsOverwritten(olds: seq<TarFileInfo>, f: TarFileInfo, maxBsdiffSize: nat)
  {
    var t := TargetOf(olds, f);
    && t.source.Some? && olds[t.source.value].overwritten
    && BranchOf(olds[t.source.value], t, maxBsdiffSize) != Literal
  }

  ghost predicate NoOverwrittenRead(olds: seq<TarFileInfo>, news: seq<TarFileInfo>, maxBsdiffSize: nat)
  {
    forall k :: 0 <= k < |news| ==> !ReadsOverwritten(olds, news[k], maxBsdiffSize)
  }

  /** Equal digests and sizes of an old and a new file mean equal content. */
  ghost predicate DigestsTell(oldTar: Tar, newTar: Tar, sha: Bytes -> A.Digest)
  {
    forall i, j | 0 <= i < |oldTar.entries| && 0 <= j < |newTar.entries| ::
      var x, y := oldTar.entries[i].data, newTar.entries[j].data;
      sha(x) == sha(y) && |x| == |y| ==> x == y
  }

  /** A reader of the archive, whose last entry of a path wins, is one such map of files. */
  lemma LastContents(t: Tar)
    requires WellFormed(t)
    ensures FilesFit(FilesOf(t.entries)) && Finds(FilesOf(t.entries), t.entries)
  {
    FilesOfFinds(t);
    FilesFromEntries(t.entries);
  }

  lemma InfoSizes(t: Tar, files: seq<TarFileInfo>, sha: Bytes -> A.Digest, crc: Bytes -> nat)
    requires WellFormed(t) && A.FilesOk(t.entries, |t.entries|, files, sha, crc)
    ensures Sizes(t, files)
    ensures forall k | 0 <= k < |files| :: BlobsIncrease(files[k].blobs)
  {
    hide BlobsOf, A.BaseName;
    forall k | 0 <= k < |files|
      ensures files[k].index < |t.entries|
      ensures files[k].size == t.entries[files[k].index].size == |t.entries[files[k].index].data|
      ensures BlobsIncrease(files[k].blobs)
    {
      assert A.Describes(t.entries, |t.entries|, files[k], sha, crc);
      BlobsOfIncrease(t.entries[files[k].index].data, crc);
    }
  }

  lemma IndexesGrow(t: Tar, files: seq<TarFileInfo>, sha: Bytes -> A.Digest, crc: Bytes -> nat)
    requires A.FilesOk(t.entries, |t.entries|, files, sha, crc)
    ensures forall k, l :: 0 <= k < l < |files| ==> files[k].index < files[l].index
  {
    hide BlobsOf, A.BaseName;
  }

  lemma BlobsOfIncrease(data: Bytes, crc: Bytes -> nat)
    requires data != []
    ensures BlobsIncrease(BlobsOf(data, 0, crc))
  {
    hide BlobsOf;
    BlobsTile(data, 0, crc);
    var bs := BlobsOf(data, 0, crc);
    forall i, j | 0 <= i < j < |bs|
      ensures bs[i].offset < bs[j].offset
    {
      assert RollingSum.Describes(bs[i], data, 0, crc);
      ConsecutiveBefore(bs, i, j);
    }
  }

  /** What the analysis says about the target of entry `i` and its source. */
  lemma TargetFacts(oldTar: Tar, olds: seq<TarFileInfo>, news: seq<TarFileInfo>, a: DeltaAnalysis, i: nat)
    returns (n: nat)
    requires AnalysisOk(oldTar, olds, news, a) && i in a.targets && a.targets[i].source.Some?
    ensures n < |news| && news[n] == a.targets[i].file && news[n].index == i
    ensures a.targets[i] == TargetOf(olds, news[n])
    ensures
      var (j, used) := Choose(olds, news[n]);
      && j == a.targets[i].source && j.value < |olds| == |a.sources|
      && a.sources[j.value].file == olds[j.value]
      && (used && !olds[j.value].overwritten ==> Extracted(oldTar, olds[j.value], a.sources[j.value], a.sourceData))
      && (olds[j.value].overwritten ==> used && a.sources[j.value].offset == 0)
      && (!used ==> SameContent(olds[j.value], news[n]))
  {
    hide Choose, MatchesOf, Extracted, Extract;
    n :| 0 <= n < |news| && news[n] == a.targets[i].file;
    if Choose(olds, news[n]).1 {
      assert Needed(olds, news, |news|, Choose(olds, news[n]).0.value);
    }
  }

  /** What a file's description says about its entry. */
  lemma EntryFacts(t: Tar, files: seq<TarFileInfo>, k: nat, sha: Bytes -> A.Digest, crc: Bytes -> nat)
    returns (data: Bytes)
    requires WellFormed(t) && A.FilesOk(t.entries, |t.entries|, files, sha, crc) && k < |files|
    ensures
      var f := files[k];
      && f.index < |t.entries| && data == t.entries[f.index].data
      && f.size == |data| < WORD && f.sha1 == sha(data) && f.blobs == BlobsOf(data, 0, crc)
  {
    hide BlobsOf, A.BaseName;
    assert A.Describes(t.entries, |t.entries|, files[k], sha, crc);
    data := t.entries[files[k].index].data;
  }

  /** A described file is found by its path, with its content if it is not overwritten. */
  lemma FileFound(found: Files, t: Tar, files: seq<TarFileInfo>, k: nat, sha: Bytes -> A.Digest, crc: Bytes -> nat)
    requires Finds(found, t.entries) && A.FilesOk(t.entries, |t.entries|, files, sha, crc) && k < |files|
    ensures files[k].index < |t.entries| && files[k].path in found
    ensures !files[k].overwritten ==> found[files[k].path] == t.entries[files[k].index].data
  {
    hide BlobsOf, A.BaseName;
    assert A.Describes(t.entries, |t.entries|, files[k], sha, crc);
  }

  lemma EntriesFit(oldTar: Tar, newTar: Tar, files: Files, olds: seq<TarFileInfo>, news: seq<TarFileInfo>,
                   a: DeltaAnalysis, sha: Bytes -> A.Digest, crc: Bytes -> nat, i: nat)
    requires WellFormed(oldTar) && WellFormed(newTar) && Finds(files, oldTar.entries)
    requires A.FilesOk(oldTar.entries, |oldTar.entries|, olds, sha, crc)
    requires A.FilesOk(newTar.entries, |newTar.entries|, news, sha, crc)
    requires AnalysisOk(oldTar, olds, news, a)
    ensures EntryFits(files, a, newTar, i)
  {
    hide Choose, BlobsOf, MatchesOf, InOrder, AnalysisOk, A.FilesOk, WellFormed;
    if i in a.targets && a.targets[i].source.Some? {
      var n := TargetFacts(oldTar, olds, news, a, i);
      var x := EntryFacts(oldTar, olds, a.targets[i].source.value, sha, crc);
      var y := EntryFacts(newTar, news, n, sha, crc);
      FileFound(files, oldTar, olds, a.targets[i].source.value, sha, crc);
      BlobMatchesInOrder(x, y, crc);
    }
  }

  /** Where no overwritten source is read, entry `i` misses nothing and is reproduced. */
  lemma KeptIsRight(oldTar: Tar, newTar: Tar, files: Files, olds: seq<TarFileInfo>, news: seq<TarFileInfo>,
                    a: DeltaAnalysis, maxBsdiffSize: nat, sha: Bytes -> A.Digest, crc: Bytes -> nat, i: nat)
    requires WellFormed(oldTar) && WellFormed(newTar) && DigestsTell(oldTar, newTar, sha)
    requires Finds(files, oldTar.entries)
    requires A.FilesOk(oldTar.entries, |oldTar.entries|, olds, sha, crc)
    requires A.FilesOk(newTar.entries, |newTar.entries|, news, sha, crc)
    requires AnalysisOk(oldTar, olds, news, a)
    requires i in a.targets ==> !ReadsOverwritten(olds, a.targets[i].file, maxBsdiffSize)
    ensures EntryFits(files, a, newTar, i)
    ensures EntryReads(files, a, newTar, i, maxBsdiffSize)
    ensures EntryRight(files, a, newTar, i, maxBsdiffSize)
  {
    hide Choose, BlobsOf, MatchesOf, AnalysisOk, A.FilesOk, WellFormed, InRange, ReadAt, TargetOf;
    EntriesFit(oldTar, newTar, files, olds, news, a, sha, crc, i);
    if i in a.targets && a.targets[i].source.Some? {
      var n := TargetFacts(oldTar, olds, news, a, i);
      var t := a.targets[i];
      var s := a.sources[t.source.value];
      if !s.file.overwritten {
        var x := EntryFacts(oldTar, olds, t.source.value, sha, crc);
        var y := EntryFacts(newTar, news, n, sha, crc);
        FileFound(files, oldTar, olds, t.source.value, sha, crc);
        if !SameContent(s.file, t.file) {
          ExtractedReads(oldTar, a, s, x);
          MatchesHold(a, t, s, x, y);
          OwnAgrees(x, y, SegmentsOf(x, y));
        }
      }
    }
  }

  /** The range of an extracted file holds all its parts. */
  lemma ExtractedReads(oldTar: Tar, a: DeltaAnalysis, s: SourceInfo, data: Bytes)
    requires Extracted(oldTar, s.file, s, a.sourceData) && data == oldTar.entries[s.file.index].data
    requires s.file.size == |data|
    ensures InRange(a, s, 0, s.file.size) && ReadAt(a, s, 0, s.file.size) == data
    ensures forall offset: nat, size: nat | offset + size <= |data| ::
              InRange(a, s, offset, size) && ReadAt(a, s, offset, size) == data[offset..offset + size]
  {
    forall offset: nat, size: nat | offset + size <= |data|
      ensures InRange(a, s, offset, size) && ReadAt(a, s, offset, size) == data[offset..offset + size]
    {
      SliceOfSlice(a.sourceData, s.offset, |data|, offset, size);
    }
    assert data[0..|data|] == data;
  }

  lemma MatchesHold(a: DeltaAnalysis, t: TargetInfo, s: SourceInfo, x: Bytes, y: Bytes)
    requires t.matches.Some? ==> InOrder(t.matches.value.matches, |x|, |y|)
    requires forall offset: nat, size: nat | offset + size <= |x| ::
               InRange(a, s, offset, size) && ReadAt(a, s, offset, size) == x[offset..offset + size]
    ensures t.matches.Some? ==>
      forall k :: 0 <= k < |t.matches.value.matches| ==>
        var m := t.matches.value.matches[k];
        && m.target.offset + m.target.size <= |y|
        && InRange(a, s, m.source.offset, m.source.size) && MatchRight(x, a, s, m, Part(y, m))
  {
    hide InRange, ReadAt;
  }

  /**
   Nothing is extracted of an overwritten source, and its recorded place is 0: what is read of it is whatever else was
   extracted.  bsdiff fails on it exactly if that is shorter than the source, and matching if it ends before a match.
   Reusing it is right exactly if the last content under its path starts with the new bytes.
   */
  lemma OverwrittenVerdict(oldTar: Tar, newTar: Tar, files: Files, olds: seq<TarFileInfo>, news: seq<TarFileInfo>,
                           a: DeltaAnalysis, maxBsdiffSize: nat, i: nat)
    requires AnalysisOk(oldTar, olds, news, a) && EntryFits(files, a, newTar, i)
    requires i in a.targets && a.targets[i].source.Some? && a.sources[a.targets[i].source.value].file.overwritten
    ensures a.sourceData == Extract(oldTar.entries, olds, news, |oldTar.entries|)
    ensures
      var have := |Extract(oldTar.entries, olds, news, |oldTar.entries|)|;
      var s, t := a.sources[a.targets[i].source.value].file, a.targets[i];
      EntryReads(files, a, newTar, i, maxBsdiffSize) <==>
        match BranchOf(s, t, maxBsdiffSize)
        case Difference => s.size <= have
        case Matched =>
          var ms := t.matches.value.matches;
          forall k :: 0 <= k < |ms| ==> Covers(have, ms[k].source.offset, ms[k].source.size)
        case _ => true
    ensures
      var s := a.sources[a.targets[i].source.value].file;
      BranchOf(s, a.targets[i], maxBsdiffSize) == Reuse ==>
        (EntryRight(files, a, newTar, i, maxBsdiffSize) <==>
          newTar.entries[i].data <= files[s.path])
  {
    hide Extract, Choose, MatchesOf, InOrder;
    var n := TargetFacts(oldTar, olds, news, a, i);
  }

  lemma TargetsAreNew(oldTar: Tar, olds: seq<TarFileInfo>, news: seq<TarFileInfo>, a: DeltaAnalysis, i: nat)
    requires AnalysisOk(oldTar, olds, news, a) && i in a.targets
    ensures a.targets[i].file in news && a.targets[i].file.index == i
  {
  }

  // ----- The differ

  /** For given descriptions of both archives. */
  method DiffAnalyzed(oldTar: Tar, newTar: Tar, olds: seq<TarFileInfo>, news: seq<TarFileInfo>, maxBsdiffSize: nat,
                      ghost sha: Bytes -> A.Digest, ghost crc: Bytes -> nat, ghost files: Files)
    returns (r: Option<Bytes>, ghost a: DeltaAnalysis)
    requires WellFormed(oldTar) && WellFormed(newTar) && DigestsTell(oldTar, newTar, sha)
    requires FilesFit(files) && Finds(files, oldTar.entries)
    requires A.FilesOk(oldTar.entries, |oldTar.entries|, olds, sha, crc)
    requires A.FilesOk(newTar.entries, |newTar.entries|, news, sha, crc)
    ensures AnalysisOk(oldTar, olds, news, a)
    ensures Verdict(files, a, newTar, maxBsdiffSize, r)
    ensures NoOverwrittenRead(olds, news, maxBsdiffSize) ==> r.Some? && Yields(files, r.value, newTar)
  {
    hide AnalysisOk, EntryFits, EntryReads, EntryRight, Sizes, DigestsTell, WellFormed, Finds, Yields,
         A.FilesOk, ReadsOverwritten;
    InfoSizes(oldTar, olds, sha, crc);
    InfoSizes(newTar, news, sha, crc);
    IndexesGrow(newTar, news, sha, crc);
    var analysis := AnalyzeForDelta(olds, news, oldTar);
    a := analysis;
    forall i: nat
      ensures EntryFits(files, a, newTar, i)
    {
      EntriesFit(oldTar, newTar, files, olds, news, a, sha, crc, i);
    }
    r := GenerateDelta(newTar, analysis, maxBsdiffSize, files);
    if NoOverwrittenRead(olds, news, maxBsdiffSize) {
      forall i: nat
        ensures EntryReads(files, a, newTar, i, maxBsdiffSize)
        ensures EntryRight(files, a, newTar, i, maxBsdiffSize)
      {
        if i in a.targets {
          TargetsAreNew(oldTar, olds, news, a, i);
        }
        KeptIsRight(oldTar, newTar, files, olds, news, a, maxBsdiffSize, sha, crc, i);
      }
    }
  }

  lemma NothingOverwritten(t: Tar, files: seq<TarFileInfo>, news: seq<TarFileInfo>, maxBsdiffSize: nat,
                           sha: Bytes -> A.Digest, crc: Bytes -> nat)
    requires NoPathTwice(t.entries) && A.FilesOk(t.entries, |t.entries|, files, sha, crc)
    ensures NoOverwrittenRead(files, news, maxBsdiffSize)
  {
    hide BlobsOf, A.BaseName, UseTarFile, BranchOf;
    forall k | 0 <= k < |files|
      ensures !files[k].overwritten
    {
      assert A.Describes(t.entries, |t.entries|, files[k], sha, crc);
    }
  }

  /**
   Any two archives, and any files in which a reader finds the old one's.  The delta rebuilds the new one, headers,
   data, padding and trailer, if no branch reads a source whose path is repeated, in particular if no path is.  In every
   case the verdict says whether there is a delta and whether it is right.
   */
  method Diff(oldTar: Tar, newTar: Tar, maxBsdiffSize: nat, sha: Bytes -> A.Digest, crc: Bytes -> nat,
              ghost files: Files)
    returns (r: Option<Bytes>, ghost olds: seq<TarFileInfo>, ghost news: seq<TarFileInfo>, ghost a: DeltaAnalysis)
    requires WellFormed(oldTar) && WellFormed(newTar) && DigestsTell(oldTar, newTar, sha)
    requires FilesFit(files) && Finds(files, oldTar.entries)
    ensures A.FilesOk(oldTar.entries, |oldTar.entries|, olds, sha, crc)
    ensures A.FilesOk(newTar.entries, |newTar.entries|, news, sha, crc)
    ensures AnalysisOk(oldTar, olds, news, a) && Verdict(files, a, newTar, maxBsdiffSize, r)
    ensures NoPathTwice(oldTar.entries) ==> r.Some? && Yields(files, r.value, newTar)
    ensures NoOverwrittenRead(olds, news, maxBsdiffSize) ==>
              r.Some? && Yields(files, r.value, newTar)
  {
    hide A.FilesOk, AnalysisOk, DigestsTell, WellFormed, NoOverwrittenRead, Finds, Yields, Verdict;
    var oldInfo := A.AnalyzeTar(oldTar, sha, crc);
    var newInfo := A.AnalyzeTar(newTar, sha, crc);
    olds, news := oldInfo, newInfo;
    if NoPathTwice(oldTar.entries) {
      NothingOverwritten(oldTar, olds, news, maxBsdiffSize, sha, crc);
    }
    r, a := DiffAnalyzed(oldTar, newTar, oldInfo, newInfo, maxBsdiffSize, sha, crc, files);
  }

  // ----- Why repeated paths matter

  const A_X: Path := [97, 47, 120]
  const B_X: Path := [98, 47, 120]

  function FileEntry(path: Path, data: Bytes): Entry
  {
    Entry([], path, true, false, 4, |data|, data, [])
  }

  /** A search for a file moved from "a/x" picks the old file there although something else comes at "a/x" later. */
  lemma OverwrittenSourceChosen(data: Bytes, later: Entry, moved: Bytes, olds: seq<TarFileInfo>, news: seq<TarFileInfo>,
                                sha: Bytes -> A.Digest, crc: Bytes -> nat)
    requires 0 < |data| == |moved| < 1024 && later.path == A_X
    requires later.size < 1024 && later.size != |moved|
    requires A.FilesOk([FileEntry(A_X, data), later], 2, olds, sha, crc)
    requires A.FilesOk([FileEntry(B_X, moved)], 1, news, sha, crc)
    ensures |news| == 1 && |olds| > 0 && olds[0].overwritten && Choose(olds, news[0]) == (Some(0), true)
    ensures A.Describes([FileEntry(A_X, data), later], 2, olds[0], sha, crc) && olds[0].index == 0
    ensures A.Describes([FileEntry(B_X, moved)], 1, news[0], sha, crc) && news[0].index == 0
    ensures forall k :: 0 < k < |olds| ==> olds[k].index == 1
  {
    hide BlobsOf, A.BaseName, LastKept, Closest, Stem;
    OldDescribed([FileEntry(A_X, data), later], olds, sha, crc);
    OldDescribed([FileEntry(B_X, moved)], news, sha, crc);
    assert [FileEntry(A_X, data), later][1].path == A_X;
    BaseNames();
    var exact, place := LastKept(olds, Content(news[0].sha1)), LastKept(olds, Place(B_X));
    assert |olds| > 1 ==> A.Describes([FileEntry(A_X, data), later], 2, olds[1], sha, crc);
    MovedIsClosest(olds, news[0]);
  }

  /** The only target of a single new file. */
  lemma OnlyTarget(oldTar: Tar, olds: seq<TarFileInfo>, news: seq<TarFileInfo>, a: DeltaAnalysis, i: nat)
    requires AnalysisOk(oldTar, olds, news, a) && |news| == 1 && news[0].index == 0
    requires |olds| > 0 && olds[0].overwritten && Choose(olds, news[0]) == (Some(0), true)
    ensures i in a.targets <==> i == 0
    ensures a.targets[0] == TargetOf(olds, news[0]) && a.targets[0].source == Some(0)
    ensures a.sources[0].file == olds[0] && a.sources[0].offset == 0
  {
    hide Choose, Extract, MatchesOf;
    if i in a.targets {
      TargetsAreNew(oldTar, olds, news, a, i);
    }
    TargetsAreNew(oldTar, olds, news, a, 0);
  }

  const TWICE := Tar([FileEntry(A_X, [1, 1]), FileEntry(A_X, [7, 7, 7])], [])
  const MOVED := Tar([FileEntry(B_X, [1, 1])], [])

  /**
   The old archive has [1, 1] at "a/x" and later [7, 7, 7]; the new one has [1, 1] at "b/x".  Whatever else the differ
   does, it succeeds and its delta is wrong: the overwritten file has the right digest, but the path now leads to
   something else.
   */
  lemma SilentlyWrong(files: Files, olds: seq<TarFileInfo>, news: seq<TarFileInfo>, a: DeltaAnalysis, r: Option<Bytes>,
                      sha: Bytes -> A.Digest, crc: Bytes -> nat)
    requires Finds(files, TWICE.entries)
    requires A.FilesOk(TWICE.entries, 2, olds, sha, crc) && A.FilesOk(MOVED.entries, 1, news, sha, crc)
    requires AnalysisOk(TWICE, olds, news, a) && Verdict(files, a, MOVED, 0, r)
    ensures WellFormed(TWICE) && WellFormed(MOVED) && DigestsTell(TWICE, MOVED, sha)
    ensures r.Some? && !Yields(files, r.value, MOVED)
  {
    hide A.FilesOk, AnalysisOk, Yields, Choose, BlobsOf, Extract, MatchesOf, TargetOf, EntryReads, EntryRight, Finds;
    ReuseGoesWrong(files, olds, news, a, sha, crc);
  }

  lemma ReuseGoesWrong(files: Files, olds: seq<TarFileInfo>, news: seq<TarFileInfo>, a: DeltaAnalysis,
                       sha: Bytes -> A.Digest, crc: Bytes -> nat)
    requires Finds(files, TWICE.entries)
    requires A.FilesOk(TWICE.entries, 2, olds, sha, crc) && A.FilesOk(MOVED.entries, 1, news, sha, crc)
    requires AnalysisOk(TWICE, olds, news, a) && forall i: nat :: EntryFits(files, a, MOVED, i)
    ensures forall i: nat :: EntryReads(files, a, MOVED, i, 0)
    ensures !EntryRight(files, a, MOVED, 0, 0)
  {
    OverwrittenSourceChosen([1, 1], FileEntry(A_X, [7, 7, 7]), [1, 1], olds, news, sha, crc);
    hide AnalysisOk, Choose, BlobsOf, A.FilesOk, MatchesOf, A.BaseName;
    forall i: nat
      ensures i in a.targets <==> i == 0
      ensures a.targets[0].source == Some(0) && a.sources[0].file == olds[0] && a.targets[0].file == news[0]
    {
      OnlyTarget(TWICE, olds, news, a, i);
    }
    assert SameContent(olds[0], news[0]);
    assert TWICE.entries[1].path == A_X && files[A_X] == [7, 7, 7];
    assert !([1, 1] <= [7, 7, 7]) by {
      assert [1, 1][0] != [7, 7, 7][0];
    }
  }

  const EMPTIED := Tar([FileEntry(A_X, [1]), FileEntry(A_X, [])], [])
  const CHANGED := Tar([FileEntry(B_X, [2])], [])

  /** With [2] moved from an old [1] that is emptied later, nothing of which is extracted, the differ always fails. */
  lemma ReadError(files: Files, olds: seq<TarFileInfo>, news: seq<TarFileInfo>, a: DeltaAnalysis, r: Option<Bytes>,
                  sha: Bytes -> A.Digest, crc: Bytes -> nat)
    requires DigestsTell(EMPTIED, CHANGED, sha)
    requires A.FilesOk(EMPTIED.entries, 2, olds, sha, crc) && A.FilesOk(CHANGED.entries, 1, news, sha, crc)
    requires AnalysisOk(EMPTIED, olds, news, a) && Verdict(files, a, CHANGED, 0, r)
    ensures WellFormed(EMPTIED) && WellFormed(CHANGED) && r == None
  {
    hide A.FilesOk, AnalysisOk, Yields, Choose, BlobsOf, Extract, MatchesOf, TargetOf, EntryReads, EntryRight;
    assert sha([1]) != sha([2]) by {
      assert EMPTIED.entries[0].data == [1] && CHANGED.entries[0].data == [2];
      assert [1][0] != [2][0];
    }
    NothingToRead(files, olds, news, a, sha, crc);
  }

  lemma NothingToRead(files: Files, olds: seq<TarFileInfo>, news: seq<TarFileInfo>, a: DeltaAnalysis,
                      sha: Bytes -> A.Digest, crc: Bytes -> nat)
    requires sha([1]) != sha([2])
    requires A.FilesOk(EMPTIED.entries, 2, olds, sha, crc) && A.FilesOk(CHANGED.entries, 1, news, sha, crc)
    requires AnalysisOk(EMPTIED, olds, news, a) && EntryFits(files, a, CHANGED, 0)
    ensures !EntryReads(files, a, CHANGED, 0, 0)
  {
    OverwrittenSourceChosen([1], FileEntry(A_X, []), [2], olds, news, sha, crc);
    OnlyTarget(EMPTIED, olds, news, a, 0);
    OldDescribed(EMPTIED.entries, olds, sha, crc);
    assert A.Describes(EMPTIED.entries, 2, olds[|olds| - 1], sha, crc) && !UseTarFile(EMPTIED.entries[1]);
    assert |olds| == 1;
    hide AnalysisOk, Choose, BlobsOf, A.FilesOk, MatchesOf, A.BaseName;
    assert forall i: nat :: !Taken(olds, news, i);
    assert Extract(EMPTIED.entries, olds, news, 0) == [];
    assert Extract(EMPTIED.entries, olds, news, 1) == [];
    OverwrittenVerdict(EMPTIED, CHANGED, files, olds, news, a, 0, 0);
  }

  /** Of at most two files at one path the one of the right size is closest. */
  lemma MovedIsClosest(olds: seq<TarFileInfo>, f: TarFileInfo)
    requires 1 <= |olds| <= 2 && forall k :: 0 <= k < |olds| ==> Eligible(f, olds[k], 0)
    requires olds[0].size == f.size && (|olds| == 2 ==> olds[1].size != f.size)
    ensures Closest(olds, f, 0, |olds|) == Some(0)
  {
    hide Eligible;
    assert Closest(olds, f, 0, 0) == None;
    assert Closest(olds, f, 0, 1) == Some(0);
  }

  /** The descriptions of one or two entries of which the first is a file. */
  lemma OldDescribed(entries: seq<Entry>, files: seq<TarFileInfo>, sha: Bytes -> A.Digest, crc: Bytes -> nat)
    requires A.FilesOk(entries, |entries|, files, sha, crc) && 1 <= |entries| <= 2 && UseTarFile(entries[0])
    ensures 1 <= |files| <= |entries| && files[0].index == 0 && forall k :: 0 < k < |files| ==> files[k].index == 1
    ensures forall k :: 0 <= k < |files| ==> A.Describes(entries, |entries|, files[k], sha, crc)
  {
    hide BlobsOf, UseTarFile, A.BaseName;
    var first :| 0 <= first < |files| && files[first].index == 0;
    forall k | 0 <= k < |files|
      ensures k <= files[k].index < |entries|
    {
      IndexAtLeast(files, k);
      assert A.Describes(entries, |entries|, files[k], sha, crc);
    }
    var last := |files| - 1;
    assert last <= files[last].index < |entries|;
  }

  lemma {:induction false} IndexAtLeast(files: seq<TarFileInfo>, k: nat)
    requires k < |files| && forall k, l | 0 <= k < l < |files| :: files[k].index < files[l].index
    ensures files[k].index >= k
  {
    if k == 0 {
    } else {
      IndexAtLeast(files, k - 1);
    }
  }

  lemma BaseNames()
    ensures A.BaseName(A_X) == [120] && A.BaseName(B_X) == [120]
  {
  }
}
