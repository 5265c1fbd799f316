/** What the delta has to send, and what it takes from the old archive. */
module Reuse {
  import opened Bytes
  import opened DeltaOps
  import opened Options
  import opened Origins
  import opened Segments
  import opened Matches
  import opened TarModel
  import opened SourceChoice
  import opened DeltaAnalysis
  import opened Generator
  import opened Diff
  import A = Analysis

  // ----- Where the bytes of an entry come from

  lemma {:induction false} OriginsLength(files: Files, a: DeltaAnalysis, newTar: Tar, maxBsdiffSize: nat, n: nat)
    requires n <= |newTar.entries| && forall i: nat :: EntryFits(files, a, newTar, i)
    requires forall i | 0 <= i < n :: EntryTiles(files, a, newTar, i, maxBsdiffSize)
    ensures |OriginsTo(files, a, newTar, maxBsdiffSize, n)| == |Prefix(newTar.entries, n)|
  {
    hide EntryOrigins, All;
    if n == 0 {
    } else {
      assert EntryTiles(files, a, newTar, n - 1, maxBsdiffSize);
      OriginsLength(files, a, newTar, maxBsdiffSize, n - 1);
    }
  }

  lemma {:induction false} OriginsStart(files: Files, a: DeltaAnalysis, newTar: Tar, maxBsdiffSize: nat, i: nat, n: nat)
    requires i <= n <= |newTar.entries| && forall i: nat :: EntryFits(files, a, newTar, i)
    ensures OriginsTo(files, a, newTar, maxBsdiffSize, i) <= OriginsTo(files, a, newTar, maxBsdiffSize, n)
    decreases n
  {
    hide EntryOrigins, All;
    if i == n {
    } else {
      OriginsStart(files, a, newTar, maxBsdiffSize, i, n - 1);
    }
  }

  /** Where the data of entry `i` starts in the archive. */
  ghost function DataAt(t: Tar, i: nat): nat
    requires i < |t.entries|
  {
    |Prefix(t.entries, i)| + |t.entries[i].header|
  }

  /** What the delta makes of the bytes of the data of entry `i`. */
  ghost function OriginsIn(t: Tar, i: nat, stream: Bytes): seq<Origin>
    requires i < |t.entries| && DecodeAll(stream).Some?
    requires DataAt(t, i) + |t.entries[i].data| <= |OriginsOf(DecodeAll(stream).value)|
  {
    OriginsOf(DecodeAll(stream).value)[DataAt(t, i)..DataAt(t, i) + |t.entries[i].data|]
  }

  lemma Within(before: seq<Origin>, h: seq<Origin>, os: seq<Origin>, p: seq<Origin>, all: seq<Origin>)
    requires before + (h + os + p) <= all
    ensures |before| + |h| + |os| <= |all|
    ensures all[|before| + |h|..|before| + |h| + |os|] == os
  {
    var upto := before + (h + os + p);
    assert upto[|before| + |h|..|before| + |h| + |os|] == os;
    assert all[..|upto|] == upto;
    assert all[..|upto|][|before| + |h|..|before| + |h| + |os|] == all[|before| + |h|..|before| + |h| + |os|];
  }

  lemma Further(a: seq<Origin>, b: seq<Origin>, c: seq<Origin>)
    requires a <= b
    ensures a <= b + c
  {
  }

  lemma OriginsWithin(files: Files, a: DeltaAnalysis, newTar: Tar, maxBsdiffSize: nat, i: nat)
    requires i < |newTar.entries| && forall i: nat :: EntryFits(files, a, newTar, i)
    ensures
      var e := newTar.entries[i];
      OriginsTo(files, a, newTar, maxBsdiffSize, i) +
      (All(Sent, |e.header|) + EntryOrigins(files, a, newTar, i, maxBsdiffSize) + All(Sent, |e.padding|))
      <= OriginsTo(files, a, newTar, maxBsdiffSize, |newTar.entries|)
  {
    hide EntryOrigins, All, EntryFits;
    OriginsStart(files, a, newTar, maxBsdiffSize, i + 1, |newTar.entries|);
  }

  /** The bytes of an entry's data in the archive come from where the entry's branch takes them. */
  lemma EntryMade(files: Files, a: DeltaAnalysis, newTar: Tar, maxBsdiffSize: nat, stream: Bytes, i: nat)
    requires i < |newTar.entries| && forall i: nat :: EntryFits(files, a, newTar, i)
    requires MadeOf(files, a, newTar, maxBsdiffSize, stream)
    ensures |OriginsOf(DecodeAll(stream).value)| == |TarBytes(newTar)|
    ensures DataAt(newTar, i) + |newTar.entries[i].data| <= |TarBytes(newTar)|
    ensures TarBytes(newTar)[DataAt(newTar, i)..DataAt(newTar, i) + |newTar.entries[i].data|] == newTar.entries[i].data
    ensures OriginsIn(newTar, i, stream) == EntryOrigins(files, a, newTar, i, maxBsdiffSize)
  {
    hide EntryOrigins, All, OriginsOf, DecodeAll, EntryBytes, EntryFits, TargetTiles, Prefix, OriginsTo;
    var n, e := |newTar.entries|, newTar.entries[i];
    EntryRange(newTar, i);
    OriginsLength(files, a, newTar, maxBsdiffSize, i);
    OriginsLength(files, a, newTar, maxBsdiffSize, n);
    OriginsWithin(files, a, newTar, maxBsdiffSize, i);
    assert EntryTiles(files, a, newTar, i, maxBsdiffSize);
    Further(OriginsTo(files, a, newTar, maxBsdiffSize, i) +
            (All(Sent, |e.header|) + EntryOrigins(files, a, newTar, i, maxBsdiffSize) + All(Sent, |e.padding|)),
            OriginsTo(files, a, newTar, maxBsdiffSize, n), All(Sent, |newTar.trailer|));
    Within(OriginsTo(files, a, newTar, maxBsdiffSize, i), All(Sent, |e.header|),
           EntryOrigins(files, a, newTar, i, maxBsdiffSize), All(Sent, |e.padding|),
           OriginsOf(DecodeAll(stream).value));
  }

  /** The origins of a new file's data, by what its source is, the sizes of both, and how many blocks match. */
  ghost predicate FileMadeOf(a: DeltaAnalysis, olds: seq<TarFileInfo>, f: TarFileInfo, source: Option<nat>,
                             maxBsdiffSize: nat, data: Bytes, os: seq<Origin>)
    requires |a.sources| == |olds| && (source.Some? ==> source.value < |olds|)
  {
    if source == None then os == All(Sent, |data|)
    else
      var s, from := a.sources[source.value], olds[source.value];
      var ms := MatchesOf(from.blobs, f.blobs);
      if from.sha1 == f.sha1 && from.size == f.size then os == All(Copied, |data|)
      else if maxBsdiffSize == 0 || (f.size < maxBsdiffSize && from.size < maxBsdiffSize) then
        InRange(a, s, 0, s.file.size) && os == DifferenceOrigins(a, s, data)
      else if f.blobs != [] && |ms| * 100 / |f.blobs| > 20 then
        && (forall k :: 0 <= k < |ms| ==> ms[k].target.offset + ms[k].target.size <= |data|)
        && os == MatchedOrigins(a, s, ms, data, |ms|) + All(Sent, Gap(EndOf(ms, |ms|), |data|))
      else os == All(Sent, |data|)
  }

  lemma TargetOfFile(oldTar: Tar, newTar: Tar, olds: seq<TarFileInfo>, news: seq<TarFileInfo>, a: DeltaAnalysis,
                     sha: Bytes -> A.Digest, crc: Bytes -> nat, k: nat)
    requires AnalysisOk(oldTar, olds, news, a) && A.FilesOk(newTar.entries, |newTar.entries|, news, sha, crc)
    requires k < |news|
    ensures
      var i := news[k].index;
      && i < |newTar.entries| && i in a.targets && a.targets[i] == TargetOf(olds, news[k])
      && |a.sources| == |olds| && forall j :: 0 <= j < |olds| ==> a.sources[j].file == olds[j]
  {
    hide TargetOf, Extract, Extracted, Needed;
    assert A.Describes(newTar.entries, |newTar.entries|, news[k], sha, crc);
    TargetsAreNew(oldTar, olds, news, a, news[k].index);
    assert a.targets[news[k].index].file == news[k];
  }

  /** Which bytes of a new file are copied, added to old ones and sent. */
  lemma FileMade(oldTar: Tar, newTar: Tar, files: Files, olds: seq<TarFileInfo>, news: seq<TarFileInfo>,
                 a: DeltaAnalysis, maxBsdiffSize: nat, sha: Bytes -> A.Digest, crc: Bytes -> nat, stream: Bytes,
                 k: nat, source: Option<nat>, used: bool)
    requires AnalysisOk(oldTar, olds, news, a) && A.FilesOk(newTar.entries, |newTar.entries|, news, sha, crc)
    requires Verdict(files, a, newTar, maxBsdiffSize, Some(stream))
    requires k < |news| && WellChosen(olds, news[k], source, used)
    ensures source.Some? ==> source.value < |olds|
    ensures
      var i := news[k].index;
      && i < |newTar.entries|
      && DataAt(newTar, i) + |newTar.entries[i].data| <= |OriginsOf(DecodeAll(stream).value)|
      && FileMadeOf(a, olds, news[k], source, maxBsdiffSize, newTar.entries[i].data, OriginsIn(newTar, i, stream))
  {
    hide Choose, All, OriginsOf, DecodeAll, MatchesOf, Extract, TarBytes, WellChosen, EntryRight, MadeOf,
         DifferenceOrigins, MatchedOrigins, InRange, AnalysisOk, A.FilesOk, OriginsIn, DataAt;
    var i := news[k].index;
    TargetOfFile(oldTar, newTar, olds, news, a, sha, crc, k);
    ChoiceExactly(olds, news[k], source, used);
    EntryMade(files, a, newTar, maxBsdiffSize, stream, i);
    assert EntryFits(files, a, newTar, i) && EntryReads(files, a, newTar, i, maxBsdiffSize);
  }

  /** In particular no byte of a file with an exact source is sent: all of them are copied. */
  lemma ExactIsCopied(oldTar: Tar, newTar: Tar, files: Files, olds: seq<TarFileInfo>, news: seq<TarFileInfo>,
                      a: DeltaAnalysis, maxBsdiffSize: nat, sha: Bytes -> A.Digest, crc: Bytes -> nat, stream: Bytes,
                      k: nat, j: nat)
    requires AnalysisOk(oldTar, olds, news, a) && A.FilesOk(newTar.entries, |newTar.entries|, news, sha, crc)
    requires Verdict(files, a, newTar, maxBsdiffSize, Some(stream))
    requires k < |news| && ExactSource(olds, news[k], j)
    ensures
      var i := news[k].index;
      && i < |newTar.entries|
      && DataAt(newTar, i) + |newTar.entries[i].data| <= |OriginsOf(DecodeAll(stream).value)|
      && OriginsIn(newTar, i, stream) == All(Copied, |newTar.entries[i].data|)
  {
    hide All, OriginsOf, DecodeAll, Verdict, AnalysisOk, A.FilesOk, OriginsIn, DataAt;
    FileMade(oldTar, newTar, files, olds, news, a, maxBsdiffSize, sha, crc, stream, k, Some(j), false);
  }

  // ----- How many bytes are sent

  /** Bytes of blocks found equal in the extracted data. */
  function CopiedBytes(a: DeltaAnalysis, s: SourceInfo, ms: seq<Match>, data: Bytes, n: nat): nat
    requires n <= |ms| && forall k :: 0 <= k < n ==> ms[k].target.offset + ms[k].target.size <= |data|
  {
    if n == 0 then 0
    else
      var m := ms[n - 1];
      CopiedBytes(a, s, ms, data, n - 1) + if FoundAs(a, s, m, Part(data, m)) == Copied then m.target.size else 0
  }

  lemma {:induction false} MatchedSend(a: DeltaAnalysis, s: SourceInfo, ms: seq<Match>, data: Bytes, n: nat)
    requires n <= |ms| && forall k :: 0 <= k < n ==> ms[k].target.offset + ms[k].target.size <= |data|
    ensures SentIn(MatchedOrigins(a, s, ms, data, n)) ==
            |MatchedOrigins(a, s, ms, data, n)| - CopiedBytes(a, s, ms, data, n)
  {
    hide All, SentIn, InRange, ReadAt, Gap;
    if n == 0 {
      assert SentIn([]) == 0 by {
        SentInAll(Sent, 0);
        assert All(Sent, 0) == [];
      }
    } else {
      var m, gap := ms[n - 1], Gap(EndOf(ms, n - 1), ms[n - 1].target.offset);
      var found := FoundAs(a, s, m, Part(data, m));
      MatchedSend(a, s, ms, data, n - 1);
      SentInBoth(MatchedOrigins(a, s, ms, data, n - 1), All(Sent, gap) + All(found, m.target.size));
      SentInBoth(All(Sent, gap), All(found, m.target.size));
      SentInAll(Sent, gap);
      SentInAll(found, m.target.size);
    }
  }

  /** Data bytes of a file that need not be sent. */
  ghost function TargetSaved(files: Files, a: DeltaAnalysis, t: TargetInfo, maxBsdiffSize: nat, data: Bytes): int
    requires t.source.Some? && SourceFits(files, a, t) && |data| == t.file.size
  {
    var s := a.sources[t.source.value];
    match BranchOf(s.file, t, maxBsdiffSize)
    case Reuse => |data|
    case Difference =>
      if InRange(a, s, 0, s.file.size) then AddedBytes(SegmentsOf(ReadAt(a, s, 0, s.file.size), data)) else 0
    case Matched => CopiedBytes(a, s, t.matches.value.matches, data, |t.matches.value.matches|)
    case Literal => 0
  }

  lemma TargetSends(files: Files, a: DeltaAnalysis, t: TargetInfo, maxBsdiffSize: nat, data: Bytes)
    requires t.source.Some? && SourceFits(files, a, t) && |data| == t.file.size
    requires TargetTiles(files, a, t, maxBsdiffSize, data)
    ensures SentIn(TargetOrigins(files, a, t, maxBsdiffSize, data)) ==
            |data| - TargetSaved(files, a, t, maxBsdiffSize, data)
  {
    hide All, SentIn, InRange, ReadAt, MatchedOrigins, CopiedBytes, SegmentsOf, SegmentsOrigins, Tiled, AddedBytes;
    var s := a.sources[t.source.value];
    match BranchOf(s.file, t, maxBsdiffSize)
    case Reuse => SentInAll(Copied, |data|);
    case Difference =>
      var oldData := ReadAt(a, s, 0, s.file.size);
      var end: nat :| Tiled(oldData, data, SegmentsOf(oldData, data), |data|, end);
      SegmentsSend(oldData, data, SegmentsOf(oldData, data), |data|, end);
    case Matched =>
      var ms := t.matches.value.matches;
      var rest := Gap(EndOf(ms, |ms|), |data|);
      MatchedSend(a, s, ms, data, |ms|);
      SentInBoth(MatchedOrigins(a, s, ms, data, |ms|), All(Sent, rest));
      SentInAll(Sent, rest);
    case Literal => SentInAll(Sent, |data|);
  }

  ghost function EntrySaved(files: Files, a: DeltaAnalysis, newTar: Tar, i: nat, maxBsdiffSize: nat): int
    requires EntryFits(files, a, newTar, i) && i < |newTar.entries|
  {
    if i in a.targets && a.targets[i].source.Some? then
      TargetSaved(files, a, a.targets[i], maxBsdiffSize, newTar.entries[i].data)
    else 0
  }

  lemma EntrySends(files: Files, a: DeltaAnalysis, newTar: Tar, i: nat, maxBsdiffSize: nat)
    requires EntryFits(files, a, newTar, i) && i < |newTar.entries| && EntryTiles(files, a, newTar, i, maxBsdiffSize)
    ensures SentIn(EntryOrigins(files, a, newTar, i, maxBsdiffSize)) ==
            |newTar.entries[i].data| - EntrySaved(files, a, newTar, i, maxBsdiffSize)
  {
    hide All, SentIn, TargetOrigins, TargetSaved, TargetTiles;
    if i in a.targets && a.targets[i].source.Some? {
      TargetSends(files, a, a.targets[i], maxBsdiffSize, newTar.entries[i].data);
    } else {
      SentInAll(Sent, |newTar.entries[i].data|);
    }
  }

  /** Data bytes of the first `n` entries that need not be sent. */
  ghost function SavedTo(files: Files, a: DeltaAnalysis, newTar: Tar, maxBsdiffSize: nat, n: nat): int
    requires n <= |newTar.entries| && forall i: nat :: EntryFits(files, a, newTar, i)
  {
    if n == 0 then 0
    else
      SavedTo(files, a, newTar, maxBsdiffSize, n - 1) + EntrySaved(files, a, newTar, n - 1, maxBsdiffSize)
  }

  lemma {:induction false} EntriesSend(files: Files, a: DeltaAnalysis, newTar: Tar, maxBsdiffSize: nat, n: nat)
    requires n <= |newTar.entries| && forall i: nat :: EntryFits(files, a, newTar, i)
    requires forall i | 0 <= i < n :: EntryTiles(files, a, newTar, i, maxBsdiffSize)
    ensures SentIn(OriginsTo(files, a, newTar, maxBsdiffSize, n)) ==
            |Prefix(newTar.entries, n)| - SavedTo(files, a, newTar, maxBsdiffSize, n)
  {
    hide All, SentIn, EntryOrigins, EntrySaved, EntryFits, EntryTiles;
    if n == 0 {
      SentInAll(Sent, 0);
      assert All(Sent, 0) == [];
    } else {
      var e, os := newTar.entries[n - 1], EntryOrigins(files, a, newTar, n - 1, maxBsdiffSize);
      EntriesSend(files, a, newTar, maxBsdiffSize, n - 1);
      assert EntryTiles(files, a, newTar, n - 1, maxBsdiffSize);
      EntrySends(files, a, newTar, n - 1, maxBsdiffSize);
      var h, p := All(Sent, |e.header|), All(Sent, |e.padding|);
      SentInBoth(OriginsTo(files, a, newTar, maxBsdiffSize, n - 1), h + os + p);
      SentInBoth(h + os, p);
      SentInBoth(h, os);
      SentInAll(Sent, |e.header|);
      SentInAll(Sent, |e.padding|);
    }
  }

  /**
   The data operations of a delta carry the whole archive less what is reused, added to old bytes or found equal: just
   the bytes that have to be sent.
   */
  lemma SentExactly(files: Files, a: DeltaAnalysis, newTar: Tar, maxBsdiffSize: nat, stream: Bytes)
    requires Verdict(files, a, newTar, maxBsdiffSize, Some(stream))
    ensures DecodeAll(stream).Some?
    ensures DataBytes(DecodeAll(stream).value) ==
            |TarBytes(newTar)| - SavedTo(files, a, newTar, maxBsdiffSize, |newTar.entries|)
  {
    hide All, SentIn, OriginsOf, DecodeAll, SavedTo, OriginsTo, EntryReads, EntryRight;
    var n := |newTar.entries|;
    EntriesSend(files, a, newTar, maxBsdiffSize, n);
    DataIsSent(DecodeAll(stream).value);
    SentInBoth(OriginsTo(files, a, newTar, maxBsdiffSize, n), All(Sent, |newTar.trailer|));
    SentInAll(Sent, |newTar.trailer|);
  }
}
