/** The analysis of two archives for a delta: a source for each new file, and the old contents that deltas will read. */
module DeltaAnalysis {
  import opened Bytes
  import opened DeltaOps
  import opened Options
  import opened RollingSum
  import opened Matches
  import opened TarModel
  import opened SourceChoice
  import A = Analysis

  type TarFileInfo = A.TarFileInfo

  datatype SourceInfo = SourceInfo(file: TarFileInfo, usedForDelta: bool, offset: nat)

  /** `source` is an index of the analysis' sources. */
  datatype TargetInfo = TargetInfo(file: TarFileInfo, source: Option<nat>, matches: Option<RollsumMatches>)

  datatype DeltaAnalysis = DeltaAnalysis(targets: map<nat, TargetInfo>, sources: seq<SourceInfo>, sourceData: Bytes)

  // ----- Targets

  /** The target of a new file. */
  function TargetOf(olds: seq<TarFileInfo>, f: TarFileInfo): TargetInfo
  {
    var (source, used) := Choose(olds, f);
    TargetInfo(f, source,
               if !used then None
               else
                 var ms := MatchesOf(olds[source.value].blobs, f.blobs);
                 var ratio := if f.blobs == [] then 0 else |ms| * 100 / |f.blobs|;
                 Some(RollsumMatches(ms, ratio, MatchedBytes(ms))))
  }

  /** Where a source has to make a delta, every block of the new file that is alike one of the source is matched. */
  lemma TargetMatches(olds: seq<TarFileInfo>, f: TarFileInfo)
    ensures
      var t := TargetOf(olds, f);
      && t.file == f && WellChosen(olds, f, t.source, t.matches.Some?)
      && (t.matches.Some? ==>
            && t.source.value < |olds|
            && var bs := olds[t.source.value].blobs;
               forall i, j :: 0 <= i < |bs| && 0 <= j < |f.blobs| && Alike(bs[i], f.blobs[j]) ==>
                 exists m :: m in t.matches.value.matches && m.target == f.blobs[j] && Alike(m.source, m.target))
  {
    hide Choose, WellChosen, Alike;
    var t := TargetOf(olds, f);
    ChoiceExactly(olds, f, Choose(olds, f).0, Choose(olds, f).1);
    if t.matches.Some? {
      var bs := olds[t.source.value].blobs;
      forall i, j | 0 <= i < |bs| && 0 <= j < |f.blobs| && Alike(bs[i], f.blobs[j])
        ensures exists m :: m in t.matches.value.matches && m.target == f.blobs[j] && Alike(m.source, m.target)
      {
        AlikeMatched(bs, f.blobs, i, j);
        var k :| 0 <= k <= i && Alike(bs[k], f.blobs[j]) && Match(bs[k], f.blobs[j]) in MatchesOf(bs, f.blobs);
        assert Match(bs[k], f.blobs[j]).target == f.blobs[j];
      }
    }
  }

  ghost predicate TargetOk(olds: seq<TarFileInfo>, t: TargetInfo)
  {
    t == TargetOf(olds, t.file)
  }

  /** Old file `j` is needed by one of the first `n` new files. */
  ghost predicate Needed(olds: seq<TarFileInfo>, news: seq<TarFileInfo>, n: nat, j: nat)
    requires n <= |news|
  {
    exists k :: 0 <= k < n && Choose(olds, news[k]) == (Some(j), true)
  }

  predicate BlobsIncrease(bs: seq<Blob>)
  {
    bs != [] && forall i, j | 0 <= i < j < |bs| :: bs[i].offset < bs[j].offset
  }

  method MakeTargets(olds: seq<TarFileInfo>, news: seq<TarFileInfo>, sources: array<SourceInfo>,
                     bySha1: map<A.Digest, nat>, byPath: map<Path, nat>, ghost byIndex: map<nat, nat>)
    returns (targets: seq<TargetInfo>)
    requires TablesOk(olds, |olds|, bySha1, byPath, byIndex)
    requires sources.Length == |olds| && forall j | 0 <= j < |olds| :: sources[j] == SourceInfo(olds[j], false, 0)
    requires forall k | 0 <= k < |news| :: BlobsIncrease(news[k].blobs)
    modifies sources
    ensures |targets| == |news|
    ensures forall k | 0 <= k < |news| :: targets[k].file == news[k] && TargetOk(olds, targets[k])
    ensures forall j | 0 <= j < |olds| ::
              && sources[j].file == olds[j] && sources[j].offset == 0
              && (sources[j].usedForDelta <==> Needed(olds, news, |news|, j))
  {
    hide Choose, MatchesOf, TablesOk;
    targets := [];
    for i := 0 to |news|
      invariant |targets| == i
      invariant forall k | 0 <= k < i :: targets[k].file == news[k] && TargetOk(olds, targets[k])
      invariant forall j | 0 <= j < |olds| ::
                  && sources[j].file == olds[j] && sources[j].offset == 0
                  && (sources[j].usedForDelta <==> Needed(olds, news, i, j))
    {
      var file := news[i];
      var source, usedForDelta := ChooseSource(olds, file, bySha1, byPath);
      var matches := None;
      if source.Some? {
        var j := source.value;
        sources[j] := sources[j].(usedForDelta := sources[j].usedForDelta || usedForDelta);
        if usedForDelta {
          assert BlobsIncrease(news[i].blobs);
          var ms := ComputeRollsumMatches(sources[j].file.blobs, file.blobs);
          matches := Some(ms);
        }
      }
      targets := targets + [TargetInfo(file, source, matches)];
      forall j | 0 <= j < |olds|
        ensures Needed(olds, news, i + 1, j) <==> Needed(olds, news, i, j) || Choose(olds, file) == (Some(j), true)
      {
        NeededNext(olds, news, i, j);
      }
    }
  }

  lemma NeededNext(olds: seq<TarFileInfo>, news: seq<TarFileInfo>, n: nat, j: nat)
    requires n < |news|
    ensures Needed(olds, news, n + 1, j) <==> Needed(olds, news, n, j) || Choose(olds, news[n]) == (Some(j), true)
  {
  }

  method IndexTargets(targets: seq<TargetInfo>) returns (byIndex: map<nat, TargetInfo>)
    requires forall k, l | 0 <= k < l < |targets| :: targets[k].file.index < targets[l].file.index
    ensures forall k | 0 <= k < |targets| ::
              targets[k].file.index in byIndex && byIndex[targets[k].file.index] == targets[k]
    ensures forall i | i in byIndex :: byIndex[i] in targets && byIndex[i].file.index == i
  {
    byIndex := map[];
    for i := 0 to |targets|
      invariant forall k | 0 <= k < i ::
                  targets[k].file.index in byIndex && byIndex[targets[k].file.index] == targets[k]
      invariant forall j | j in byIndex :: byIndex[j] in targets && byIndex[j].file.index == j
    {
      byIndex := byIndex[targets[i].file.index := targets[i]];
    }
  }

  // ----- The old contents

  predicate Wanted(byIndex: map<nat, nat>, sources: seq<SourceInfo>, i: nat)
  {
    i in byIndex && byIndex[i] < |sources| && sources[byIndex[i]].usedForDelta
  }

  /** The contents of the wanted entries among the first `n`, in archive order. */
  ghost function Packed(entries: seq<Entry>, byIndex: map<nat, nat>, sources: seq<SourceInfo>, n: nat): Bytes
    requires n <= |entries|
  {
    if n == 0 then []
    else Packed(entries, byIndex, sources, n - 1) +
         if Wanted(byIndex, sources, n - 1) then entries[n - 1].data else []
  }

  lemma {:induction false} PackedSame(entries: seq<Entry>, byIndex: map<nat, nat>, s: seq<SourceInfo>,
                                      t: seq<SourceInfo>, n: nat)
    requires n <= |entries| && |s| == |t|
    requires forall j | 0 <= j < |s| :: s[j].usedForDelta == t[j].usedForDelta
    ensures Packed(entries, byIndex, s, n) == Packed(entries, byIndex, t, n)
  {
    if n == 0 {
    } else {
      PackedSame(entries, byIndex, s, t, n - 1);
    }
  }

  lemma {:induction false} PackedGrows(entries: seq<Entry>, byIndex: map<nat, nat>, s: seq<SourceInfo>, m: nat, n: nat)
    requires m <= n <= |entries|
    ensures var a, b := Packed(entries, byIndex, s, m), Packed(entries, byIndex, s, n);
            |a| <= |b| && b[..|a|] == a
    decreases n
  {
    if m >= n {
    } else {
      PackedGrows(entries, byIndex, s, m, n - 1);
    }
  }

  /** The range of a wanted entry holds its content, and ends before the range of any later one starts. */
  lemma PackedHolds(entries: seq<Entry>, byIndex: map<nat, nat>, s: seq<SourceInfo>, i: nat)
    requires i < |entries| && Wanted(byIndex, s, i)
    ensures var offset, all := |Packed(entries, byIndex, s, i)|, Packed(entries, byIndex, s, |entries|);
            offset + |entries[i].data| <= |all| && all[offset..offset + |entries[i].data|] == entries[i].data
    ensures forall j | i < j < |entries| ::
              |Packed(entries, byIndex, s, i)| + |entries[i].data| <= |Packed(entries, byIndex, s, j)|
  {
    PackedGrows(entries, byIndex, s, i + 1, |entries|);
    var a, b := Packed(entries, byIndex, s, i + 1), Packed(entries, byIndex, s, |entries|);
    assert b[|Packed(entries, byIndex, s, i)|..|a|] == a[|Packed(entries, byIndex, s, i)|..];
    forall j | i < j < |entries|
      ensures |a| <= |Packed(entries, byIndex, s, j)|
    {
      PackedGrows(entries, byIndex, s, i + 1, j);
    }
  }

  /** One source per entry, whose size is that of the entry's data. */
  ghost predicate IndexOk(entries: seq<Entry>, byIndex: map<nat, nat>, sources: seq<SourceInfo>)
  {
    forall i | i in byIndex ::
      && i < |entries| && byIndex[i] < |sources| && sources[byIndex[i]].file.index == i
      && entries[i].size == |entries[i].data|
  }

  method ExtractDeltaData(entries: seq<Entry>, byIndex: map<nat, nat>, sources: array<SourceInfo>) returns (dest: Bytes)
    requires IndexOk(entries, byIndex, sources[..])
    modifies sources
    ensures forall j | 0 <= j < sources.Length ::
              sources[j].file == old(sources[j].file) && sources[j].usedForDelta == old(sources[j].usedForDelta)
    ensures dest == Packed(entries, byIndex, sources[..], |entries|)
    ensures forall i | 0 <= i < |entries| && Wanted(byIndex, sources[..], i) ::
              sources[byIndex[i]].offset == |Packed(entries, byIndex, sources[..], i)|
    ensures forall j | 0 <= j < sources.Length && sources[j].file.index !in byIndex ::
              sources[j].offset == old(sources[j].offset)
  {
    ghost var s0 := sources[..];
    var offset := 0;
    dest := [];
    for index := 0 to |entries|
      invariant forall j | 0 <= j < sources.Length ::
                  sources[j].file == s0[j].file && sources[j].usedForDelta == s0[j].usedForDelta
      invariant forall j | 0 <= j < sources.Length && s0[j].file.index !in byIndex :: sources[j].offset == s0[j].offset
      invariant dest == Packed(entries, byIndex, s0, index) && offset == |dest|
      invariant forall i | 0 <= i < index && Wanted(byIndex, s0, i) ::
                  sources[byIndex[i]].offset == |Packed(entries, byIndex, s0, i)|
    {
      var e := entries[index];
      if index in byIndex && sources[byIndex[index]].usedForDelta {
        var j := byIndex[index];
        sources[j] := sources[j].(offset := offset);
        offset := offset + e.size;
        dest := dest + e.data;
      }
    }
    ghost var s1 := sources[..];
    forall n | 0 <= n <= |entries|
      ensures Packed(entries, byIndex, s1, n) == Packed(entries, byIndex, s0, n)
    {
      PackedSame(entries, byIndex, s1, s0, n);
    }
  }

  // ----- The analysis as a whole

  /** The file of entry `i` is not overwritten, and some new file needs it. */
  ghost predicate Taken(olds: seq<TarFileInfo>, news: seq<TarFileInfo>, i: nat)
  {
    exists j :: 0 <= j < |olds| && olds[j].index == i && !olds[j].overwritten && Needed(olds, news, |news|, j)
  }

  /** What is extracted from the first `n` entries. */
  ghost function Extract(entries: seq<Entry>, olds: seq<TarFileInfo>, news: seq<TarFileInfo>, n: nat): Bytes
    requires n <= |entries|
  {
    if n == 0 then []
    else Extract(entries, olds, news, n - 1) + if Taken(olds, news, n - 1) then entries[n - 1].data else []
  }

  lemma {:induction false} PackedIsExtract(entries: seq<Entry>, olds: seq<TarFileInfo>, news: seq<TarFileInfo>,
                                           byIndex: map<nat, nat>, s: seq<SourceInfo>, n: nat)
    requires n <= |entries|
    requires forall i | 0 <= i < |entries| :: Wanted(byIndex, s, i) <==> Taken(olds, news, i)
    ensures Packed(entries, byIndex, s, n) == Extract(entries, olds, news, n)
  {
    if n == 0 {
    } else {
      PackedIsExtract(entries, olds, news, byIndex, s, n - 1);
    }
  }

  /** Each new file that gets a delta has its target, and the old contents that are needed have been extracted. */
  ghost predicate AnalysisOk(oldTar: Tar, olds: seq<TarFileInfo>, news: seq<TarFileInfo>, a: DeltaAnalysis)
  {
    && (forall i | i in a.targets ::
          a.targets[i].file in news && a.targets[i].file.index == i && TargetOk(olds, a.targets[i]))
    && (forall k | 0 <= k < |news| :: news[k].index in a.targets)
    && |a.sources| == |olds|
    && (forall j | 0 <= j < |olds| ::
          && a.sources[j].file == olds[j]
          && (a.sources[j].usedForDelta <==> Needed(olds, news, |news|, j))
          && (a.sources[j].usedForDelta && !olds[j].overwritten ==>
                Extracted(oldTar, olds[j], a.sources[j], a.sourceData))
          && (olds[j].overwritten ==> a.sources[j].offset == 0))
    && a.sourceData == Extract(oldTar.entries, olds, news, |oldTar.entries|)
    && (forall j, k | 0 <= j < k < |olds| && a.sources[j].usedForDelta && a.sources[k].usedForDelta &&
                      !olds[j].overwritten && !olds[k].overwritten ::
          a.sources[j].offset + olds[j].size <= a.sources[k].offset)
  }

  /** An old file is used exactly if it is the source of some new file of other content. */
  lemma UsedExactly(oldTar: Tar, olds: seq<TarFileInfo>, news: seq<TarFileInfo>, a: DeltaAnalysis, j: nat)
    requires AnalysisOk(oldTar, olds, news, a) && j < |olds|
    ensures a.sources[j].usedForDelta <==> exists k :: 0 <= k < |news| && WellChosen(olds, news[k], Some(j), true)
  {
    hide Choose, WellChosen, Extract, Extracted, TargetOk;
    forall k | 0 <= k < |news|
      ensures WellChosen(olds, news[k], Some(j), true) <==> Choose(olds, news[k]) == (Some(j), true)
    {
      ChoiceExactly(olds, news[k], Some(j), true);
    }
  }

  /** The source's range of the extracted data is its content. */
  ghost predicate Extracted(oldTar: Tar, f: TarFileInfo, s: SourceInfo, sourceData: Bytes)
  {
    && f.index < |oldTar.entries| && s.offset + f.size <= |sourceData|
    && sourceData[s.offset..s.offset + f.size] == oldTar.entries[f.index].data
  }

  ghost predicate Sizes(oldTar: Tar, olds: seq<TarFileInfo>)
  {
    && (forall j | 0 <= j < |olds| ::
          && olds[j].index < |oldTar.entries|
          && olds[j].size == oldTar.entries[olds[j].index].size == |oldTar.entries[olds[j].index].data|)
    && (forall j, k | 0 <= j < k < |olds| :: olds[j].index < olds[k].index)
  }

  lemma ExtractionOk(oldTar: Tar, olds: seq<TarFileInfo>, sources: seq<SourceInfo>, byIndex: map<nat, nat>,
                     sourceData: Bytes)
    requires Sizes(oldTar, olds) && |sources| == |olds| && IndexOk(oldTar.entries, byIndex, sources)
    requires forall j | 0 <= j < |olds| :: sources[j].file == olds[j]
    requires forall j | 0 <= j < |olds| && !olds[j].overwritten :: olds[j].index in byIndex
    requires sourceData == Packed(oldTar.entries, byIndex, sources, |oldTar.entries|)
    requires forall i | 0 <= i < |oldTar.entries| && Wanted(byIndex, sources, i) ::
               sources[byIndex[i]].offset == |Packed(oldTar.entries, byIndex, sources, i)|
    ensures forall j | 0 <= j < |olds| && sources[j].usedForDelta && !olds[j].overwritten ::
              Extracted(oldTar, olds[j], sources[j], sourceData)
    ensures forall j, k | 0 <= j < k < |olds| && sources[j].usedForDelta && sources[k].usedForDelta &&
                          !olds[j].overwritten && !olds[k].overwritten ::
              sources[j].offset + olds[j].size <= sources[k].offset
  {
    hide Packed;
    forall j | 0 <= j < |olds| && sources[j].usedForDelta && !olds[j].overwritten
      ensures Wanted(byIndex, sources, olds[j].index) && byIndex[olds[j].index] == j
      ensures Extracted(oldTar, olds[j], sources[j], sourceData)
      ensures forall k | j < k < |olds| ::
                sources[j].offset + olds[j].size <= |Packed(oldTar.entries, byIndex, sources, olds[k].index)|
    {
      var l := byIndex[olds[j].index];
      assert sources[l].file == olds[l];
      assert l == j;
      PackedHolds(oldTar.entries, byIndex, sources, olds[j].index);
    }
  }

  lemma WantedIsTaken(oldTar: Tar, olds: seq<TarFileInfo>, news: seq<TarFileInfo>, bySha1: map<A.Digest, nat>,
                      byPath: map<Path, nat>, byIndex: map<nat, nat>, s: seq<SourceInfo>)
    requires Sizes(oldTar, olds) && TablesOk(olds, |olds|, bySha1, byPath, byIndex) && |s| == |olds|
    requires forall j | 0 <= j < |olds| :: s[j].usedForDelta <==> Needed(olds, news, |news|, j)
    ensures forall i: nat :: Wanted(byIndex, s, i) <==> Taken(olds, news, i)
    ensures forall j | 0 <= j < |olds| && olds[j].overwritten :: olds[j].index !in byIndex
  {
    hide Needed, LastKept;
    forall i: nat | Taken(olds, news, i)
      ensures Wanted(byIndex, s, i)
    {
      var j :| 0 <= j < |olds| && olds[j].index == i && !olds[j].overwritten && Needed(olds, news, |news|, j);
      assert byIndex[i] == j;
    }
  }

  /** The parts of an analysis put together. */
  lemma AnalysisHolds(oldTar: Tar, olds: seq<TarFileInfo>, news: seq<TarFileInfo>, targets: seq<TargetInfo>,
                      a: DeltaAnalysis, bySha1: map<A.Digest, nat>, byPath: map<Path, nat>, byIndex: map<nat, nat>)
    requires Sizes(oldTar, olds) && TablesOk(olds, |olds|, bySha1, byPath, byIndex)
    requires |targets| == |news|
    requires forall k | 0 <= k < |news| :: targets[k].file == news[k] && TargetOk(olds, targets[k])
    requires forall k | 0 <= k < |targets| ::
               targets[k].file.index in a.targets && a.targets[targets[k].file.index] == targets[k]
    requires forall i | i in a.targets :: a.targets[i] in targets && a.targets[i].file.index == i
    requires |a.sources| == |olds| && IndexOk(oldTar.entries, byIndex, a.sources)
    requires forall j | 0 <= j < |olds| ::
               a.sources[j].file == olds[j] && (a.sources[j].usedForDelta <==> Needed(olds, news, |news|, j))
    requires a.sourceData == Packed(oldTar.entries, byIndex, a.sources, |oldTar.entries|)
    requires forall i | 0 <= i < |oldTar.entries| && Wanted(byIndex, a.sources, i) ::
               a.sources[byIndex[i]].offset == |Packed(oldTar.entries, byIndex, a.sources, i)|
    requires forall j | 0 <= j < |olds| && olds[j].index !in byIndex :: a.sources[j].offset == 0
    ensures AnalysisOk(oldTar, olds, news, a)
  {
    assert forall j | 0 <= j < |olds| && !olds[j].overwritten :: olds[j].index in byIndex;
    WantedIsTaken(oldTar, olds, news, bySha1, byPath, byIndex, a.sources);
    hide TargetOf, TargetOk, Packed, Extract, Needed, Taken, TablesOk, Choose;
    ExtractionOk(oldTar, olds, a.sources, byIndex, a.sourceData);
    PackedIsExtract(oldTar.entries, olds, news, byIndex, a.sources, |oldTar.entries|);
    hide Extracted, Wanted;
    forall i | i in a.targets
      ensures a.targets[i].file in news && TargetOk(olds, a.targets[i])
    {
      var k :| 0 <= k < |targets| && targets[k] == a.targets[i];
      assert targets[k].file == news[k];
    }
  }

  lemma TablesIndex(oldTar: Tar, olds: seq<TarFileInfo>, bySha1: map<A.Digest, nat>, byPath: map<Path, nat>,
                    byIndex: map<nat, nat>, sources: seq<SourceInfo>)
    requires Sizes(oldTar, olds) && TablesOk(olds, |olds|, bySha1, byPath, byIndex) && |sources| == |olds|
    requires forall j | 0 <= j < |olds| :: sources[j].file == olds[j]
    ensures IndexOk(oldTar.entries, byIndex, sources)
  {
    hide LastKept;
  }

  /** Chooses a source for every new file and extracts the old contents that deltas need. */
  method AnalyzeForDelta(olds: seq<TarFileInfo>, news: seq<TarFileInfo>, oldTar: Tar) returns (a: DeltaAnalysis)
    requires Sizes(oldTar, olds)
    requires forall k | 0 <= k < |news| :: BlobsIncrease(news[k].blobs)
    requires forall k, l | 0 <= k < l < |news| :: news[k].index < news[l].index
    ensures AnalysisOk(oldTar, olds, news, a)
  {
    hide Choose, TargetOk, Packed, Needed, TablesOk, IndexOk, AnalysisOk;
    var sources := new SourceInfo[|olds|](j requires 0 <= j < |olds| => SourceInfo(olds[j], false, 0));
    var bySha1, byPath, byIndex := MakeTables(olds);
    var targets := MakeTargets(olds, news, sources, bySha1, byPath, byIndex);
    var targetByIndex := IndexTargets(targets);
    TablesIndex(oldTar, olds, bySha1, byPath, byIndex, sources[..]);
    var sourceData := ExtractDeltaData(oldTar.entries, byIndex, sources);
    a := DeltaAnalysis(targetByIndex, sources[..], sourceData);
    TablesIndex(oldTar, olds, bySha1, byPath, byIndex, sources[..]);
    AnalysisHolds(oldTar, olds, news, targets, a, bySha1, byPath, byIndex);
  }
}
