/** The delta generator: reads the new archive once and decides byte range by byte range how it is reproduced. */
module Generator {
  import opened Bytes
  import opened DeltaOps
  import opened DeltaWriter
  import opened Options
  import opened Origins
  import opened Segments
  import opened SuffixBuckets
  import opened Matches
  import opened TarModel
  import opened DeltaAnalysis
  import B = Bsdiff

  // ----- What has been written so far

  /** Carried out on `files`, the operations and the pending buffer yield `st`. */
  ghost predicate Means(files: Files, w: WriterState, st: State)
  {
    Tracks(files, w) && Meaning(files, w) == Some(st)
  }

  lemma MeansCall(files: Files, w: WriterState, c: Call, st: State)
    requires FilesFit(files) && Means(files, w, st) && Intend(files, st, c).Some?
    ensures Means(files, Apply(w, c), Intend(files, st, c).value)
  {
    CallMeans(files, w, c);
  }

  lemma MeansFacts(files: Files, w: WriterState, st: State)
    requires Means(files, w, st)
    ensures st.file == w.file && st.pos == w.pos
  {
  }

  /** Extra bytes change only the output. */
  lemma MeansWrite(files: Files, w: WriterState, data: Bytes, st: State)
    requires FilesFit(files) && Means(files, w, st)
    ensures Means(files, Apply(w, WriteContent(data)), st.(out := st.out + data))
  {
    MeansCall(files, w, WriteContent(data), st);
  }

  /** Switching to a file and rewinding leave the output alone. */
  lemma MeansOpen(files: Files, w: WriterState, path: Path, st: State)
    requires FilesFit(files) && Means(files, w, st) && path in files
    ensures var w1 := Apply(w, SetCurrentFile(path));
            && Means(files, w1, if st.file == path then st else State(st.out, path, 0))
            && Means(files, Apply(w1, SeekTo(0)), State(st.out, path, 0))
  {
    MeansCall(files, w, SetCurrentFile(path), st);
    MeansCall(files, Apply(w, SetCurrentFile(path)), SeekTo(0), if st.file == path then st else State(st.out, path, 0));
  }

  lemma MeansOldFile(files: Files, w: WriterState, path: Path, size: Word, st: State)
    requires FilesFit(files) && Means(files, w, st) && path in files && size <= |files[path]|
    ensures Means(files, ApplyAll(w, WriteOldFileCalls(path, size)), State(st.out + files[path][..size], path, size))
  {
    var w1 := Apply(w, SetCurrentFile(path));
    MeansOpen(files, w, path, st);
    MeansCall(files, Apply(w1, SeekTo(0)), CopyFile(size), State(st.out, path, 0));
    assert files[path][0..size] == files[path][..size];
    ApplyInTurn(w, SetCurrentFile(path), [SeekTo(0)] + [CopyFile(size)]);
    ApplyInTurn(w1, SeekTo(0), [CopyFile(size)]);
    ApplyLast(Apply(w1, SeekTo(0)), CopyFile(size));
  }

  lemma MeansCopyAt(files: Files, w: WriterState, offset: Word, size: Word, st: State)
    requires FilesFit(files) && Means(files, w, st) && st.file in files && offset + size <= |files[st.file]|
    ensures Means(files, ApplyAll(w, CopyFileAtCalls(offset, size)),
                  State(st.out + files[st.file][offset..offset + size], st.file, offset + size))
  {
    MeansCall(files, w, SeekTo(offset), st);
    MeansCall(files, Apply(w, SeekTo(offset)), CopyFile(size), st.(pos := offset));
    ApplyInTurn(w, SeekTo(offset), [CopyFile(size)]);
    ApplyLast(Apply(w, SeekTo(offset)), CopyFile(size));
  }

  /** The delta so far yields the first `upto` bytes of the source. */
  ghost predicate InSync(files: Files, w: WriterState, source: Bytes, upto: nat)
  {
    upto <= |source| && Meaning(files, w).Some? && Means(files, w, Meaning(files, w).value) &&
    Meaning(files, w).value.out == source[..upto]
  }

  /** The delta so far can no longer become one that yields the source. */
  ghost predicate Astray(files: Files, w: WriterState, source: Bytes)
  {
    Meaning(files, w).Some? ==> !(Meaning(files, w).value.out <= source)
  }

  /** How the delta so far stands: it yields what has been read, or it is wrong for good. */
  datatype Standing = Fine | Wrong

  ghost predicate Stands(files: Files, w: WriterState, source: Bytes, upto: nat, fate: Standing)
  {
    && upto <= |source|
    && Tracks(files, w)
    && (fate == Fine ==> InSync(files, w, source, upto))
    && (fate == Wrong ==> Astray(files, w, source))
  }

  /** The standing after a step that is right or wrong. */
  function After(fate: Standing, right: bool): Standing
  {
    if fate == Fine && right then Fine else Wrong
  }

  /** Output only grows. */
  lemma {:induction false} OutGrows(files: Files, st: State, calls: seq<Call>)
    requires IntendAll(files, Some(st), calls).Some?
    ensures st.out <= IntendAll(files, Some(st), calls).value.out
    decreases |calls|
  {
    if calls == [] {
    } else {
      var next := Intend(files, st, calls[0]);
      if next == None {
        NoneStays(files, calls[1..]);
      }
      OutGrows(files, next.value, calls[1..]);
    }
  }

  /** What is wrong stays wrong. */
  lemma AstrayStays(files: Files, w: WriterState, calls: seq<Call>, source: Bytes)
    requires FilesFit(files) && Tracks(files, w)
    ensures Tracks(files, ApplyAll(w, calls))
    ensures Astray(files, w, source) ==> Astray(files, ApplyAll(w, calls), source)
  {
    hide Intend;
    CallsMean(files, w, calls);
    if Meaning(files, w) == None {
      NoneStays(files, calls);
    } else if IntendAll(files, Meaning(files, w), calls).Some? {
      OutGrows(files, Meaning(files, w).value, calls);
    }
  }

  /** Calls that are intended to write `q` when `at` bytes are in step. */
  lemma CallsStand(files: Files, w: WriterState, calls: seq<Call>, q: Option<Bytes>, source: Bytes, at: nat, n: nat,
                   fate: Standing)
    requires FilesFit(files) && Stands(files, w, source, at, fate) && at + n <= |source|
    requires q.Some? ==> |q.value| == n
    requires fate == Fine ==>
               var st := Meaning(files, w).value;
               match q
               case None => Meaning(files, ApplyAll(w, calls)) == None
               case Some(out) =>
                 && Meaning(files, ApplyAll(w, calls)).Some?
                 && Meaning(files, ApplyAll(w, calls)).value.out == st.out + out
    ensures Stands(files, ApplyAll(w, calls), source, at + n,
                   After(fate, q == Some(source[at..at + n])))
  {
    hide Apply, ApplyAll, FilesFit, Intend, IntendAll;
    AstrayStays(files, w, calls, source);
    if fate == Fine && q.Some? {
      assert source[..at] + source[at..at + n] == source[..at + n];
      var out := source[..at] + q.value;
      if q.value == source[at..at + n] {
        assert out == source[..at + n];
      } else {
        assert out[at..] == q.value;
        assert source[..|out|][at..] == source[at..at + n];
      }
    }
  }

  /** Extra bytes. */
  lemma WriteStands(files: Files, w: WriterState, q: Bytes, source: Bytes, at: nat, fate: Standing)
    requires FilesFit(files) && Stands(files, w, source, at, fate)
    requires at + |q| <= |source| && q == source[at..at + |q|]
    ensures Stands(files, Apply(w, WriteContent(q)), source, at + |q|, fate) && Apply(w, WriteContent(q)).file == w.file
  {
    hide FilesFit;
    if fate == Fine {
      MeansWrite(files, w, q, Meaning(files, w).value);
    }
    ApplyLast(w, WriteContent(q));
    hide Apply, ApplyAll;
    CallsStand(files, w, [WriteContent(q)], Some(q), source, at, |q|, fate);
  }

  /** A whole old file is right if and only if what a reader finds under its path starts with the next bytes. */
  lemma OldFileStands(files: Files, w: WriterState, path: Path, size: Word, source: Bytes, at: nat, fate: Standing)
    requires FilesFit(files) && Stands(files, w, source, at, fate) && path in files && at + size <= |source|
    ensures Stands(files, ApplyAll(w, WriteOldFileCalls(path, size)), source, at + size,
                   After(fate, source[at..at + size] <= files[path]))
  {
    hide Apply, ApplyAll, FilesFit;
    var q := if size <= |files[path]| then Some(files[path][..size]) else None;
    if fate == Fine {
      var st := Meaning(files, w).value;
      if q.Some? {
        MeansOldFile(files, w, path, size, st);
      } else {
        CallsMean(files, w, WriteOldFileCalls(path, size));
        TooShort(files, st, path, size);
      }
    }
    CallsStand(files, w, WriteOldFileCalls(path, size), q, source, at, size, fate);
  }

  lemma TooShort(files: Files, st: State, path: Path, size: Word)
    requires path in files && size > |files[path]|
    ensures IntendAll(files, Some(st), WriteOldFileCalls(path, size)) == None
  {
    var calls := [SeekTo(0)] + [CopyFile(size)];
    var st1 := if st.file == path then st else State(st.out, path, 0);
    IntendInTurn(files, st, SetCurrentFile(path), calls);
    IntendInTurn(files, st1, SeekTo(0), [CopyFile(size)]);
    IntendInTurn(files, st1.(pos := 0), CopyFile(size), []);
  }

  /** A copied range is right if and only if the open file holds the next bytes there. */
  lemma CopyStands(files: Files, w: WriterState, offset: Word, size: Word, source: Bytes, at: nat, fate: Standing)
    requires FilesFit(files) && Stands(files, w, source, at, fate) && w.file in files && at + size <= |source|
    ensures Stands(files, ApplyAll(w, CopyFileAtCalls(offset, size)), source, at + size,
                   After(fate, Found(files[w.file], offset, source[at..at + size])))
    ensures ApplyAll(w, CopyFileAtCalls(offset, size)).file == w.file
  {
    CopyAtKeepsFile(w, offset, size);
    hide Apply, ApplyAll, FilesFit, CopyFileAtCalls;
    var file := files[w.file];
    var q := if offset + size <= |file| then Some(file[offset..offset + size]) else None;
    if fate == Fine {
      var st := Meaning(files, w).value;
      MeansFacts(files, w, st);
      if q.Some? {
        MeansCopyAt(files, w, offset, size, st);
      } else {
        CallsMean(files, w, CopyFileAtCalls(offset, size));
        OutOfRange(files, st, offset, size);
      }
    }
    CallsStand(files, w, CopyFileAtCalls(offset, size), q, source, at, size, fate);
  }

  /** `q` stands at `offset`. */
  predicate Found(file: Bytes, offset: nat, q: Bytes)
  {
    offset + |q| <= |file| && file[offset..offset + |q|] == q
  }

  lemma OutOfRange(files: Files, st: State, offset: Word, size: Word)
    requires st.file in files && offset + size > |files[st.file]|
    ensures IntendAll(files, Some(st), CopyFileAtCalls(offset, size)) == None
  {
    IntendInTurn(files, st, SeekTo(offset), [CopyFile(size)]);
    IntendInTurn(files, st.(pos := offset), CopyFile(size), []);
  }

  /** Switching the open file does not write anything. */
  lemma OpenStands(files: Files, w: WriterState, path: Path, source: Bytes, at: nat, fate: Standing)
    requires FilesFit(files) && Stands(files, w, source, at, fate) && path in files
    ensures Stands(files, Apply(w, SetCurrentFile(path)), source, at, fate)
    ensures Apply(w, SetCurrentFile(path)).file == path
  {
    if fate == Fine {
      MeansOpen(files, w, path, Meaning(files, w).value);
    }
    ApplyLast(w, SetCurrentFile(path));
    hide Apply, ApplyAll, FilesFit;
    CallsStand(files, w, [SetCurrentFile(path)], Some([]), source, at, 0, fate);
  }

  /**
   What bsdiff makes of old data is right if and only if what a reader finds under the path agrees with that data where
   the segments read.
   */
  lemma BsdiffStands(files: Files, w: WriterState, path: Path, oldData: Bytes, newData: Bytes, segs: seq<Segment>,
                     end: nat, source: Bytes, at: nat, fate: Standing)
    requires FilesFit(files) && Stands(files, w, source, at, fate) && path in files && |oldData| < WORD
    requires at + |newData| <= |source| && newData == source[at..at + |newData|]
    requires Tiled(oldData, newData, segs, |newData|, end)
    ensures Stands(files, ApplyAll(Apply(Apply(w, SetCurrentFile(path)), SeekTo(0)), CallsOf(oldData, newData, segs)),
                   source, at + |newData|, After(fate, AllAgree(oldData, newData, files[path], segs)))
  {
    hide Apply, ApplyAll, Tiled, CallsOf, FilesFit, AllAgree, IntendAll, SegmentsOut;
    var calls, w1 := CallsOf(oldData, newData, segs), Apply(w, SetCurrentFile(path));
    ApplyInTurn(w, SetCurrentFile(path), [SeekTo(0)] + calls);
    ApplyInTurn(w1, SeekTo(0), calls);
    var q := SegmentsOut(oldData, newData, files[path], segs);
    SegmentsAgree(oldData, newData, files[path], segs, |newData|, end);
    assert newData[..|newData|] == newData;
    if fate == Fine {
      var st := State(Meaning(files, w).value.out, path, 0);
      MeansOpen(files, w, path, Meaning(files, w).value);
      CallsMean(files, Apply(w1, SeekTo(0)), calls);
      SegmentsDo(files, oldData, newData, segs, |newData|, end, st);
    }
    CallsStand(files, w, [SetCurrentFile(path)] + ([SeekTo(0)] + calls), q, source, at, |newData|, fate);
  }

  lemma BsdiffAdds(w: WriterState, path: Path, oldData: Bytes, newData: Bytes, segs: seq<Segment>, end: nat)
    requires Tiled(oldData, newData, segs, |newData|, end)
    ensures Adds(w, ApplyAll(Apply(Apply(w, SetCurrentFile(path)), SeekTo(0)), CallsOf(oldData, newData, segs)),
                 SegmentsOrigins(oldData, newData, segs))
    ensures |SegmentsOrigins(oldData, newData, segs)| == |newData|
  {
    hide Adds, Apply, ApplyAll, Tiled, CallsOf, CallsOrigins;
    var calls, w1 := CallsOf(oldData, newData, segs), Apply(w, SetCurrentFile(path));
    var w2 := Apply(w1, SeekTo(0));
    CallAdds(w, SetCurrentFile(path));
    CallAdds(w1, SeekTo(0));
    var none: seq<Origin> := [];
    assert none + none == none;
    ThenAdds(w, w1, w2, none, none);
    CallsAdd(w2, calls);
    SegmentsAdd(oldData, newData, segs, |newData|, end);
    ThenAdds(w, w2, ApplyAll(w2, calls), none, CallsOrigins(calls));
    assert none + CallsOrigins(calls) == CallsOrigins(calls);
  }

  lemma SentOn(w0: WriterState, w1: WriterState, w2: WriterState, m: nat, n: nat)
    requires Adds(w0, w1, All(Sent, m)) && Adds(w1, w2, All(Sent, n))
    ensures Adds(w0, w2, All(Sent, m + n))
  {
    hide Adds;
    ThenAdds(w0, w1, w2, All(Sent, m), All(Sent, n));
    AllMore(Sent, m, n);
  }

  lemma NothingSent(w: WriterState)
    ensures Adds(w, w, All(Sent, 0))
  {
    NothingAdds(w);
    assert All(Sent, 0) == [];
  }

  lemma MoreSent(start: WriterState, w: WriterState, n: nat, q: Bytes)
    requires Adds(start, w, All(Sent, n))
    ensures Adds(start, Apply(w, WriteContent(q)), All(Sent, n + |q|))
  {
    hide Adds, Apply, All;
    CallAdds(w, WriteContent(q));
    ThenAdds(start, w, Apply(w, WriteContent(q)), All(Sent, n), All(Sent, |q|));
    AllMore(Sent, n, |q|);
  }

  lemma CopyAtKeepsFile(w: WriterState, offset: Word, size: Word)
    ensures ApplyAll(w, CopyFileAtCalls(offset, size)).file == w.file
  {
    ApplyInTurn(w, SeekTo(offset), [CopyFile(size)]);
    ApplyLast(Apply(w, SeekTo(offset)), CopyFile(size));
  }

  // ----- The stealing reader

  /** Everything read is also written to the stealer, unless that is switched off. */
  class StealerReader {
    const source: Bytes
    const stealer: Writer
    var cursor: nat
    var ignore: bool

    constructor (source: Bytes, stealer: Writer)
      ensures this.source == source && this.stealer == stealer && cursor == 0 && !ignore
    {
      this.source, this.stealer, cursor, ignore := source, stealer, 0, false;
    }

    method SetIgnore(ignore: bool)
      modifies this`ignore
      ensures this.ignore == ignore
    {
      this.ignore := ignore;
    }

    /** A read may return fewer bytes than asked for, but not none unless the source is exhausted. */
    method Read(want: nat) returns (p: Bytes)
      requires stealer.Valid() && cursor <= |source|
      modifies this`cursor, stealer
      ensures stealer.Valid() && |p| <= want && cursor == old(cursor) + |p| <= |source|
      ensures p == source[old(cursor)..cursor]
      ensures want > 0 && old(cursor) < |source| ==> p != []
      ensures stealer.State()
           == if ignore || p == [] then old(stealer.State()) else Apply(old(stealer.State()), WriteContent(p))
    {
      var left := |source| - cursor;
      var n: nat;
      if want == 0 || left == 0 {
        n := 0;
      } else {
        n :| 0 < n <= want && n <= left;
      }
      p := source[cursor..cursor + n];
      cursor := cursor + n;
      if !ignore && n > 0 {
        stealer.WriteContent(p);
      }
    }
  }

  // ----- What becomes of a target

  datatype Branch = Reuse | Difference | Matched | Literal

  predicate SameContent(s: TarFileInfo, f: TarFileInfo)
  {
    s.sha1 == f.sha1 && s.size == f.size
  }

  function BranchOf(s: TarFileInfo, t: TargetInfo, maxBsdiffSize: nat): Branch
  {
    if SameContent(s, t.file) then Reuse
    else if maxBsdiffSize == 0 || (t.file.size < maxBsdiffSize && s.size < maxBsdiffSize) then Difference
    else if t.matches.Some? && t.matches.value.matchRatio > 20 then Matched
    else Literal
  }

  /** The source's path is one a reader finds, and matches lie inside source and target. */
  ghost predicate SourceFits(files: Files, a: DeltaAnalysis, t: TargetInfo)
  {
    t.source.Some? ==>
      && t.source.value < |a.sources|
      && var s := a.sources[t.source.value];
         && s.file.path in files && s.file.size < WORD
         && (t.matches.Some? ==> InOrder(t.matches.value.matches, s.file.size, t.file.size))
  }

  /** Extracted data of `length` bytes has `size` bytes at `start`. */
  predicate Covers(length: nat, start: nat, size: nat)
  {
    size == 0 || start + size <= length
  }

  /** So it has at `offset` of where the source's data is recorded to start. */
  predicate InRange(a: DeltaAnalysis, s: SourceInfo, offset: nat, size: nat)
  {
    Covers(|a.sourceData|, s.offset + offset, size)
  }

  function ReadAt(a: DeltaAnalysis, s: SourceInfo, offset: nat, size: nat): (r: Bytes)
    requires InRange(a, s, offset, size)
    ensures |r| == size
  {
    if size == 0 then [] else a.sourceData[s.offset + offset..s.offset + offset + size]
  }

  /** Nothing is missing of the extracted data that the target's branch reads. */
  predicate TargetReads(a: DeltaAnalysis, t: TargetInfo, maxBsdiffSize: nat)
    requires t.source.Some? && t.source.value < |a.sources|
  {
    var s := a.sources[t.source.value];
    match BranchOf(s.file, t, maxBsdiffSize)
    case Difference => InRange(a, s, 0, s.file.size)
    case Matched =>
      var ms := t.matches.value.matches;
      forall k :: 0 <= k < |ms| ==> InRange(a, s, ms[k].source.offset, ms[k].source.size)
    case _ => true
  }

  /** A matched block whose bytes `q` equal those extracted is found at the same place under the source's path. */
  predicate MatchRight(file: Bytes, a: DeltaAnalysis, s: SourceInfo, m: Match, q: Bytes)
  {
    && InRange(a, s, m.source.offset, m.source.size)
    && (ReadAt(a, s, m.source.offset, m.source.size) == q ==> Found(file, m.source.offset, q))
  }

  function Part(data: Bytes, m: Match): Bytes
    requires m.target.offset + m.target.size <= |data|
  {
    data[m.target.offset..m.target.offset + m.target.size]
  }

  /** The file found agrees with the extracted data wherever the segments bsdiff cuts `data` into read it. */
  ghost predicate DifferenceRight(files: Files, a: DeltaAnalysis, s: SourceInfo, data: Bytes)
    requires s.file.path in files && InRange(a, s, 0, s.file.size)
  {
    var oldData := ReadAt(a, s, 0, s.file.size);
    AllAgree(oldData, data, files[s.file.path], SegmentsOf(oldData, data))
  }

  ghost function DifferenceOrigins(a: DeltaAnalysis, s: SourceInfo, data: Bytes): seq<Origin>
    requires InRange(a, s, 0, s.file.size)
  {
    var oldData := ReadAt(a, s, 0, s.file.size);
    SegmentsOrigins(oldData, data, SegmentsOf(oldData, data))
  }

  /** The segments make up the data. */
  ghost predicate DifferenceTiles(a: DeltaAnalysis, s: SourceInfo, data: Bytes)
    requires InRange(a, s, 0, s.file.size)
  {
    var oldData := ReadAt(a, s, 0, s.file.size);
    exists end: nat :: Tiled(oldData, data, SegmentsOf(oldData, data), |data|, end)
  }

  /** A matched block with the bytes `q` is copied if these are what was extracted, and sent otherwise. */
  function FoundAs(a: DeltaAnalysis, s: SourceInfo, m: Match, q: Bytes): Origin
  {
    if InRange(a, s, m.source.offset, m.source.size) && ReadAt(a, s, m.source.offset, m.source.size) == q then Copied
    else Sent
  }

  function Gap(from: nat, to: nat): nat
  {
    if from < to then to - from else 0
  }

  /** Where the first `n` matches end. */
  function EndOf(ms: seq<Match>, n: nat): nat
    requires n <= |ms|
  {
    if n == 0 then 0 else ms[n - 1].target.offset + ms[n - 1].target.size
  }

  /** The origins of data up to the end of the first `n` matches: what lies between them is sent. */
  function MatchedOrigins(a: DeltaAnalysis, s: SourceInfo, ms: seq<Match>, data: Bytes, n: nat): seq<Origin>
    requires n <= |ms| && forall k :: 0 <= k < n ==> ms[k].target.offset + ms[k].target.size <= |data|
  {
    if n == 0 then []
    else
      var m := ms[n - 1];
      MatchedOrigins(a, s, ms, data, n - 1) +
      (All(Sent, Gap(EndOf(ms, n - 1), m.target.offset)) + All(FoundAs(a, s, m, Part(data, m)), m.target.size))
  }

  /** One more match. */
  lemma MatchAdds(a: DeltaAnalysis, s: SourceInfo, ms: seq<Match>, data: Bytes, n: nat, w0: WriterState, w: WriterState,
                  w1: WriterState)
    requires n < |ms| && forall k :: 0 <= k <= n ==> ms[k].target.offset + ms[k].target.size <= |data|
    requires EndOf(ms, n) <= ms[n].target.offset && Adds(w0, w, MatchedOrigins(a, s, ms, data, n))
    requires Adds(w, w1, All(Sent, Gap(EndOf(ms, n), ms[n].target.offset)) +
                         All(FoundAs(a, s, ms[n], Part(data, ms[n])), ms[n].target.size))
    ensures EndOf(ms, n + 1) == ms[n].target.offset + ms[n].target.size
    ensures Adds(w0, w1, MatchedOrigins(a, s, ms, data, n + 1))
    ensures |MatchedOrigins(a, s, ms, data, n)| == EndOf(ms, n) ==>
              |MatchedOrigins(a, s, ms, data, n + 1)| == EndOf(ms, n + 1)
  {
    hide Adds, All, FoundAs, Part;
    ThenAdds(w0, w, w1, MatchedOrigins(a, s, ms, data, n),
             All(Sent, Gap(EndOf(ms, n), ms[n].target.offset)) +
             All(FoundAs(a, s, ms[n], Part(data, ms[n])), ms[n].target.size));
  }

  lemma EndsBefore(ms: seq<Match>, sourceSize: nat, targetSize: nat, n: nat)
    requires InOrder(ms, sourceSize, targetSize) && n < |ms|
    ensures EndOf(ms, n) <= ms[n].target.offset
  {
  }

  /** Opening the source file. */
  lemma OpenAdds(w: WriterState, path: Path)
    ensures Adds(w, Apply(w, SetCurrentFile(path)), [])
  {
    CallAdds(w, SetCurrentFile(path));
  }

  lemma NoMatch(a: DeltaAnalysis, s: SourceInfo, ms: seq<Match>, data: Bytes)
    ensures EndOf(ms, 0) == 0 && MatchedOrigins(a, s, ms, data, 0) == []
  {
  }

  /** What is left after the last match. */
  lemma RestAdds(w0: WriterState, w: WriterState, w1: WriterState, os: seq<Origin>, n: nat)
    requires Adds(w0, w, os) && (if n == 0 then w1 == w else Adds(w, w1, All(Sent, n)))
    ensures Adds(w0, w1, os + All(Sent, n))
  {
    hide Adds;
    NothingSent(w);
    ThenAdds(w0, w, w1, os, All(Sent, n));
  }

  /** The origins of a file's data. */
  ghost function TargetOrigins(files: Files, a: DeltaAnalysis, t: TargetInfo, maxBsdiffSize: nat,
                               data: Bytes): seq<Origin>
    requires t.source.Some? && SourceFits(files, a, t) && |data| == t.file.size
  {
    var s := a.sources[t.source.value];
    match BranchOf(s.file, t, maxBsdiffSize)
    case Reuse => All(Copied, |data|)
    case Difference => if InRange(a, s, 0, s.file.size) then DifferenceOrigins(a, s, data) else []
    case Matched =>
      var ms := t.matches.value.matches;
      MatchedOrigins(a, s, ms, data, |ms|) + All(Sent, Gap(EndOf(ms, |ms|), |data|))
    case Literal => All(Sent, |data|)
  }

  /** Each byte of the data has one origin. */
  ghost predicate TargetTiles(files: Files, a: DeltaAnalysis, t: TargetInfo, maxBsdiffSize: nat, data: Bytes)
    requires t.source.Some? && SourceFits(files, a, t) && |data| == t.file.size
  {
    var s := a.sources[t.source.value];
    && |TargetOrigins(files, a, t, maxBsdiffSize, data)| == |data|
    && (BranchOf(s.file, t, maxBsdiffSize) == Difference ==>
          InRange(a, s, 0, s.file.size) && DifferenceTiles(a, s, data))
  }

  /** The target's branch reproduces `data`. */
  ghost predicate TargetRight(files: Files, a: DeltaAnalysis, t: TargetInfo, maxBsdiffSize: nat, data: Bytes)
    requires t.source.Some? && SourceFits(files, a, t) && |data| == t.file.size
  {
    var s := a.sources[t.source.value];
    var file := files[s.file.path];
    match BranchOf(s.file, t, maxBsdiffSize)
    case Reuse => data <= file
    case Difference => InRange(a, s, 0, s.file.size) && DifferenceRight(files, a, s, data)
    case Matched =>
      var ms := t.matches.value.matches;
      forall k :: 0 <= k < |ms| ==> MatchRight(file, a, s, ms[k], Part(data, ms[k]))
    case Literal => true
  }

  // ----- The generator

  class DeltaGenerator {
    const tar: Tar
    const stealing: StealerReader
    const dw: Writer
    const analysis: DeltaAnalysis
    const maxBsdiffSize: nat
    // The tar reader: headers read, and data bytes of the current entry left to read
    var next: nat
    var rest: nat

    ghost predicate Valid()
      reads this, stealing, dw
    {
      && stealing.stealer == dw && stealing.source == TarBytes(tar) && dw.Valid()
      && stealing.cursor <= |TarBytes(tar)|
      && next <= |tar.entries|
      && (next == 0 ==> rest == 0 && stealing.cursor == 0)
      && (next > 0 ==>
            && rest <= |tar.entries[next - 1].data|
            && stealing.cursor + rest + |tar.entries[next - 1].padding| == |Prefix(tar.entries, next)|)
    }

    /** How the delta so far stands to the first `upto` bytes of the new archive. */
    ghost predicate Synced(files: Files, upto: nat, fate: Standing)
      reads dw
    {
      Stands(files, dw.State(), stealing.source, upto, fate)
    }

    constructor (tar: Tar, dw: Writer, stealing: StealerReader, analysis: DeltaAnalysis, maxBsdiffSize: nat)
      requires stealing.stealer == dw && stealing.source == TarBytes(tar) && stealing.cursor == 0 && dw.Valid()
      ensures Valid() && next == 0
      ensures this.tar == tar && this.dw == dw && this.stealing == stealing && this.analysis == analysis
      ensures this.maxBsdiffSize == maxBsdiffSize
    {
      this.tar, this.dw, this.stealing, this.analysis, this.maxBsdiffSize := tar, dw, stealing, analysis, maxBsdiffSize;
      next, rest := 0, 0;
    }

    /** Reads exactly `n` bytes of the archive, in whatever portions they come. */
    method Pull(n: nat, ghost files: Files, ghost fate: Standing) returns (p: Bytes)
      requires stealing.stealer == dw && dw.Valid() && FilesFit(files)
      requires stealing.cursor + n <= |stealing.source|
      requires !stealing.ignore ==> Synced(files, stealing.cursor, fate)
      modifies stealing`cursor, dw
      ensures dw.Valid() && stealing.cursor == old(stealing.cursor) + n
      ensures p == stealing.source[old(stealing.cursor)..stealing.cursor]
      ensures stealing.ignore ==> dw.State() == old(dw.State())
      ensures !stealing.ignore ==> Synced(files, stealing.cursor, fate) && dw.currentFile == old(dw.currentFile)
      ensures !stealing.ignore ==> Adds(old(dw.State()), dw.State(), All(Sent, n))
    {
      hide Stands, FilesFit, Apply, Adds, All;
      ghost var start := dw.State();
      NothingSent(start);
      p := [];
      while |p| < n
        invariant dw.Valid() && |p| <= n && stealing.cursor == old(stealing.cursor) + |p|
        invariant p == stealing.source[old(stealing.cursor)..stealing.cursor]
        invariant stealing.ignore ==> dw.State() == old(dw.State())
        invariant !stealing.ignore ==> Synced(files, stealing.cursor, fate) && dw.currentFile == old(dw.currentFile)
        invariant !stealing.ignore ==> Adds(start, dw.State(), All(Sent, |p|))
        decreases n - |p|
      {
        ghost var w := dw.State();
        ghost var at := stealing.cursor;
        var q := stealing.Read(n - |p|);
        if !stealing.ignore {
          WriteStands(files, w, q, stealing.source, at, fate);
          MoreSent(start, w, |p|, q);
        }
        assert stealing.source[old(stealing.cursor)..at] + q == stealing.source[old(stealing.cursor)..stealing.cursor];
        p := p + q;
      }
    }

    method SetSkip(ignore: bool)
      modifies stealing`ignore
      ensures stealing.ignore == ignore
    {
      stealing.SetIgnore(ignore);
    }

    /** Reads the next `n` data bytes without copying them to the delta. */
    method ReadN(n: nat, ghost files: Files) returns (buf: Bytes)
      requires Valid() && FilesFit(files) && next > 0 && n <= rest
      modifies this`rest, stealing, dw
      ensures Valid() && rest == old(rest) - n && stealing.cursor == old(stealing.cursor) + n
      ensures buf == stealing.source[old(stealing.cursor)..stealing.cursor]
      ensures dw.State() == old(dw.State())
    {
      hide Stands, FilesFit, TarBytes, Prefix;
      SetSkip(true);
      EntryRange(tar, next - 1);
      buf := Pull(n, files, Fine);
      rest := rest - n;
    }

    /** Copies the next `n` data bytes into the delta. */
    method CopyN(n: nat, ghost files: Files, ghost fate: Standing)
      requires Valid() && FilesFit(files) && next > 0 && n <= rest && Synced(files, stealing.cursor, fate)
      modifies this`rest, stealing, dw
      ensures Valid() && rest == old(rest) - n && stealing.cursor == old(stealing.cursor) + n
      ensures Synced(files, stealing.cursor, fate) && dw.currentFile == old(dw.currentFile)
      ensures Adds(old(dw.State()), dw.State(), All(Sent, n))
    {
      hide Stands, FilesFit, TarBytes, Prefix, Adds;
      SetSkip(false);
      EntryRange(tar, next - 1);
      var _ := Pull(n, files, fate);
      rest := rest - n;
    }

    method SkipRest(ghost files: Files)
      requires Valid() && FilesFit(files) && next > 0
      modifies this`rest, stealing, dw
      ensures Valid() && rest == 0 && stealing.cursor == old(stealing.cursor + rest) && dw.State() == old(dw.State())
    {
      var _ := ReadN(rest, files);
    }

    method CopyRest(ghost files: Files, ghost fate: Standing)
      requires Valid() && FilesFit(files) && next > 0 && Synced(files, stealing.cursor, fate)
      modifies this`rest, stealing, dw
      ensures Valid() && rest == 0 && Synced(files, stealing.cursor, fate)
      ensures Adds(old(dw.State()), dw.State(), All(Sent, old(rest)))
    {
      hide Adds;
      CopyN(rest, files, fate);
    }

    /** A read that the extracted data cannot fill is an error. */
    method ReadSourceData(source: SourceInfo, offset: nat, size: nat) returns (buf: Option<Bytes>)
      ensures buf.Some? <==> InRange(analysis, source, offset, size)
      ensures buf.Some? ==> buf.value == ReadAt(analysis, source, offset, size)
    {
      var start := source.offset + offset;
      if size > 0 && start + size > |analysis.sourceData| {
        return None;
      }
      buf := Some(if size == 0 then [] else analysis.sourceData[start..start + size]);
    }

    /** The generator stands at the start of the data of the target's entry. */
    ghost predicate AtFile(info: TargetInfo, files: Files)
      reads this
    {
      && 0 < next <= |tar.entries| && info.source.Some? && SourceFits(files, analysis, info)
      && rest == |tar.entries[next - 1].data| == info.file.size
    }

    method GenerateForFileWithBsdiff(info: TargetInfo, ghost files: Files, ghost fate: Standing)
      returns (ok: bool, ghost after: Standing)
      requires Valid() && FilesFit(files) && Synced(files, stealing.cursor, fate) && AtFile(info, files)
      modifies this`rest, stealing, dw
      ensures
        var s := analysis.sources[info.source.value];
        && (ok <==> InRange(analysis, s, 0, s.file.size))
        && (ok ==>
              && Valid() && rest == 0 && Synced(files, stealing.cursor, after)
              && after == After(fate, DifferenceRight(files, analysis, s, tar.entries[next - 1].data))
              && Adds(old(dw.State()), dw.State(), DifferenceOrigins(analysis, s, tar.entries[next - 1].data))
              && |DifferenceOrigins(analysis, s, tar.entries[next - 1].data)| == info.file.size
              && DifferenceTiles(analysis, s, tar.entries[next - 1].data))
    {
      hide Stands, Apply, ApplyAll, Tiled, CallsOf, FilesFit, TarBytes, Prefix, InOrder, ReadAt, AllAgree, SegmentsOf,
           SegmentOk, IsSuffixArray, Adds, CallsOrigins, SegmentsOrigins;
      DataAhead();
      var source := analysis.sources[info.source.value];
      ghost var at, w := stealing.cursor, dw.State();
      dw.SetCurrentFile(source.file.path);
      dw.SeekTo(0);
      var oldData := ReadSourceData(source, 0, source.file.size);
      if oldData == None {
        return false, fate;
      }
      var newData := ReadN(info.file.size, files);
      ghost var segs, I, end;
      segs, I, end := B.Bsdiff(oldData.value, newData, dw);
      BsdiffStands(files, w, source.file.path, oldData.value, newData, segs, end, stealing.source, at, fate);
      BsdiffAdds(w, source.file.path, oldData.value, newData, segs, end);
      return true, After(fate, AllAgree(oldData.value, newData, files[source.file.path], segs));
    }

    /** Equal checksums are only a hint: the bytes are compared, and written out if they differ. */
    method EmitMatch(m: Match, dstbuf: Bytes, srcbuf: Bytes, ghost files: Files, ghost at: nat, ghost fate: Standing)
      requires dw.Valid() && FilesFit(files) && Synced(files, at, fate) && dw.currentFile in files
      requires |dstbuf| == m.source.size && m.source.offset + m.source.size < WORD
      requires at + |dstbuf| <= |stealing.source| && dstbuf == stealing.source[at..at + |dstbuf|]
      modifies dw
      ensures dw.Valid() && dw.currentFile == old(dw.currentFile)
      ensures
        var right := dstbuf == srcbuf ==> Found(files[dw.currentFile], m.source.offset, dstbuf);
        Synced(files, at + |dstbuf|, After(fate, right))
      ensures Adds(old(dw.State()), dw.State(), All(if dstbuf == srcbuf then Copied else Sent, |dstbuf|))
    {
      hide Stands, Apply, ApplyAll, FilesFit, CopyFileAtCalls, Adds, All;
      ghost var w := dw.State();
      if dstbuf == srcbuf {
        CopyStands(files, w, m.source.offset, m.source.size, stealing.source, at, fate);
        CopyAtAdds(w, m.source.offset, m.source.size);
        dw.CopyFileAt(m.source.offset, m.source.size);
      } else {
        WriteStands(files, w, dstbuf, stealing.source, at, fate);
        CallAdds(w, WriteContent(dstbuf));
        dw.WriteContent(dstbuf);
      }
    }

    method GenerateForMatch(source: SourceInfo, m: Match, ghost files: Files, ghost fate: Standing) returns (ok: bool)
      requires Valid() && FilesFit(files) && next > 0 && Synced(files, stealing.cursor, fate)
      requires m.source.size == m.target.size <= rest && m.source.offset + m.source.size < WORD
      requires dw.currentFile == source.file.path && source.file.path in files
      modifies this`rest, stealing, dw
      ensures ok <==> InRange(analysis, source, m.source.offset, m.source.size)
      ensures ok ==> Valid() && rest == old(rest) - m.target.size && dw.currentFile == old(dw.currentFile)
      ensures ok ==> stealing.cursor == old(stealing.cursor) + m.target.size
      ensures ok ==>
        var q := stealing.source[old(stealing.cursor)..stealing.cursor];
        && Synced(files, stealing.cursor, After(fate, MatchRight(files[source.file.path], analysis, source, m, q)))
        && Adds(old(dw.State()), dw.State(), All(FoundAs(analysis, source, m, q), m.target.size))
    {
      hide Stands, FilesFit, TarBytes, Prefix, ReadAt, Adds, All;
      ghost var at := stealing.cursor;
      var dstbuf := ReadN(m.target.size, files);
      var srcbuf := ReadSourceData(source, m.source.offset, m.target.size);
      if srcbuf == None {
        return false;
      }
      EmitMatch(m, dstbuf, srcbuf.value, files, at, fate);
      return true;
    }

    /** Literal bytes up to the match, from `pos` of the entry's data, and the match. */
    method GenerateToMatch(source: SourceInfo, m: Match, pos: nat, ghost start: nat, ghost files: Files,
                           ghost fate: Standing)
      returns (ok: bool)
      requires Valid() && FilesFit(files) && next > 0 && Synced(files, stealing.cursor, fate)
      requires stealing.cursor == start + pos && start + |tar.entries[next - 1].data| <= |stealing.source|
      requires stealing.source[start..start + |tar.entries[next - 1].data|] == tar.entries[next - 1].data
      requires pos <= m.target.offset && pos + rest == |tar.entries[next - 1].data|
      requires m.target.offset + m.target.size <= |tar.entries[next - 1].data|
      requires m.source.size == m.target.size && m.source.offset + m.source.size < WORD
      requires dw.currentFile == source.file.path && source.file.path in files
      modifies this`rest, stealing, dw
      ensures ok <==> InRange(analysis, source, m.source.offset, m.source.size)
      ensures ok ==>
        && Valid() && dw.currentFile == old(dw.currentFile)
        && m.target.offset + m.target.size + rest == |tar.entries[next - 1].data|
        && stealing.cursor == start + m.target.offset + m.target.size
        && Synced(files, stealing.cursor,
                  After(fate, MatchRight(files[source.file.path], analysis, source, m,
                                         Part(tar.entries[next - 1].data, m))))
        && Adds(old(dw.State()), dw.State(),
                All(Sent, Gap(pos, m.target.offset)) +
                All(FoundAs(analysis, source, m, Part(tar.entries[next - 1].data, m)), m.target.size))
    {
      hide Stands, FilesFit, TarBytes, Prefix, MatchRight, InRange, EntryBytes, After, Adds, All, FoundAs;
      ghost var w := dw.State();
      NothingSent(w);
      if pos < m.target.offset {
        CopyN(m.target.offset - pos, files, fate);
      }
      SliceOfSlice(stealing.source, start, |tar.entries[next - 1].data|, m.target.offset, m.target.size);
      ghost var w1 := dw.State();
      ok := GenerateForMatch(source, m, files, fate);
      if ok {
        ThenAdds(w, w1, dw.State(), All(Sent, Gap(pos, m.target.offset)),
                 All(FoundAs(analysis, source, m, Part(tar.entries[next - 1].data, m)), m.target.size));
      }
    }

    /** All of the first `n` matches are right. */
    ghost predicate MatchesRight(file: Bytes, source: SourceInfo, matches: seq<Match>, data: Bytes, n: nat)
      requires n <= |matches| && forall k :: 0 <= k < n ==> matches[k].target.offset + matches[k].target.size <= |data|
    {
      forall k :: 0 <= k < n ==> MatchRight(file, analysis, source, matches[k], Part(data, matches[k]))
    }

    /** The first `n` matches are done, from data that starts at `start` and a writer in state `w`. */
    ghost predicate AtMatch(source: SourceInfo, ms: seq<Match>, n: nat, pos: nat, start: nat, files: Files,
                            w: WriterState, fate: Standing, after: Standing)
      reads this, stealing, dw
    {
      && Valid() && 0 < next && n <= |ms| && source.file.path in files && source.file.size < WORD
      && var data := tar.entries[next - 1].data;
         && InOrder(ms, source.file.size, |data|)
         && start + |data| <= |stealing.source| && stealing.source[start..start + |data|] == data
         && pos + rest == |data| && stealing.cursor == start + pos && pos == EndOf(ms, n)
         && dw.currentFile == source.file.path && Synced(files, stealing.cursor, after)
         && after == After(fate, MatchesRight(files[source.file.path], source, ms, data, n))
         && |MatchedOrigins(analysis, source, ms, data, n)| == pos
         && Adds(w, dw.State(), MatchedOrigins(analysis, source, ms, data, n))
    }

    method NextMatch(source: SourceInfo, ms: seq<Match>, n: nat, pos0: nat, ghost start: nat, ghost files: Files,
                     ghost w: WriterState, ghost fate: Standing, ghost after0: Standing)
      returns (ok: bool, pos: nat, ghost after: Standing)
      requires FilesFit(files) && AtMatch(source, ms, n, pos0, start, files, w, fate, after0) && n < |ms|
      modifies this`rest, stealing, dw
      ensures ok <==> InRange(analysis, source, ms[n].source.offset, ms[n].source.size)
      ensures ok ==> AtMatch(source, ms, n + 1, pos, start, files, w, fate, after)
    {
      hide Stands, Apply, FilesFit, TarBytes, Prefix, MatchRight, InRange, EntryBytes, Adds, All, FoundAs,
           MatchedOrigins, Gap;
      var m := ms[n];
      ghost var data, w1 := tar.entries[next - 1].data, dw.State();
      EndsBefore(ms, source.file.size, |data|, n);
      ok := GenerateToMatch(source, m, pos0, start, files, after0);
      pos := m.target.offset + m.target.size;
      after := After(after0, MatchRight(files[source.file.path], analysis, source, m, Part(data, m)));
      if ok {
        MatchAdds(analysis, source, ms, data, n, w, w1, dw.State());
      }
    }

    method GenerateForFileWithRollsums(info: TargetInfo, ghost files: Files, ghost fate: Standing)
      returns (ok: bool, ghost after: Standing)
      requires Valid() && FilesFit(files) && Synced(files, stealing.cursor, fate) && AtFile(info, files)
      requires info.matches.Some?
      modifies this`rest, stealing, dw
      ensures
        var s, ms := analysis.sources[info.source.value], info.matches.value.matches;
        && (ok <==> forall k :: 0 <= k < |ms| ==> InRange(analysis, s, ms[k].source.offset, ms[k].source.size))
        && (ok ==>
              && Valid() && rest == 0 && Synced(files, stealing.cursor, after)
              && after == After(fate, MatchesRight(files[s.file.path], s, ms, tar.entries[next - 1].data, |ms|))
              && var os := MatchedOrigins(analysis, s, ms, tar.entries[next - 1].data, |ms|);
                 && |os| == EndOf(ms, |ms|) <= info.file.size
                 && Adds(old(dw.State()), dw.State(), os + All(Sent, info.file.size - EndOf(ms, |ms|))))
    {
      hide Stands, Apply, FilesFit, TarBytes, Prefix, MatchRight, InRange, EntryBytes, Adds, All, FoundAs, EndOf,
           MatchedOrigins, Gap, AtMatch;
      var source := analysis.sources[info.source.value];
      var matches := info.matches.value.matches;
      var pos: nat := 0;
      ghost var start, w := stealing.cursor, dw.State();
      DataAhead();
      OpenStands(files, w, source.file.path, stealing.source, stealing.cursor, fate);
      OpenAdds(w, source.file.path);
      dw.SetCurrentFile(source.file.path);
      after := fate;
      AtFirstMatch(source, matches, start, files, w, fate);
      for i := 0 to |matches|
        invariant AtMatch(source, matches, i, pos, start, files, w, fate, after)
        invariant forall k :: 0 <= k < i ==>
          InRange(analysis, source, matches[k].source.offset, matches[k].source.size)
      {
        ok, pos, after := NextMatch(source, matches, i, pos, start, files, w, fate, after);
        if !ok {
          return;
        }
      }
      MatchFacts(source, matches, |matches|, pos, start, files, w, fate, after);
      ghost var w1 := dw.State();
      if pos < info.file.size {
        CopyN(info.file.size - pos, files, after);
      }
      RestAdds(w, w1, dw.State(), MatchedOrigins(analysis, source, matches, tar.entries[next - 1].data, |matches|),
               info.file.size - pos);
      ok := true;
    }

    lemma AtFirstMatch(source: SourceInfo, ms: seq<Match>, start: nat, files: Files, w: WriterState, fate: Standing)
      requires Valid() && 0 < next && rest == |tar.entries[next - 1].data| && stealing.cursor == start
      requires source.file.path in files && source.file.size < WORD && dw.currentFile == source.file.path
      requires InOrder(ms, source.file.size, rest) && Synced(files, stealing.cursor, fate)
      requires Adds(w, dw.State(), [])
      ensures AtMatch(source, ms, 0, 0, start, files, w, fate, fate)
    {
      hide Stands, TarBytes, Prefix, EntryBytes, Adds;
      DataAhead();
      NoMatch(analysis, source, ms, tar.entries[next - 1].data);
    }

    lemma MatchFacts(source: SourceInfo, ms: seq<Match>, n: nat, pos: nat, start: nat, files: Files, w: WriterState,
                     fate: Standing, after: Standing)
      requires AtMatch(source, ms, n, pos, start, files, w, fate, after)
      ensures Valid() && 0 < next && n <= |ms| && source.file.path in files
      ensures
        var data := tar.entries[next - 1].data;
        && InOrder(ms, source.file.size, |data|)
        && pos + rest == |data| && stealing.cursor == start + pos && pos == EndOf(ms, n)
        && Synced(files, stealing.cursor, after)
        && after == After(fate, MatchesRight(files[source.file.path], source, ms, data, n))
        && |MatchedOrigins(analysis, source, ms, data, n)| == pos
        && Adds(w, dw.State(), MatchedOrigins(analysis, source, ms, data, n))
    {
      hide Stands, TarBytes, Prefix, EntryBytes, Adds, MatchRight, MatchedOrigins;
    }

    lemma DataAhead()
      requires Valid() && next > 0 && rest == |tar.entries[next - 1].data|
      ensures stealing.cursor + rest <= |stealing.source|
      ensures stealing.source[stealing.cursor..stealing.cursor + rest] == tar.entries[next - 1].data
    {
      EntryRange(tar, next - 1);
    }

    /** Each branch fails exactly if it misses extracted data, and is right exactly if the target says so. */
    method GenerateForFile(info: TargetInfo, ghost files: Files, ghost fate: Standing)
      returns (ok: bool, ghost after: Standing)
      requires Valid() && FilesFit(files) && Synced(files, stealing.cursor, fate) && AtFile(info, files)
      modifies this`rest, stealing, dw
      ensures ok <==> TargetReads(analysis, info, maxBsdiffSize)
      ensures ok ==>
        && Valid() && rest == 0 && Synced(files, stealing.cursor, after)
        && after == After(fate, TargetRight(files, analysis, info, maxBsdiffSize, tar.entries[next - 1].data))
        && Adds(old(dw.State()), dw.State(),
                TargetOrigins(files, analysis, info, maxBsdiffSize, tar.entries[next - 1].data))
        && TargetTiles(files, analysis, info, maxBsdiffSize, tar.entries[next - 1].data)
    {
      hide Stands, Apply, ApplyAll, FilesFit, TarBytes, Prefix, WriteOldFileCalls, InRange, ReadAt, MatchRight, InOrder,
           DifferenceRight, DifferenceOrigins, DifferenceTiles, MatchedOrigins, Adds, All;
      var file := info.file;
      var sourceFile := analysis.sources[info.source.value].file;
      if sourceFile.sha1 == file.sha1 && sourceFile.size == file.size {
        DataAhead();
        OldFileStands(files, dw.State(), sourceFile.path, sourceFile.size, stealing.source, stealing.cursor, fate);
        OldFileAdds(dw.State(), sourceFile.path, sourceFile.size);
        dw.WriteOldFile(sourceFile.path, sourceFile.size);
        SkipRest(files);
        return true, After(fate, tar.entries[next - 1].data <= files[sourceFile.path]);
      } else if maxBsdiffSize == 0 || (file.size < maxBsdiffSize && sourceFile.size < maxBsdiffSize) {
        ok, after := GenerateForFileWithBsdiff(info, files, fate);
      } else if info.matches.Some? && info.matches.value.matchRatio > 20 {
        ok, after := GenerateForFileWithRollsums(info, files, fate);
      } else {
        CopyRest(files, fate);
        return true, fate;
      }
    }

    /** Steals what is left of the current entry and its padding. */
    method FinishEntry(ghost files: Files, ghost fate: Standing)
      requires Valid() && FilesFit(files) && !stealing.ignore && Synced(files, stealing.cursor, fate)
      modifies this`rest, stealing`cursor, dw
      ensures dw.Valid() && Synced(files, stealing.cursor, fate)
      ensures old(stealing.cursor) <= stealing.cursor == |Prefix(tar.entries, next)| <= |stealing.source|
      ensures Adds(old(dw.State()), dw.State(), All(Sent, stealing.cursor - old(stealing.cursor)))
    {
      hide Stands, FilesFit, Adds, All, TarBytes, EntryBytes;
      NothingSent(dw.State());
      PrefixBytes(tar, next);
      if next > 0 {
        hide Prefix;
        EntryRange(tar, next - 1);
        var _ := Pull(rest + |tar.entries[next - 1].padding|, files, fate);
        rest := 0;
      }
    }

    /** Moves to the next header, stealing what is left of the current entry; at the end, part of the trailer. */
    method Next(ghost files: Files, ghost fate: Standing) returns (ok: bool)
      requires Valid() && FilesFit(files) && !stealing.ignore && Synced(files, stealing.cursor, fate)
      modifies this`next, this`rest, stealing`cursor, dw
      ensures dw.Valid() && stealing.cursor <= |stealing.source| && Synced(files, stealing.cursor, fate)
      ensures ok ==> Valid() && next == old(next) + 1 && rest == |tar.entries[next - 1].data|
      ensures !ok ==> next == old(next) == |tar.entries|
      ensures stealing.cursor >= old(stealing.cursor)
      ensures Adds(old(dw.State()), dw.State(), All(Sent, stealing.cursor - old(stealing.cursor)))
    {
      hide Stands, FilesFit, Adds, All, TarBytes, Prefix, EntryBytes;
      ghost var w, at := dw.State(), stealing.cursor;
      FinishEntry(files, fate);
      ghost var w1, mid := dw.State(), stealing.cursor;
      if next == |tar.entries| {
        var k :| 0 <= k <= |stealing.source| - stealing.cursor;
        var _ := Pull(k, files, fate);
        SentOn(w, w1, dw.State(), mid - at, k);
        return false;
      }
      EntryRange(tar, next);
      var _ := Pull(|tar.entries[next].header|, files, fate);
      SentOn(w, w1, dw.State(), mid - at, stealing.cursor - mid);
      rest := |tar.entries[next].data|;
      next := next + 1;
      return true;
    }
  }
}
