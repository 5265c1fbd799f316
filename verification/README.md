# Doras: deltas, their application and the protocols around them

Doras delivers updates of OCI artifacts as deltas. This project models its hardest parts in Dafny and proves what
they are for.

* **The delta compiler** (the vendored tar-diff). `SuffixOrder`, `SuffixRanks`, `SuffixSort`, `SuffixBuckets`: the
  Larsson-Sadakane suffix sort, in place. `Search`: the search in the suffix array. `Segments`, `Bsdiff`: the
  segmenter. `RollingSum`, `Rollsum`, `Matches`: content-defined chunking and block matching. `TarModel`, `Analysis`,
  `SourceChoice`, `DeltaAnalysis`: what to rebuild from what. `DeltaOps`, `DeltaWriter`: the five operations, their
  framing, their meaning, and the buffering writer. `Origins`: which bytes a delta sends, adds to old ones and copies.
  `Generator`, `Diff`, `Reuse`: the generator, the whole differ, and what it saves. The main theorem is `Diff.Diff`:
  when interpreting the delta on the old files yields exactly the new archive, and what the delta has to send for it.
* **Reading sources** (`FileBackedReader`, `DataSource`, `Patcher`): a lazily filled file behind a seekable reader,
  the files of an archive on top of it, and deltas carried out through them. `Patcher.Update` goes from two archives to
  the new one through all of the above.
* **The server protocol** (`Algorithms`, `DeltaServer`, `DeltaServerSafety`, `DeltaServerAnswers`): request handlers and
  delta creations of any number of servers as tasks whose steps interleave, with an inductive invariant, what replies
  say of the run before them, and what can come of every request.
* **The updater** (`UpdaterState`, `StateManager`, `Updater`, `Fetcher`): pulling, patching, recording and resumable
  download, with a cut between any two writes.

Code that updates things step by step is modelled by classes, arrays and loops, and proved against functions and
predicates about which the lemmas speak. Hashes, checksums, what images unpack to, and how patches act are
parameters; a property names injectivity where it needs it. Where a write or a copy is cut off is an input, so that
contracts say exactly what it leaves; reads that may be short, and clocks, are nondeterministic.

Things the proofs brought out:

* The search does not always return the longest match. `Search.SearchExact` has the exact condition,
  `Search.SearchLongest` a sufficient one that is easy to check, `Search.SearchNotLongest` an input.
* bsdiff terminates because a match of length 0 means that the byte does not occur in the old data at all.
* The comment on `SetCurrentFile` (delta.go:83) promises the start of the file; the code leaves the cursor where it
  is if the file is open already (`DeltaWriter.SetCurrentFileRewinds`). Callers seek themselves.
* The search for moved and renamed sources does not leave out overwritten files, although their content is never
  extracted and their path leads to something else. So a delta can fail (`Diff.ReadError`) or be silently wrong
  (`Diff.SilentlyWrong`) if a branch reads such a source, and is right if none does (`Diff.Diff`). Exactly when each
  branch fails and is right is in `Generator.TargetReads`, `Generator.TargetRight` and `Diff.OverwrittenVerdict`;
  bsdiff on unrelated bytes is right if and only if the file found agrees with them on the ranges its segments read
  (`Segments.SegmentsAgree`). The repository lists repeated files as not handled (diff.go:3-5).
* `isDeltaCandidate` is meant for compressed files but tests prefixes of the name, so that "a.xz" is a candidate
  (`SourceChoice.CompressedIsCandidate`).
* A dummy may replace a finished delta, in exactly one way (`DeltaServerSafety.DeltaLost`), and does in a run of two
  servers (`DeltaServerSafety.DummyOverDelta`). A failed dummy push leaves a mark that is never removed.
* An updater can lose its directory while it has a record (`Updater.Client.LoseDirectory`) and then fails until it is
  restarted (`Updater.Client.RetryStuck`).
* A pull can be done and its record be in memory only: if saving it failed and the next pull finds nothing new. The next
  restart then forgets it (`Updater.RecordForgotten`); in every other case records last (`Updater.AsksAgain`).
* A partial download of wrong bytes is a dead end as long as streams can seek (`Fetcher.Ingester.RetryWrong`).
* Records of two directories clash exactly if a comma can be taken for the border between directory and repository
  (`UpdaterState.KeysClash`); a host name may have one.

## Model

| member | source | states |
|---|---|---|
| `SuffixBuckets.QSufSort` | internal/pkg/utils/differutils/tar-diff/bsdiff.go:213-276 | For every byte string the sort terminates and leaves in `iii` every suffix, the empty one included, once and in strictly increasing lexicographic order |
| `SuffixSort.Pass` | internal/pkg/utils/differutils/tar-diff/bsdiff.go:250-271 | One doubling pass turns groups that agree on `h` bytes into groups that agree on `2h`, keeps the negative run lengths over sorted entries, and once `h` exceeds the length merges everything into one run of length n+1, which ends the outer loop |
| `SuffixSort.Split` | internal/pkg/utils/differutils/tar-diff/bsdiff.go:279-354 | Both branches of `split`, although it rewrites ranks that later members of the same group still read: the group is permuted and re-ranked into groups that agree on `2h` bytes, everything outside it is unchanged, and exactly its singletons are marked; recursion is on strictly smaller ranges |
| `SuffixSort.SplitSmall` | internal/pkg/utils/differutils/tar-diff/bsdiff.go:282-304 | The selection loop for fewer than 16 entries meets the same specification |
| `SuffixSort.SelectMin` | internal/pkg/utils/differutils/tar-diff/bsdiff.go:284-295 | The inner scan moves exactly the entries with the smallest key to the front, permuting only the group |
| `SuffixSort.AssignRanks` | internal/pkg/utils/differutils/tar-diff/bsdiff.go:296-298 | The rank of the last index is given to just the listed suffixes |
| `SuffixSort.Partition` | internal/pkg/utils/differutils/tar-diff/bsdiff.go:318-339 | The three-way partition, in place, in two loops: afterwards the entries below, equal to and above the pivot key are contiguous, and the counts from lines 306-316 are their bounds |
| `SuffixSort.CountKeys` | internal/pkg/utils/differutils/tar-diff/bsdiff.go:307-316 | The counts of keys below and equal to the pivot |
| `SuffixSort.RankPivotPart` | internal/pkg/utils/differutils/tar-diff/bsdiff.go:344-349 | Ranking and marking the pivot class refines it and leaves the rest of the group a group |
| `SuffixRanks.AssignStep` | internal/pkg/utils/differutils/tar-diff/bsdiff.go:296-301 | Re-ranking the smallest part of a group keeps rank order sound for all suffixes and leaves the rest a group that can still be split by the new ranks |
| `SuffixRanks.KeyOrders` | internal/pkg/utils/differutils/tar-diff/bsdiff.go:287-287 | Within a group a smaller rank `h` further on means a smaller suffix |
| `SuffixRanks.KeyResolves` | internal/pkg/utils/differutils/tar-diff/bsdiff.go:291-291 | Equal ranks `h` further on mean agreement on `2h` bytes |
| `SuffixRanks.OntoPerm` | internal/pkg/utils/differutils/tar-diff/bsdiff.go:273-275 | A listing that hits every position lists each once |
| `SuffixSort.EntriesGroup` | internal/pkg/utils/differutils/tar-diff/bsdiff.go:259-263 | Every member of a group of two or more, and an unmarked singleton, has `h` bytes, so that every read `vvv[iii[..]+h]` is in bounds |
| `SuffixSort.ScanGroup` | internal/pkg/utils/differutils/tar-diff/bsdiff.go:259-263 | The entries from `i` to the rank found there are one group, ready to be split |
| `SuffixSort.ScanSkips` | internal/pkg/utils/differutils/tar-diff/bsdiff.go:255-257 | Skipping a run of negative length skips only suffixes in final place |
| `SuffixSort.ScanSplit` | internal/pkg/utils/differutils/tar-diff/bsdiff.go:262-265 | After a split the scan invariant holds at the next group |
| `SuffixSort.ScanDoubles` | internal/pkg/utils/differutils/tar-diff/bsdiff.go:250-250 | A finished pass at `h` is a start for the pass at `2h` |
| `SuffixSort.ScanFinal` | internal/pkg/utils/differutils/tar-diff/bsdiff.go:250-250 | Once `h` exceeds the length every suffix is in final place |
| `SuffixBuckets.BucketSort` | internal/pkg/utils/differutils/tar-diff/bsdiff.go:219-248 | Counting, placing, ranking and marking set up the invariant of the first pass, the unmarked singleton of byte 0 included |
| `SuffixBuckets.CountBytes` | internal/pkg/utils/differutils/tar-diff/bsdiff.go:219-230 | After counting and shifting, a bucket holds the number of smaller bytes |
| `SuffixBuckets.Place` | internal/pkg/utils/differutils/tar-diff/bsdiff.go:232-236 | Each position goes to its own slot in the bucket of its byte, and each bucket ends at its last index |
| `SuffixBuckets.RankByBucket` | internal/pkg/utils/differutils/tar-diff/bsdiff.go:238-241 | Ranks are the last indices of the buckets |
| `SuffixBuckets.MarkLone` | internal/pkg/utils/differutils/tar-diff/bsdiff.go:243-248 | Only buckets of one position are marked |
| `SuffixBuckets.Invert` | internal/pkg/utils/differutils/tar-diff/bsdiff.go:273-275 | Inverting final ranks yields the suffix array |
| `SuffixBuckets.PlacedOrdered` | internal/pkg/utils/differutils/tar-diff/bsdiff.go:238-241 | Ranks by first byte order suffixes soundly and resolve one byte |
| `SuffixBuckets.SlotDistinct` | internal/pkg/utils/differutils/tar-diff/bsdiff.go:232-235 | No two positions share a slot, and slots follow the order of the bytes |
| `SuffixBuckets.PlacedScan` | internal/pkg/utils/differutils/tar-diff/bsdiff.go:243-250 | What bucket sorting leaves satisfies the scan invariant at h = 1 |
| `SuffixOrder.LtIsLexLess` | internal/pkg/utils/differutils/tar-diff/bsdiff.go:213-213 | The position-wise order of suffixes is lexicographic order of byte strings |
| `SuffixOrder.LtAfterAgree` | internal/pkg/utils/differutils/tar-diff/bsdiff.go:285-287 | A common prefix does not change the order |
| `Search.Search` | internal/pkg/utils/differutils/tar-diff/bsdiff.go:174-197 | The recursive search on a suffix array returns a position in 0..|oldbin| and exactly the length of the match there |
| `Search.Found` | internal/pkg/utils/differutils/tar-diff/bsdiff.go:174-197 | The result position is in range and the result length is the common prefix there |
| `Search.SearchExact` | internal/pkg/utils/differutils/tar-diff/bsdiff.go:191-196 | Exact condition: the match found is the longest anywhere if and only if no midpoint probed is a suffix that ends inside the query while another suffix matches further |
| `Search.SearchLongest` | internal/pkg/utils/differutils/tar-diff/bsdiff.go:191-196 | In particular the match is the longest whenever no non-empty suffix of the old data is a proper prefix of the query |
| `Search.SearchNotLongest` | internal/pkg/utils/differutils/tar-diff/bsdiff.go:192-193 | A concrete input, "ab" in "aba", for which the truncated comparison makes the search miss the longest match |
| `Search.TruncatedVersusFull` | internal/pkg/utils/differutils/tar-diff/bsdiff.go:192-193 | The truncated comparison is lexicographic order except that a proper prefix does not count as smaller |
| `Search.FoundExact` | internal/pkg/utils/differutils/tar-diff/bsdiff.go:191-196 | On any range that holds the longest match, it is found exactly when no probe falls short |
| `Search.FoundNonEmpty` | internal/pkg/utils/differutils/tar-diff/bsdiff.go:174-197 | If any suffix in the range shares a byte with the query, the match is not empty |
| `Search.EmptyMatch` | internal/pkg/utils/differutils/tar-diff/bsdiff.go:66-79 | An empty match means that the byte does not occur in the old data, which is why skipping it is right |
| `Search.MatchLen` | internal/pkg/utils/differutils/tar-diff/bsdiff.go:199-210 | The length of the common prefix |
| `Bsdiff.Bsdiff` | internal/pkg/utils/differutils/tar-diff/bsdiff.go:40-172 | For all inputs the segmenter terminates; its segments are those that the first stops and the unique best extensions and cuts define, tile the new data, and are what is written |
| `Bsdiff.FindStop` | internal/pkg/utils/differutils/tar-diff/bsdiff.go:65-85 | The scan stops at the first place where the match just continues the alignment or beats it by more than 8 bytes, with `oldscore` equal to the number of matching bytes at `lastoffset` |
| `Bsdiff.CatchUp` | internal/pkg/utils/differutils/tar-diff/bsdiff.go:68-73 | After the catch-up loop `oldscore` counts the matches at `lastoffset` up to the end of the match |
| `Bsdiff.LetGo` | internal/pkg/utils/differutils/tar-diff/bsdiff.go:80-82 | Moving on by one byte keeps the count right |
| `Bsdiff.ForwardLength` | internal/pkg/utils/differutils/tar-diff/bsdiff.go:88-101 | The shortest forward extension of greatest worth |
| `Bsdiff.BackwardLength` | internal/pkg/utils/differutils/tar-diff/bsdiff.go:103-116 | The shortest backward extension of greatest worth |
| `Bsdiff.CutOverlap` | internal/pkg/utils/differutils/tar-diff/bsdiff.go:119-135 | The smallest cut of the overlap with the greatest gain |
| `Bsdiff.EndSegment` | internal/pkg/utils/differutils/tar-diff/bsdiff.go:88-144 | After overlap resolution no length is negative and every range lies inside its data |
| `Bsdiff.EmitSegment` | internal/pkg/utils/differutils/tar-diff/bsdiff.go:141-164 | One add, one extra and one seek per segment |
| `Bsdiff.Difference` | internal/pkg/utils/differutils/tar-diff/bsdiff.go:150-152 | Byte differences modulo 256 |
| `Bsdiff.StopBeats` | internal/pkg/utils/differutils/tar-diff/bsdiff.go:74-87 | A segment ends only at a match that beats the old alignment by more than 8 bytes, or at the end |
| `Segments.NextStopExactly` | internal/pkg/utils/differutils/tar-diff/bsdiff.go:65-85 | A scan passes over no match that continues the alignment to the end of the matches seen or beats it by more than 8 bytes, and stops only at one |
| `Segments.SegmentRanges` | internal/pkg/utils/differutils/tar-diff/bsdiff.go:118-144 | Extra length, backward length and seek target are in range, and an overlap leaves no extra bytes |
| `Segments.AddAfterSub` | internal/pkg/utils/differutils/tar-diff/bsdiff.go:150-152 | Adding the old bytes to the differences yields the new bytes |
| `Segments.WrapCancels` | internal/pkg/utils/differutils/tar-diff/bsdiff.go:144-162 | A negative skip passed as `uint64` cancels modulo 2^64 |
| `Segments.AddAgrees` | internal/pkg/utils/differutils/tar-diff/bsdiff.go:150-152 | Adding the differences to other bytes yields the new bytes if and only if those are the old bytes |
| `Segments.SegmentDoes` | internal/pkg/utils/differutils/tar-diff/bsdiff.go:141-168 | Carrying out the operations of a segment on any file with the cursor at its old position outputs what `SegmentOut` says and leaves the cursor at the next old position, or fails exactly if the file ends before a range it reads or a place it moves to |
| `Segments.SegmentAgrees` | internal/pkg/utils/differutils/tar-diff/bsdiff.go:141-168 | That is the segment's part of the new data if and only if the file agrees with the old data on the range the segment reads |
| `Segments.SegmentsDo` | internal/pkg/utils/differutils/tar-diff/bsdiff.go:59-170 | The same for any number of segments that tile the new data, from the start of any file |
| `Segments.SegmentsAgree` | internal/pkg/utils/differutils/tar-diff/bsdiff.go:59-170 | Their output is the new data if and only if the file agrees with the old data on every range they read |
| `SuffixBuckets.OneSuffixArray` | internal/pkg/utils/differutils/tar-diff/bsdiff.go:213-276 | A byte string has one suffix array only, so what bsdiff does is a function of the two byte strings |
| `Segments.FirstStopIs` | internal/pkg/utils/differutils/tar-diff/bsdiff.go:65-85 | The stop of a scan is the first place that stops it |
| `Segments.EndsOnce` | internal/pkg/utils/differutils/tar-diff/bsdiff.go:88-144 | A match ends a segment in one way only: the shortest best extensions and the smallest best cut are unique |
| `Segments.SegmentsOfIs` | internal/pkg/utils/differutils/tar-diff/bsdiff.go:40-172 | The segments of two byte strings are those of a scan with any suffix array |
| `Bsdiff.SegmentsStep` | internal/pkg/utils/differutils/tar-diff/bsdiff.go:59-87 | A stop that does not just continue the alignment, or the end, cuts one segment off; any other stop leaves what is to come as it is |
| `Bsdiff.ProgressAt` | internal/pkg/utils/differutils/tar-diff/bsdiff.go:59-170 | At every stop the segments cut so far and those to come are together the segments of the two byte strings |
| `Bsdiff.PutSegment` | internal/pkg/utils/differutils/tar-diff/bsdiff.go:87-168 | The segment at a stop is ended in the one best way and written |
| `DeltaWriter.Writer.WriteOp` | internal/pkg/utils/differutils/tar-diff/delta.go:36-53 | One operation is appended to the stream in its framing; the new state of the writer and its stream is the specified one |
| `DeltaWriter.Writer.FlushBuffer` | internal/pkg/utils/differutils/tar-diff/delta.go:55-62 | The buffer becomes one data operation, or nothing happens when it is empty; the new state of the writer and its stream is the specified one |
| `DeltaWriter.Writer.WriteContent` | internal/pkg/utils/differutils/tar-diff/delta.go:73-81 | Bytes are buffered and flushed from 4 MiB on; the new state of the writer and its stream is the specified one |
| `DeltaWriter.Writer.SetCurrentFile` | internal/pkg/utils/differutils/tar-diff/delta.go:84-100 | A file that is not the current one is opened at 0; for the current one the cursor stays; the new state of the writer and its stream is the specified one |
| `DeltaWriter.Writer.SeekTo` | internal/pkg/utils/differutils/tar-diff/delta.go:102-118 | A seek to where the cursor is is left out; the new state of the writer and its stream is the specified one |
| `DeltaWriter.Writer.SeekForward` | internal/pkg/utils/differutils/tar-diff/delta.go:120-133 | The cursor moves modulo 2^64 and a seek is always written; the new state of the writer and its stream is the specified one |
| `DeltaWriter.Writer.CopyFile` | internal/pkg/utils/differutils/tar-diff/delta.go:135-147 | A copy at the cursor; the new state of the writer and its stream is the specified one |
| `DeltaWriter.Writer.WriteAddContent` | internal/pkg/utils/differutils/tar-diff/delta.go:149-162 | An add at the cursor; the new state of the writer and its stream is the specified one |
| `DeltaWriter.Writer.CopyFileAt` | internal/pkg/utils/differutils/tar-diff/delta.go:164-172 | A seek and a copy; the new state of the writer and its stream is the specified one |
| `DeltaWriter.Writer.WriteOldFile` | internal/pkg/utils/differutils/tar-diff/delta.go:174-187 | A whole old file; the new state of the writer and its stream is the specified one |
| `DeltaWriter.CallMeans` | internal/pkg/utils/differutils/tar-diff/delta.go:55-187 | Each call does to the interpreter what it intends, whatever is pending, elided or flushed, and the interpreter's open file and cursor stay those of the writer |
| `DeltaWriter.CallsMean` | internal/pkg/utils/differutils/tar-diff/delta.go:55-187 | For every sequence of calls the emitted operations followed by the pending buffer have the logical effect of the calls |
| `DeltaWriter.StreamMeans` | internal/pkg/utils/differutils/tar-diff/delta.go:22-193 | From scratch and flushed, interpreting the byte stream is carrying out the calls |
| `DeltaWriter.PendingBounded` | internal/pkg/utils/differutils/tar-diff/delta.go:73-81 | Never is a chunk of 4 MiB or more pending |
| `Origins.CallsAdd` | internal/pkg/utils/differutils/tar-diff/delta.go:55-187 | Each call adds bytes of one origin to what the delta makes: sent in a data operation, added to an old byte, or copied; whatever is pending, elided or flushed |
| `Origins.OneEach` | internal/pkg/utils/differutils/tar-diff/delta.go:55-187 | Each byte that operations yield has one origin |
| `Origins.DataIsSent` | internal/pkg/utils/differutils/tar-diff/delta.go:55-62 | The bytes of the data operations are those that are sent |
| `Origins.SegmentsAdd` | internal/pkg/utils/differutils/tar-diff/bsdiff.go:141-168 | The segments of bsdiff add their aligned bytes and send the others |
| `DeltaWriter.PutUvarint` | internal/pkg/utils/differutils/tar-diff/delta.go:39-39 | The variable-length number of the framing |
| `DeltaOps.UvarintRoundTrip` | internal/pkg/utils/differutils/tar-diff/delta.go:37-44 | A size in the framing is read back |
| `DeltaOps.OneRoundTrip` | internal/pkg/utils/differutils/tar-diff/delta.go:36-53 | An operation is read back from its framing, whatever follows |
| `DeltaOps.StreamRoundTrip` | internal/pkg/utils/differutils/tar-diff/delta.go:36-53 | A stream of operations is read back |
| `RollingSum.RollSums` | internal/pkg/utils/differutils/tar-diff/rollsum.go:48-51 | The update by one byte in and one out equals the direct definitions of both sums over the window |
| `RollingSum.EmptySums` | internal/pkg/utils/differutils/tar-diff/rollsum.go:69-70 | The initial values are the sums over a window of zeros, with 248000 as the constant of the second |
| `Rollsum.RollWraps` | internal/pkg/utils/differutils/tar-diff/rollsum.go:49-50 | Updating modulo 2^32 is the direct sum modulo 2^32 |
| `Rollsum.HoldsNext` | internal/pkg/utils/differutils/tar-diff/rollsum.go:53-58 | The ring buffer holds the last 128 bytes of the current blob, and what it drops is the oldest of them |
| `Rollsum.Rollsum.Add` | internal/pkg/utils/differutils/tar-diff/rollsum.go:48-51 | Both sums, modulo 2^32 |
| `Rollsum.Rollsum.Roll` | internal/pkg/utils/differutils/tar-diff/rollsum.go:53-58 | After each byte the sums are the direct definitions over the bytes of the current blob |
| `Rollsum.Rollsum.ShouldSplit` | internal/pkg/utils/differutils/tar-diff/rollsum.go:60-63 | Whether to split depends only on the size and the last 128 bytes of the blob |
| `Rollsum.Rollsum.Init` | internal/pkg/utils/differutils/tar-diff/rollsum.go:65-75 | All rolling state is reset |
| `Rollsum.Rollsum.AddBlob` | internal/pkg/utils/differutils/tar-diff/rollsum.go:77-81 | The blob with its offset, size and checksum is added, and rolling starts afresh |
| `Rollsum.Rollsum.FillHeader` | internal/pkg/utils/differutils/tar-diff/rollsum.go:113-121 | The first 16 bytes written are kept |
| `Rollsum.Rollsum.WriteBytes` | internal/pkg/utils/differutils/tar-diff/rollsum.go:123-137 | The loop of a write keeps the blobs and the pending bytes those of all bytes written |
| `Rollsum.Rollsum.Write` | internal/pkg/utils/differutils/tar-diff/rollsum.go:106-139 | A write only appends to the bytes seen, so how input is split across writes does not matter |
| `RollingSum.BlobsTile` | internal/pkg/utils/differutils/tar-diff/rollsum.go:77-138 | Blobs are contiguous from the offset to the end, of sizes 1 to 32768, each with the checksum of exactly its bytes |
| `RollingSum.BlobsShift` | internal/pkg/utils/differutils/tar-diff/rollsum.go:65-81 | The blobs after a boundary are those of the remaining bytes, shifted |
| `RollingSum.ClosedThen` | internal/pkg/utils/differutils/tar-diff/rollsum.go:65-81 | After data that ends at a split, what follows is chunked as if it stood alone |
| `RollingSum.LastBlob` | internal/pkg/utils/differutils/tar-diff/rollsum.go:91-95 | Pending bytes without a split are one blob |
| `RollingSum.CutBound` | internal/pkg/utils/differutils/tar-diff/rollsum.go:60-63 | No blob exceeds 32768 bytes |
| `RollingSum.SplitsExactly` | internal/pkg/utils/differutils/tar-diff/rollsum.go:60-63 | A blob may end where it has 32768 bytes or the low 13 bits of the second sum are set; the wrap-around of the sums at 32 bits does not matter |
| `RollingSum.BlobsEnd` | internal/pkg/utils/differutils/tar-diff/rollsum.go:123-137 | Every blob ends at the first such place after its start, or at the end of the data |
| `Matches.MakeCrcMap` | internal/pkg/utils/differutils/tar-diff/rollsum.go:141-151 | For every target blob the list under its checksum has the same first alike blob as the whole list |
| `Matches.FirstAlike` | internal/pkg/utils/differutils/tar-diff/rollsum.go:177-187 | The first source blob of equal checksum and size, or none exists |
| `Matches.FindAlike` | internal/pkg/utils/differutils/tar-diff/rollsum.go:177-187 | The inner loop finds it |
| `Matches.AlikeMatched` | internal/pkg/utils/differutils/tar-diff/rollsum.go:170-188 | Every target blob that has an alike source blob is matched, and with the first such |
| `Matches.MatchesInOrder` | internal/pkg/utils/differutils/tar-diff/rollsum.go:170-192 | At most one match per target blob; matches are strictly ordered and disjoint in target offset whatever the sources are |
| `Matches.BlobMatchesInOrder` | internal/pkg/utils/differutils/tar-diff/rollsum.go:163-199 | So for the blobs of any two files, even if equal checksum and size hide different bytes |
| `Analysis.AnalyzeTar` | internal/pkg/utils/differutils/tar-diff/analysis.go:109-164 | Every usable entry is described once, in order, with its digest and blobs, and is marked overwritten if and only if its path comes up again later |
| `Analysis.DescribedExactly` | internal/pkg/utils/differutils/tar-diff/analysis.go:78-107 | Described are just the regular files with a path that are not empty, not sparse, and readable by others |
| `Analysis.MarkOverwritten` | internal/pkg/utils/differutils/tar-diff/analysis.go:134-137 | Marking only the last file of a path is enough, as earlier ones are marked already |
| `Analysis.FileAdded` | internal/pkg/utils/differutils/tar-diff/analysis.go:150-159 | A usable entry extends the description |
| `Analysis.DescribeFile` | internal/pkg/utils/differutils/tar-diff/analysis.go:143-157 | The description of one file |
| `SourceChoice.ChoiceExactly` | internal/pkg/utils/differutils/tar-diff/analysis.go:264-310 | The choice in terms of all old files, and no other: the last kept file of the same digest if it has the same size, and then no delta is made; else, for a candidate, the last kept file at the same path if that is a candidate of similar size; else the candidate of the same name closest in size, later ones winning ties; else the closest of the same name up to the first dot; none exactly if there is none of these |
| `SourceChoice.StemExactly` | internal/pkg/utils/differutils/tar-diff/analysis.go:180-187 | Names are compared up to and including the first dot |
| `SourceChoice.ClosestIsClosest` | internal/pkg/utils/differutils/tar-diff/analysis.go:284-308 | Among eligible files the choice is closest in size, the last of several as close |
| `SourceChoice.FindClosest` | internal/pkg/utils/differutils/tar-diff/analysis.go:285-307 | The loop over sources finds it |
| `SourceChoice.LastKeptIsLast` | internal/pkg/utils/differutils/tar-diff/analysis.go:253-260 | A look-up by digest or path yields the last such file that is not overwritten |
| `SourceChoice.MakeTables` | internal/pkg/utils/differutils/tar-diff/analysis.go:250-260 | The three look-up tables |
| `SourceChoice.ChooseSource` | internal/pkg/utils/differutils/tar-diff/analysis.go:267-310 | The search with the tables makes the choice that `ChoiceExactly` characterises |
| `DeltaAnalysis.TargetMatches` | internal/pkg/utils/differutils/tar-diff/analysis.go:264-322 | Matches are made exactly where a source has to make a delta, and every block alike one of the source is matched |
| `DeltaAnalysis.MakeTargets` | internal/pkg/utils/differutils/tar-diff/analysis.go:262-322 | Each new file gets its source and matches, and a source is used for a delta if and only if some new file needs it |
| `DeltaAnalysis.UsedExactly` | internal/pkg/utils/differutils/tar-diff/analysis.go:262-322 | An old file is used, and its content extracted unless it is overwritten, if and only if a new file of other content has it as source |
| `DeltaAnalysis.IndexTargets` | internal/pkg/utils/differutils/tar-diff/analysis.go:324-328 | Targets by entry index |
| `DeltaAnalysis.ExtractDeltaData` | internal/pkg/utils/differutils/tar-diff/analysis.go:203-234 | The contents of the wanted entries, one after the other, each at its recorded offset |
| `DeltaAnalysis.PackedHolds` | internal/pkg/utils/differutils/tar-diff/analysis.go:225-231 | The range of a wanted entry holds its content and ends before that of any later one |
| `DeltaAnalysis.ExtractionOk` | internal/pkg/utils/differutils/tar-diff/analysis.go:203-234 | Every source used that is not overwritten has its content in its range, and ranges are disjoint and in archive order |
| `DeltaAnalysis.AnalyzeForDelta` | internal/pkg/utils/differutils/tar-diff/analysis.go:244-340 | The whole analysis: targets, sources used, and extracted ranges |
| `TarModel.LastOfPath` | internal/pkg/utils/differutils/tar-diff/analysis.go:134-137 | The last entry of a path is what a reader of the archive finds there |
| `Generator.StealerReader.Read` | internal/pkg/utils/differutils/tar-diff/stealerreader.go:21-35 | What is read is the next part of the source, and it is written to the delta exactly unless ignored |
| `Generator.DeltaGenerator.Pull` | internal/pkg/utils/differutils/tar-diff/diff.go:43-62 | However the reads are portioned, all bytes pulled are stolen or none is |
| `Generator.DeltaGenerator.ReadN` | internal/pkg/utils/differutils/tar-diff/diff.go:43-48 | The next bytes, not copied to the delta |
| `Generator.DeltaGenerator.CopyN` | internal/pkg/utils/differutils/tar-diff/diff.go:58-62 | The next bytes, copied |
| `Generator.DeltaGenerator.SkipRest` | internal/pkg/utils/differutils/tar-diff/diff.go:36-40 | The rest of the entry, not copied |
| `Generator.DeltaGenerator.CopyRest` | internal/pkg/utils/differutils/tar-diff/diff.go:51-55 | The rest of the entry, copied |
| `Generator.DeltaGenerator.Next` | internal/pkg/utils/differutils/tar-diff/diff.go:224-233 | Moving to the next header steals whatever of the previous entry and of padding and header is read |
| `FileBackedReader.FileBackedReadSeekCloser.Read` | internal/pkg/utils/readseekcloserwrapper/readseekcloserwrapper.go:50-89 | From any state, a read yields the bytes of the full sequence at the cursor and moves it by their number, and the end is reported exactly at or past the end |
| `FileBackedReader.FileBackedReadSeekCloser.Seek` | internal/pkg/utils/readseekcloserwrapper/readseekcloserwrapper.go:92-100 | The cursor goes to the target or, for a negative one, fails and goes to 0; seeking from the end is right if and only if everything has been read and flushed |
| `FileBackedReader.FileBackedReadSeekCloser.Take` | internal/pkg/utils/readseekcloserwrapper/readseekcloserwrapper.go:31-34 | Bytes taken from the reader also reach the backing file or its buffer |
| `FileBackedReader.FileBackedReadSeekCloser.TakeAll` | internal/pkg/utils/readseekcloserwrapper/readseekcloserwrapper.go:51-58 | Reading ahead takes just the missing bytes |
| `DataSource.DataSource.SetCurrentFile` | internal/pkg/delta/tarfsdatasource/tarfsdatasource.go:116-130 | A known path is opened at its start; an unknown one changes nothing |
| `DeltaServerSafety.SuccessIsRight` | internal/pkg/core/dorasengine/dorasengine.go:216-246 | In every run of any number of servers and requests, a success names a manifest that is no dummy and was built for exactly the digests and algorithms of the request, whose blob is in the registry and whose media type the updater reads back as those algorithms |
| `DeltaServerSafety.OnePush` | internal/pkg/delegates/delta/deltadelegate.go:99-111 | In every run at most one push per location is in flight on a server |
| `DeltaServerSafety.WaitEnds` | internal/pkg/core/dorasengine/dorasengine.go:51-63 | In every run the wait group of a server is zero exactly when no handler and no creation is left, so that stopping waits for every accepted creation |
| `DeltaServerSafety.StepSafe` | internal/pkg/core/dorasengine/dorasengine.go:87-276 | Every step of every task, and the death of a server, keeps the registry, the replies, the wait groups and the marks right; when a handler answers what is in `DeltaServerAnswers` |
| `DeltaServerSafety.RunSafe` | internal/pkg/core/dorasengine/dorasengine.go:87-276 | So does every run |
| `DeltaServerSafety.StepCounted` | internal/pkg/core/dorasengine/dorasengine.go:92-93 | Every step keeps each wait group equal to the number of live handlers and creations of its server |
| `DeltaServerSafety.TakeCounted` | internal/pkg/core/dorasengine/dorasengine.go:264-276 | A creation joins the wait group before its handler leaves it |
| `DeltaServerSafety.TurnRegistry` | internal/pkg/delegates/registry/delegate.go:118-234 | Whatever a step puts at a location, a dummy has its creation time and anything else is the delta that belongs there, its blob pushed before its tag |
| `DeltaServerSafety.StepRegistry` | internal/pkg/core/dorasengine/dorasengine.go:216-246 | So what a handler found earlier stays right although other servers write in between |
| `DeltaServerSafety.ActiveTurned` | internal/pkg/delegates/delta/deltadelegate.go:99-111 | Entering and leaving a push keep marks and pushes in one-to-one correspondence |
| `DeltaServerSafety.TakeActive` | internal/pkg/delegates/delta/deltadelegate.go:86-121 | Every step keeps them so |
| `DeltaServerSafety.LocationTells` | internal/pkg/delegates/delta/deltadelegate.go:54-71 | With an injective hash and digests of one length, a location determines repository, digests and algorithms |
| `DeltaServerSafety.AskedStays` | internal/pkg/core/dorasengine/dorasengine.go:185-189 | What a request resolved to does not change |
| `DeltaServerSafety.DeltaLost` | internal/pkg/delegates/registry/delegate.go:192-234 | A delta in place is replaced in a step if and only if a handler that looked before pushes its dummy there |
| `DeltaServerSafety.DummyOverDelta` | internal/pkg/core/dorasengine/dorasengine.go:216-248 | A reachable state of two servers in which that happens |
| `DeltaServerSafety.MarkStays` | internal/pkg/delegates/registry/delegate.go:195-199 | The mark left by a failed dummy push is never taken back, and no dummy is pushed there by that server any more |
| `DeltaServerAnswers.AcceptedMeans` | internal/pkg/core/dorasengine/dorasengine.go:216-276 | In every run, who is told that the delta is in work was told so because the handler found a dummy and judged it not to have expired, or because it launched a creation after it had found nothing or only an expired dummy |
| `DeltaServerAnswers.SuccessMeans` | internal/pkg/core/dorasengine/dorasengine.go:222-228 | In every run, who is given a delta is given what the handler found, and that was not a dummy |
| `DeltaServerAnswers.MakingMeans` | internal/pkg/core/dorasengine/dorasengine.go:233-276 | In every run, a handler pushes a dummy or launches a creation only if it found nothing or an expired dummy, and launches only after pushing |
| `DeltaServerAnswers.FoundIsJudged` | internal/pkg/core/dorasengine/dorasengine.go:216-237 | What a handler does on finding a manifest: it answers with a delta, accepts on a dummy that has not expired and starts nothing, and goes on to make the delta on one that has |
| `DeltaServerAnswers.MissingIsOpen` | internal/pkg/core/dorasengine/dorasengine.go:238-240 | So it goes on if it finds nothing or fails to look |
| `DeltaServerAnswers.OpenIsMade` | internal/pkg/core/dorasengine/dorasengine.go:242-276 | It can then push the dummy, launch a creation and accept |
| `DeltaServerAnswers.CreationMakes` | internal/pkg/delegates/delta/deltadelegate.go:86-121 | A creation can put its delta in place, blob before tag, and leaves its mark behind it as it was |
| `DeltaServerAnswers.PushedIsLeft` | internal/pkg/delegates/delta/deltadelegate.go:99-105 | A creation whose server is already pushing to the same location ends and changes nothing |
| `DeltaServerAnswers.ExpiredIsMade` | internal/pkg/core/dorasengine/dorasengine.go:216-276 | So a delta whose maker died can always be made by a later request, once its dummy has expired |
| `DeltaServerAnswers.DeadIsRemade` | internal/pkg/core/dorasengine/dorasengine.go:216-276 | Even by the server that died, once it is started again: it starts without marks and without tasks |
| `Algorithms.ChooseAlgorithms` | internal/pkg/algorithmchoice/algorithmchoice.go:67-95 | Tardiff exactly for unpacked artifacts where it is accepted, compression only where accepted and zstd before gzip; bsdiff otherwise, accepted or not |
| `Algorithms.MediaTypeRoundTrip` | pkg/client/updater/client.go:66-92 | The updater patches with exactly the algorithms the server chose |
| `Algorithms.TagSuffixTells` | internal/pkg/algorithmchoice/algorithmchoice.go:40-45 | Different choices have different suffixes |
| `UpdaterState.SetArtifactState` | pkg/client/updater/updaterstate/updaterstate.go:24-43 | Only an image with a digest is recorded; its record replaces that of its repository and no other |
| `UpdaterState.KeyTellsRepo` | pkg/client/updater/updaterstate/updaterstate.go:29-29 | Within a directory keys determine repositories |
| `StateManager.Manager.Load` | pkg/client/updater/statemanager/statemanager.go:75-116 | Entries of the file win over those in memory; a missing, empty or truncated file leaves the memory as it is |
| `StateManager.Manager.Commit` | pkg/client/updater/statemanager/statemanager.go:49-72 | The state is in the file exactly if emptying, writing and syncing go through; otherwise the file is old, broken or new as far as they went |
| `StateManager.Manager.ModifyState` | pkg/client/updater/statemanager/statemanager.go:120-165 | The change is made to what file and memory hold together, and a refused change writes nothing |
| `Updater.Client.PullAsync` | pkg/client/updater/client.go:96-121 | A delta is asked for if and only if the directory holds the contents of the recorded image, and from that image; what a pull then does to directory, memory and file is exact for every reply and every place where it can be cut off |
| `Updater.PullTells` | pkg/client/updater/client.go:96-171 | What that means: when a pull fails, waits, is done and is cut off, each if and only if; when done, the directory holds the target and memory and file say so; when failed or waiting, nothing changes |
| `Updater.Client.PullDeltaImage` | pkg/client/updater/client.go:123-171 | Identical, incompatible, refused, accepted and successful replies; patching in place and recording, as far as each goes through |
| `Updater.Client.PatchAll` | pkg/client/updater/client.go:150-155 | Patches applied one after the other compose, and are cut off only where the call says; that may leave anything |
| `Updater.Client.PullFullImage` | pkg/client/updater/client.go:198-270 | The directory is replaced by the contents of the image and recorded, step by step as far as these go through: unchanged, partly gone, gone, new without a record, or recorded |
| `Updater.Client.SaveState` | pkg/client/updater/client.go:258-268 | The record has the hash of the contents of its image, in memory, and on disk as far as writing goes through |
| `Updater.Client.Start` | pkg/client/updater/builder.go:83-138 | A new process reads all records of the file, unless that cannot be read or is of the first version, and writes them back; a directory that is missing is made, any other is left alone; where it is cut off says what the file is |
| `Updater.Client.Run` | pkg/client/updater/client.go:96-270 | Over any run of pulls and restarts, each cut off anywhere: a pull happens exactly if the last restart got to its end, and the log is one history in which each entry is as `Start` and `PullAsync` say |
| `Updater.AsksAgain` | pkg/client/updater/client.go:96-121 | In such a history, after a pull that was done and until the directory changes, the next pull of the repository asks from exactly that image however often the updater is restarted, if the record is in the file; if it is in memory only, exactly until the next restart |
| `Updater.DoneRemembers` | pkg/client/updater/client.go:123-171 | After a pull that was done the record is in the file, except if nothing was new and it was not there before |
| `Updater.RecordForgotten` | pkg/client/updater/client.go:96-171 | A history with that exception: the record cannot be saved, the next pull finds nothing new and is done, and after a restart no delta is asked for |
| `Updater.Client.Recover` | pkg/client/updater/client.go:96-121 | After any crash, a restart and one pull that nothing cuts off end with the target in place and recorded, or with its delta awaited, unless they fail for a target, a server or a refusal |
| `Updater.Client.RetryStuck` | pkg/client/updater/client.go:111-114 | A process that lost its directory while it has a record fails every pull until it is restarted |
| `Fetcher.Ingester.Ingest` | pkg/client/updater/fetcher/fetcher.go:191-250 | From any leftover an attempt is cut off exactly by a fault that strikes while bytes are still to be copied or when all is right but not moved; otherwise it completes if and only if leftover and stream make up bytes of the expected size and digest, and exactly these are moved; in all other cases the file is the leftover with exactly what was copied, continued where the stream can seek and overwritten from 0 where not |
| `Fetcher.Ingester.CopyAll` | pkg/client/updater/fetcher/fetcher.go:226-234 | The file is overwritten by all of the stream, or by exactly what was copied before the fault |
| `Fetcher.Ingester.HashOldContents` | pkg/client/updater/fetcher/fetcher.go:252-273 | Where the stream can seek, it goes on after the leftover, which is hashed; else all starts from 0 |
| `Fetcher.Ingester.Download` | pkg/client/updater/fetcher/fetcher.go:191-273 | Across any number of attempts, what is in the completed directory has the expected size and digest; with right content served it gets there if and only if some attempt gets to copy all that those before it left missing, in particular if one has no fault |
| `Fetcher.AttemptRight` | pkg/client/updater/fetcher/fetcher.go:191-250 | With right content served, the length of the leftover alone tells whether an attempt is cut off and what it leaves |
| `Fetcher.AttemptsAddUp` | pkg/client/updater/fetcher/fetcher.go:208-234 | On streams that can seek the attempts complete if and only if the bytes they copy add up to what was missing: none is copied twice |
| `Fetcher.PrefixGood` | pkg/client/updater/fetcher/fetcher.go:208-234 | A leftover prefix of the right content is completed to it |
| `Generator.DeltaGenerator.ReadSourceData` | internal/pkg/utils/differutils/tar-diff/diff.go:65-73 | A part of the extracted data at a source's recorded place, or an error exactly if there are too few bytes |
| `Generator.DeltaGenerator.GenerateForFileWithBsdiff` | internal/pkg/utils/differutils/tar-diff/diff.go:75-105 | It fails exactly if the extracted data is too short for the source; otherwise it is right exactly if what a reader finds under the path agrees with what was read wherever the segments read it |
| `Generator.DeltaGenerator.EmitMatch` | internal/pkg/utils/differutils/tar-diff/diff.go:139-149 | Equal bytes are copied and others written out, so that a checksum collision does no harm; a copy is right exactly if the path holds these bytes there |
| `Generator.DeltaGenerator.GenerateForMatch` | internal/pkg/utils/differutils/tar-diff/diff.go:130-150 | One matched range: it fails exactly if extracted data is missing, else the standing of the delta afterwards is exact |
| `Generator.DeltaGenerator.GenerateForFileWithRollsums` | internal/pkg/utils/differutils/tar-diff/diff.go:108-159 | Literal, copied and fallback ranges tile the file, with `pos <= matchStart` throughout; it fails exactly if a match lacks extracted data and is right exactly if every match is |
| `Generator.DeltaGenerator.GenerateForFile` | internal/pkg/utils/differutils/tar-diff/diff.go:162-193 | For any source, overwritten or not, the four branches fail exactly where extracted data is missing, and leave the delta right exactly where the branch reproduces the file; what is sent, added and copied is exact |
| `Generator.AstrayStays` | internal/pkg/utils/differutils/tar-diff/delta.go:36-187 | A delta that has gone wrong stays wrong whatever is written after |
| `Generator.BsdiffStands` | internal/pkg/utils/differutils/tar-diff/diff.go:79-99 | Operations of bsdiff, whatever old data it worked on, keep a right delta right if and only if what a reader finds agrees with that data on every range the segments read |
| `Generator.CopyStands` | internal/pkg/utils/differutils/tar-diff/diff.go:139-143 | A copied range keeps it right if and only if the open file holds the next bytes there |
| `Generator.OldFileStands` | internal/pkg/utils/differutils/tar-diff/diff.go:168-175 | A reused old file keeps it right if and only if what a reader finds under its path starts with the next bytes |
| `Diff.GenerateDelta` | internal/pkg/utils/differutils/tar-diff/diff.go:196-257 | It fails exactly if some entry misses extracted data; otherwise the delta yields exactly the new archive (headers, data, padding and trailer) if and only if every entry is reproduced by its branch; and read back it sends, adds and copies, byte by byte, just what the branches say |
| `Diff.Diff` | internal/pkg/utils/differutils/tar-diff/diff.go:279-315 | For any two archives, if equal digest and size mean equal content, and for any files in which each kept file of the old archive is found: when the differ fails, when its delta is right, and which bytes it sends, adds and copies is decided for all inputs by the verdict of `GenerateDelta`; it succeeds and the delta yields exactly the new archive whenever no branch reads an overwritten source, in particular whenever no path occurs twice |
| `Reuse.FileMade` | internal/pkg/utils/differutils/tar-diff/diff.go:162-193 | Which bytes of a new file the delta sends, adds and copies, by the source chosen for it, the digests and sizes of both, and the share of blocks that match |
| `Reuse.ExactIsCopied` | internal/pkg/utils/differutils/tar-diff/diff.go:166-175 | No byte of a new file is sent if the last kept old file of its digest has its size: all of them are copied |
| `Reuse.SentExactly` | internal/pkg/utils/differutils/tar-diff/diff.go:196-257 | The data operations carry as many bytes as the archive has, less the data of reused files, the blocks found equal in the extracted data, and what the segments of bsdiff add |
| `Reuse.EntryMade` | internal/pkg/utils/differutils/tar-diff/diff.go:196-257 | The bytes at the place of an entry in the archive are the ones its branch makes |
| `Diff.LastContents` | internal/pkg/utils/differutils/tar-diff/analysis.go:134-137 | The last contents by path are such files |
| `DataSource.ShownFinds` | internal/pkg/delta/tarfsdatasource/tarfsdatasource.go:46-63 | So is what the data source shows, whatever the header sizes of directories, links and sparse files are |
| `Diff.DiffAnalyzed` | internal/pkg/utils/differutils/tar-diff/diff.go:306-314 | The same for given descriptions of the archives; sources that are overwritten but only lead to the copy branch do no harm |
| `Diff.OverwrittenVerdict` | internal/pkg/utils/differutils/tar-diff/analysis.go:203-260 | On an overwritten source bsdiff fails if and only if fewer bytes were extracted than its size, matching if and only if a match ends beyond them, and reuse is right if and only if the last content under the path starts with the new bytes |
| `Diff.SilentlyWrong` | internal/pkg/utils/differutils/tar-diff/diff.go:168-175 | Two archives for which every outcome of the differ is a delta that is wrong, because an overwritten file is reused |
| `Diff.ReadError` | internal/pkg/utils/differutils/tar-diff/diff.go:65-73 | Two archives for which every outcome of the differ is a failure, because bsdiff needs an overwritten file |
| `Diff.OverwrittenSourceChosen` | internal/pkg/utils/differutils/tar-diff/analysis.go:284-308 | The search for moved files picks an overwritten file: what both are made of |
| `Diff.KeptIsRight` | internal/pkg/utils/differutils/tar-diff/analysis.go:244-340 | Where no overwritten source is read, every entry is read in full and reproduced, by any of the four branches |
| `Diff.EntriesFit` | internal/pkg/utils/differutils/tar-diff/analysis.go:244-340 | What analysis leaves fits the new archive: sizes, sources under paths that are found, matches inside both files |
| `Diff.NothingOverwritten` | internal/pkg/utils/differutils/tar-diff/analysis.go:134-137 | Without repeated paths no overwritten source is read |
| `DeltaAnalysis.PackedIsExtract` | internal/pkg/utils/differutils/tar-diff/analysis.go:213-232 | What is extracted is the content of the needed files that are not overwritten, in archive order |
| `DataSource.DataSource.constructor` | internal/pkg/delta/tarfsdatasource/tarfsdatasource.go:30-65 | For any archive the table holds, for each path, where the data of its last entry starts and the size its header has |
| `DataSource.DataSource.ReadEntries` | internal/pkg/delta/tarfsdatasource/tarfsdatasource.go:46-63 | Stepping through the archive builds that table |
| `DataSource.DataSource.Seek` | internal/pkg/delta/tarfsdatasource/tarfsdatasource.go:84-104 | The cursor moves to a target from 0 to the header's size, ends included, and to no other |
| `DataSource.DataSource.Read` | internal/pkg/delta/tarfsdatasource/tarfsdatasource.go:67-82 | The bytes at the cursor, never beyond the entry or the archive; the end is reported when fewer come than asked for |
| `DataSource.ShownAreFiles` | internal/pkg/delta/tarfsdatasource/tarfsdatasource.go:46-63 | Where header sizes tell, that is a map from paths to the content of their last entry |
| `DataSource.BytesAtRead` | internal/pkg/delta/tarfsdatasource/tarfsdatasource.go:71-74 | A limited read is a part of the entry's bytes |
| `Patcher.ApplyOne` | internal/pkg/delta/tarfsdatasource/tarfsdatasource.go:67-130 | An operation the interpreter can carry out is carried out through the data source, with the same bytes, file and cursor |
| `Patcher.Apply` | internal/pkg/delta/tarfsdatasource/tarfsdatasource.go:67-130 | So are all operations of a delta |
| `Patcher.Update` | internal/pkg/utils/differutils/tar-diff/diff.go:279-315 | Differ, framing, file-backed reader and data source together: the delta, read back and carried out on the old archive through its data source, yields the new archive whenever no branch reads an overwritten source, whatever else the old archive holds |
| `Rollsum.Rollsum.Flush` | internal/pkg/utils/differutils/tar-diff/rollsum.go:91-95 | The pending bytes become a last blob; what is written later is chunked afresh from that position |
| `Rollsum.Rollsum.GetBlobs` | internal/pkg/utils/differutils/tar-diff/rollsum.go:97-100 | The blobs are a function of all bytes written, those since an earlier flush chunked on their own; writing can go on |
| `RollingSum.SplitsAlike` | internal/pkg/utils/differutils/tar-diff/rollsum.go:48-63 | Two blobs of one size with the same last 128 bytes, or the same bytes if shorter, split alike |
| `RollingSum.Resynchronised` | internal/pkg/utils/differutils/tar-diff/rollsum.go:65-81 | Two files that each have a boundary before the same bytes have the same blobs, up to offsets, from there on |
| `Matches.ComputeRollsumMatches` | internal/pkg/utils/differutils/tar-diff/rollsum.go:163-199 | For target blobs in any order: the matches, one per matched target blob, sorted by target offset, with their ratio in percent and their bytes |
| `Matches.SortByOffset` | internal/pkg/utils/differutils/tar-diff/rollsum.go:190-192 | Sorting permutes, orders by target offset, and leaves alone what is in order |
| `Matches.MatchesIncrease` | internal/pkg/utils/differutils/tar-diff/rollsum.go:170-188 | Target blobs in order give matches in order |
| `SourceChoice.CompressedIsCandidate` | internal/pkg/utils/differutils/tar-diff/analysis.go:166-178 | A name that ends in a compression suffix is ruled out if and only if nothing comes before the suffix or that itself starts like one |
| `DeltaWriter.SetCurrentFileRewinds` | internal/pkg/utils/differutils/tar-diff/delta.go:83-100 | The cursor is at the start afterwards if and only if the file was not open or its cursor was there |
| `DeltaWriter.NotRewound` | internal/pkg/utils/differutils/tar-diff/delta.go:83-100 | After a copy from the open file it is not |
| `DeltaWriter.WordFits` | internal/pkg/utils/differutils/tar-diff/delta.go:36-40 | The ten bytes reserved for a size are enough for every 64-bit number |
| `UpdaterState.KeysClash` | pkg/client/updater/updaterstate/updaterstate.go:29-29 | Keys of directories of different lengths are equal if and only if a comma of the longer one can be taken for the border |
| `UpdaterState.KeysTell` | pkg/client/updater/updaterstate/updaterstate.go:29-29 | So keys determine directory and repository if no repository has a comma |
| `UpdaterState.KeysCanClash` | pkg/client/updater/updaterstate/updaterstate.go:24-54 | A record made for one directory and repository is found for another |
| `Updater.Client.LoseDirectory` | pkg/client/updater/client.go:247-250 | A process with a record, even with everything in order, loses its directory if the new one cannot be moved, and is then stuck |
| `Fetcher.GoodExactly` | pkg/client/updater/fetcher/fetcher.go:252-273 | If only the right content has the expected hash, an attempt can complete if and only if the leftover is a part of it or the stream cannot seek |
| `Fetcher.Ingester.RetryWrong` | pkg/client/updater/fetcher/fetcher.go:191-250 | So over any number of attempts on streams that can seek, a wrong leftover stays wrong and none completes |
| `DeltaServerSafety.RunCounted` | internal/pkg/core/dorasengine/dorasengine.go:92-93 | In every run wait groups count, whatever the hash |
| `DeltaServerSafety.RunActive` | internal/pkg/delegates/delta/deltadelegate.go:99-111 | In every run marks and pushes correspond, whatever the hash |

## Left out

- `Matches.ComputeRollsumMatches`: the target must have a blob, as the source divides by their number.
- `DataSource.DataSource.Seek`: requires an open file; the source dereferences a nil entry without one.
- `Patcher.Apply`: carries out operations that the interpreter can carry out; what the library does with others is not part of this model.
- `Updater.Client.PullFullImage`: downloading and unpacking are one step that either yields the contents of the image or fails; permissions are not modelled.
- `Updater.Client.Run`: what a target names does not change during one call, replies are honest, patches do what the server says, and nobody else edits the directory or the state file.
- `DeltaServerSafety.SuccessIsRight`: assumes an injective hash, SHA-256 digests, and that only servers write delta tags.
- `DeltaServerSafety.WaitEnds`: requests do not arrive while the server already waits for none; the HTTP server is not part of this model.
- `Fetcher.Ingester.Ingest`: a seek fails exactly past the end of the content.
- Path cleaning: entries carry cleaned paths; the root is called "." by readers. Otherwise `cleanPath` and the data source's `path.Clean` differ on absolute paths and on paths that leave the root, which is not modelled.
- Integer widths other than the writer's 64-bit and the chunker's 32-bit arithmetic: sizes are below 2^63, as Go's are.
- I/O errors in the differ, the reader and the data source other than reads beyond the extracted data: writes and reads succeed.
- The header magic and zstd framing of a delta file, and the numbering of operation codes, which come from a package that is not part of this model (codes 0 to 4 are used).
- Tar header parsing, sparse files, compression, SHA-1, SHA-256 and CRC-32.
- The library that applies deltas and the other bsdiff: the five operations are interpreted by a specification function.
- Registry clients, credentials, manifests as JSON, image strings, HTTP, configuration, metrics, logging, back-off and progress.
- The checks by which a handler rejects a request before it looks for a delta: any of them may fail at any time.
- Locks of the file system: a locked section is one step, and a crash is a stop between steps.
