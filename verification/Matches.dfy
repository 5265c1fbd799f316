/** Matching the blobs of a new file with blobs of an old one. */
module Matches {
  import opened Bytes
  import opened Options
  import opened RollingSum

  datatype Match = Match(source: Blob, target: Blob)

  datatype RollsumMatches = RollsumMatches(matches: seq<Match>, matchRatio: int, matchSize: nat)

  predicate Alike(f: Blob, t: Blob)
  {
    f.crc32 == t.crc32 && f.size == t.size
  }

  /** The first source blob with the checksum and the size of `t`. */
  function FirstAlike(source: seq<Blob>, t: Blob): (r: Option<Blob>)
    ensures r.Some? ==> r.value in source && Alike(r.value, t)
    ensures r.None? ==> forall f | f in source :: !Alike(f, t)
  {
    if source == [] then None
    else if Alike(source[0], t) then Some(source[0])
    else FirstAlike(source[1..], t)
  }

  /** At most one match for each target blob, in target order. */
  function MatchesOf(source: seq<Blob>, target: seq<Blob>): seq<Match>
  {
    if target == [] then []
    else
      var t := target[|target| - 1];
      var f := FirstAlike(source, t);
      MatchesOf(source, target[..|target| - 1]) + if f.Some? then [Match(f.value, t)] else []
  }

  function MatchedBytes(ms: seq<Match>): nat
  {
    if ms == [] then 0 else MatchedBytes(ms[..|ms| - 1]) + ms[|ms| - 1].source.size
  }

  /** Matches that can be worked through from left to right. */
  ghost predicate InOrder(ms: seq<Match>, sourceSize: nat, targetSize: nat)
  {
    && (forall i | 0 <= i < |ms| ::
          && ms[i].source.size == ms[i].target.size
          && ms[i].source.offset + ms[i].source.size <= sourceSize
          && ms[i].target.offset + ms[i].target.size <= targetSize)
    && (forall i, j | 0 <= i < j < |ms| :: ms[i].target.offset + ms[i].target.size <= ms[j].target.offset)
  }

  lemma {:induction false} ConsecutiveBefore(bs: seq<Blob>, i: nat, j: nat)
    requires i < j < |bs|
    requires forall i, j | 0 <= i && j == i + 1 < |bs| :: bs[j].offset == bs[i].offset + bs[i].size
    ensures bs[i].offset + bs[i].size <= bs[j].offset
    decreases j
  {
    if i + 1 >= j {
    } else {
      ConsecutiveBefore(bs, i, j - 1);
      assert bs[j].offset == bs[j - 1].offset + bs[j - 1].size;
    }
  }

  /** Every target blob that has an alike source blob is matched, and with the first such. */
  lemma {:induction false} AlikeMatched(source: seq<Blob>, target: seq<Blob>, i: nat, j: nat)
    requires i < |source| && j < |target| && Alike(source[i], target[j])
    ensures exists k ::
              && 0 <= k <= i && Alike(source[k], target[j])
              && (forall l :: 0 <= l < k ==> !Alike(source[l], target[j]))
              && Match(source[k], target[j]) in MatchesOf(source, target)
    decreases |target|
  {
    hide Alike, MatchesOf;
    if j < |target| - 1 {
      AlikeMatched(source, target[..|target| - 1], i, j);
      MatchesMore(source, target);
    } else {
      var k := FirstAlikeAt(source, target[j], i);
      MatchesMore(source, target);
    }
  }

  lemma MatchesMore(source: seq<Blob>, target: seq<Blob>)
    requires target != []
    ensures
      var init, t := target[..|target| - 1], target[|target| - 1];
      && (forall m | m in MatchesOf(source, init) :: m in MatchesOf(source, target))
      && (FirstAlike(source, t).Some? ==> Match(FirstAlike(source, t).value, t) in MatchesOf(source, target))
  {
    hide FirstAlike;
  }

  lemma {:induction false} FirstAlikeAt(source: seq<Blob>, t: Blob, i: nat) returns (k: nat)
    requires i < |source| && Alike(source[i], t)
    ensures k <= i && FirstAlike(source, t) == Some(source[k]) && Alike(source[k], t)
    ensures forall l :: 0 <= l < k ==> !Alike(source[l], t)
  {
    hide Alike;
    if Alike(source[0], t) {
      k := 0;
    } else {
      k := FirstAlikeAt(source[1..], t, i - 1);
      k := k + 1;
      assert forall l :: 0 < l < k ==> source[l] == source[1..][l - 1];
    }
  }

  lemma InOrderMore(ms: seq<Match>, m: Match, sourceSize: nat, targetSize: nat)
    requires InOrder(ms, sourceSize, targetSize) && m.source.size == m.target.size
    requires m.source.offset + m.source.size <= sourceSize && m.target.offset + m.target.size <= targetSize
    requires forall i | 0 <= i < |ms| :: ms[i].target.offset + ms[i].target.size <= m.target.offset
    ensures InOrder(ms + [m], sourceSize, targetSize)
  {
  }

  /** Blobs that follow each other within `size` bytes. */
  ghost predicate InTurn(bs: seq<Blob>, size: nat)
  {
    && (forall i | 0 <= i < |bs| :: bs[i].offset + bs[i].size <= size)
    && (forall i, j | 0 <= i < j < |bs| :: bs[i].offset + bs[i].size <= bs[j].offset)
  }

  lemma LastInTurn(bs: seq<Blob>, size: nat)
    requires InTurn(bs, size) && bs != []
    ensures
      var init, last := bs[..|bs| - 1], bs[|bs| - 1];
      && InTurn(init, size) && last.offset + last.size <= size
      && forall t | t in init :: t.offset + t.size <= last.offset
  {
  }

  lemma {:induction false} TargetsOfMatches(source: seq<Blob>, target: seq<Blob>)
    ensures forall i | 0 <= i < |MatchesOf(source, target)| :: MatchesOf(source, target)[i].target in target
    decreases |target|
  {
    hide FirstAlike;
    if target == [] {
    } else {
      TargetsOfMatches(source, target[..|target| - 1]);
    }
  }

  /** Matches of consecutive target blobs are ordered and disjoint, whatever the source blobs are. */
  lemma {:induction false} MatchesInOrder(source: seq<Blob>, target: seq<Blob>, sourceSize: nat, targetSize: nat)
    requires (forall f | f in source :: f.offset + f.size <= sourceSize) && InTurn(target, targetSize)
    ensures InOrder(MatchesOf(source, target), sourceSize, targetSize)
    decreases |target|
  {
    if target == [] {
    } else {
      hide InOrder, FirstAlike, InTurn;
      var init, t := target[..|target| - 1], target[|target| - 1];
      LastInTurn(target, targetSize);
      MatchesInOrder(source, init, sourceSize, targetSize);
      TargetsOfMatches(source, init);
      if FirstAlike(source, t).Some? {
        InOrderMore(MatchesOf(source, init), Match(FirstAlike(source, t).value, t), sourceSize, targetSize);
      }
    }
  }

  lemma BlobsInTurn(data: Bytes, crc: Bytes -> nat)
    ensures InTurn(BlobsOf(data, 0, crc), |data|)
  {
    hide BlobsOf;
    BlobsTile(data, 0, crc);
    var bs := BlobsOf(data, 0, crc);
    forall i | 0 <= i < |bs|
      ensures bs[i].offset + bs[i].size <= |data|
    {
      assert Describes(bs[i], data, 0, crc);
    }
    forall i, j | 0 <= i < j < |bs|
      ensures bs[i].offset + bs[i].size <= bs[j].offset
    {
      ConsecutiveBefore(bs, i, j);
    }
  }

  /** In particular for the blobs of two byte strings: even equal checksums of different bytes do no harm. */
  lemma BlobMatchesInOrder(a: Bytes, b: Bytes, crc: Bytes -> nat)
    ensures InOrder(MatchesOf(BlobsOf(a, 0, crc), BlobsOf(b, 0, crc)), |a|, |b|)
  {
    hide BlobsOf, MatchesOf, InOrder;
    BlobsInTurn(a, crc);
    BlobsInTurn(b, crc);
    MatchesInOrder(BlobsOf(a, 0, crc), BlobsOf(b, 0, crc), |a|, |b|);
  }

  // ----- The methods

  /** Blobs by checksum, each list in the order of `blobs`. */
  method MakeCrcMap(blobs: seq<Blob>) returns (m: map<nat, seq<Blob>>)
    ensures forall t: Blob :: FirstAlike(if t.crc32 in m then m[t.crc32] else [], t) == FirstAlike(blobs, t)
    ensures forall c, f | c in m && f in m[c] :: f.crc32 == c
  {
    hide Alike;
    m := map[];
    for i := 0 to |blobs|
      invariant forall c, f | c in m && f in m[c] :: f.crc32 == c
      invariant forall t: Blob ::
                  FirstAlike(if t.crc32 in m then m[t.crc32] else [], t) == FirstAlike(blobs[..i], t)
    {
      var b := blobs[i];
      ghost var m0 := m;
      var a := if b.crc32 in m then m[b.crc32] else [];
      m := m[b.crc32 := a + [b]];
      assert blobs[..i + 1] == blobs[..i] + [b];
      hide FirstAlike;
      forall t: Blob
        ensures FirstAlike(if t.crc32 in m then m[t.crc32] else [], t) == FirstAlike(blobs[..i + 1], t)
      {
        FirstAlikeAppend(blobs[..i], b, t);
        if t.crc32 == b.crc32 {
          FirstAlikeAppend(a, b, t);
        } else {
          NotAlike(b, t);
        }
      }
    }
    assert blobs[..|blobs|] == blobs;
  }

  lemma NotAlike(b: Blob, t: Blob)
    requires b.crc32 != t.crc32
    ensures !Alike(b, t)
  {
  }

  lemma {:induction false} FirstAlikeAppend(bs: seq<Blob>, b: Blob, t: Blob)
    ensures FirstAlike(bs + [b], t) ==
            if FirstAlike(bs, t).Some? then FirstAlike(bs, t) else if Alike(b, t) then Some(b) else None
  {
    if bs != [] {
      assert (bs + [b])[1..] == bs[1..] + [b];
      FirstAlikeAppend(bs[1..], b, t);
    } else {
      assert [] + [b] == [b] && [b][1..] == [];
    }
  }

  method FindAlike(fs: seq<Blob>, t: Blob) returns (r: Option<Blob>)
    requires forall f | f in fs :: f.crc32 == t.crc32
    ensures r == FirstAlike(fs, t)
  {
    for j := 0 to |fs|
      invariant FirstAlike(fs[..j], t) == None
    {
      assert fs[..j + 1] == fs[..j] + [fs[j]];
      FirstAlikeAppend(fs[..j], fs[j], t);
      if fs[j].size == t.size {
        assert fs[j] in fs;
        FirstAlikePrefix(fs, j + 1, t);
        return Some(fs[j]);
      }
    }
    assert fs[..|fs|] == fs;
    return None;
  }

  lemma {:induction false} FirstAlikePrefix(fs: seq<Blob>, n: nat, t: Blob)
    requires n <= |fs| && FirstAlike(fs[..n], t).Some?
    ensures FirstAlike(fs, t) == FirstAlike(fs[..n], t)
  {
    if n == 0 || Alike(fs[0], t) {
    } else {
      assert fs[..n][1..] == fs[1..][..n - 1];
      FirstAlikePrefix(fs[1..], n - 1, t);
    }
  }

  ghost predicate ByOffset(ms: seq<Match>)
  {
    forall i, j :: 0 <= i < j < |ms| ==> ms[i].target.offset <= ms[j].target.offset
  }

  ghost predicate Increasing(ms: seq<Match>)
  {
    forall i, j :: 0 <= i < j < |ms| ==> ms[i].target.offset < ms[j].target.offset
  }

  function Insert(ms: seq<Match>, m: Match): (r: seq<Match>)
    ensures |r| == |ms| + 1
  {
    var l := |ms| - 1;
    if ms == [] || ms[l].target.offset <= m.target.offset then ms + [m] else Insert(ms[..l], m) + [ms[l]]
  }

  lemma {:induction false} InsertKeeps(ms: seq<Match>, m: Match)
    ensures multiset(Insert(ms, m)) == multiset(ms) + multiset{m}
    decreases |ms|
  {
    var l := |ms| - 1;
    if ms == [] || ms[l].target.offset <= m.target.offset {
    } else {
      InsertKeeps(ms[..l], m);
      assert ms == ms[..l] + [ms[l]];
    }
  }

  lemma {:induction false} InsertSorts(ms: seq<Match>, m: Match)
    requires ByOffset(ms)
    ensures ByOffset(Insert(ms, m))
    ensures
      var l := |ms| - 1;
      Insert(ms, m)[|ms|].target.offset
      == if ms == [] || ms[l].target.offset <= m.target.offset then m.target.offset else ms[l].target.offset
    decreases |ms|
  {
    var l := |ms| - 1;
    if ms == [] {
    } else {
      InitByOffset(ms);
      if ms[l].target.offset > m.target.offset {
        hide ByOffset;
        InsertSorts(ms[..l], m);
        LaterLast(Insert(ms[..l], m), ms[l]);
      } else {
        LaterLast(ms, m);
      }
    }
  }

  lemma InitByOffset(ms: seq<Match>)
    requires ByOffset(ms) && ms != []
    ensures ByOffset(ms[..|ms| - 1])
    ensures |ms| > 1 ==> ms[|ms| - 2].target.offset <= ms[|ms| - 1].target.offset
  {
  }

  lemma LaterLast(ms: seq<Match>, m: Match)
    requires ByOffset(ms) && ms != [] && ms[|ms| - 1].target.offset <= m.target.offset
    ensures ByOffset(ms + [m])
  {
  }

  /** A sort by target offset; what is in order already stays as it is. */
  method SortByOffset(ms: seq<Match>) returns (sorted: seq<Match>)
    ensures multiset(sorted) == multiset(ms) && ByOffset(sorted)
    ensures Increasing(ms) ==> sorted == ms
  {
    sorted := [];
    for i := 0 to |ms|
      invariant multiset(sorted) == multiset(ms[..i]) && ByOffset(sorted)
      invariant Increasing(ms) ==> sorted == ms[..i]
    {
      assert ms[..i + 1] == ms[..i] + [ms[i]];
      InsertSorts(sorted, ms[i]);
      InsertKeeps(sorted, ms[i]);
      sorted := Insert(sorted, ms[i]);
    }
    assert ms[..|ms|] == ms;
  }

  /** Matches of target blobs in increasing order are so. */
  lemma {:induction false} MatchesIncrease(source: seq<Blob>, target: seq<Blob>)
    requires forall i, j :: 0 <= i < j < |target| ==> target[i].offset < target[j].offset
    ensures Increasing(MatchesOf(source, target))
    ensures forall m :: m in MatchesOf(source, target) ==> m.target in target
    decreases |target|
  {
    if target == [] {
    } else {
      var init := target[..|target| - 1];
      MatchesIncrease(source, init);
      var ms := MatchesOf(source, init);
      forall k | 0 <= k < |ms|
        ensures ms[k].target.offset < target[|target| - 1].offset
      {
        assert ms[k] in ms;
        var j :| 0 <= j < |init| && init[j] == ms[k].target;
      }
    }
  }

  /** One pass over the target blobs, in whatever order they come, and a sort of the matches. */
  method ComputeRollsumMatches(source: seq<Blob>, target: seq<Blob>) returns (r: RollsumMatches)
    requires target != []
    ensures
      var ms := MatchesOf(source, target);
      && multiset(r.matches) == multiset(ms) && ByOffset(r.matches)
      && r.matchRatio == |ms| * 100 / |target| && r.matchSize == MatchedBytes(ms)
    ensures (forall i, j :: 0 <= i < j < |target| ==> target[i].offset < target[j].offset) ==>
              r.matches == MatchesOf(source, target)
  {
    var sourceByCrc := MakeCrcMap(source);
    var nMatches, matchSize, matches := 0, 0, [];
    for i := 0 to |target|
      invariant matches == MatchesOf(source, target[..i])
      invariant nMatches == |matches| && matchSize == MatchedBytes(matches)
    {
      var t := target[i];
      assert target[..i + 1][..i] == target[..i] && target[..i + 1][i] == t;
      var fs := if t.crc32 in sourceByCrc then sourceByCrc[t.crc32] else [];
      assert forall f | f in fs :: f.crc32 == t.crc32;
      var f := FindAlike(fs, t);
      assert f == FirstAlike(source, t);
      if f.Some? {
        nMatches := nMatches + 1;
        matchSize := matchSize + f.value.size;
        matches := matches + [Match(f.value, t)];
        assert matches[..|matches| - 1] == MatchesOf(source, target[..i]);
      }
    }
    assert target[..|target|] == target;
    if forall i, j :: 0 <= i < j < |target| ==> target[i].offset < target[j].offset {
      MatchesIncrease(source, target);
    }
    var sorted := SortByOffset(matches);
    r := RollsumMatches(sorted, nMatches * 100 / |target|, matchSize);
  }
}
