/** Which old file a new file is rebuilt from. */
module SourceChoice {
  import opened Bytes
  import opened DeltaOps
  import opened Analysis
  import opened Options

  /** Names that start like a compression suffix are not worth a delta. */
  predicate IsDeltaCandidate(f: TarFileInfo)
  {
    !HasPrefix(f.basename, XZ) && !HasPrefix(f.basename, BZ2)
  }

  predicate HasPrefix(s: Bytes, p: Bytes)
  {
    |p| <= |s| && s[..|p|] == p
  }

  const XZ: Bytes := [46, 120, 122]
  const BZ2: Bytes := [46, 98, 122, 50]

  /**
   A compressed file is ruled out only if what comes before its suffix is nothing or itself starts like a suffix: "a.xz"
   is a candidate.
   */
  lemma CompressedIsCandidate(f: TarFileInfo, stem: Bytes, suffix: Bytes)
    requires suffix == XZ || suffix == BZ2
    requires f.basename == stem + suffix
    ensures !IsDeltaCandidate(f) <==> stem == [] || HasPrefix(stem, XZ) || HasPrefix(stem, BZ2)
  {
    var s := f.basename;
    if stem == [] {
      assert s == suffix;
    } else if HasPrefix(stem, XZ) {
      assert s[..3] == stem[..3];
    } else if HasPrefix(stem, BZ2) {
      assert s[..4] == stem[..4];
    } else {
      assert forall k :: 0 <= k < |stem| ==> s[k] == stem[k];
      assert forall k :: 0 <= k < |suffix| ==> s[|stem| + k] == suffix[k];
      assert |stem| >= 3 ==> s[..3] == stem[..3];
      assert |stem| >= 4 ==> s[..4] == stem[..4];
      assert s[..3][0] == s[0] && s[..3][1] == s[1] && s[..3][2] == s[2];
      assert |s| >= 4 ==> s[..4][0] == s[0] && s[..4][1] == s[1] && s[..4][2] == s[2] && s[..4][3] == s[3];
    }
  }

  /** A name up to and including its first dot. */
  function Stem(name: Path): Path
  {
    if name == [] then [] else if name[0] == 46 then [46] else [name[0]] + Stem(name[1..])
  }

  /** It ends at the first dot if there is one, and is the whole name otherwise. */
  lemma {:induction false} StemExactly(name: Path)
    ensures Stem(name) <= name
    ensures if 46 in name then Stem(name) != [] && Stem(name)[|Stem(name)| - 1] == 46 else Stem(name) == name
    ensures forall i :: 0 <= i < |Stem(name)| - 1 ==> Stem(name)[i] != 46
  {
    if name == [] || name[0] == 46 {
    } else {
      StemExactly(name[1..]);
      assert name == [name[0]] + name[1..];
    }
  }

  predicate NameIsSimilar(a: TarFileInfo, b: TarFileInfo, fuzzy: nat)
  {
    if fuzzy == 0 then a.basename == b.basename else Stem(a.basename) == Stem(b.basename)
  }

  predicate SizeIsSimilar(a: TarFileInfo, b: TarFileInfo)
  {
    (a.size < 64 * 1024 && b.size < 64 * 1024) || (a.size < 10 * b.size && b.size < 10 * a.size)
  }

  function Distance(a: TarFileInfo, b: TarFileInfo): nat
  {
    if a.size < b.size then b.size - a.size else a.size - b.size
  }

  /** What a look-up goes by. */
  datatype Key = Content(sha1: Digest) | Place(path: Path)

  predicate HasKey(f: TarFileInfo, k: Key)
  {
    match k
    case Content(sha1) => f.sha1 == sha1
    case Place(path) => f.path == path
  }

  /** The last file with the key that is not overwritten. */
  function LastKept(olds: seq<TarFileInfo>, k: Key): (r: Option<nat>)
    ensures r.Some? ==> r.value < |olds| && !olds[r.value].overwritten && HasKey(olds[r.value], k)
  {
    if olds == [] then None
    else
      var l := |olds| - 1;
      if !olds[l].overwritten && HasKey(olds[l], k) then Some(l) else LastKept(olds[..l], k)
  }

  lemma {:induction false} LastKeptIsLast(olds: seq<TarFileInfo>, k: Key, j: nat)
    requires j < |olds| && !olds[j].overwritten && HasKey(olds[j], k)
    ensures LastKept(olds, k).Some? && j <= LastKept(olds, k).value
  {
    if j >= |olds| - 1 {
    } else {
      LastKeptIsLast(olds[..|olds| - 1], k, j);
    }
  }

  /** A source for a moved (0) or renamed (1) file.  Files that are overwritten are not ruled out. */
  predicate Eligible(f: TarFileInfo, s: TarFileInfo, fuzzy: nat)
  {
    IsDeltaCandidate(s) && NameIsSimilar(f, s, fuzzy) && SizeIsSimilar(f, s)
  }

  /** The best of the first `n` old files, later ones winning ties. */
  function Closest(olds: seq<TarFileInfo>, f: TarFileInfo, fuzzy: nat, n: nat): (r: Option<nat>)
    requires n <= |olds|
    ensures r.Some? ==> r.value < n && Eligible(f, olds[r.value], fuzzy)
  {
    if n == 0 then None
    else
      var best := Closest(olds, f, fuzzy, n - 1);
      if !Eligible(f, olds[n - 1], fuzzy) then best
      else if best.Some? && Distance(olds[best.value], f) < Distance(olds[n - 1], f) then best
      else Some(n - 1)
  }

  /** No eligible file is closer in size, and none that comes later is as close. */
  lemma {:induction false} ClosestIsClosest(olds: seq<TarFileInfo>, f: TarFileInfo, fuzzy: nat, n: nat)
    requires n <= |olds|
    ensures var r := Closest(olds, f, fuzzy, n);
            forall j | 0 <= j < n && Eligible(f, olds[j], fuzzy) ::
              r.Some? && Distance(olds[r.value], f) <= Distance(olds[j], f) &&
              (j > r.value ==> Distance(olds[r.value], f) < Distance(olds[j], f))
  {
    if n == 0 {
    } else {
      ClosestIsClosest(olds, f, fuzzy, n - 1);
    }
  }

  /** The source of a new file, and whether its content is needed to make a delta. */
  function Choose(olds: seq<TarFileInfo>, f: TarFileInfo): (r: (Option<nat>, bool))
    ensures r.0.Some? ==> r.0.value < |olds|
    ensures r.1 ==> r.0.Some?
    ensures r.0.Some? && !r.1 ==>
              var s := olds[r.0.value]; !s.overwritten && s.sha1 == f.sha1 && s.size == f.size
  {
    var exact := LastKept(olds, Content(f.sha1));
    if exact.Some? && f.size == olds[exact.value].size then (exact, false)
    else if !IsDeltaCandidate(f) then (None, false)
    else
      var s := LastKept(olds, Place(f.path));
      if s.Some? && IsDeltaCandidate(olds[s.value]) && SizeIsSimilar(f, olds[s.value]) then (s, true)
      else
        var moved := Closest(olds, f, 0, |olds|);
        var any := if moved.Some? then moved else Closest(olds, f, 1, |olds|);
        (any, any.Some?)
  }

  // ----- What is chosen, in terms of all old files

  /** The last kept old file of the new file's digest, if it has the new file's size. */
  ghost predicate ExactSource(olds: seq<TarFileInfo>, f: TarFileInfo, j: nat)
  {
    && j < |olds| && !olds[j].overwritten && olds[j].sha1 == f.sha1 && olds[j].size == f.size
    && forall k :: j < k < |olds| && olds[k].sha1 == f.sha1 ==> olds[k].overwritten
  }

  /** The last kept old file of the new file's path, if it is worth a delta. */
  ghost predicate PlaceSource(olds: seq<TarFileInfo>, f: TarFileInfo, j: nat)
  {
    && j < |olds| && !olds[j].overwritten && olds[j].path == f.path
    && IsDeltaCandidate(olds[j]) && SizeIsSimilar(f, olds[j])
    && forall k :: j < k < |olds| && olds[k].path == f.path ==> olds[k].overwritten
  }

  /** An old file worth a delta, overwritten or not, that has the new file's name. */
  ghost predicate MovedSource(olds: seq<TarFileInfo>, f: TarFileInfo, j: nat)
  {
    j < |olds| && olds[j].basename == f.basename && IsDeltaCandidate(olds[j]) && SizeIsSimilar(f, olds[j])
  }

  /** An old file worth a delta, overwritten or not, whose name is the same up to the first dot. */
  ghost predicate RenamedSource(olds: seq<TarFileInfo>, f: TarFileInfo, j: nat)
  {
    j < |olds| && Stem(olds[j].basename) == Stem(f.basename) && IsDeltaCandidate(olds[j]) && SizeIsSimilar(f, olds[j])
  }

  /** No closer in size than file `j`, and not as close if it comes later. */
  predicate Worse(olds: seq<TarFileInfo>, f: TarFileInfo, j: nat, k: nat)
    requires j < |olds| && k < |olds|
  {
    Distance(olds[j], f) <= Distance(olds[k], f) && (j < k ==> Distance(olds[j], f) < Distance(olds[k], f))
  }

  ghost predicate ClosestMoved(olds: seq<TarFileInfo>, f: TarFileInfo, j: nat)
  {
    MovedSource(olds, f, j) && forall k: nat :: MovedSource(olds, f, k) ==> Worse(olds, f, j, k)
  }

  ghost predicate ClosestRenamed(olds: seq<TarFileInfo>, f: TarFileInfo, j: nat)
  {
    RenamedSource(olds, f, j) && forall k: nat :: RenamedSource(olds, f, k) ==> Worse(olds, f, j, k)
  }

  /**
   A file of the same content comes first and needs no delta.  Otherwise a source has to make a delta: the file at the
   same path, or else the moved file closest in size, or else the renamed one; and there is none only if none of these
   exists or the new file is not worth a delta.
   */
  ghost predicate WellChosen(olds: seq<TarFileInfo>, f: TarFileInfo, source: Option<nat>, used: bool)
  {
    if exists j: nat :: ExactSource(olds, f, j) then source.Some? && ExactSource(olds, f, source.value) && !used
    else
      && used == source.Some?
      && if !IsDeltaCandidate(f) then source == None
         else if exists j: nat :: PlaceSource(olds, f, j) then source.Some? && PlaceSource(olds, f, source.value)
         else if exists j: nat :: MovedSource(olds, f, j) then source.Some? && ClosestMoved(olds, f, source.value)
         else if exists j: nat :: RenamedSource(olds, f, j) then source.Some? && ClosestRenamed(olds, f, source.value)
         else source == None
  }

  /** The look-up by digest finds the exact source if there is one, ... */
  lemma ExactFound(olds: seq<TarFileInfo>, f: TarFileInfo)
    ensures
      var e := LastKept(olds, Content(f.sha1));
      var found := if e.Some? && f.size == olds[e.value].size then e else None;
      forall j: nat :: ExactSource(olds, f, j) <==> found == Some(j)
  {
    hide LastKept;
    forall j: nat | j < |olds| && !olds[j].overwritten && olds[j].sha1 == f.sha1
      ensures LastKept(olds, Content(f.sha1)).Some? && j <= LastKept(olds, Content(f.sha1)).value
    {
      LastKeptIsLast(olds, Content(f.sha1), j);
    }
  }

  /** ... the look-up by path the one at the same place, ... */
  lemma PlaceFound(olds: seq<TarFileInfo>, f: TarFileInfo)
    ensures
      var s := LastKept(olds, Place(f.path));
      var found := if s.Some? && IsDeltaCandidate(olds[s.value]) && SizeIsSimilar(f, olds[s.value]) then s else None;
      forall j: nat :: PlaceSource(olds, f, j) <==> found == Some(j)
  {
    hide LastKept, IsDeltaCandidate, SizeIsSimilar;
    forall j: nat | j < |olds| && !olds[j].overwritten && olds[j].path == f.path
      ensures LastKept(olds, Place(f.path)).Some? && j <= LastKept(olds, Place(f.path)).value
    {
      LastKeptIsLast(olds, Place(f.path), j);
    }
  }

  /** ... and the search the closest moved or renamed one. */
  lemma ClosestFound(olds: seq<TarFileInfo>, f: TarFileInfo)
    ensures forall j: nat :: ClosestMoved(olds, f, j) <==> Closest(olds, f, 0, |olds|) == Some(j)
    ensures forall j: nat :: ClosestRenamed(olds, f, j) <==> Closest(olds, f, 1, |olds|) == Some(j)
    ensures (exists j: nat :: MovedSource(olds, f, j)) <==> Closest(olds, f, 0, |olds|).Some?
    ensures (exists j: nat :: RenamedSource(olds, f, j)) <==> Closest(olds, f, 1, |olds|).Some?
  {
    hide Closest, IsDeltaCandidate, SizeIsSimilar, Stem, Distance;
    ClosestIsClosest(olds, f, 0, |olds|);
    ClosestIsClosest(olds, f, 1, |olds|);
    forall j: nat
      ensures MovedSource(olds, f, j) <==> j < |olds| && Eligible(f, olds[j], 0)
      ensures RenamedSource(olds, f, j) <==> j < |olds| && Eligible(f, olds[j], 1)
    {
    }
    hide MovedSource, RenamedSource, Eligible;
    var moved, renamed := Closest(olds, f, 0, |olds|), Closest(olds, f, 1, |olds|);
    if moved.Some? {
      assert MovedSource(olds, f, moved.value);
    }
    if renamed.Some? {
      assert RenamedSource(olds, f, renamed.value);
    }
  }

  /** What is chosen is well chosen, and nothing else is. */
  lemma ChoiceExactly(olds: seq<TarFileInfo>, f: TarFileInfo, source: Option<nat>, used: bool)
    ensures WellChosen(olds, f, source, used) <==> (source, used) == Choose(olds, f)
  {
    hide LastKept, Closest, IsDeltaCandidate, SizeIsSimilar, ExactSource, PlaceSource, MovedSource, RenamedSource,
         ClosestMoved, ClosestRenamed;
    ExactFound(olds, f);
    PlaceFound(olds, f);
    ClosestFound(olds, f);
  }

  // ----- The search

  method FindClosest(olds: seq<TarFileInfo>, f: TarFileInfo, fuzzy: nat) returns (source: Option<nat>)
    ensures source == Closest(olds, f, fuzzy, |olds|)
  {
    source := None;
    for j := 0 to |olds|
      invariant source == Closest(olds, f, fuzzy, j)
    {
      var s := olds[j];
      if !IsDeltaCandidate(s) {
        continue;
      }
      if !NameIsSimilar(f, s, fuzzy) {
        continue;
      }
      if !SizeIsSimilar(f, s) {
        continue;
      }
      if source.Some? && Distance(olds[source.value], f) < Distance(s, f) {
        continue;
      }
      source := Some(j);
    }
  }

  /** Look-up tables hold the last file of each key that is not overwritten. */
  ghost predicate TablesOk(olds: seq<TarFileInfo>, n: nat, bySha1: map<Digest, nat>, byPath: map<Path, nat>,
                           byIndex: map<nat, nat>)
    requires n <= |olds|
  {
    && (forall d :: LastKept(olds[..n], Content(d)) == if d in bySha1 then Some(bySha1[d]) else None)
    && (forall p :: LastKept(olds[..n], Place(p)) == if p in byPath then Some(byPath[p]) else None)
    && (forall i | i in byIndex :: byIndex[i] < n && !olds[byIndex[i]].overwritten && olds[byIndex[i]].index == i)
    && (forall k | 0 <= k < n && !olds[k].overwritten :: olds[k].index in byIndex)
  }

  lemma TablesStart(olds: seq<TarFileInfo>)
    ensures TablesOk(olds, 0, map[], map[], map[])
  {
  }

  lemma LastKeptStep(olds: seq<TarFileInfo>, i: nat, k: Key)
    requires i < |olds|
    ensures LastKept(olds[..i + 1], k)
         == if !olds[i].overwritten && HasKey(olds[i], k) then Some(i) else LastKept(olds[..i], k)
  {
    var t := olds[..i + 1];
    assert t[..|t| - 1] == olds[..i] && t[|t| - 1] == olds[i];
  }

  lemma TablesStep(olds: seq<TarFileInfo>, i: nat, bySha1: map<Digest, nat>, byPath: map<Path, nat>,
                   byIndex: map<nat, nat>)
    requires i < |olds| && TablesOk(olds, i, bySha1, byPath, byIndex)
    ensures
      var f := olds[i];
      if f.overwritten then TablesOk(olds, i + 1, bySha1, byPath, byIndex)
      else TablesOk(olds, i + 1, bySha1[f.sha1 := i], byPath[f.path := i], byIndex[f.index := i])
  {
    hide LastKept;
    var f := olds[i];
    forall d
      ensures LastKept(olds[..i + 1], Content(d))
           == if !f.overwritten && f.sha1 == d then Some(i) else LastKept(olds[..i], Content(d))
    {
      LastKeptStep(olds, i, Content(d));
    }
    forall p
      ensures LastKept(olds[..i + 1], Place(p))
           == if !f.overwritten && f.path == p then Some(i) else LastKept(olds[..i], Place(p))
    {
      LastKeptStep(olds, i, Place(p));
    }
  }

  method MakeTables(olds: seq<TarFileInfo>)
    returns (bySha1: map<Digest, nat>, byPath: map<Path, nat>, byIndex: map<nat, nat>)
    ensures TablesOk(olds, |olds|, bySha1, byPath, byIndex)
  {
    hide TablesOk;
    bySha1, byPath, byIndex := map[], map[], map[];
    TablesStart(olds);
    for i := 0 to |olds|
      invariant TablesOk(olds, i, bySha1, byPath, byIndex)
    {
      var f := olds[i];
      TablesStep(olds, i, bySha1, byPath, byIndex);
      if !f.overwritten {
        bySha1 := bySha1[f.sha1 := i];
        byPath := byPath[f.path := i];
        byIndex := byIndex[f.index := i];
      }
    }
  }

  method ChooseSource(olds: seq<TarFileInfo>, f: TarFileInfo, bySha1: map<Digest, nat>, byPath: map<Path, nat>)
    returns (source: Option<nat>, usedForDelta: bool)
    requires exists byIndex :: TablesOk(olds, |olds|, bySha1, byPath, byIndex)
    ensures (source, usedForDelta) == Choose(olds, f) && WellChosen(olds, f, source, usedForDelta)
  {
    hide WellChosen;
    ChoiceExactly(olds, f, Choose(olds, f).0, Choose(olds, f).1);
    assert olds[..|olds|] == olds;
    usedForDelta, source := false, None;
    if f.sha1 in bySha1 && f.size == olds[bySha1[f.sha1]].size {
      source := Some(bySha1[f.sha1]);
    }
    if source.None? && IsDeltaCandidate(f) {
      if f.path in byPath && IsDeltaCandidate(olds[byPath[f.path]]) && SizeIsSimilar(f, olds[byPath[f.path]]) {
        usedForDelta := true;
        source := Some(byPath[f.path]);
      } else {
        var fuzzy := 0;
        while fuzzy < 2 && source.None?
          invariant 0 <= fuzzy <= 2
          invariant source == if fuzzy == 0 then None
                              else var moved := Closest(olds, f, 0, |olds|);
                                   if fuzzy == 1 || moved.Some? then moved else Closest(olds, f, 1, |olds|)
          invariant usedForDelta == source.Some?
        {
          source := FindClosest(olds, f, fuzzy);
          usedForDelta := source.Some?;
          fuzzy := fuzzy + 1;
        }
      }
    }
  }
}
