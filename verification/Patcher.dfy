/** Carrying out a delta on an old archive through its data source, and the way from two archives to the new one. */
module Patcher {
  import opened Bytes
  import opened DataSource
  import opened DeltaAnalysis
  import opened DeltaOps
  import opened DeltaWriter
  import opened Diff
  import opened FileBackedReader
  import opened Options
  import opened TarModel
  import A = Analysis

  /** The interpreter's open file and cursor are those of the data source. */
  ghost predicate Coupled(ds: DataSource, st: State)
    reads ds, ds.rsc
  {
    && ds.Valid()
    && (if ds.current.Some? then st.file == ds.name && st.pos == ds.Cursor() else st.file == [])
  }

  /** One operation; where the interpreter can carry it out, so can the data source, and with the same bytes. */
  method ApplyOne(ds: DataSource, op: Op, ghost st: State) returns (chunk: Bytes, ok: bool)
    requires Coupled(ds, st)
    modifies ds`current, ds`currentPos, ds`name, ds.rsc
    ensures ds.Valid()
    ensures
      var next := Step(ds.Contents(), st, op);
      next.Some? ==> ok && Coupled(ds, next.value) && next.value.out == st.out + chunk
  {
    hide Shown, Table, TarBytes;
    ghost var files := ds.Contents();
    NamesShown(ds.tar);
    chunk, ok := [], true;
    match op {
      case Data(content) =>
        chunk := content;
      case Open(path) =>
        ok := ds.SetCurrentFile(path);
      case Copy(size) =>
        var data, _, read := ds.Read(size);
        chunk, ok := data, read && |data| == size;
      case AddData(content) =>
        var data, _, read := ds.Read(|content|);
        ok := read && |data| == |content|;
        if ok {
          chunk := AddBytes(content, data);
        }
      case Seek(pos) =>
        if ds.current.None? {
          return [], false;
        }
        ShownFits(ds.tar, ds.name);
        var _, moved := ds.Seek(pos, SeekStart);
        ok := moved;
    }
  }

  /** No path is empty. */
  lemma NamesShown(t: Tar)
    ensures [] !in Shown(t)
  {
    hide TarBytes;
    NamesInTable(t.entries, |t.entries|);
  }

  lemma {:induction false} NamesInTable(entries: seq<Entry>, n: nat)
    requires n <= |entries|
    ensures [] !in Table(entries, n)
  {
    hide Prefix;
    if n == 0 {
    } else {
      NamesInTable(entries, n - 1);
    }
  }

  lemma ShownFits(t: Tar, path: Path)
    requires path in Table(t.entries, |t.entries|)
    ensures path in Shown(t) && |Shown(t)[path]| <= Table(t.entries, |t.entries|)[path].size
  {
    hide Table, TarBytes;
  }

  lemma ShownFilesFit(t: Tar)
    requires WellFormed(t)
    ensures FilesFit(Shown(t))
  {
    hide Table, TarBytes;
    TableSizes(t.entries, |t.entries|);
  }

  /** All operations. */
  method Apply(ds: DataSource, ops: seq<Op>) returns (out: Bytes, ok: bool)
    requires ds.Valid() && ds.current == None
    modifies ds`current, ds`currentPos, ds`name, ds.rsc
    ensures ds.Valid()
    ensures
      var st := Run(ds.Contents(), ops);
      st.Some? ==> ok && out == st.value.out
  {
    hide Step, Shown, Table, TarBytes;
    out := [];
    ghost var files := ds.Contents();
    assert ops[..0] == [];
    for i := 0 to |ops|
      invariant ds.Valid()
      invariant Run(files, ops).Some? ==>
        Run(files, ops[..i]).Some? && Coupled(ds, Run(files, ops[..i]).value) && out == Run(files, ops[..i]).value.out
    {
      ghost var st := Run(files, ops[..i]);
      assert ops[..i + 1] == ops[..i] + [ops[i]];
      RunAppend(files, ops[..i], ops[i]);
      if Run(files, ops).Some? {
        RunPrefix(files, ops, i + 1);
      }
      ghost var at := if Run(files, ops).Some? then st.value else Idle(ds);
      var chunk, done := ApplyOne(ds, ops[i], at);
      if !done {
        return out, false;
      }
      out := out + chunk;
    }
    assert ops[..|ops|] == ops;
    ok := true;
  }

  /** Some state of the interpreter with the data source's open file and cursor. */
  ghost function Idle(ds: DataSource): (st: State)
    requires ds.Valid()
    reads ds, ds.rsc
    ensures Coupled(ds, st)
  {
    if ds.current.Some? then State([], ds.name, ds.Cursor()) else START
  }

  lemma {:induction false} RunPrefix(files: Files, ops: seq<Op>, n: nat)
    requires n <= |ops| && Run(files, ops).Some?
    ensures Run(files, ops[..n]).Some?
    decreases |ops|
  {
    hide Step;
    if n < |ops| {
      var init := ops[..|ops| - 1];
      assert init[..n] == ops[..n];
      RunPrefix(files, init, n);
    } else {
      assert ops[..n] == ops;
    }
  }

  /**
   From two archives to the new one: the differ's delta, read back and carried out on the old archive, yields it, where
   no branch of the differ reads a source whose path is repeated.
   */
  method Update(oldTar: Tar, newTar: Tar, maxBsdiffSize: nat, sha: Bytes -> A.Digest, crc: Bytes -> nat)
    returns (out: Option<Bytes>, ghost olds: seq<TarFileInfo>, ghost news: seq<TarFileInfo>)
    requires WellFormed(oldTar) && WellFormed(newTar) && DigestsTell(oldTar, newTar, sha)
    ensures A.FilesOk(oldTar.entries, |oldTar.entries|, olds, sha, crc)
    ensures A.FilesOk(newTar.entries, |newTar.entries|, news, sha, crc)
    ensures NoPathTwice(oldTar.entries) ==> out == Some(TarBytes(newTar))
    ensures NoOverwrittenRead(olds, news, maxBsdiffSize) ==> out == Some(TarBytes(newTar))
  {
    hide A.FilesOk, AnalysisOk, DigestsTell, WellFormed, NoOverwrittenRead, NoPathTwice, Finds, FilesFit, Verdict,
         TarBytes, DecodeAll, Run, Shown;
    var stream;
    ghost var a;
    ShownFinds(oldTar);
    ShownFilesFit(oldTar);
    stream, olds, news, a := Diff.Diff(oldTar, newTar, maxBsdiffSize, sha, crc, Shown(oldTar));
    if stream == None {
      return None, olds, news;
    }
    var ops := DecodeAll(stream.value);
    if ops == None {
      return None, olds, news;
    }
    var ds := new DataSource(oldTar);
    var patched, ok := Apply(ds, ops.value);
    out := if ok then Some(patched) else None;
  }
}
