/** The buffering writer of delta operations, and what a sequence of calls to it means. */
module DeltaWriter {
  import opened Bytes
  import opened DeltaOps
  import opened Options

  const CHUNK_SIZE := 4 * 1024 * 1024
  const WORD := 0x1_0000_0000_0000_0000

  type Word = w: nat | w < WORD

  // ----- The writer as a function of its state

  datatype WriterState = WriterState(ops: seq<Op>, buffer: Bytes, file: Path, pos: Word)

  const FRESH := WriterState([], [], [], 0)

  datatype Call =
    | FlushBuffer
    | WriteContent(data: Bytes)
    | SetCurrentFile(path: Path)
    | SeekTo(pos: Word)
    | SeekForward(dist: Word)
    | CopyFile(size: Word)
    | WriteAddContent(data: Bytes)

  /** `CopyFileAt` and `WriteOldFile` are made of the calls above. */
  function CopyFileAtCalls(offset: Word, size: Word): seq<Call>
  {
    [SeekTo(offset)] + [CopyFile(size)]
  }

  function WriteOldFileCalls(path: Path, size: Word): seq<Call>
  {
    [SetCurrentFile(path)] + ([SeekTo(0)] + [CopyFile(size)])
  }

  function Wrap(x: int): Word
  {
    x % WORD
  }

  function Flushed(w: WriterState): WriterState
  {
    if w.buffer == [] then w else w.(ops := w.ops + [Data(w.buffer)], buffer := [])
  }

  function Emit(w: WriterState, op: Op): WriterState
  {
    w.(ops := w.ops + [op])
  }

  function Apply(w: WriterState, c: Call): WriterState
  {
    match c
    case FlushBuffer => Flushed(w)
    case WriteContent(data) =>
      var w1 := w.(buffer := w.buffer + data);
      if |w1.buffer| >= CHUNK_SIZE then Flushed(w1) else w1
    case SetCurrentFile(path) =>
      if w.file == path then w else Emit(Flushed(w), Open(path)).(file := path, pos := 0)
    case SeekTo(pos) =>
      if w.pos == pos then w else Emit(Flushed(w), Seek(pos)).(pos := pos)
    case SeekForward(dist) =>
      Emit(Flushed(w), Seek(Wrap(w.pos + dist))).(pos := Wrap(w.pos + dist))
    case CopyFile(size) => Emit(Flushed(w), Copy(size)).(pos := Wrap(w.pos + size))
    case WriteAddContent(data) => Emit(Flushed(w), AddData(data)).(pos := Wrap(w.pos + |data|))
  }

  function ApplyAll(w: WriterState, calls: seq<Call>): WriterState
    decreases |calls|
  {
    if calls == [] then w else ApplyAll(Apply(w, calls[0]), calls[1..])
  }

  // ----- What the calls intend

  /**
   The effect a call asks for on the reader's state: seeking where the cursor already is and switching to the file
   that is already open are no-ops, so the cursor stays where it is in the latter case.
   */
  function Intend(files: Files, st: State, c: Call): Option<State>
  {
    match c
    case FlushBuffer => Some(st)
    case WriteContent(data) => Step(files, st, Data(data))
    case SetCurrentFile(path) => if st.file == path then Some(st) else Step(files, st, Open(path))
    case SeekTo(pos) => if st.pos == pos then Some(st) else Step(files, st, Seek(pos))
    case SeekForward(dist) => Step(files, st, Seek(Wrap(st.pos + dist)))
    case CopyFile(size) => Step(files, st, Copy(size))
    case WriteAddContent(data) => Step(files, st, AddData(data))
  }

  function IntendAll(files: Files, st: Option<State>, calls: seq<Call>): Option<State>
    decreases |calls|
  {
    if st.None? || calls == [] then st else IntendAll(files, Intend(files, st.value, calls[0]), calls[1..])
  }

  // ----- The emitted operations carry out the calls

  /** The interpreter's open file and cursor are the writer's, as long as its operations can be carried out. */
  ghost predicate Tracks(files: Files, w: WriterState)
  {
    var st := Run(files, w.ops);
    st.Some? ==> st.value.file == w.file && st.value.pos == w.pos
  }

  /** The reader's state once the pending buffer is written too. */
  function Meaning(files: Files, w: WriterState): Option<State>
  {
    var st := Run(files, w.ops);
    if st.None? then None else Some(st.value.(out := st.value.out + w.buffer))
  }

  ghost predicate FilesFit(files: Files)
  {
    forall f | f in files :: |files[f]| < WORD
  }

  lemma FlushMeans(files: Files, w: WriterState)
    requires Tracks(files, w)
    ensures Tracks(files, Flushed(w)) && Meaning(files, Flushed(w)) == Meaning(files, w)
    ensures Run(files, Flushed(w).ops) == Meaning(files, w)
  {
    RunAppend(files, w.ops, Data(w.buffer));
    var st := Run(files, w.ops);
    if st.Some? {
      assert st.value.out + [] == st.value.out;
      assert st.value.out + w.buffer + [] == st.value.out + w.buffer;
    }
  }

  /** Emitting an operation after a flush: only the writer's record of file and cursor may differ. */
  lemma EmitMeans(files: Files, w: WriterState, op: Op, file: Path, pos: Word)
    requires Tracks(files, w)
    requires var st := StepFrom(files, Meaning(files, w), op); st.Some? ==> st.value.file == file && st.value.pos == pos
    ensures var w1 := Emit(Flushed(w), op).(file := file, pos := pos);
            Tracks(files, w1) && Meaning(files, w1) == StepFrom(files, Meaning(files, w), op)
  {
    FlushMeans(files, w);
    RunAppend(files, Flushed(w).ops, op);
    var st := StepFrom(files, Meaning(files, w), op);
    if st.Some? {
      assert st.value.out + [] == st.value.out;
    }
  }

  lemma WriteMeans(files: Files, w: WriterState, data: Bytes)
    requires Tracks(files, w)
    ensures var w1 := w.(buffer := w.buffer + data);
            Tracks(files, w1) && Meaning(files, w1) == StepFrom(files, Meaning(files, w), Data(data))
  {
    var st := Run(files, w.ops);
    if st.Some? {
      assert st.value.out + w.buffer + data == st.value.out + (w.buffer + data);
    }
  }

  lemma MeaningTracks(files: Files, w: WriterState)
    requires FilesFit(files) && Tracks(files, w) && Meaning(files, w).Some?
    ensures var st := Meaning(files, w).value;
            && st.file == w.file && st.pos == w.pos
            && forall n: nat | Readable(files, st, n) :: Wrap(w.pos + n) == st.pos + n
  {
  }

  /** One call does what it intends, whatever was buffered or elided. */
  lemma CallMeans(files: Files, w: WriterState, c: Call)
    requires FilesFit(files) && Tracks(files, w)
    ensures var w1 := Apply(w, c); var st := Meaning(files, w);
            && Tracks(files, w1)
            && Meaning(files, w1) == if st.None? then None else Intend(files, st.value, c)
  {
    hide Tracks, Meaning, FilesFit, Wrap;
    if Meaning(files, w).Some? {
      MeaningTracks(files, w);
    }
    match c
    case FlushBuffer => FlushMeans(files, w);
    case WriteContent(data) =>
      WriteMeans(files, w, data);
      FlushMeans(files, w.(buffer := w.buffer + data));
    case SetCurrentFile(path) => EmitMeans(files, w, Open(path), path, 0);
    case SeekTo(pos) => EmitMeans(files, w, Seek(pos), w.file, pos);
    case SeekForward(dist) => EmitMeans(files, w, Seek(Wrap(w.pos + dist)), w.file, Wrap(w.pos + dist));
    case CopyFile(size) => EmitMeans(files, w, Copy(size), w.file, Wrap(w.pos + size));
    case WriteAddContent(data) => EmitMeans(files, w, AddData(data), w.file, Wrap(w.pos + |data|));
  }

  /** Any sequence of calls: the emitted operations and the pending buffer together carry out what was intended. */
  lemma {:induction false} CallsMean(files: Files, w: WriterState, calls: seq<Call>)
    requires FilesFit(files) && Tracks(files, w)
    ensures Tracks(files, ApplyAll(w, calls))
    ensures Meaning(files, ApplyAll(w, calls)) == IntendAll(files, Meaning(files, w), calls)
    decreases |calls|
  {
    if calls == [] {
    } else {
      CallMeans(files, w, calls[0]);
      CallsMean(files, Apply(w, calls[0]), calls[1..]);
      NoneStays(files, calls[1..]);
    }
  }

  lemma NoneStays(files: Files, calls: seq<Call>)
    ensures IntendAll(files, None, calls) == None
  {
  }

  /** A delta stream written from scratch and flushed means exactly the calls. */
  lemma StreamMeans(files: Files, calls: seq<Call>)
    requires FilesFit(files)
    ensures var w := Flushed(ApplyAll(FRESH, calls));
            Interpret(files, EncodeAll(w.ops)) == IntendAll(files, Some(START), calls)
  {
    CallsMean(files, FRESH, calls);
    assert START.out + [] == START.out;
    FlushMeans(files, ApplyAll(FRESH, calls));
    StreamRoundTrip(Flushed(ApplyAll(FRESH, calls)).ops);
  }

  /** Less than a chunk is pending after any calls, and nothing is written that changes nothing. */
  lemma {:induction false} PendingBounded(w: WriterState, calls: seq<Call>)
    requires |w.buffer| < CHUNK_SIZE
    ensures |ApplyAll(w, calls).buffer| < CHUNK_SIZE
    decreases |calls|
  {
    hide Apply;
    if calls == [] {
    } else {
      PendingOnce(w, calls[0]);
      PendingBounded(Apply(w, calls[0]), calls[1..]);
    }
  }

  lemma PendingOnce(w: WriterState, c: Call)
    requires |w.buffer| < CHUNK_SIZE
    ensures |Apply(w, c).buffer| < CHUNK_SIZE
    ensures Apply(w, SeekTo(w.pos)) == Apply(w, SetCurrentFile(w.file)) == w
    ensures forall data: Bytes :: |w.buffer| + |data| < CHUNK_SIZE ==> Apply(w, WriteContent(data)).ops == w.ops
  {
  }

  /** Switching files leaves the cursor at the start of the file exactly if the file was not open or not read. */
  lemma SetCurrentFileRewinds(w: WriterState, path: Path)
    ensures Apply(w, SetCurrentFile(path)).file == path
    ensures Apply(w, SetCurrentFile(path)).pos == 0 <==> w.file != path || w.pos == 0
  {
  }

  /** After a copy it does not. */
  lemma NotRewound(path: Path, size: Word)
    requires path != [] && size > 0
    ensures
      var w := ApplyAll(FRESH, [SetCurrentFile(path)] + ([CopyFile(size)] + [SetCurrentFile(path)]));
      w.file == path && w.pos == size
  {
    var w1 := Apply(FRESH, SetCurrentFile(path));
    ApplyInTurn(FRESH, SetCurrentFile(path), [CopyFile(size)] + [SetCurrentFile(path)]);
    ApplyInTurn(w1, CopyFile(size), [SetCurrentFile(path)]);
    ApplyLast(Apply(w1, CopyFile(size)), SetCurrentFile(path));
  }

  lemma ApplyInTurn(w: WriterState, c: Call, calls: seq<Call>)
    ensures ApplyAll(w, [c] + calls) == ApplyAll(Apply(w, c), calls)
  {
  }

  lemma ApplyLast(w: WriterState, c: Call)
    ensures ApplyAll(w, [c]) == Apply(w, c)
  {
  }

  // ----- The writer

  ghost function Pow128(n: nat): nat
  {
    if n == 0 then 1 else 128 * Pow128(n - 1)
  }

  lemma {:induction false} UvarintLength(x: nat, n: nat)
    requires n > 0 && x < Pow128(n)
    ensures |Uvarint(x)| <= n
    decreases n
  {
    if x < 128 {
    } else {
      assert n > 1 by {
        assert Pow128(1) == 128 * Pow128(0) == 128;
      }
      UvarintLength(x / 128, n - 1);
    }
  }

  /** The ten bytes reserved for a number are enough for every word. */
  lemma WordFits(x: Word)
    ensures |Uvarint(x)| <= 10
  {
    assert Pow128(2) == 128 * Pow128(1) && Pow128(1) == 128 * Pow128(0) && Pow128(0) == 1;
    assert Pow128(4) == 128 * Pow128(3) && Pow128(3) == 128 * Pow128(2);
    assert Pow128(6) == 128 * Pow128(5) && Pow128(5) == 128 * Pow128(4);
    assert Pow128(8) == 128 * Pow128(7) && Pow128(7) == 128 * Pow128(6);
    assert Pow128(10) == 128 * Pow128(9) && Pow128(9) == 128 * Pow128(8);
    UvarintLength(x, 10);
  }

  method PutUvarint(x: nat) returns (s: Bytes)
    ensures s == Uvarint(x) && (x < WORD ==> |s| <= 10)
  {
    if x < WORD {
      WordFits(x);
    }
    var y := x;
    s := [];
    while y >= 128
      invariant s + Uvarint(y) == Uvarint(x)
    {
      assert s + Uvarint(y) == s + [y % 128 + 128] + Uvarint(y / 128);
      s := s + [y % 128 + 128];
      y := y / 128;
    }
    s := s + [y];
  }

  class Writer {
    var stream: Bytes      // what has been handed to the encoder
    var buffer: Bytes
    var currentFile: Path
    var currentPos: Word
    ghost var ops: seq<Op>

    ghost predicate Valid()
      reads this
    {
      stream == EncodeAll(ops)
    }

    ghost function State(): WriterState
      reads this
    {
      WriterState(ops, buffer, currentFile, currentPos)
    }

    constructor ()
      ensures Valid() && State() == FRESH
    {
      stream, buffer, currentFile, currentPos, ops := [], [], [], 0, [];
    }

    method WriteOp(code: Byte, size: nat, data: Bytes, ghost op: Op)
      requires Valid() && code == Code(op) && size == Size(op) && data == Payload(op)
      modifies this`stream, this`ops
      ensures Valid() && ops == old(ops) + [op]
    {
      var head := PutUvarint(size);
      EncodeAppend(ops, op);
      assert stream + Encode(op) == stream + ([code] + head) + data;
      stream := stream + ([code] + head);
      stream := stream + data;
      ops := ops + [op];
    }

    method FlushBuffer()
      requires Valid()
      modifies this
      ensures Valid() && State() == Apply(old(State()), Call.FlushBuffer)
    {
      if |buffer| == 0 {
        return;
      }
      WriteOp(0, |buffer|, buffer, Data(buffer));
      buffer := [];
    }

    method WriteContent(data: Bytes)
      requires Valid()
      modifies this
      ensures Valid() && State() == Apply(old(State()), Call.WriteContent(data))
    {
      buffer := buffer + data;
      if |buffer| >= CHUNK_SIZE {
        FlushBuffer();
      }
    }

    /** Switches to another file; if it is the current one already, the cursor stays where it is. */
    method SetCurrentFile(path: Path)
      requires Valid()
      modifies this
      ensures Valid() && State() == Apply(old(State()), Call.SetCurrentFile(path))
    {
      if currentFile != path {
        FlushBuffer();
        WriteOp(1, |path|, path, Open(path));
        currentFile := path;
        currentPos := 0;
      }
    }

    method SeekTo(pos: Word)
      requires Valid()
      modifies this
      ensures Valid() && State() == Apply(old(State()), Call.SeekTo(pos))
    {
      hide EncodeAll;
      if currentPos == pos {
        return;
      }
      FlushBuffer();
      WriteOp(4, pos, [], Seek(pos));
      currentPos := pos;
    }

    method SeekForward(dist: Word)
      requires Valid()
      modifies this
      ensures Valid() && State() == Apply(old(State()), Call.SeekForward(dist))
    {
      currentPos := Wrap(currentPos + dist);
      FlushBuffer();
      WriteOp(4, currentPos, [], Seek(currentPos));
    }

    method CopyFile(size: Word)
      requires Valid()
      modifies this
      ensures Valid() && State() == Apply(old(State()), Call.CopyFile(size))
    {
      FlushBuffer();
      WriteOp(2, size, [], Copy(size));
      currentPos := Wrap(currentPos + size);
    }

    method WriteAddContent(data: Bytes)
      requires Valid()
      modifies this
      ensures Valid() && State() == Apply(old(State()), Call.WriteAddContent(data))
    {
      FlushBuffer();
      WriteOp(3, |data|, data, AddData(data));
      currentPos := Wrap(currentPos + |data|);
    }

    method CopyFileAt(offset: Word, size: Word)
      requires Valid()
      modifies this
      ensures Valid() && State() == ApplyAll(old(State()), CopyFileAtCalls(offset, size))
    {
      ApplyInTurn(State(), Call.SeekTo(offset), [Call.CopyFile(size)]);
      ApplyLast(Apply(State(), Call.SeekTo(offset)), Call.CopyFile(size));
      SeekTo(offset);
      CopyFile(size);
    }

    method WriteOldFile(path: Path, size: Word)
      requires Valid()
      modifies this
      ensures Valid() && State() == ApplyAll(old(State()), WriteOldFileCalls(path, size))
    {
      ghost var w1 := Apply(State(), Call.SetCurrentFile(path));
      ApplyInTurn(State(), Call.SetCurrentFile(path), [Call.SeekTo(0)] + [Call.CopyFile(size)]);
      ApplyInTurn(w1, Call.SeekTo(0), [Call.CopyFile(size)]);
      ApplyLast(Apply(w1, Call.SeekTo(0)), Call.CopyFile(size));
      SetCurrentFile(path);
      SeekTo(0);
      CopyFile(size);
    }
  }
}
