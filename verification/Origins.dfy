/** Where each byte that a delta yields comes from: sent in the delta, added to an old byte, or copied. */
module Origins {
  import opened Bytes
  import opened DeltaOps
  import opened DeltaWriter
  import opened Segments

  datatype Origin = Sent | Added | Copied

  function All(o: Origin, n: nat): (os: seq<Origin>)
    ensures |os| == n
  {
    seq(n, _ => o)
  }

  lemma AllMore(o: Origin, m: nat, n: nat)
    ensures All(o, m) + All(o, n) == All(o, m + n)
  {
  }

  lemma Regroup(a: seq<Origin>, b: seq<Origin>, c: seq<Origin>)
    ensures a + b + c == a + (b + c)
    ensures a + [] == a
  {
  }

  function OpOrigins(op: Op): seq<Origin>
  {
    match op
    case Data(content) => All(Sent, |content|)
    case Open(_) => []
    case Copy(size) => All(Copied, size)
    case AddData(content) => All(Added, |content|)
    case Seek(_) => []
  }

  /** The origins of what operations yield, byte by byte. */
  function OriginsOf(ops: seq<Op>): seq<Origin>
  {
    if ops == [] then [] else OriginsOf(ops[..|ops| - 1]) + OpOrigins(ops[|ops| - 1])
  }

  /** Each byte has one. */
  lemma {:induction false} OneEach(files: Files, ops: seq<Op>)
    requires Run(files, ops).Some?
    ensures |OriginsOf(ops)| == |Run(files, ops).value.out|
  {
    if ops == [] {
    } else {
      OneEach(files, ops[..|ops| - 1]);
    }
  }

  /** Bytes that the operations carry as they are. */
  function DataBytes(ops: seq<Op>): nat
  {
    if ops == [] then 0
    else
      var op := ops[|ops| - 1];
      DataBytes(ops[..|ops| - 1]) + if op.Data? then |op.content| else 0
  }

  function SentIn(os: seq<Origin>): nat
  {
    if os == [] then 0 else SentIn(os[..|os| - 1]) + if os[|os| - 1] == Sent then 1 else 0
  }

  lemma {:induction false} SentInBoth(a: seq<Origin>, b: seq<Origin>)
    ensures SentIn(a + b) == SentIn(a) + SentIn(b)
    decreases |b|
  {
    if b == [] {
      assert a + b == a;
    } else {
      SentInBoth(a, b[..|b| - 1]);
      assert (a + b)[..|a + b| - 1] == a + b[..|b| - 1];
    }
  }

  lemma {:induction false} SentInAll(o: Origin, n: nat)
    ensures SentIn(All(o, n)) == if o == Sent then n else 0
  {
    if n == 0 {
    } else {
      SentInAll(o, n - 1);
      assert All(o, n)[..n - 1] == All(o, n - 1);
    }
  }

  lemma {:induction false} DataIsSent(ops: seq<Op>)
    ensures DataBytes(ops) == SentIn(OriginsOf(ops))
  {
    hide All;
    if ops == [] {
    } else {
      var op := ops[|ops| - 1];
      DataIsSent(ops[..|ops| - 1]);
      SentInBoth(OriginsOf(ops[..|ops| - 1]), OpOrigins(op));
      SentInAll(Sent, Size(op));
      SentInAll(Added, Size(op));
      SentInAll(Copied, Size(op));
    }
  }

  // ----- The writer

  /** The origins of what has been written, the pending buffer included. */
  function Made(w: WriterState): seq<Origin>
  {
    OriginsOf(w.ops) + All(Sent, |w.buffer|)
  }

  /** What has been written from one state to the next has these origins. */
  predicate Adds(before: WriterState, after: WriterState, os: seq<Origin>)
  {
    Made(after) == Made(before) + os
  }

  function CallOrigins(c: Call): seq<Origin>
  {
    match c
    case WriteContent(data) => All(Sent, |data|)
    case CopyFile(size) => All(Copied, size)
    case WriteAddContent(data) => All(Added, |data|)
    case _ => []
  }

  function CallsOrigins(calls: seq<Call>): seq<Origin>
    decreases |calls|
  {
    if calls == [] then [] else CallOrigins(calls[0]) + CallsOrigins(calls[1..])
  }

  lemma OriginsMore(ops: seq<Op>, op: Op)
    ensures OriginsOf(ops + [op]) == OriginsOf(ops) + OpOrigins(op)
  {
    assert (ops + [op])[..|ops|] == ops;
  }

  lemma FlushAdds(w: WriterState)
    ensures Made(Flushed(w)) == Made(w) == OriginsOf(Flushed(w).ops)
  {
    hide All;
    OriginsMore(w.ops, Data(w.buffer));
    assert Flushed(w).buffer == [] && All(Sent, 0) == [];
    Regroup(Made(w), [], []);
    Regroup(OriginsOf(w.ops), [], []);
  }

  lemma EmitAdds(w: WriterState, op: Op, file: Path, pos: Word)
    ensures Adds(w, Emit(Flushed(w), op).(file := file, pos := pos), OpOrigins(op))
  {
    hide All, OpOrigins;
    FlushAdds(w);
    OriginsMore(Flushed(w).ops, op);
    Regroup(OriginsOf(Flushed(w).ops + [op]), [], []);
    assert Flushed(w).buffer == [] && All(Sent, 0) == [];
  }

  lemma WriteAdds(w: WriterState, data: Bytes)
    ensures Adds(w, w.(buffer := w.buffer + data), All(Sent, |data|))
  {
    hide All, OriginsOf;
    AllMore(Sent, |w.buffer|, |data|);
    Regroup(OriginsOf(w.ops), All(Sent, |w.buffer|), All(Sent, |data|));
  }

  lemma NothingAdds(w: WriterState)
    ensures Adds(w, w, [])
  {
    hide Made;
    Regroup(Made(w), [], []);
  }

  lemma CallAdds(w: WriterState, c: Call)
    ensures Adds(w, Apply(w, c), CallOrigins(c))
  {
    hide All, OriginsOf, Made, Wrap;
    NothingAdds(w);
    FlushAdds(w);
    match c
    case FlushBuffer =>
    case WriteContent(data) =>
      WriteAdds(w, data);
      FlushAdds(w.(buffer := w.buffer + data));
    case SetCurrentFile(path) => EmitAdds(w, Open(path), path, 0);
    case SeekTo(pos) => EmitAdds(w, Seek(pos), w.file, pos);
    case SeekForward(dist) => EmitAdds(w, Seek(Wrap(w.pos + dist)), w.file, Wrap(w.pos + dist));
    case CopyFile(size) => EmitAdds(w, Copy(size), w.file, Wrap(w.pos + size));
    case WriteAddContent(data) => EmitAdds(w, AddData(data), w.file, Wrap(w.pos + |data|));
  }

  lemma ThenAdds(w0: WriterState, w1: WriterState, w2: WriterState, a: seq<Origin>, b: seq<Origin>)
    requires Adds(w0, w1, a) && Adds(w1, w2, b)
    ensures Adds(w0, w2, a + b)
  {
    hide Made;
    Regroup(Made(w0), a, b);
  }

  lemma {:induction false} CallsAdd(w: WriterState, calls: seq<Call>)
    ensures Adds(w, ApplyAll(w, calls), CallsOrigins(calls))
    decreases |calls|
  {
    hide Adds, Apply, CallOrigins;
    if calls == [] {
      NothingAdds(w);
    } else {
      CallAdds(w, calls[0]);
      CallsAdd(Apply(w, calls[0]), calls[1..]);
      ThenAdds(w, Apply(w, calls[0]), ApplyAll(w, calls), CallOrigins(calls[0]), CallsOrigins(calls[1..]));
    }
  }

  lemma CallsInTurn(c: Call, calls: seq<Call>)
    ensures CallsOrigins([c] + calls) == CallOrigins(c) + CallsOrigins(calls)
    ensures CallsOrigins([c]) == CallOrigins(c)
  {
    assert ([c] + calls)[1..] == calls && [c][1..] == [];
    assert CallsOrigins([]) == [];
    Regroup(CallOrigins(c), [], []);
  }

  lemma {:induction false} CallsBoth(a: seq<Call>, b: seq<Call>)
    ensures CallsOrigins(a + b) == CallsOrigins(a) + CallsOrigins(b)
    decreases |a|
  {
    hide CallOrigins;
    if a == [] {
      assert a + b == b;
    } else {
      assert (a + b)[1..] == a[1..] + b;
      CallsBoth(a[1..], b);
      Regroup(CallOrigins(a[0]), CallsOrigins(a[1..]), CallsOrigins(b));
    }
  }

  lemma OldFileAdds(w: WriterState, path: Path, size: Word)
    ensures Adds(w, ApplyAll(w, WriteOldFileCalls(path, size)), All(Copied, size))
  {
    hide Adds, Apply, All;
    CallsAdd(w, WriteOldFileCalls(path, size));
    CallsInTurn(SetCurrentFile(path), [SeekTo(0)] + [CopyFile(size)]);
    CallsInTurn(SeekTo(0), [CopyFile(size)]);
    CallsInTurn(CopyFile(size), []);
    assert [] + All(Copied, size) == All(Copied, size);
  }

  lemma CopyAtAdds(w: WriterState, offset: Word, size: Word)
    ensures Adds(w, ApplyAll(w, CopyFileAtCalls(offset, size)), All(Copied, size))
  {
    hide Adds, Apply, All;
    CallsAdd(w, CopyFileAtCalls(offset, size));
    CallsInTurn(SeekTo(offset), [CopyFile(size)]);
    CallsInTurn(CopyFile(size), []);
    assert [] + All(Copied, size) == All(Copied, size);
  }

  // ----- bsdiff

  /** A segment adds to old bytes and sends what lies between it and the next. */
  function SegmentOrigins(oldbin: Bytes, newbin: Bytes, s: Segment): (os: seq<Origin>)
    requires Fits(oldbin, newbin, s)
    ensures |os| == s.scan - s.Lenb() - s.lastscan
  {
    All(Added, s.Lenf()) + All(Sent, (s.scan - s.Lenb()) - (s.lastscan + s.Lenf()))
  }

  function SegmentsOrigins(oldbin: Bytes, newbin: Bytes, segs: seq<Segment>): seq<Origin>
  {
    if segs == [] || !Fits(oldbin, newbin, segs[|segs| - 1]) then []
    else
      SegmentsOrigins(oldbin, newbin, segs[..|segs| - 1]) + SegmentOrigins(oldbin, newbin, segs[|segs| - 1])
  }

  lemma SegmentAdds(oldbin: Bytes, newbin: Bytes, s: Segment)
    requires Fits(oldbin, newbin, s)
    ensures CallsOrigins(SegmentCalls(oldbin, newbin, s)) == SegmentOrigins(oldbin, newbin, s)
  {
    hide All, SubBytes, Wrap, CallsOrigins;
    var a, b, c := s.lastscan + s.Lenf(), s.scan - s.Lenb(), s.lastpos + s.Lenf();
    var add := WriteAddContent(SubBytes(newbin[s.lastscan..a], oldbin[s.lastpos..c]));
    var extra := WriteContent(newbin[a..b]);
    var seek := SeekForward(Wrap((s.pos - s.Lenb()) - c));
    assert SegmentCalls(oldbin, newbin, s) == [add] + ([extra] + [seek]);
    CallsInTurn(add, [extra] + [seek]);
    CallsInTurn(extra, [seek]);
    CallsInTurn(seek, []);
    Regroup(CallOrigins(extra), [], []);
  }

  /** The calls of tiling segments make just that, one origin for each new byte. */
  lemma {:induction false} SegmentsAdd(oldbin: Bytes, newbin: Bytes, segs: seq<Segment>, scan: nat, pos: nat)
    requires Tiled(oldbin, newbin, segs, scan, pos)
    ensures CallsOrigins(CallsOf(oldbin, newbin, segs)) == SegmentsOrigins(oldbin, newbin, segs)
    ensures |SegmentsOrigins(oldbin, newbin, segs)| == scan
    decreases |segs|
  {
    if segs == [] {
    } else {
      hide SegmentCalls, SegmentOrigins, Fits, CallsOrigins;
      var init, s := segs[..|segs| - 1], segs[|segs| - 1];
      SegmentsAdd(oldbin, newbin, init, s.lastscan, s.lastpos);
      SegmentAdds(oldbin, newbin, s);
      CallsBoth(CallsOf(oldbin, newbin, init), SegmentCalls(oldbin, newbin, s));
    }
  }

  /** Bytes that segments add to old ones. */
  function AddedBytes(segs: seq<Segment>): int
  {
    if segs == [] then 0 else AddedBytes(segs[..|segs| - 1]) + segs[|segs| - 1].Lenf()
  }

  lemma {:induction false} SegmentsSend(oldbin: Bytes, newbin: Bytes, segs: seq<Segment>, scan: nat, pos: nat)
    requires Tiled(oldbin, newbin, segs, scan, pos)
    ensures SentIn(SegmentsOrigins(oldbin, newbin, segs)) == scan - AddedBytes(segs)
    decreases |segs|
  {
    if segs == [] {
    } else {
      hide All, SentIn;
      var init, s := segs[..|segs| - 1], segs[|segs| - 1];
      SegmentsSend(oldbin, newbin, init, s.lastscan, s.lastpos);
      var n := (s.scan - s.Lenb()) - (s.lastscan + s.Lenf());
      SentInBoth(SegmentsOrigins(oldbin, newbin, init), SegmentOrigins(oldbin, newbin, s));
      SentInBoth(All(Added, s.Lenf()), All(Sent, n));
      SentInAll(Added, s.Lenf());
      SentInAll(Sent, n);
    }
  }
}
