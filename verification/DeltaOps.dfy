/**
 The delta language: five operations, their framing as a byte stream, and their meaning as an interpreter that
 reads old files through one cursor and appends to one output.
 */
module DeltaOps {
  import opened Bytes
  import opened Options

  /** Go strings are byte strings; the empty path means that no file is open. */
  type Path = Bytes

  type Files = map<Path, Bytes>

  datatype Op =
    | Data(content: Bytes)
    | Open(path: Path)
    | Copy(size: nat)
    | AddData(content: Bytes)
    | Seek(pos: nat)

  // ----- Meaning

  datatype State = State(out: Bytes, file: Path, pos: nat)

  const START := State([], [], 0)

  function AddByte(x: int, y: int): Byte
  {
    (x + y) % 256
  }

  /** Byte-wise sum modulo 256. */
  function AddBytes(a: Bytes, b: Bytes): (c: Bytes)
    requires |a| == |b|
    ensures |c| == |a|
  {
    seq(|a|, i requires 0 <= i < |a| => AddByte(a[i], b[i]))
  }

  predicate Readable(files: Files, st: State, size: nat)
  {
    st.file in files && st.pos + size <= |files[st.file]|
  }

  function Step(files: Files, st: State, op: Op): Option<State>
  {
    match op
    case Data(content) => Some(st.(out := st.out + content))
    case Open(path) => if path in files then Some(State(st.out, path, 0)) else None
    case Copy(size) =>
      if Readable(files, st, size) then
        Some(st.(out := st.out + files[st.file][st.pos..st.pos + size], pos := st.pos + size))
      else None
    case AddData(content) =>
      if Readable(files, st, |content|) then
        Some(st.(out := st.out + AddBytes(content, files[st.file][st.pos..st.pos + |content|]),
                 pos := st.pos + |content|))
      else None
    case Seek(pos) => if st.file in files && pos <= |files[st.file]| then Some(st.(pos := pos)) else None
  }

  function StepFrom(files: Files, st: Option<State>, op: Op): Option<State>
  {
    if st.Some? then Step(files, st.value, op) else None
  }

  /** Runs the operations from the start state; None when one of them cannot be carried out. */
  function Run(files: Files, ops: seq<Op>): Option<State>
  {
    if ops == [] then Some(START)
    else StepFrom(files, Run(files, ops[..|ops| - 1]), ops[|ops| - 1])
  }

  lemma RunAppend(files: Files, ops: seq<Op>, op: Op)
    ensures Run(files, ops + [op]) == StepFrom(files, Run(files, ops), op)
  {
  }

  // ----- Framing

  function Code(op: Op): Byte
  {
    match op
    case Data(_) => 0
    case Open(_) => 1
    case Copy(_) => 2
    case AddData(_) => 3
    case Seek(_) => 4
  }

  function Uvarint(x: nat): (s: Bytes)
    ensures s != []
  {
    if x < 128 then [x] else [x % 128 + 128] + Uvarint(x / 128)
  }

  function Size(op: Op): nat
  {
    match op
    case Data(content) => |content|
    case Open(path) => |path|
    case Copy(size) => size
    case AddData(content) => |content|
    case Seek(pos) => pos
  }

  function Payload(op: Op): Bytes
  {
    match op
    case Data(content) => content
    case Open(path) => path
    case Copy(_) => []
    case AddData(content) => content
    case Seek(_) => []
  }

  function Encode(op: Op): Bytes
  {
    [Code(op)] + Uvarint(Size(op)) + Payload(op)
  }

  function EncodeAll(ops: seq<Op>): Bytes
  {
    if ops == [] then [] else EncodeAll(ops[..|ops| - 1]) + Encode(ops[|ops| - 1])
  }

  /** Reads a variable-length number; the result is the number and the bytes after it. */
  function ReadUvarint(s: Bytes): (r: Option<(nat, Bytes)>)
    ensures r.Some? ==> |r.value.1| < |s|
  {
    if s == [] then None
    else if s[0] < 128 then Some((s[0], s[1..]))
    else
      var r := ReadUvarint(s[1..]);
      if r.None? then None else Some((s[0] - 128 + 128 * r.value.0, r.value.1))
  }

  function DecodeOne(s: Bytes): (r: Option<(Op, Bytes)>)
    ensures r.Some? ==> |r.value.1| < |s|
  {
    if s == [] then None
    else
      var r := ReadUvarint(s[1..]);
      if r.None? then None
      else
        var (size, rest) := r.value;
        if s[0] == 2 then Some((Copy(size), rest))
        else if s[0] == 4 then Some((Seek(size), rest))
        else if size > |rest| then None
        else if s[0] == 0 then Some((Data(rest[..size]), rest[size..]))
        else if s[0] == 1 then Some((Open(rest[..size]), rest[size..]))
        else if s[0] == 3 then Some((AddData(rest[..size]), rest[size..]))
        else None
  }

  function DecodeAll(s: Bytes): Option<seq<Op>>
    decreases |s|
  {
    if s == [] then Some([])
    else
      var r := DecodeOne(s);
      if r.None? then None
      else
        var ops := DecodeAll(r.value.1);
        if ops.None? then None else Some([r.value.0] + ops.value)
  }

  lemma {:induction false} UvarintRoundTrip(x: nat, rest: Bytes)
    ensures ReadUvarint(Uvarint(x) + rest) == Some((x, rest))
  {
    var s := Uvarint(x) + rest;
    if x < 128 {
      assert s[1..] == rest;
    } else {
      UvarintRoundTrip(x / 128, rest);
      assert s[1..] == Uvarint(x / 128) + rest;
    }
  }

  lemma OneRoundTrip(op: Op, rest: Bytes)
    ensures DecodeOne(Encode(op) + rest) == Some((op, rest))
  {
    var s := Encode(op) + rest;
    assert s[1..] == Uvarint(Size(op)) + (Payload(op) + rest);
    UvarintRoundTrip(Size(op), Payload(op) + rest);
    assert (Payload(op) + rest)[..|Payload(op)|] == Payload(op);
    assert (Payload(op) + rest)[|Payload(op)|..] == rest;
  }

  lemma DecodeFirst(op: Op, rest: Bytes)
    ensures var tail := DecodeAll(rest);
            DecodeAll(Encode(op) + rest) == if tail.None? then None else Some([op] + tail.value)
  {
    hide DecodeOne;
    OneRoundTrip(op, rest);
    assert Encode(op) + rest != [];
  }

  lemma EncodeLast(ops: seq<Op>, rest: Bytes)
    requires ops != []
    ensures
      var init, op := ops[..|ops| - 1], ops[|ops| - 1];
      EncodeAll(ops) + rest == EncodeAll(init) + (Encode(op) + rest)
  {
    hide Encode;
    assert EncodeAll(ops) == EncodeAll(ops[..|ops| - 1]) + Encode(ops[|ops| - 1]);
  }

  lemma LastThenTail(ops: seq<Op>, tail: seq<Op>)
    requires ops != []
    ensures ops[..|ops| - 1] + ([ops[|ops| - 1]] + tail) == ops + tail
  {
  }

  lemma {:induction false} DecodesPrefix(ops: seq<Op>, rest: Bytes)
    ensures
      var tail := DecodeAll(rest);
      DecodeAll(EncodeAll(ops) + rest) == if tail.None? then None else Some(ops + tail.value)
    decreases |ops|
  {
    hide Encode, EncodeAll, DecodeAll;
    if ops == [] {
      NoOps(rest);
    } else {
      var init, op := ops[..|ops| - 1], ops[|ops| - 1];
      EncodeLast(ops, rest);
      DecodeFirst(op, rest);
      DecodesPrefix(init, Encode(op) + rest);
      if DecodeAll(rest).Some? {
        LastThenTail(ops, DecodeAll(rest).value);
      }
    }
  }

  lemma NoOps(rest: Bytes)
    ensures EncodeAll([]) + rest == rest
    ensures DecodeAll(rest).Some? ==> [] + DecodeAll(rest).value == DecodeAll(rest).value
  {
  }

  /** The stream of operations can be read back. */
  lemma StreamRoundTrip(ops: seq<Op>)
    ensures DecodeAll(EncodeAll(ops)) == Some(ops)
  {
    DecodesPrefix(ops, []);
    assert DecodeAll([]) == Some([]) && ops + [] == ops;
    assert EncodeAll(ops) + [] == EncodeAll(ops);
  }

  lemma EncodeAppend(ops: seq<Op>, op: Op)
    ensures EncodeAll(ops + [op]) == EncodeAll(ops) + Encode(op)
  {
  }

  /** What a reader makes of a delta stream. */
  function Interpret(files: Files, stream: Bytes): Option<State>
  {
    var ops := DecodeAll(stream);
    if ops.None? then None else Run(files, ops.value)
  }
}
