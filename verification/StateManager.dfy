/** The state of the updater in memory and in its file; a write first empties the file and can be cut off there. */
module StateManager {
  import opened Options
  import opened UpdaterState

  /** A file that is empty or ends too early does not decode. */
  datatype Content = Missing | Broken | Holds(state: State)

  datatype Written = Written | Refused | Cut

  /** Decoding goes into the state in memory: entries in the file win, entries only in memory stay. */
  function Decode(state: State, file: Content): State
  {
    match file
    case Holds(s) => State(s.version, state.artifactStates + s.artifactStates)
    case _ => state
  }

  /** The file once the first `steps` of emptying it, writing it and syncing it have gone through. */
  function FileWritten(file: Content, state: State, steps: nat): Content
  {
    if steps == 0 then file else if steps == 1 then Broken else Holds(state)
  }

  class Manager {
    var state: State
    var file: Content

    constructor (state: State, file: Content)
      ensures this.state == state && this.file == file
    {
      this.state, this.file := state, file;
    }

    method Load() returns (s: State)
      modifies this`state
      ensures s == state == Decode(old(state), file)
    {
      state := Decode(state, file);
      s := state;
    }

    /** Empties the file, writes it and syncs it; of these three steps only the first `steps` go through. */
    method Write(steps: nat) returns (written: Written)
      modifies this`file
      ensures written == if steps < 3 then Cut else Written
      ensures file == FileWritten(old(file), state, steps)
    {
      if steps == 0 {
        return Cut;
      }
      file := Broken;
      if steps == 1 {
        return Cut;
      }
      file := Holds(state);
      if steps == 2 {
        return Cut;
      }
      return Written;
    }

    method Commit(steps: nat) returns (written: Written)
      modifies this`file
      ensures written == if steps < 3 then Cut else Written
      ensures file == FileWritten(old(file), state, steps)
    {
      written := Write(steps);
    }

    /** The change is made to what the file and the memory hold together; only a refusal keeps it from being made. */
    method ModifyState(change: State -> Option<State>, steps: nat) returns (written: Written)
      modifies this
      ensures written == Refused <==> change(Decode(old(state), old(file))) == None
      ensures written == Refused ==> state == Decode(old(state), old(file)) && file == old(file)
      ensures written != Refused ==>
        && written == (if steps < 3 then Cut else Written)
        && change(Decode(old(state), old(file))) == Some(state)
        && file == FileWritten(old(file), state, steps)
    {
      state := Decode(state, file);
      var changed := change(state);
      if changed == None {
        return Refused;
      }
      state := changed.value;
      written := Write(steps);
    }
  }
}
