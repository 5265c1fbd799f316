/**
 The updater: it pulls an image in full or patches the output directory in place, and can be cut off, by an error or
 by a crash, between any two writes to that directory or to its state file.
 */
module Updater {
  import opened Bytes
  import opened Options
  import opened StateManager
  import opened UpdaterState

  /** The files of a directory by their paths. */
  type Directory = map<string, Bytes>

  /** A patch either turns the directory into another one or is not applicable. */
  type Patch = Directory -> Option<Directory>

  datatype Reply = Identical | Incompatible | Refusal | Accepted | Success(targetImage: Image, deltas: seq<Patch>)

  /** `Interrupted` stands for an error of a write and for a crash: which it was only shows in what comes next. */
  datatype Outcome = Done | NotYet | Failed | Interrupted

  /**
   What a call of the updater meets: the image that the target names, whether and how servers answer, and how far it
   gets.  Of replacing the directory `steps` go through (unpacking, removing it in part, removing it, moving the new one
   and setting its mode), of fetching deltas and patching `patching`, and of saving the state `saving`.
   */
  datatype Call = Call(target: Image, named: Digest, available: bool, server: Digest -> Reply, steps: nat,
                       patching: nat, saving: nat)

  /** Replacing the directory takes four steps after unpacking, saving the state three. */
  const REPLACING := 4
  const SAVING := 3

  function ApplyAll(deltas: seq<Patch>, d: Directory): Option<Directory>
  {
    if deltas == [] then Some(d)
    else
      var next := deltas[0](d);
      if next == None then None else ApplyAll(deltas[1..], next.value)
  }

  /** What images unpack to and how directories are hashed. */
  datatype World = World(contents: Digest -> Directory, hash: Directory -> Digest)
  {
    ghost predicate Injective()
    {
      forall d, e :: hash(d) == hash(e) ==> d == e
    }

    /** A record is honest if its directory digest is that of the contents of its image. */
    ghost predicate Honest(s: State)
    {
      forall k :: k in s.artifactStates ==>
        s.artifactStates[k].directoryDigest == hash(contents(s.artifactStates[k].imageDigest))
    }

    /** A server tells two images identical only if they are, and its deltas lead from the one to the other. */
    ghost predicate HonestCall(c: Call)
    {
      && (c.target.Digested? ==> c.named == c.target.digest)
      && forall from :: match c.server(from)
           case Identical => c.named == from
           case Success(image, deltas) =>
             && (c.target != Malformed ==> image == Digested(c.target.repo, c.named))
             && ApplyAll(deltas, contents(from)) == Some(contents(c.named))
           case _ => true
    }

    function Record(image: Digest): ArtifactState
    {
      ArtifactState(image, hash(contents(image)))
    }
  }

  /** The directory, the state in memory and the state file. */
  datatype Situation = Situation(output: Option<Directory>, state: State, file: Content)

  /** With what the file has read into memory. */
  function Loaded(s: Situation): Situation
  {
    s.(state := Decode(s.state, s.file))
  }

  /** The image whose unmodified contents the directory is known to hold. */
  function Held(w: World, s: State, path: string, repo: string, output: Option<Directory>): Option<Digest>
  {
    var entry := GetArtifactState(s, path, repo);
    if entry.Some? && output == Some(w.contents(entry.value.imageDigest)) then Some(entry.value.imageDigest) else None
  }

  /** Hashing a directory that is not there fails, and with a record the updater hashes before anything else. */
  predicate Stuck(s: State, path: string, repo: string, output: Option<Directory>)
  {
    GetArtifactState(s, path, repo).Some? && output == None
  }

  // ----- What a start makes of a situation

  const FRESH_STATE := State("2", map[])

  /** State files that cannot be read or are of the first version are thrown away. */
  function Cleaned(file: Content): Content
  {
    if file == Broken || (file.Holds? && file.state.version == "1") then Missing else file
  }

  const STARTING := 6

  /** All records of the file are kept; a missing directory is made. */
  predicate StartsAs(before: Situation, steps: nat, after: Situation, cut: bool)
  {
    var file := Cleaned(before.file);
    var state := Decode(FRESH_STATE, file);
    && (cut <==> steps < STARTING)
    && after.output == (if before.output == None && steps >= 2 then Some(map[]) else before.output)
    && after.file == (if steps == 0 then before.file else if steps < 3 then file
                      else FileWritten(file, state, steps - 3))
    && (!cut ==> after.state == state)
  }

  // ----- What a pull makes of a situation

  /** The target is in place and recorded in memory; how much of that is in the file depends on the steps of saving. */
  predicate SavesAs(w: World, path: string, c: Call, before: Situation, after: Situation, outcome: Outcome)
  {
    && after.output == Some(w.contents(c.named))
    && c.target != Malformed
    && Some(after.state)
       == SetArtifactState(Decode(before.state, before.file), path, Digested(c.target.repo, c.named),
                           w.hash(w.contents(c.named)))
    && after.file == FileWritten(before.file, after.state, c.saving)
    && outcome == if c.saving < SAVING then Interrupted else Done
  }

  /** A full pull fails before anything is changed, or gets as far as its steps. */
  predicate ReplacesAs(w: World, path: string, c: Call, before: Situation, after: Situation, outcome: Outcome)
  {
    if c.target == Malformed || !c.available then outcome == Failed && after == before
    else if c.steps < REPLACING then
      && outcome == Interrupted && after.state == before.state && after.file == before.file
      && (c.steps == 0 ==> after.output == before.output)
      && (c.steps == 2 ==> after.output == None)
      && (c.steps == 3 ==> after.output == Some(w.contents(c.named)))
    else SavesAs(w, path, c, before, after, outcome)
  }

  /** A pull of a delta from an image does as the server says; patches are applied as far as `patching` goes. */
  predicate PatchesAs(w: World, path: string, c: Call, from: Digest, before: Situation, after: Situation,
                      outcome: Outcome)
  {
    match c.server(from)
    case Identical => outcome == Done && after == before
    case Incompatible => ReplacesAs(w, path, c, before, after, outcome)
    case Refusal => outcome == Failed && after == before
    case Accepted => outcome == NotYet && after == before
    case Success(_, deltas) =>
      if c.patching <= |deltas| then
        && outcome == Interrupted && after.state == before.state && after.file == before.file
        && (c.patching == 0 ==> after.output == before.output)
      else SavesAs(w, path, c, before, after, outcome)
  }

  /** A pull asks for a delta exactly if its directory holds the image it has a record of. */
  predicate PullsAs(w: World, path: string, c: Call, before: Situation, asked: Option<Digest>, after: Situation,
                    outcome: Outcome)
  {
    var loaded := Loaded(before);
    if c.target == Malformed then asked == None && outcome == Failed && after == loaded
    else
      && asked == Held(w, loaded.state, path, c.target.repo, before.output)
      && if asked.Some? then PatchesAs(w, path, c, asked.value, loaded, after, outcome)
         else if Stuck(loaded.state, path, c.target.repo, before.output) then outcome == Failed && after == loaded
         else ReplacesAs(w, path, c, loaded, after, outcome)
  }

  /** Nothing cuts the call off, given what it asks a server for. */
  predicate GoesThrough(c: Call, asked: Option<Digest>)
  {
    var whole := c.steps >= REPLACING && c.saving >= SAVING;
    if asked == None then whole
    else
      match c.server(asked.value)
      case Incompatible => whole
      case Success(_, deltas) => c.patching > |deltas| && c.saving >= SAVING
      case _ => true
  }

  /** Records tell, and are of a version that a start keeps. */
  ghost predicate Sane(w: World, s: Situation)
  {
    && w.Honest(s.state) && s.state.version != "1"
    && (s.file.Holds? ==> w.Honest(s.file.state) && s.file.state.version != "1")
  }

  /** A full pull whose new directory cannot be moved once the old one is gone. */
  predicate Loses(c: Call, asked: Option<Digest>)
  {
    c.available && c.steps == 2 && (asked.Some? ==> c.server(asked.value) == Incompatible)
  }

  lemma SaneLoaded(w: World, s: Situation)
    requires Sane(w, s)
    ensures Sane(w, Loaded(s))
  {
  }

  /** Saving the record of an image whose contents are in place keeps records telling. */
  lemma SaneSaved(w: World, path: string, c: Call, before: Situation)
    requires Sane(w, before) && c.target != Malformed
    ensures
      var s := SetArtifactState(Decode(before.state, before.file), path, Digested(c.target.repo, c.named),
                                w.hash(w.contents(c.named)));
      s.Some? && w.Honest(s.value) && s.value.version != "1"
  {
  }

  /** With telling records and hashes the directory is unmodified exactly if its hash is the recorded one. */
  lemma HashTells(w: World, s: State, path: string, repo: string, d: Directory)
    requires w.Injective() && w.Honest(s)
    ensures
      var entry := GetArtifactState(s, path, repo);
      entry.Some? ==>
        (entry.value.directoryDigest == w.hash(d) <==> d == w.contents(entry.value.imageDigest))
  {
  }

  lemma SavesTells(w: World, path: string, c: Call, before: Situation, after: Situation, outcome: Outcome)
    requires w.HonestCall(c) && Sane(w, before) && SavesAs(w, path, c, before, after, outcome)
    ensures Sane(w, after) && (outcome == Done <==> c.saving >= SAVING) && outcome in {Done, Interrupted}
    ensures after.output == Some(w.contents(c.named))
    ensures GetArtifactState(after.state, path, c.target.repo) == Some(w.Record(c.named))
    ensures outcome == Done ==> after.file == Holds(after.state)
  {
    SaneSaved(w, path, c, before);
  }

  lemma ReplacesTells(w: World, path: string, c: Call, before: Situation, after: Situation, outcome: Outcome)
    requires w.HonestCall(c) && Sane(w, before) && ReplacesAs(w, path, c, before, after, outcome)
    ensures Sane(w, after) && outcome != NotYet
    ensures outcome == Failed <==> c.target == Malformed || !c.available
    ensures outcome == Failed ==> after == before
    ensures outcome != Failed ==> (outcome == Done <==> c.steps >= REPLACING && c.saving >= SAVING)
    ensures outcome == Done ==>
      && c.target != Malformed && after.output == Some(w.contents(c.named))
      && GetArtifactState(after.state, path, c.target.repo) == Some(w.Record(c.named))
      && after.file == Holds(after.state)
  {
    hide SavesAs, World.HonestCall;
    if c.target != Malformed && c.available && c.steps >= REPLACING {
      SavesTells(w, path, c, before, after, outcome);
    }
  }

  /** What a caller may rely on: when a pull fails, waits, is done or is cut off, and what each of these leaves. */
  lemma PullTells(w: World, path: string, c: Call, before: Situation, asked: Option<Digest>, after: Situation,
                  outcome: Outcome)
    requires w.HonestCall(c) && Sane(w, before) && PullsAs(w, path, c, before, asked, after, outcome)
    ensures Sane(w, after)
    ensures asked.Some? ==> before.output == Some(w.contents(asked.value))
    ensures outcome == NotYet <==> asked.Some? && c.server(asked.value) == Accepted
    ensures outcome == Failed <==>
      || c.target == Malformed
      || (asked.Some? && c.server(asked.value) == Refusal)
      || ((asked.Some? ==> c.server(asked.value) == Incompatible) && !c.available)
      || (asked == None && Stuck(Loaded(before).state, path, c.target.repo, before.output))
    ensures outcome != Failed && outcome != NotYet ==> (outcome == Done <==> GoesThrough(c, asked))
    ensures outcome == Failed || outcome == NotYet ==> after == Loaded(before)
    ensures outcome == Done ==>
      && c.target != Malformed
      && after.output == Some(w.contents(c.named))
      && GetArtifactState(after.state, path, c.target.repo) == Some(w.Record(c.named))
    ensures outcome == Done ==>
      if asked.Some? && c.server(asked.value) == Identical then after == Loaded(before)
      else after.file == Holds(after.state)
  {
    hide World.Injective, World.Honest, World.HonestCall, SavesAs, ReplacesAs;
    SaneLoaded(w, before);
    if c.target != Malformed && !(asked == None && Stuck(Loaded(before).state, path, c.target.repo, before.output)) {
      if asked == None || c.server(asked.value) == Incompatible {
        ReplacesTells(w, path, c, Loaded(before), after, outcome);
      } else if c.server(asked.value).Success? && c.patching > |c.server(asked.value).deltas| {
        SavesTells(w, path, c, Loaded(before), after, outcome);
        DecodeTwice(before.state, before.file);
      } else if c.server(asked.value) == Identical {
        IdenticalTells(w, path, c, asked.value, Loaded(before));
      }
    }
  }

  /** The server is right that nothing is new. */
  lemma IdenticalTells(w: World, path: string, c: Call, from: Digest, s: Situation)
    requires w.HonestCall(c) && Sane(w, s) && c.target != Malformed && c.server(from) == Identical
    requires Held(w, s.state, path, c.target.repo, s.output) == Some(from)
    ensures c.named == from && GetArtifactState(s.state, path, c.target.repo) == Some(w.Record(c.named))
  {
  }

  // ----- Runs

  datatype Event = Restart(steps: nat) | Pull(call: Call)

  datatype Did = Started(cut: bool) | Skipped | Pulled(asked: Option<Digest>, outcome: Outcome)

  /** What was done on an event, and the situation before and after. */
  datatype Entry = Entry(before: Situation, did: Did, after: Situation)

  /** After the first `k` events a process runs: the last restart among them got to its end. */
  function Running(log: seq<Entry>, k: nat): bool
    requires k <= |log|
  {
    if k == 0 then false
    else
      match log[k - 1].did
      case Started(cut) => !cut
      case _ => Running(log, k - 1)
  }

  /** A pull happens exactly while a process runs. */
  ghost predicate Sound(w: World, path: string, event: Event, running: bool, entry: Entry)
  {
    match entry.did
    case Started(cut) => event.Restart? && StartsAs(entry.before, event.steps, entry.after, cut)
    case Skipped => event.Pull? && !running && entry.after == entry.before
    case Pulled(asked, outcome) =>
      && event.Pull? && running && w.HonestCall(event.call) && Sane(w, entry.before)
      && PullsAs(w, path, event.call, entry.before, asked, entry.after, outcome)
  }

  /** The situation after the first `k` events. */
  function After(log: seq<Entry>, start: Situation, k: nat): Situation
    requires k <= |log|
  {
    if k == 0 then start else log[k - 1].after
  }

  ghost predicate TellsAt(w: World, path: string, events: seq<Event>, log: seq<Entry>, start: Situation, k: nat)
    requires k < |log| <= |events|
  {
    Sound(w, path, events[k], Running(log, k), log[k]) && log[k].before == After(log, start, k)
  }

  /** The entries tell of each event, and make up one history from `start` to `end`. */
  ghost predicate Tells(w: World, path: string, events: seq<Event>, log: seq<Entry>, start: Situation, end: Situation)
    requires |log| <= |events|
  {
    (forall k: nat :: k < |log| ==> TellsAt(w, path, events, log, start, k)) && end == After(log, start, |log|)
  }

  lemma {:induction false} RunningBefore(log: seq<Entry>, e: Entry, k: nat)
    requires k <= |log|
    ensures Running(log + [e], k) == Running(log, k)
  {
    if k == 0 {
    } else {
      RunningBefore(log, e, k - 1);
    }
  }

  lemma RunningNext(log: seq<Entry>, e: Entry)
    ensures Running(log + [e], |log| + 1) == if e.did.Started? then !e.did.cut else Running(log, |log|)
  {
    RunningBefore(log, e, |log|);
  }

  lemma TellsStill(w: World, path: string, events: seq<Event>, log: seq<Entry>, e: Entry, start: Situation, k: nat)
    requires k <= |log| < |events|
    requires if k < |log| then TellsAt(w, path, events, log, start, k)
             else Sound(w, path, events[k], Running(log, k), e) && e.before == After(log, start, k)
    ensures TellsAt(w, path, events, log + [e], start, k)
  {
    hide Sound, Running;
    RunningBefore(log, e, k);
  }

  lemma TellsMore(w: World, path: string, events: seq<Event>, log: seq<Entry>, e: Entry, start: Situation,
                  end: Situation)
    requires |log| < |events| && Tells(w, path, events, log, start, end)
    requires e.before == end && Sound(w, path, events[|log|], Running(log, |log|), e)
    ensures Tells(w, path, events, log + [e], start, e.after)
  {
    hide Sound, Running, TellsAt;
    forall k: nat | k <= |log|
      ensures TellsAt(w, path, events, log + [e], start, k)
    {
      TellsStill(w, path, events, log, e, start, k);
    }
  }

  // ----- What a run remembers

  /** The file has the record of an image, and a start reads it. */
  ghost predicate OnDisk(w: World, path: string, repo: string, image: Digest, file: Content)
  {
    && file.Holds? && file.state.version != "1"
    && GetArtifactState(file.state, path, repo) == Some(w.Record(image))
  }

  /** Files without a record of the repository that a start reads. */
  predicate NotOnDisk(path: string, repo: string, file: Content)
  {
    file.Holds? && file.state.version != "1" ==> GetArtifactState(file.state, path, repo) == None
  }

  /** The directory holds the image and there is a record of it, in memory or in the file as well. */
  ghost predicate Remembers(w: World, path: string, repo: string, image: Digest, s: Situation, inFile: bool)
  {
    && s.output == Some(w.contents(image))
    && if inFile then OnDisk(w, path, repo, image, s.file)
       else NotOnDisk(path, repo, s.file) && GetArtifactState(s.state, path, repo) == Some(w.Record(image))
  }

  /** The directory holds the image but there is no record. */
  ghost predicate Forgot(w: World, path: string, repo: string, image: Digest, s: Situation)
  {
    && s.output == Some(w.contents(image)) && GetArtifactState(s.state, path, repo) == None
    && NotOnDisk(path, repo, s.file)
  }

  /** After a pull that is done the record is in the file, unless the server said that nothing is new and it was not. */
  lemma DoneRemembers(w: World, path: string, c: Call, before: Situation, asked: Option<Digest>, after: Situation)
    requires w.Injective() && w.HonestCall(c) && Sane(w, before) && PullsAs(w, path, c, before, asked, after, Done)
    ensures
      var inFile := OnDisk(w, path, c.target.repo, c.named, after.file);
      && (inFile <==> (asked.Some? && c.server(asked.value) == Identical ==>
                         OnDisk(w, path, c.target.repo, c.named, before.file)))
      && Remembers(w, path, c.target.repo, c.named, after, inFile)
  {
    hide World.Injective;
    PullTells(w, path, c, before, asked, after, Done);
  }

  /** Neither a process that starts, nor one that does not, nor a pull that fails or waits changes the directory. */
  predicate Quiet(did: Did)
  {
    match did
    case Started(cut) => !cut
    case Skipped => true
    case Pulled(_, outcome) => outcome == Failed || outcome == NotYet
  }

  /** A record in the file outlasts all of these; one in memory only is forgotten at the next start. */
  lemma QuietKeeps(w: World, path: string, event: Event, running: bool, e: Entry, repo: string, image: Digest)
    requires Sound(w, path, event, running, e) && Quiet(e.did)
    ensures Remembers(w, path, repo, image, e.before, true) ==> Remembers(w, path, repo, image, e.after, true)
    ensures Remembers(w, path, repo, image, e.before, false) ==>
              if e.did.Started? then Forgot(w, path, repo, image, e.after)
              else Remembers(w, path, repo, image, e.after, false)
    ensures Forgot(w, path, repo, image, e.before) ==> Forgot(w, path, repo, image, e.after)
  {
    hide World.HonestCall;
    if e.did.Pulled? {
      PullTells(w, path, event.call, e.before, e.did.asked, e.after, e.did.outcome);
    }
  }

  lemma {:induction false} QuietRun(w: World, path: string, events: seq<Event>, log: seq<Entry>, start: Situation,
                                    end: Situation, j: nat, k: nat, repo: string, image: Digest, inFile: bool)
    requires |log| <= |events| && Tells(w, path, events, log, start, end) && j < k < |log|
    requires Remembers(w, path, repo, image, log[j].after, inFile)
    requires forall i :: j < i < k ==> Quiet(log[i].did)
    ensures
      if inFile || forall i :: j < i < k ==> !log[i].did.Started? then
        Remembers(w, path, repo, image, log[k].before, inFile)
      else Forgot(w, path, repo, image, log[k].before)
    decreases k
  {
    hide Remembers, Forgot, Sound, Running, Quiet;
    assert TellsAt(w, path, events, log, start, k);
    if k == j + 1 {
    } else {
      QuietRun(w, path, events, log, start, end, j, k - 1, repo, image, inFile);
      assert TellsAt(w, path, events, log, start, k - 1);
      QuietKeeps(w, path, events[k - 1], Running(log, k - 1), log[k - 1], repo, image);
    }
  }

  lemma AsksFor(w: World, path: string, c: Call, before: Situation, asked: Option<Digest>, after: Situation,
                outcome: Outcome, repo: string, image: Digest)
    requires Sane(w, before) && PullsAs(w, path, c, before, asked, after, outcome)
    requires c.target != Malformed && c.target.repo == repo
    ensures forall inFile :: Remembers(w, path, repo, image, before, inFile) ==> asked == Some(image)
    ensures Forgot(w, path, repo, image, before) ==> asked == None
  {
  }

  /**
   After a pull that is done, and until the directory changes, the next pull of the repository asks for a delta from
   just that image, however often the updater is restarted in between, if the record is in the file; if it is in memory
   only, exactly as long as there is no restart.
   */
  lemma AsksAgain(w: World, path: string, events: seq<Event>, log: seq<Entry>, start: Situation, end: Situation,
                  j: nat, k: nat)
    requires w.Injective() && |log| <= |events| && Tells(w, path, events, log, start, end) && j < k < |log|
    requires log[j].did.Pulled? && log[j].did.outcome == Done && log[k].did.Pulled?
    requires events[k].Pull? && events[k].call.target != Malformed
    requires events[j].Pull? && events[j].call.target != Malformed
    requires events[k].call.target.repo == events[j].call.target.repo
    requires forall i :: j < i < k ==> Quiet(log[i].did)
    ensures
      var c := events[j].call;
      var inFile := OnDisk(w, path, c.target.repo, c.named, log[j].after.file);
      var started := exists i :: j < i < k && log[i].did.Started?;
      log[k].did.asked == if inFile || !started then Some(c.named) else None
  {
    hide Remembers, Forgot, OnDisk, Running, World.Injective, PullsAs, Sane, World.HonestCall;
    assert TellsAt(w, path, events, log, start, j) && TellsAt(w, path, events, log, start, k);
    var c := events[j].call;
    var inFile := OnDisk(w, path, c.target.repo, c.named, log[j].after.file);
    DoneRemembers(w, path, c, log[j].before, log[j].did.asked, log[j].after);
    QuietRun(w, path, events, log, start, end, j, k, c.target.repo, c.named, inFile);
    AsksFor(w, path, events[k].call, log[k].before, log[k].did.asked, log[k].after, log[k].did.outcome,
            c.target.repo, c.named);
  }

  /**
   A pull whose record cannot be saved, one that finds that nothing is new, and a restart: the second pull is done, and
   yet the next one asks for no delta, although the directory still holds the image.
   */
  lemma RecordForgotten(w: World, path: string, repo: string, d: Digest, c1: Call, c2: Call, c3: Call,
                        log: seq<Entry>, end: Situation)
    requires w.Injective() && |log| == 5
    requires c1.target == c2.target == Digested(repo, d) && c3.target == Digested(repo, d)
    requires c1.available && c1.steps == REPLACING && c1.saving == 0 && c2.server(d) == Identical
    requires Tells(w, path, [Restart(STARTING), Pull(c1), Pull(c2), Restart(STARTING), Pull(c3)], log,
                   Situation(None, FRESH_STATE, Missing), end)
    ensures log[2].did == Pulled(Some(d), Done) && log[4].before.output == Some(w.contents(d))
    ensures log[4].did.Pulled? && log[4].did.asked == None
  {
    var start := Situation(None, FRESH_STATE, Missing);
    var events := [Restart(STARTING), Pull(c1), Pull(c2), Restart(STARTING), Pull(c3)];
    hide World.Injective, World.Honest;
    assert TellsAt(w, path, events, log, start, 0) && TellsAt(w, path, events, log, start, 1);
    assert TellsAt(w, path, events, log, start, 2) && TellsAt(w, path, events, log, start, 3);
    assert TellsAt(w, path, events, log, start, 4);
    assert Running(log, 1) && Running(log, 2) && Running(log, 4);
    assert NotOnDisk(path, repo, log[0].after.file);
    SavesTells(w, path, c1, Loaded(log[1].before), log[1].after, Interrupted);
    assert Remembers(w, path, repo, d, log[1].after, false);
    AsksFor(w, path, c2, log[2].before, log[2].did.asked, log[2].after, log[2].did.outcome, repo, d);
    AsksAgain(w, path, events, log, start, end, 2, 4);
  }

  class Client {
    const world: World
    const path: string
    const manager: Manager
    var output: Option<Directory>    // what the file system holds at `path`

    ghost function Now(): Situation
      reads this, manager
    {
      Situation(output, manager.state, manager.file)
    }

    ghost predicate Valid()
      reads this, manager
    {
      world.Injective() && Sane(world, Now())
    }

    /** What a restart can rely on: state files of the first version are thrown away. */
    ghost predicate Restartable()
      reads this, manager
    {
      && world.Injective()
      && (manager.file.Holds? && manager.file.state.version != "1" ==> world.Honest(manager.file.state))
    }

    constructor (world: World, path: string, manager: Manager, output: Option<Directory>)
      ensures this.world == world && this.path == path && this.manager == manager && this.output == output
    {
      this.world, this.path, this.manager, this.output := world, path, manager, output;
    }

    /** What a new process starts with: all records of the file, unless that has to be thrown away. */
    method Start(steps: nat) returns (cut: bool)
      requires Restartable()
      modifies this`output, manager
      ensures Restartable() && StartsAs(old(Now()), steps, Now(), cut)
      ensures !cut ==> Valid() && output.Some?
    {
      manager.state := FRESH_STATE;
      if steps == 0 {
        return true;
      }
      if manager.file == Broken || (manager.file.Holds? && manager.file.state.version == "1") {
        manager.file := Missing;
      }
      if steps == 1 {
        return true;
      }
      if output == None {
        output := Some(map[]);
      }
      if steps == 2 {
        return true;
      }
      var _ := manager.Load();
      var written := manager.Commit(steps - 3);
      cut := written == Written.Cut;
    }

    method SaveState(c: Call, image: Image, held: Directory) returns (outcome: Outcome)
      requires Valid() && c.target != Malformed && image == Digested(c.target.repo, c.named)
      requires held == world.contents(c.named)
      modifies manager
      ensures Valid()
      ensures output == Some(held) ==> SavesAs(world, path, c, old(Now()), Now(), outcome)
    {
      SaneSaved(world, path, c, Now());
      var written := manager.ModifyState(s => SetArtifactState(s, path, image, world.hash(held)), c.saving);
      outcome := if written == Written.Written then Done else Interrupted;
    }

    method PullFullImage(c: Call) returns (outcome: Outcome)
      requires Valid() && world.HonestCall(c)
      modifies this`output, manager
      ensures Valid() && ReplacesAs(world, path, c, old(Now()), Now(), outcome)
    {
      hide World.Injective, World.Honest;
      if c.target == Malformed || !c.available {
        return Failed;
      }
      var extracted := world.contents(c.named);
      if c.steps == 0 {
        return Interrupted;
      }
      output := *;
      if c.steps == 1 {
        return Interrupted;
      }
      output := None;
      if c.steps == 2 {
        return Interrupted;
      }
      output := Some(extracted);
      if c.steps == 3 {
        return Interrupted;
      }
      outcome := SaveState(c, Digested(c.target.repo, c.named), extracted);
    }

    /** Patches one after the other, in place; the one at which it is cut off may leave anything. */
    method PatchAll(deltas: seq<Patch>, patching: nat) returns (outcome: Outcome)
      requires output.Some?
      modifies this`output
      ensures ApplyAll(deltas, old(output.value)).Some? ==>
                outcome == if patching < |deltas| then Interrupted else Done
      ensures outcome == Done ==> output == ApplyAll(deltas, old(output.value)) && output.Some?
      ensures outcome == Failed ==> ApplyAll(deltas, old(output.value)) == None
      ensures outcome == Interrupted ==> patching < |deltas|
      ensures outcome != NotYet
    {
      ghost var start := output.value;
      var i := 0;
      while i < |deltas|
        invariant 0 <= i <= |deltas| && i <= patching && output.Some?
        invariant ApplyAll(deltas, start) == ApplyAll(deltas[i..], output.value)
      {
        var patched := deltas[i](output.value);
        assert deltas[i..][1..] == deltas[i + 1..];
        output := *;
        if patching == i {
          return Interrupted;
        }
        if patched == None {
          return Failed;
        }
        output := patched;
        i := i + 1;
      }
      return Done;
    }

    method PullDeltaImage(c: Call, from: Digest) returns (outcome: Outcome)
      requires Valid() && world.HonestCall(c) && c.target != Malformed
      requires output == Some(world.contents(from))
      modifies this`output, manager
      ensures Valid() && PatchesAs(world, path, c, from, old(Now()), Now(), outcome)
    {
      hide World.Injective, World.Honest;
      match c.server(from) {
        case Identical =>
          return Done;
        case Incompatible =>
          outcome := PullFullImage(c);
        case Refusal =>
          return Failed;
        case Accepted =>
          return NotYet;
        case Success(image, deltas) =>
          if c.patching == 0 {
            return Interrupted;
          }
          outcome := PatchAll(deltas, c.patching - 1);
          if outcome == Done {
            outcome := SaveState(c, image, output.value);
          }
      }
    }

    /**
     One pull.  It asks a server for a delta exactly if its directory holds the image it has a record of, and then
     from that image; if it is done, the directory holds the target and the record says so.
     */
    method PullAsync(c: Call) returns (outcome: Outcome, asked: Option<Digest>)
      requires Valid() && world.HonestCall(c)
      modifies this`output, manager
      ensures Valid() && PullsAs(world, path, c, old(Now()), asked, Now(), outcome)
    {
      hide World.HonestCall, ReplacesAs, PatchesAs;
      asked := None;
      SaneLoaded(world, Now());
      var s := manager.Load();
      if c.target == Malformed {
        return Failed, None;
      }
      var entry := GetArtifactState(s, path, c.target.repo);
      if entry == None {
        outcome := PullFullImage(c);
        return;
      }
      if output == None {
        return Failed, None;
      }
      HashTells(world, s, path, c.target.repo, output.value);
      if entry.value.directoryDigest != world.hash(output.value) {
        outcome := PullFullImage(c);
        return;
      }
      asked := Some(entry.value.imageDigest);
      outcome := PullDeltaImage(c, entry.value.imageDigest);
    }

    /**
     Any run: pulls and restarts in any order, each of them possibly cut off; a pull happens exactly if the last restart
     got to its end.
     */
    method Run(events: seq<Event>) returns (log: seq<Entry>)
      requires Restartable()
      requires forall k :: 0 <= k < |events| && events[k].Pull? ==> world.HonestCall(events[k].call)
      modifies this`output, manager
      ensures Restartable()
      ensures |log| == |events| && Tells(world, path, events, log, old(Now()), Now())
    {
      var running := false;
      log := [];
      for i := 0 to |events|
        invariant |log| == i && Restartable() && (running ==> Valid())
        invariant running == Running(log, i) && Tells(world, path, events, log, old(Now()), Now())
      {
        hide Tells, StartsAs, PullsAs;
        var before := Situation(output, manager.state, manager.file);
        var did := Skipped;
        if events[i].Restart? {
          var cut := Start(events[i].steps);
          running := !cut;
          did := Started(cut);
        } else if running {
          var outcome, asked := PullAsync(events[i].call);
          did := Pulled(asked, outcome);
        }
        var entry := Entry(before, did, Situation(output, manager.state, manager.file));
        RunningNext(log, entry);
        TellsMore(world, path, events, log, entry, old(Now()), before);
        log := log + [entry];
      }
    }

    /**
     Whatever a crash left, a restart and a pull that nothing cuts off end with the target in place and recorded, or
     await its delta.
     */
    method Recover(steps: nat, c: Call) returns (outcome: Outcome)
      requires Restartable() && world.HonestCall(c)
      requires steps >= STARTING && forall asked :: GoesThrough(c, asked)
      modifies this`output, manager
      ensures Valid()
      ensures outcome == Failed ==>
        || c.target == Malformed || !c.available
        || exists from :: output == Some(world.contents(from)) && c.server(from) == Refusal
      ensures outcome == Done ==>
        && c.target != Malformed && output == Some(world.contents(c.named))
        && GetArtifactState(manager.state, path, c.target.repo) == Some(world.Record(c.named))
      ensures outcome == NotYet ==> exists from :: output == Some(world.contents(from)) && c.server(from) == Accepted
      ensures outcome != Interrupted
    {
      hide World.Injective, World.HonestCall, PullsAs, GoesThrough, World.Honest;
      var _ := Start(steps);
      ghost var before := Now();
      var asked;
      outcome, asked := PullAsync(c);
      PullTells(world, path, c, before, asked, Now(), outcome);
    }

    /** That is how a process gets stuck that has a record, even one with everything in order. */
    method LoseDirectory(c: Call) returns (outcome: Outcome)
      requires Valid() && world.HonestCall(c) && c.target != Malformed && output.Some?
      requires GetArtifactState(Decode(manager.state, manager.file), path, c.target.repo).Some?
      requires Loses(c, Held(world, Decode(manager.state, manager.file), path, c.target.repo, output))
      modifies this`output, manager
      ensures Valid() && outcome == Interrupted
      ensures Stuck(Decode(manager.state, manager.file), path, c.target.repo, output)
    {
      hide World.Injective, World.HonestCall, World.Honest;
      DecodeTwice(manager.state, manager.file);
      var asked;
      outcome, asked := PullAsync(c);
    }

    /** A process that lost its directory and has a record stays stuck: only a restart makes the directory again. */
    method RetryStuck(calls: seq<Call>, repo: string) returns (outcomes: seq<Outcome>)
      requires Valid() && Stuck(Decode(manager.state, manager.file), path, repo, output)
      requires forall k :: 0 <= k < |calls| ==>
        world.HonestCall(calls[k]) && calls[k].target != Malformed && calls[k].target.repo == repo
      modifies this`output, manager
      ensures Valid() && output == None
      ensures |outcomes| == |calls| && forall k :: 0 <= k < |outcomes| ==> outcomes[k] == Failed
    {
      outcomes := [];
      for i := 0 to |calls|
        invariant Valid() && Stuck(Decode(manager.state, manager.file), path, repo, output)
        invariant |outcomes| == i && forall k :: 0 <= k < i ==> outcomes[k] == Failed
      {
        hide World.Injective, World.HonestCall, World.Honest;
        DecodeTwice(manager.state, manager.file);
        var outcome, _ := PullAsync(calls[i]);
        outcomes := outcomes + [outcome];
      }
    }
  }

  /** Reading the same file again changes nothing. */
  lemma DecodeTwice(s: State, file: Content)
    ensures Decode(Decode(s, file), file) == Decode(s, file)
  {
  }
}
