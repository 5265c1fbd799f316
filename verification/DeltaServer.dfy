/**
 Any number of servers that share one registry and answer requests for deltas.  A step is what happens between two
 moments at which another handler or another server can get in between; steps of all of them interleave freely.
 */
module DeltaServer {
  import opened Algorithms
  import opened Options

  type Digest = string

  const DIGEST_LENGTH := 64

  /** What a request resolved to. */
  datatype DeltaOptions = DeltaOptions(repo: string, from: Digest, to: Digest, choice: Choice)

  predicate WellFormed(o: DeltaOptions)
  {
    |o.from| == DIGEST_LENGTH && |o.to| == DIGEST_LENGTH
  }

  datatype Location = Location(repo: string, tag: string)

  function LocationOf(h: string -> string, o: DeltaOptions): Location
  {
    Location(o.repo, "_delta-" + h(o.from + o.to + TagSuffix(o.choice)))
  }

  datatype Source = Source(repo: string, digest: Digest)

  /** The bytes of a delta, known by what they were made from and how. */
  datatype Delta = Delta(from: Digest, to: Digest, choice: Choice)

  datatype Layer = Layer(mediaType: string, content: Delta)

  datatype Manifest = Manifest(from: Source, to: Source, marked: bool, created: bool, layer: Option<Layer>)

  function DummyManifest(o: DeltaOptions): Manifest
  {
    Manifest(Source(o.repo, o.from), Source(o.repo, o.to), true, true, None)
  }

  function DeltaManifest(o: DeltaOptions): Manifest
  {
    Manifest(Source(o.repo, o.from), Source(o.repo, o.to), false, true,
             Some(Layer(MediaType(o.choice), Delta(o.from, o.to, o.choice))))
  }

  /** Whether a manifest is a dummy, and whether it is one that has expired; `late` is what the clock says. */
  function IsDummy(m: Manifest, late: bool): (bool, bool)
  {
    if !m.marked then (false, false) else if !m.created then (false, false) else (true, late)
  }

  datatype Reply = Success(target: Source, delta: Manifest) | Accepted | NoNewVersion | Error

  /** Where the handler of a request or the creation of a delta has got to. */
  datatype Phase =
    | Started
    | Looking(o: DeltaOptions)
    | Found(o: DeltaOptions, manifest: Manifest)
    | Late(o: DeltaOptions)
    | Loading(o: DeltaOptions)
    | Launched(o: DeltaOptions)
    | Replied(asked: Option<DeltaOptions>, reply: Reply)
    | Diffing(o: DeltaOptions)
    | Uploading(o: DeltaOptions)
    | Tagging(o: DeltaOptions)
    | Leaving(o: DeltaOptions)
    | Finished
    | Killed

  datatype Task = Task(server: nat, phase: Phase)

  predicate Live(p: Phase)
  {
    !p.Replied? && !p.Finished? && !p.Killed?
  }

  /** An accepted request whose delta has still to be made. */
  predicate Creating(p: Phase)
  {
    p.Diffing? || Pushing(p)
  }

  predicate Pushing(p: Phase)
  {
    p.Uploading? || p.Tagging? || p.Leaving?
  }

  function OptionsOf(p: Phase): Option<DeltaOptions>
  {
    match p
    case Started => None
    case Replied(asked, _) => asked
    case Finished => None
    case Killed => None
    case _ => Some(p.o)
  }

  /** One server: its wait group, the dummies it is creating and the deltas it is creating. */
  datatype Server = Server(wait: int, dummies: set<Location>, active: set<Location>)

  datatype System = System(tags: map<Location, Manifest>, blobs: set<Delta>, servers: seq<Server>, tasks: seq<Task>)

  datatype Event =
    | Arrive(server: nat)
    | Reject(k: nat)
    | Resolve(k: nat, o: DeltaOptions)
    | LookUp(k: nat, fails: bool)
    | Judge(k: nat, late: bool)
    | PushDummy(k: nat, fails: bool, tagged: bool)
    | Launch(k: nat)
    | Accept(k: nat)
    | DiffFails(k: nat)
    | Enter(k: nat)
    | Upload(k: nat)
    | Tag(k: nat)
    | PushFails(k: nat)
    | Leave(k: nat)
    | Die(server: nat)

  predicate InRange(s: System)
  {
    forall k :: 0 <= k < |s.tasks| ==> s.tasks[k].server < |s.servers|
  }

  /** What one step of a task makes of itself, of the registry and of its server; it may start a creation. */
  datatype Turn = Turn(
    phase: Phase,
    tags: map<Location, Manifest>,
    blobs: set<Delta>,
    dummies: set<Location>,
    active: set<Location>,
    created: Option<DeltaOptions>)

  /** A step that changes nothing but its own phase. */
  function GoOn(s: System, i: nat, phase: Phase): Turn
    requires i < |s.servers|
  {
    Turn(phase, s.tags, s.blobs, s.servers[i].dummies, s.servers[i].active, None)
  }

  /** An image whose dummy is being pushed by the same server is left to that push; a failed push keeps its mark. */
  function PushDummyTurn(h: string -> string, s: System, i: nat, o: DeltaOptions, fails: bool, tagged: bool): Turn
    requires i < |s.servers|
  {
    var l := LocationOf(h, o);
    var t := GoOn(s, i, Loading(o));
    if l in s.servers[i].dummies then t
    else if !fails then t.(tags := s.tags[l := DummyManifest(o)])
    else
      t.(phase := Replied(Some(o), Error),
         tags := if tagged then s.tags[l := DummyManifest(o)] else s.tags,
         dummies := t.dummies + {l})
  }

  /** The step of one task, where it is its turn. */
  function TurnOf(h: string -> string, s: System, k: nat, e: Event): Option<Turn>
    requires k < |s.tasks| && InRange(s)
  {
    var i := s.tasks[k].server;
    match (e, s.tasks[k].phase)
    case (Reject(_), Started) => Some(GoOn(s, i, Replied(None, Error)))
    case (Reject(_), Looking(o)) => Some(GoOn(s, i, Replied(Some(o), Error)))
    case (Reject(_), Found(o, _)) => Some(GoOn(s, i, Replied(Some(o), Error)))
    case (Reject(_), Loading(o)) => Some(GoOn(s, i, Replied(Some(o), Error)))
    case (Resolve(_, o), Started) =>
      if !WellFormed(o) then None
      else if o.from == o.to then Some(GoOn(s, i, Replied(Some(o), NoNewVersion)))
      else Some(GoOn(s, i, Looking(o)))
    case (LookUp(_, fails), Looking(o)) =>
      var l := LocationOf(h, o);
      Some(GoOn(s, i, if !fails && l in s.tags then Found(o, s.tags[l]) else Late(o)))
    case (Judge(_, late), Found(o, m)) =>
      var (dummy, expired) := IsDummy(m, late);
      if !dummy then Some(GoOn(s, i, Replied(Some(o), Success(Source(o.repo, o.to), m))))
      else if !expired then Some(GoOn(s, i, Replied(Some(o), Accepted)))
      else Some(GoOn(s, i, Late(o)))
    case (PushDummy(_, fails, tagged), Late(o)) => Some(PushDummyTurn(h, s, i, o, fails, tagged))
    case (Launch(_), Loading(o)) => Some(GoOn(s, i, Launched(o)).(created := Some(o)))
    case (Accept(_), Launched(o)) => Some(GoOn(s, i, Replied(Some(o), Accepted)))
    case (DiffFails(_), Diffing(_)) => Some(GoOn(s, i, Finished))
    case (Enter(_), Diffing(o)) =>
      var l := LocationOf(h, o);
      if l in s.servers[i].active then Some(GoOn(s, i, Finished))
      else Some(GoOn(s, i, Uploading(o)).(active := s.servers[i].active + {l}))
    case (Upload(_), Uploading(o)) =>
      Some(GoOn(s, i, Tagging(o)).(blobs := s.blobs + {Delta(o.from, o.to, o.choice)}))
    case (Tag(_), Tagging(o)) => Some(GoOn(s, i, Leaving(o)).(tags := s.tags[LocationOf(h, o) := DeltaManifest(o)]))
    case (PushFails(_), Uploading(o)) => Some(GoOn(s, i, Leaving(o)))
    case (PushFails(_), Tagging(o)) => Some(GoOn(s, i, Leaving(o)))
    case (Leave(_), Leaving(o)) =>
      Some(GoOn(s, i, Finished).(active := s.servers[i].active - {LocationOf(h, o)}))
    case _ => None
  }

  /** A creation enters the wait group before it starts; a task that ends leaves it. */
  function Take(s: System, k: nat, t: Turn): (next: System)
    requires k < |s.tasks| && InRange(s)
    ensures InRange(next) && |next.servers| == |s.servers|
  {
    var i := s.tasks[k].server;
    var wait := s.servers[i].wait + (if t.created.Some? then 1 else 0) - (if Live(t.phase) then 0 else 1);
    var tasks := s.tasks[k := Task(i, t.phase)];
    System(t.tags, t.blobs, s.servers[i := Server(wait, t.dummies, t.active)],
           if t.created.Some? then tasks + [Task(i, Diffing(t.created.value))] else tasks)
  }

  function Arrived(s: System, i: nat): System
    requires i < |s.servers|
  {
    s.(servers := s.servers[i := s.servers[i].(wait := s.servers[i].wait + 1)], tasks := s.tasks + [Task(i, Started)])
  }

  function Kill(tasks: seq<Task>, i: nat): (killed: seq<Task>)
    ensures |killed| == |tasks|
    ensures forall k :: 0 <= k < |tasks| ==> killed[k].server == tasks[k].server
  {
    if tasks == [] then []
    else
      var t := tasks[|tasks| - 1];
      Kill(tasks[..|tasks| - 1], i) + [if t.server == i && Live(t.phase) then t.(phase := Killed) else t]
  }

  /** One step of the whole system, if it can happen: a request comes in, a task goes on, or a server dies. */
  function Step(h: string -> string, s: System, e: Event): Option<System>
    requires InRange(s)
  {
    match e
    case Arrive(i) => if i < |s.servers| then Some(Arrived(s, i)) else None
    case Die(i) =>
      if i < |s.servers| then
        Some(s.(servers := s.servers[i := Server(0, {}, {})], tasks := Kill(s.tasks, i)))
      else None
    case _ =>
      if e.k >= |s.tasks| then None
      else
        var t := TurnOf(h, s, e.k, e);
        if t == None then None else Some(Take(s, e.k, t.value))
  }

  lemma StepInRange(h: string -> string, s: System, e: Event)
    requires InRange(s)
    ensures Step(h, s, e).Some? ==> InRange(Step(h, s, e).value) && |Step(h, s, e).value.servers| == |s.servers|
  {
    hide TurnOf, Take, Kill;
  }

  function Init(n: nat): System
  {
    System(map[], {}, seq(n, _ => Server(0, {}, {})), [])
  }

  function Run(h: string -> string, s: System, events: seq<Event>): (end: Option<System>)
    requires InRange(s)
    ensures end.Some? ==> InRange(end.value) && |end.value.servers| == |s.servers|
  {
    if events == [] then Some(s)
    else
      var before := Run(h, s, events[..|events| - 1]);
      if before == None then None
      else
        StepInRange(h, before.value, events[|events| - 1]);
        Step(h, before.value, events[|events| - 1])
  }
}
