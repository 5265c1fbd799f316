/** What every run of the servers keeps. */
module DeltaServerSafety {
  import opened Algorithms
  import opened DeltaServer
  import opened Options

  function LiveAt(tasks: seq<Task>, i: nat): nat
  {
    if tasks == [] then 0
    else
      var t := tasks[|tasks| - 1];
      LiveAt(tasks[..|tasks| - 1], i) + if t.server == i && Live(t.phase) then 1 else 0
  }

  /** Each wait group counts the handlers and creations of its server that have not ended. */
  ghost predicate Counted(s: System)
  {
    forall i :: 0 <= i < |s.servers| ==> s.servers[i].wait == LiveAt(s.tasks, i)
  }

  function MadeFor(m: Manifest): DeltaOptions
    requires m.layer.Some?
  {
    DeltaOptions(m.from.repo, m.layer.value.content.from, m.layer.value.content.to, m.layer.value.content.choice)
  }

  /** A dummy has its time of creation; anything else is the manifest of the delta that belongs there, blob included. */
  predicate ManifestAt(h: string -> string, blobs: set<Delta>, l: Location, m: Manifest)
  {
    && (m.marked ==> m.created)
    && (!m.marked ==>
          && m.layer.Some?
          && m.layer.value.content in blobs
          && WellFormed(MadeFor(m))
          && m == DeltaManifest(MadeFor(m))
          && l == LocationOf(h, MadeFor(m)))
  }

  ghost predicate TagsOk(h: string -> string, s: System)
  {
    forall l :: l in s.tags ==> ManifestAt(h, s.blobs, l, s.tags[l])
  }

  /** A success names the target and a delta made for just what the request resolved to, with its blob in place. */
  predicate RightReply(blobs: set<Delta>, asked: Option<DeltaOptions>, reply: Reply)
  {
    reply.Success? ==>
      && asked.Some?
      && reply.target == Source(asked.value.repo, asked.value.to)
      && reply.delta == DeltaManifest(asked.value)
      && Delta(asked.value.from, asked.value.to, asked.value.choice) in blobs
  }

  predicate PhaseOk(h: string -> string, blobs: set<Delta>, p: Phase)
  {
    && (OptionsOf(p).Some? ==> WellFormed(OptionsOf(p).value))
    && (p.Found? ==> ManifestAt(h, blobs, LocationOf(h, p.o), p.manifest))
    && (p.Tagging? ==> Delta(p.o.from, p.o.to, p.o.choice) in blobs)
    && (p.Replied? ==> RightReply(blobs, p.asked, p.reply))
  }

  ghost predicate TasksOk(h: string -> string, s: System)
  {
    forall k :: 0 <= k < |s.tasks| ==> PhaseOk(h, s.blobs, s.tasks[k].phase)
  }

  predicate PushesAt(h: string -> string, t: Task, i: nat, l: Location)
  {
    Pushing(t.phase) && t.server == i && LocationOf(h, t.phase.o) == l
  }

  /** Of the creations of a server at most one pushes to a location, and one does just while the location is marked. */
  ghost predicate ActiveOk(h: string -> string, s: System)
    requires InRange(s)
  {
    && (forall k :: 0 <= k < |s.tasks| && Pushing(s.tasks[k].phase) ==>
          LocationOf(h, s.tasks[k].phase.o) in s.servers[s.tasks[k].server].active)
    && (forall i, l :: 0 <= i < |s.servers| && l in s.servers[i].active ==>
          exists k :: 0 <= k < |s.tasks| && PushesAt(h, s.tasks[k], i, l))
    && (forall j, k, i, l ::
          0 <= j < |s.tasks| && 0 <= k < |s.tasks| && PushesAt(h, s.tasks[j], i, l) && PushesAt(h, s.tasks[k], i, l) ==>
            j == k)
  }

  ghost predicate Safe(h: string -> string, s: System)
  {
    InRange(s) && Counted(s) && TagsOk(h, s) && TasksOk(h, s) && ActiveOk(h, s)
  }

  ghost predicate Injective(h: string -> string)
  {
    forall x, y :: h(x) == h(y) ==> x == y
  }

  /** With digests of one length a location tells what it is for. */
  lemma LocationTells(h: string -> string, a: DeltaOptions, b: DeltaOptions)
    requires Injective(h) && WellFormed(a) && WellFormed(b) && LocationOf(h, a) == LocationOf(h, b)
    ensures a == b
  {
    var x, y := a.from + a.to + TagSuffix(a.choice), b.from + b.to + TagSuffix(b.choice);
    var n := |"_delta-"|;
    assert LocationOf(h, a).tag[n..] == h(x) && LocationOf(h, b).tag[n..] == h(y);
    assert x[..DIGEST_LENGTH] == a.from && y[..DIGEST_LENGTH] == b.from;
    assert x[DIGEST_LENGTH..2 * DIGEST_LENGTH] == a.to && y[DIGEST_LENGTH..2 * DIGEST_LENGTH] == b.to;
    assert x[2 * DIGEST_LENGTH..] == TagSuffix(a.choice) && y[2 * DIGEST_LENGTH..] == TagSuffix(b.choice);
    TagSuffixTells(a.choice, b.choice);
  }

  function One(b: bool): int
  {
    if b then 1 else 0
  }

  lemma {:induction false} LiveAtMoved(tasks: seq<Task>, k: nat, t: Task, i: nat)
    requires k < |tasks|
    ensures LiveAt(tasks[k := t], i)
         == LiveAt(tasks, i) - One(tasks[k].server == i && Live(tasks[k].phase)) + One(t.server == i && Live(t.phase))
  {
    var n := |tasks| - 1;
    if k == n {
      assert tasks[k := t][..n] == tasks[..n];
    } else {
      assert tasks[k := t][..n] == tasks[..n][k := t];
      LiveAtMoved(tasks[..n], k, t, i);
    }
  }

  lemma {:induction false} LiveAtHas(tasks: seq<Task>, k: nat, i: nat)
    requires k < |tasks| && tasks[k].server == i && Live(tasks[k].phase)
    ensures LiveAt(tasks, i) > 0
  {
    if k >= |tasks| - 1 {
    } else {
      LiveAtHas(tasks[..|tasks| - 1], k, i);
    }
  }

  lemma {:induction false} KillEnds(tasks: seq<Task>, i: nat)
    ensures |Kill(tasks, i)| == |tasks|
    ensures forall k :: 0 <= k < |tasks| ==>
      Kill(tasks, i)[k]
      == if tasks[k].server == i && Live(tasks[k].phase) then tasks[k].(phase := Killed) else tasks[k]
    ensures LiveAt(Kill(tasks, i), i) == 0
    ensures forall j: nat :: j != i ==> LiveAt(Kill(tasks, i), j) == LiveAt(tasks, j)
  {
    if tasks == [] {
    } else {
      var n := |tasks| - 1;
      KillEnds(tasks[..n], i);
      assert Kill(tasks, i)[..n] == Kill(tasks[..n], i);
    }
  }

  /** Taking a turn keeps the count of the wait group right. */
  lemma TakeCounted(s: System, k: nat, t: Turn)
    requires InRange(s) && Counted(s) && k < |s.tasks| && Live(s.tasks[k].phase)
    ensures InRange(Take(s, k, t)) && Counted(Take(s, k, t))
  {
    var s' := Take(s, k, t);
    var moved := s.tasks[k := Task(s.tasks[k].server, t.phase)];
    assert t.created.Some? ==> s'.tasks[..|s'.tasks| - 1] == moved;
    forall i | 0 <= i < |s.servers|
      ensures s'.servers[i].wait == LiveAt(s'.tasks, i)
    {
      LiveAtMoved(s.tasks, k, Task(s.tasks[k].server, t.phase), i);
    }
  }

  lemma StepCounted(h: string -> string, s: System, e: Event)
    requires InRange(s) && Counted(s) && Step(h, s, e).Some?
    ensures InRange(Step(h, s, e).value) && Counted(Step(h, s, e).value)
  {
    hide PushDummyTurn, Take, LiveAt;
    var s' := Step(h, s, e).value;
    match e
    case Arrive(i) => ArrivedCounted(s, i);
    case Die(i) => KillEnds(s.tasks, i);
    case _ => TakeCounted(s, e.k, TurnOf(h, s, e.k, e).value);
  }

  lemma ArrivedCounted(s: System, i: nat)
    requires InRange(s) && Counted(s) && i < |s.servers|
    ensures InRange(Arrived(s, i)) && Counted(Arrived(s, i))
  {
  }

  /** Blobs are never removed, so what was right about a manifest or a phase stays right. */
  lemma RegistryKept(h: string -> string, s: System, s': System)
    requires TagsOk(h, s) && TasksOk(h, s) && s.blobs <= s'.blobs
    requires forall l :: l in s'.tags ==>
      (l in s.tags && s'.tags[l] == s.tags[l]) || ManifestAt(h, s'.blobs, l, s'.tags[l])
    requires forall k :: 0 <= k < |s'.tasks| ==>
      (k < |s.tasks| && s'.tasks[k].phase == s.tasks[k].phase) || PhaseOk(h, s'.blobs, s'.tasks[k].phase)
    ensures TagsOk(h, s') && TasksOk(h, s')
  {
  }

  lemma TurnRegistry(h: string -> string, s: System, k: nat, e: Event)
    requires Injective(h) && InRange(s) && k < |s.tasks| && TagsOk(h, s) && TasksOk(h, s)
    requires TurnOf(h, s, k, e).Some?
    ensures
      var t := TurnOf(h, s, k, e).value;
      && s.blobs <= t.blobs
      && PhaseOk(h, t.blobs, t.phase)
      && (t.created.Some? ==> WellFormed(t.created.value))
      && forall l :: l in t.tags ==> (l in s.tags && t.tags[l] == s.tags[l]) || ManifestAt(h, t.blobs, l, t.tags[l])
  {
    hide LocationOf, MediaType;
    var p := s.tasks[k].phase;
    assert PhaseOk(h, s.blobs, p);
    if e.Judge? && !p.manifest.marked {
      LocationTells(h, p.o, MadeFor(p.manifest));
    }
  }

  lemma TakeRegistry(h: string -> string, s: System, k: nat, e: Event)
    requires Injective(h) && InRange(s) && k < |s.tasks| && TagsOk(h, s) && TasksOk(h, s)
    requires TurnOf(h, s, k, e).Some?
    ensures TagsOk(h, Take(s, k, TurnOf(h, s, k, e).value)) && TasksOk(h, Take(s, k, TurnOf(h, s, k, e).value))
  {
    TurnRegistry(h, s, k, e);
    var t := TurnOf(h, s, k, e).value;
    hide TurnOf, TagsOk, TasksOk, ManifestAt, RightReply, Live, LocationOf, WellFormed;
    assert t.created.Some? ==> PhaseOk(h, t.blobs, Diffing(t.created.value));
    hide PhaseOk;
    RegistryKept(h, s, Take(s, k, t));
  }

  lemma StepRegistry(h: string -> string, s: System, e: Event)
    requires Injective(h) && InRange(s) && TagsOk(h, s) && TasksOk(h, s) && Step(h, s, e).Some?
    ensures TagsOk(h, Step(h, s, e).value) && TasksOk(h, Step(h, s, e).value)
  {
    hide TurnOf, Take, Kill, TagsOk, TasksOk, InRange;
    match e
    case Arrive(i) => RegistryKept(h, s, Arrived(s, i));
    case Die(i) =>
      KillEnds(s.tasks, i);
      RegistryKept(h, s, Step(h, s, e).value);
    case _ => TakeRegistry(h, s, e.k, e);
  }

  /** Where neither pushing tasks nor marks change. */
  lemma ActiveSame(h: string -> string, s: System, s': System)
    requires InRange(s) && InRange(s') && ActiveOk(h, s)
    requires |s'.servers| == |s.servers| && |s'.tasks| >= |s.tasks|
    requires forall i :: 0 <= i < |s.servers| ==> s'.servers[i].active == s.servers[i].active
    requires forall k :: 0 <= k < |s.tasks| ==>
      && s'.tasks[k].server == s.tasks[k].server
      && Pushing(s'.tasks[k].phase) == Pushing(s.tasks[k].phase)
      && (Pushing(s.tasks[k].phase) ==> s'.tasks[k].phase.o == s.tasks[k].phase.o)
    requires forall k :: |s.tasks| <= k < |s'.tasks| ==> !Pushing(s'.tasks[k].phase)
    ensures ActiveOk(h, s')
  {
    hide LocationOf, Pushing;
    assert forall k, i, l :: 0 <= k < |s'.tasks| ==>
      (PushesAt(h, s'.tasks[k], i, l) <==> k < |s.tasks| && PushesAt(h, s.tasks[k], i, l));
  }

  /** Where task `k` of server `j` starts or stops to push and marks or clears its location. */
  lemma ActiveTurned(h: string -> string, s: System, s': System, k: nat, l: Location)
    requires InRange(s) && InRange(s') && ActiveOk(h, s)
    requires k < |s.tasks| && |s'.servers| == |s.servers| && |s'.tasks| == |s.tasks|
    requires forall j :: 0 <= j < |s.tasks| && j != k ==> s'.tasks[j] == s.tasks[j]
    requires forall i :: 0 <= i < |s.servers| && i != s.tasks[k].server ==> s'.servers[i].active == s.servers[i].active
    requires s'.tasks[k].server == s.tasks[k].server
    requires
      var before, after := s.servers[s.tasks[k].server].active, s'.servers[s.tasks[k].server].active;
      || (!Pushing(s.tasks[k].phase) && l !in before && after == before + {l}
          && PushesAt(h, s'.tasks[k], s.tasks[k].server, l))
      || (PushesAt(h, s.tasks[k], s.tasks[k].server, l) && after == before - {l} && !Pushing(s'.tasks[k].phase))
    ensures ActiveOk(h, s')
  {
    hide LocationOf;
    forall i, m | 0 <= i < |s'.servers| && m in s'.servers[i].active
      ensures exists j :: 0 <= j < |s'.tasks| && PushesAt(h, s'.tasks[j], i, m)
    {
      if m in s.servers[i].active {
        var j :| 0 <= j < |s.tasks| && PushesAt(h, s.tasks[j], i, m);
        assert j != k;
        assert PushesAt(h, s'.tasks[j], i, m);
      } else {
        assert PushesAt(h, s'.tasks[k], i, m);
      }
    }
  }

  /** Where the marks and the pushing tasks of one server are gone. */
  lemma ActiveGone(h: string -> string, s: System, s': System, i: nat)
    requires InRange(s) && InRange(s') && ActiveOk(h, s)
    requires i < |s.servers| == |s'.servers| && |s'.tasks| == |s.tasks|
    requires s'.servers[i].active == {}
    requires forall j :: 0 <= j < |s.servers| && j != i ==> s'.servers[j].active == s.servers[j].active
    requires forall k :: 0 <= k < |s.tasks| ==>
      if s.tasks[k].server == i then s'.tasks[k].server == i && !Pushing(s'.tasks[k].phase)
      else s'.tasks[k] == s.tasks[k]
    ensures ActiveOk(h, s')
  {
  }

  /** A turn that neither enters nor leaves. */
  lemma TurnActive(h: string -> string, s: System, k: nat, e: Event)
    requires InRange(s) && k < |s.tasks| && TurnOf(h, s, k, e).Some? && !e.Leave?
    requires e.Enter? ==> LocationOf(h, s.tasks[k].phase.o) in s.servers[s.tasks[k].server].active
    ensures
      var t, p := TurnOf(h, s, k, e).value, s.tasks[k].phase;
      && t.active == s.servers[s.tasks[k].server].active
      && Pushing(t.phase) == Pushing(p)
      && (Pushing(p) ==> t.phase.o == p.o)
  {
    hide LocationOf;
  }

  lemma TakeActive(h: string -> string, s: System, k: nat, e: Event)
    requires InRange(s) && k < |s.tasks| && ActiveOk(h, s) && TurnOf(h, s, k, e).Some?
    requires InRange(Take(s, k, TurnOf(h, s, k, e).value))
    ensures ActiveOk(h, Take(s, k, TurnOf(h, s, k, e).value))
  {
    hide LocationOf, ActiveOk;
    var s', p := Take(s, k, TurnOf(h, s, k, e).value), s.tasks[k].phase;
    if e.Enter? && LocationOf(h, p.o) !in s.servers[s.tasks[k].server].active {
      ActiveTurned(h, s, s', k, LocationOf(h, p.o));
    } else if e.Leave? {
      ActiveTurned(h, s, s', k, LocationOf(h, p.o));
    } else {
      TurnActive(h, s, k, e);
      hide TurnOf;
      ActiveSame(h, s, s');
    }
  }

  lemma KillActive(h: string -> string, s: System, i: nat)
    requires InRange(s) && i < |s.servers| && ActiveOk(h, s)
    ensures InRange(Step(h, s, Die(i)).value) && ActiveOk(h, Step(h, s, Die(i)).value)
  {
    hide ActiveOk, Kill, Take, TurnOf;
    KillEnds(s.tasks, i);
    ActiveGone(h, s, Step(h, s, Die(i)).value, i);
  }

  lemma StepActive(h: string -> string, s: System, e: Event)
    requires InRange(s) && ActiveOk(h, s) && Step(h, s, e).Some? && InRange(Step(h, s, e).value)
    ensures ActiveOk(h, Step(h, s, e).value)
  {
    hide LocationOf, ActiveOk, TurnOf, Take, Kill, InRange;
    match e
    case Arrive(i) => ActiveSame(h, s, Arrived(s, i));
    case Die(i) => KillActive(h, s, i);
    case _ => TakeActive(h, s, e.k, e);
  }

  lemma StepSafe(h: string -> string, s: System, e: Event)
    requires Injective(h) && Safe(h, s) && Step(h, s, e).Some?
    ensures Safe(h, Step(h, s, e).value)
  {
    hide Step, Counted, TagsOk, TasksOk, ActiveOk, InRange;
    StepCounted(h, s, e);
    StepRegistry(h, s, e);
    StepActive(h, s, e);
  }

  lemma {:induction false} RunSafe(h: string -> string, s: System, events: seq<Event>)
    requires Injective(h) && Safe(h, s) && Run(h, s, events).Some?
    ensures Safe(h, Run(h, s, events).value)
  {
    hide Step, Counted, TagsOk, TasksOk, ActiveOk;
    if events == [] {
    } else {
      var n := |events| - 1;
      RunSafe(h, s, events[..n]);
      StepSafe(h, Run(h, s, events[..n]).value, events[n]);
    }
  }

  lemma InitSafe(h: string -> string, n: nat)
    ensures Safe(h, Init(n))
  {
  }

  /** Counts do not depend on the hash. */
  lemma {:induction false} RunCounted(h: string -> string, s: System, events: seq<Event>)
    requires InRange(s) && Counted(s) && Run(h, s, events).Some?
    ensures Counted(Run(h, s, events).value)
  {
    hide Step, Counted;
    if events == [] {
    } else {
      var n := |events| - 1;
      RunCounted(h, s, events[..n]);
      StepCounted(h, Run(h, s, events[..n]).value, events[n]);
    }
  }

  /** Nor on its being injective do marks and pushes. */
  lemma {:induction false} RunActive(h: string -> string, s: System, events: seq<Event>)
    requires InRange(s) && ActiveOk(h, s) && Run(h, s, events).Some?
    ensures ActiveOk(h, Run(h, s, events).value)
  {
    hide Step, ActiveOk;
    if events == [] {
    } else {
      var n := |events| - 1;
      RunActive(h, s, events[..n]);
      StepActive(h, Run(h, s, events[..n]).value, events[n]);
    }
  }

  /** In every run a success names a delta made for just what was asked, and its media type says how to apply it. */
  lemma SuccessIsRight(h: string -> string, n: nat, events: seq<Event>, k: nat)
    requires Injective(h) && Run(h, Init(n), events).Some?
    requires k < |Run(h, Init(n), events).value.tasks|
    requires
      var p := Run(h, Init(n), events).value.tasks[k].phase;
      p.Replied? && p.reply.Success?
    ensures
      var s := Run(h, Init(n), events).value;
      var p := s.tasks[k].phase;
      && p.asked.Some?
      && p.reply.target == Source(p.asked.value.repo, p.asked.value.to)
      && p.reply.delta == DeltaManifest(p.asked.value)
      && p.reply.delta.layer.value.content in s.blobs
      && PatcherChoice(p.reply.delta.layer.value.mediaType) == Chosen(p.asked.value.choice)
  {
    hide Run, MediaType, PatcherChoice;
    InitSafe(h, n);
    RunSafe(h, Init(n), events);
    var s := Run(h, Init(n), events).value;
    assert PhaseOk(h, s.blobs, s.tasks[k].phase);
    MediaTypeRoundTrip(s.tasks[k].phase.asked.value.choice);
  }

  /** In every run at most one creation of a server is pushing to a location. */
  lemma OnePush(h: string -> string, n: nat, events: seq<Event>, j: nat, k: nat)
    requires Run(h, Init(n), events).Some?
    requires j < |Run(h, Init(n), events).value.tasks| && k < |Run(h, Init(n), events).value.tasks| && j != k
    requires
      var s := Run(h, Init(n), events).value;
      s.tasks[j].server == s.tasks[k].server && Pushing(s.tasks[j].phase) && Pushing(s.tasks[k].phase)
    ensures
      var s := Run(h, Init(n), events).value;
      LocationOf(h, s.tasks[j].phase.o) != LocationOf(h, s.tasks[k].phase.o)
  {
    hide Run, LocationOf;
    InitSafe(h, n);
    RunActive(h, Init(n), events);
    var s := Run(h, Init(n), events).value;
    assert PushesAt(h, s.tasks[j], s.tasks[j].server, LocationOf(h, s.tasks[j].phase.o));
    assert PushesAt(h, s.tasks[k], s.tasks[k].server, LocationOf(h, s.tasks[k].phase.o));
  }

  lemma {:induction false} LiveAtNone(tasks: seq<Task>, i: nat)
    requires LiveAt(tasks, i) > 0
    ensures exists k :: 0 <= k < |tasks| && tasks[k].server == i && Live(tasks[k].phase)
  {
    var n := |tasks| - 1;
    if tasks[n].server != i || !Live(tasks[n].phase) {
      LiveAtNone(tasks[..n], i);
      var k :| 0 <= k < n && tasks[..n][k].server == i && Live(tasks[..n][k].phase);
      assert tasks[k].server == i;
    }
  }

  /** In every run waiting for a server ends just when no request and no accepted creation of it is left. */
  lemma WaitEnds(h: string -> string, n: nat, events: seq<Event>, i: nat)
    requires Run(h, Init(n), events).Some? && i < n
    ensures
      var s := Run(h, Init(n), events).value;
      && s.servers[i].wait >= 0
      && (s.servers[i].wait == 0 <==>
            forall k :: 0 <= k < |s.tasks| && s.tasks[k].server == i ==> !Live(s.tasks[k].phase))
      && forall k :: 0 <= k < |s.tasks| && s.tasks[k].server == i && Creating(s.tasks[k].phase) ==>
           s.servers[i].wait > 0
  {
    hide Run, Live, Creating;
    InitSafe(h, n);
    RunCounted(h, Init(n), events);
    var s := Run(h, Init(n), events).value;
    if s.servers[i].wait > 0 {
      LiveAtNone(s.tasks, i);
    }
    forall k | 0 <= k < |s.tasks| && s.tasks[k].server == i && (Live(s.tasks[k].phase) || Creating(s.tasks[k].phase))
      ensures s.servers[i].wait > 0
    {
      CreatingLives(s.tasks[k].phase);
      LiveAtHas(s.tasks, k, i);
    }
  }

  lemma CreatingLives(p: Phase)
    ensures Creating(p) ==> Live(p)
  {
  }

  lemma TurnKeepsAsked(h: string -> string, s: System, k: nat, e: Event)
    requires InRange(s) && k < |s.tasks| && TurnOf(h, s, k, e).Some? && OptionsOf(s.tasks[k].phase).Some?
    ensures
      var p := TurnOf(h, s, k, e).value.phase;
      OptionsOf(p) == OptionsOf(s.tasks[k].phase) || p == Finished
  {
    hide LocationOf, IsDummy;
  }

  /** What a request resolved to is what it keeps until it ends. */
  lemma AskedStays(h: string -> string, s: System, e: Event, k: nat)
    requires InRange(s) && k < |s.tasks| && Step(h, s, e).Some? && OptionsOf(s.tasks[k].phase).Some?
    ensures
      var s' := Step(h, s, e).value;
      && k < |s'.tasks|
      && s'.tasks[k].server == s.tasks[k].server
      && (OptionsOf(s'.tasks[k].phase) == OptionsOf(s.tasks[k].phase)
          || s'.tasks[k].phase == Finished || s'.tasks[k].phase == Killed)
  {
    hide TurnOf, Live, Kill;
    match e
    case Arrive(_) =>
    case Die(_) => KillEnds(s.tasks, e.server);
    case _ =>
      hide OptionsOf;
      if e.k == k {
        TurnKeepsAsked(h, s, k, e);
      }
  }

  /**
     A delta that is in place is replaced in one way only, and then always: a server that looked before it was there
     pushes its dummy.
   */
  lemma DeltaLost(h: string -> string, s: System, e: Event, l: Location)
    requires Injective(h) && Safe(h, s) && Step(h, s, e).Some?
    requires l in s.tags && !s.tags[l].marked
    ensures
      var s' := Step(h, s, e).value;
      && l in s'.tags
      && (s'.tags[l] != s.tags[l] <==>
            && e.PushDummy?
            && s.tasks[e.k].phase.Late?
            && LocationOf(h, s.tasks[e.k].phase.o) == l
            && l !in s.servers[s.tasks[e.k].server].dummies
            && (e.fails ==> e.tagged))
  {
    hide MediaType, Counted, ActiveOk, Live, Kill;
    if e.Tag? && LocationOf(h, s.tasks[e.k].phase.o) == l {
      assert PhaseOk(h, s.blobs, s.tasks[e.k].phase);
      LocationTells(h, s.tasks[e.k].phase.o, MadeFor(s.tags[l]));
    }
    hide LocationOf, PhaseOk;
  }

  ghost predicate Reachable(h: string -> string, n: nat, s: System)
  {
    exists events :: Run(h, Init(n), events) == Some(s)
  }

  lemma ReachStep(h: string -> string, n: nat, s: System, e: Event)
    requires Reachable(h, n, s) && InRange(s) && Step(h, s, e).Some?
    ensures Reachable(h, n, Step(h, s, e).value)
  {
    hide Step;
    var events :| Run(h, Init(n), events) == Some(s);
    assert (events + [e])[..|events|] == events;
    assert Run(h, Init(n), events + [e]) == Step(h, s, e);
  }

  lemma Reach(h: string -> string, n: nat, s: System, e: Event, s': System)
    requires Reachable(h, n, s) && InRange(s) && Step(h, s, e).Some?
    requires
      var t := Step(h, s, e).value;
      t.tags == s'.tags && t.blobs == s'.blobs && t.servers == s'.servers && t.tasks == s'.tasks
    ensures Reachable(h, n, s')
  {
    hide Step, Reachable;
    ReachStep(h, n, s, e);
  }

  function BothLate(o: DeltaOptions): System
  {
    System(map[], {}, [Server(1, {}, {}), Server(1, {}, {})], [Task(0, Late(o)), Task(1, Late(o))])
  }

  lemma BothCanBeLate(h: string -> string, o: DeltaOptions)
    requires WellFormed(o) && o.from != o.to
    ensures Reachable(h, 2, BothLate(o))
  {
    hide LocationOf, Reachable, WellFormed;
    var s0 := Init(2);
    InitReachable(h, 2);
    var s1 := System(map[], {}, [Server(1, {}, {}), Server(0, {}, {})], [Task(0, Started)]);
    assert Reachable(h, 2, s1) by {
      Reach(h, 2, s0, Arrive(0), s1);
    }
    var s2 := BothLate(o).(tasks := [Task(0, Started), Task(1, Started)]);
    assert Reachable(h, 2, s2) by {
      Reach(h, 2, s1, Arrive(1), s2);
    }
    var s3 := s2.(tasks := [Task(0, Looking(o)), Task(1, Started)]);
    assert Reachable(h, 2, s3) by {
      Reach(h, 2, s2, Resolve(0, o), s3);
    }
    var s4 := s2.(tasks := [Task(0, Looking(o)), Task(1, Looking(o))]);
    assert Reachable(h, 2, s4) by {
      Reach(h, 2, s3, Resolve(1, o), s4);
    }
    var s5 := s2.(tasks := [Task(0, Late(o)), Task(1, Looking(o))]);
    assert Reachable(h, 2, s5) by {
      Reach(h, 2, s4, LookUp(0, false), s5);
    }
    assert Reachable(h, 2, BothLate(o)) by {
      Reach(h, 2, s5, LookUp(1, false), BothLate(o));
    }
  }

  function OnePushed(h: string -> string, o: DeltaOptions, delta: bool): System
  {
    var l := LocationOf(h, o);
    if !delta then
      System(map[l := DummyManifest(o)], {}, [Server(2, {}, {}), Server(1, {}, {})],
             [Task(0, Launched(o)), Task(1, Late(o)), Task(0, Diffing(o))])
    else
      System(map[l := DeltaManifest(o)], {Delta(o.from, o.to, o.choice)}, [Server(2, {}, {l}), Server(1, {}, {})],
             [Task(0, Launched(o)), Task(1, Late(o)), Task(0, Leaving(o))])
  }

  lemma OneCanCreate(h: string -> string, o: DeltaOptions)
    requires Reachable(h, 2, BothLate(o))
    ensures Reachable(h, 2, OnePushed(h, o, false))
  {
    hide LocationOf, Reachable, DummyManifest, DeltaManifest;
    var l := LocationOf(h, o);
    var s7 := BothLate(o).(tags := map[l := DummyManifest(o)], tasks := [Task(0, Loading(o)), Task(1, Late(o))]);
    assert Reachable(h, 2, s7) by {
      Reach(h, 2, BothLate(o), PushDummy(0, false, false), s7);
    }
    assert Reachable(h, 2, OnePushed(h, o, false)) by {
      Reach(h, 2, s7, Launch(0), OnePushed(h, o, false));
    }
  }

  lemma OneCanBePushed(h: string -> string, o: DeltaOptions)
    requires Reachable(h, 2, OnePushed(h, o, false))
    ensures Reachable(h, 2, OnePushed(h, o, true))
  {
    hide LocationOf, Reachable, DummyManifest, DeltaManifest;
    var l := LocationOf(h, o);
    var s8 := OnePushed(h, o, false);
    var s9 := s8.(servers := [Server(2, {}, {l}), Server(1, {}, {})],
                  tasks := [Task(0, Launched(o)), Task(1, Late(o)), Task(0, Uploading(o))]);
    assert Reachable(h, 2, s9) by {
      assert s8.servers[0].active + {l} == {l};
      Reach(h, 2, s8, Enter(2), s9);
    }
    var s10 := s9.(blobs := {Delta(o.from, o.to, o.choice)},
                   tasks := [Task(0, Launched(o)), Task(1, Late(o)), Task(0, Tagging(o))]);
    assert Reachable(h, 2, s10) by {
      assert s9.blobs + s10.blobs == s10.blobs;
      Reach(h, 2, s9, Upload(2), s10);
    }
    assert Reachable(h, 2, OnePushed(h, o, true)) by {
      Reach(h, 2, s10, Tag(2), OnePushed(h, o, true));
    }
  }

  /** Two servers that both look before either has begun: the dummy of the slower one replaces a finished delta. */
  lemma DummyOverDelta(h: string -> string, o: DeltaOptions) returns (s: System, e: Event)
    requires WellFormed(o) && o.from != o.to
    ensures Reachable(h, 2, s) && InRange(s) && Step(h, s, e).Some?
    ensures
      var l := LocationOf(h, o);
      && l in s.tags && s.tags[l] == DeltaManifest(o)
      && l in Step(h, s, e).value.tags && Step(h, s, e).value.tags[l] == DummyManifest(o)
  {
    hide Reachable;
    BothCanBeLate(h, o);
    OneCanCreate(h, o);
    OneCanBePushed(h, o);
    s, e := OnePushed(h, o, true), PushDummy(1, false, false);
  }

  lemma InitReachable(h: string -> string, n: nat)
    ensures Reachable(h, n, Init(n))
  {
    assert Run(h, Init(n), []) == Some(Init(n));
  }

  /** The mark of a failed dummy is never taken back while the server lives: it pushes no dummy there any more. */
  lemma MarkStays(h: string -> string, s: System, e: Event, i: nat, l: Location)
    requires InRange(s) && i < |s.servers| && l in s.servers[i].dummies && Step(h, s, e).Some? && e != Die(i)
    ensures
      var s' := Step(h, s, e).value;
      && i < |s'.servers| && l in s'.servers[i].dummies
      && (e.PushDummy? && s.tasks[e.k].server == i && LocationOf(h, s.tasks[e.k].phase.o) == l ==> s'.tags == s.tags)
  {
    hide LocationOf, Live, Kill;
  }
}
