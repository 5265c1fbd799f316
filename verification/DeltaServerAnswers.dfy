/** What a reply says of the run before it, and what a handler and a creation can go on to do. */
module DeltaServerAnswers {
  import opened DeltaServer
  import opened Options

  // ----- What has happened

  /** In a run of `n` servers task `k`, which asks for `o`, looked for the delta in event `i` and found this. */
  ghost predicate Looked(h: string -> string, n: nat, events: seq<Event>, i: nat, k: nat, o: DeltaOptions,
                         found: Option<Manifest>)
  {
    && i < |events| && events[i].LookUp? && events[i].k == k
    && Run(h, Init(n), events[..i]).Some?
    && var s := Run(h, Init(n), events[..i]).value;
       && k < |s.tasks| && s.tasks[k].phase == Looking(o)
       && found == if !events[i].fails && LocationOf(h, o) in s.tags then Some(s.tags[LocationOf(h, o)]) else None
  }

  /** A manifest that says that someone works on the delta. */
  predicate SaysInWork(m: Manifest)
  {
    m.marked && m.created
  }

  /** The handler found a dummy and judged it not to have expired. */
  ghost predicate FoundInWork(h: string -> string, n: nat, events: seq<Event>, k: nat, o: DeltaOptions)
  {
    exists i: nat, j: nat, m ::
      Looked(h, n, events, i, k, o, Some(m)) && SaysInWork(m) && i < j < |events| && events[j] == Judge(k, false)
  }

  /** The handler found nothing, or a dummy that it judged to have expired. */
  ghost predicate FoundOpen(h: string -> string, n: nat, events: seq<Event>, k: nat, o: DeltaOptions)
  {
    || (exists i: nat :: Looked(h, n, events, i, k, o, None))
    || (exists i: nat, j: nat, m ::
          Looked(h, n, events, i, k, o, Some(m)) && SaysInWork(m) && i < j < |events| && events[j] == Judge(k, true))
  }

  ghost predicate FoundDelta(h: string -> string, n: nat, events: seq<Event>, k: nat, o: DeltaOptions, m: Manifest)
  {
    !SaysInWork(m) && exists i: nat :: Looked(h, n, events, i, k, o, Some(m))
  }

  ghost predicate PushedDummy(events: seq<Event>, k: nat)
  {
    exists j :: 0 <= j < |events| && events[j].PushDummy? && events[j].k == k
  }

  /** What must have happened for task `k` to have got to a phase. */
  ghost predicate Past(h: string -> string, n: nat, events: seq<Event>, k: nat, p: Phase)
  {
    match p
    case Found(o, m) => exists i: nat :: Looked(h, n, events, i, k, o, Some(m))
    case Late(o) => FoundOpen(h, n, events, k, o)
    case Loading(o) => FoundOpen(h, n, events, k, o) && PushedDummy(events, k)
    case Launched(o) => FoundOpen(h, n, events, k, o) && Launch(k) in events
    case Replied(asked, Accepted) =>
      && asked.Some?
      && (FoundInWork(h, n, events, k, asked.value)
          || (FoundOpen(h, n, events, k, asked.value) && Launch(k) in events))
    case Replied(asked, Success(target, m)) => asked.Some? && FoundDelta(h, n, events, k, asked.value, m)
    case _ => true
  }

  lemma LookedMore(h: string -> string, n: nat, events: seq<Event>, e: Event, i: nat, k: nat, o: DeltaOptions,
                   found: Option<Manifest>)
    requires Looked(h, n, events, i, k, o, found)
    ensures Looked(h, n, events + [e], i, k, o, found)
  {
    hide Run;
    assert (events + [e])[..i] == events[..i];
  }

  /** What has happened stays so. */
  lemma PastMore(h: string -> string, n: nat, events: seq<Event>, e: Event, k: nat, p: Phase)
    requires Past(h, n, events, k, p)
    ensures Past(h, n, events + [e], k, p)
  {
    hide Looked;
    forall i: nat, o, found | Looked(h, n, events, i, k, o, found)
      ensures Looked(h, n, events + [e], i, k, o, found)
    {
      LookedMore(h, n, events, e, i, k, o, found);
    }
    var more := events + [e];
    assert forall j :: 0 <= j < |events| ==> more[j] == events[j];
  }

  /** The phases that a step of a task leads to. */
  lemma NextPhase(h: string -> string, s: System, k: nat, e: Event)
    requires InRange(s) && k < |s.tasks| && !e.Arrive? && !e.Die? && e.k == k && TurnOf(h, s, k, e).Some?
    ensures
      var next := TurnOf(h, s, k, e).value.phase;
      match s.tasks[k].phase
      case Looking(o) =>
        var l := LocationOf(h, o);
        next == if e.LookUp? then if !e.fails && l in s.tags then Found(o, s.tags[l]) else Late(o)
                else Replied(Some(o), Error)
      case Found(o, m) =>
        if !e.Judge? then next == Replied(Some(o), Error)
        else if !SaysInWork(m) then next == Replied(Some(o), Success(Source(o.repo, o.to), m))
        else next == if e.late then Late(o) else Replied(Some(o), Accepted)
      case Late(o) => e.PushDummy? && (next == Loading(o) || next == Replied(Some(o), Error))
      case Loading(o) => next == if e == Launch(k) then Launched(o) else Replied(Some(o), Error)
      case Launched(o) => next == Replied(Some(o), Accepted)
      case _ =>
        && !next.Found? && !next.Late? && !next.Loading? && !next.Launched?
        && (next.Replied? ==> !next.reply.Accepted? && !next.reply.Success?)
  {
    hide LocationOf, DummyManifest, DeltaManifest;
  }

  lemma LookingPast(h: string -> string, n: nat, events: seq<Event>, e: Event, s: System, k: nat, o: DeltaOptions)
    requires Run(h, Init(n), events) == Some(s) && k < |s.tasks| && e.LookUp? && e.k == k
    requires s.tasks[k].phase == Looking(o)
    ensures
      var l := LocationOf(h, o);
      Past(h, n, events + [e], k, if !e.fails && l in s.tags then Found(o, s.tags[l]) else Late(o))
  {
    hide Run, LocationOf;
    var more := events + [e];
    assert more[|events|] == e && more[..|events|] == events;
    var found := if !e.fails && LocationOf(h, o) in s.tags then Some(s.tags[LocationOf(h, o)]) else None;
    assert Looked(h, n, more, |events|, k, o, found);
  }

  lemma FoundPast(h: string -> string, n: nat, events: seq<Event>, k: nat, late: bool, o: DeltaOptions, m: Manifest)
    requires Past(h, n, events, k, Found(o, m))
    ensures
      var more := events + [Judge(k, late)];
      if !SaysInWork(m) then FoundDelta(h, n, more, k, o, m)
      else if late then FoundOpen(h, n, more, k, o) else FoundInWork(h, n, more, k, o)
  {
    hide Looked;
    var i: nat :| Looked(h, n, events, i, k, o, Some(m));
    LookedBefore(h, n, events, i, k, o, Some(m));
    LookedMore(h, n, events, Judge(k, late), i, k, o, Some(m));
    assert (events + [Judge(k, late)])[|events|] == Judge(k, late);
  }

  /** One step of a task leads to a phase whose past is as it must be. */
  lemma TurnPast(h: string -> string, n: nat, events: seq<Event>, e: Event, s: System, k: nat)
    requires Run(h, Init(n), events) == Some(s) && k < |s.tasks| && !e.Arrive? && !e.Die? && e.k == k
    requires TurnOf(h, s, k, e).Some? && Past(h, n, events, k, s.tasks[k].phase)
    ensures Past(h, n, events + [e], k, TurnOf(h, s, k, e).value.phase)
  {
    hide Run, LocationOf, TurnOf, Looked, FoundOpen, FoundInWork, FoundDelta, SaysInWork;
    NextPhase(h, s, k, e);
    match s.tasks[k].phase
    case Looking(o) =>
      if e.LookUp? {
        LookingPast(h, n, events, e, s, k, o);
      }
    case Found(o, m) =>
      if e.Judge? {
        FoundPast(h, n, events, k, e.late, o, m);
      }
    case _ =>
      PastMore(h, n, events, e, k, s.tasks[k].phase);
      assert (events + [e])[|events|] == e;
      assert e in events + [e];
  }

  lemma LookedBefore(h: string -> string, n: nat, events: seq<Event>, i: nat, k: nat, o: DeltaOptions,
                     found: Option<Manifest>)
    requires Looked(h, n, events, i, k, o, found)
    ensures i < |events|
  {
  }

  /** A step leaves a task alone, or is its own, or kills it; a new task starts or makes a delta. */
  lemma TaskAfter(h: string -> string, s: System, e: Event, k: nat)
    requires InRange(s) && Step(h, s, e).Some? && k < |Step(h, s, e).value.tasks|
    ensures
      var p := Step(h, s, e).value.tasks[k].phase;
      if k < |s.tasks| then
        || p == s.tasks[k].phase || p == Killed
        || (!e.Arrive? && !e.Die? && e.k == k && TurnOf(h, s, k, e).Some? && p == TurnOf(h, s, k, e).value.phase)
      else p == Started || p.Diffing?
  {
    hide TurnOf, Live;
    if e.Die? && k < |s.tasks| {
      KillEach(s.tasks, e.server, k);
    }
  }

  /** In every run the past of every task is as it must be. */
  lemma {:induction false} RunPast(h: string -> string, n: nat, events: seq<Event>, k: nat)
    requires Run(h, Init(n), events).Some? && k < |Run(h, Init(n), events).value.tasks|
    ensures Past(h, n, events, k, Run(h, Init(n), events).value.tasks[k].phase)
  {
    if events == [] {
    } else {
      hide Past, TurnOf, Step;
      var init, e := events[..|events| - 1], events[|events| - 1];
      assert events == init + [e];
      var s := Run(h, Init(n), init).value;
      TaskAfter(h, s, e, k);
      if k < |s.tasks| {
        RunPast(h, n, init, k);
        PastMore(h, n, init, e, k, s.tasks[k].phase);
        KilledPast(h, n, events, k);
        if !e.Arrive? && !e.Die? && e.k == k && TurnOf(h, s, k, e).Some? {
          TurnPast(h, n, init, e, s, k);
        }
      } else {
        NewPast(h, n, events, k);
      }
    }
  }

  lemma KilledPast(h: string -> string, n: nat, events: seq<Event>, k: nat)
    ensures Past(h, n, events, k, Killed)
  {
  }

  lemma NewPast(h: string -> string, n: nat, events: seq<Event>, k: nat)
    ensures Past(h, n, events, k, Started) && forall o :: Past(h, n, events, k, Diffing(o))
  {
  }

  lemma {:induction false} KillEach(tasks: seq<Task>, i: nat, k: nat)
    requires k < |tasks|
    ensures Kill(tasks, i)[k].phase == tasks[k].phase || Kill(tasks, i)[k].phase == Killed
    decreases |tasks|
  {
    if k == |tasks| - 1 {
    } else {
      KillEach(tasks[..|tasks| - 1], i, k);
    }
  }

  /**
   In every run, whoever is told that the delta is in work was either told so by the registry, by a manifest found
   before its expiry, or by the handler's own creation, launched after it had found nothing or only an expired dummy.
   */
  lemma AcceptedMeans(h: string -> string, n: nat, events: seq<Event>, k: nat, o: DeltaOptions)
    requires Run(h, Init(n), events).Some? && k < |Run(h, Init(n), events).value.tasks|
    requires Run(h, Init(n), events).value.tasks[k].phase == Replied(Some(o), Accepted)
    ensures FoundInWork(h, n, events, k, o) || (FoundOpen(h, n, events, k, o) && Launch(k) in events)
  {
    RunPast(h, n, events, k);
  }

  /** Whoever is given a delta is given what the handler found, and that was not a dummy. */
  lemma SuccessMeans(h: string -> string, n: nat, events: seq<Event>, k: nat, o: DeltaOptions, target: Source,
                     m: Manifest)
    requires Run(h, Init(n), events).Some? && k < |Run(h, Init(n), events).value.tasks|
    requires Run(h, Init(n), events).value.tasks[k].phase == Replied(Some(o), Success(target, m))
    ensures FoundDelta(h, n, events, k, o, m)
  {
    RunPast(h, n, events, k);
  }

  /** In every run a handler pushes a dummy or launches a creation only if it found nothing or an expired dummy. */
  lemma MakingMeans(h: string -> string, n: nat, events: seq<Event>, e: Event)
    requires Run(h, Init(n), events + [e]).Some? && (e.PushDummy? || e.Launch?)
    ensures exists o :: FoundOpen(h, n, events, e.k, o)
    ensures e.Launch? ==> PushedDummy(events, e.k)
  {
    hide FoundOpen, PushedDummy, LocationOf;
    assert (events + [e])[..|events|] == events;
    var s := Run(h, Init(n), events).value;
    RunPast(h, n, events, e.k);
  }

  // ----- What happens next

  /** Task `k` gets to phase `p`, and nothing else changes but its server's count of live tasks. */
  ghost predicate OnlyGets(s: System, k: nat, p: Phase, next: System)
    requires k < |s.tasks| && InRange(s)
  {
    && next.tags == s.tags && next.blobs == s.blobs && next.tasks == s.tasks[k := Task(s.tasks[k].server, p)]
    && |next.servers| == |s.servers|
    && forall i :: 0 <= i < |s.servers| ==>
         next.servers[i].dummies == s.servers[i].dummies && next.servers[i].active == s.servers[i].active
  }

  lemma RunOne(h: string -> string, s: System, e: Event)
    requires InRange(s)
    ensures Run(h, s, [e]) == Step(h, s, e)
  {
    assert [e][..0] == [];
    assert Run(h, s, []) == Some(s);
  }

  lemma RunNext(h: string -> string, s: System, events: seq<Event>, e: Event)
    requires InRange(s) && Run(h, s, events).Some?
    ensures Run(h, s, events + [e]) == Step(h, Run(h, s, events).value, e)
  {
    assert (events + [e])[..|events|] == events;
  }

  /** A look-up that finds nothing, or fails, leads to a dummy, a creation and a reply. */
  lemma OpenIsMade(h: string -> string, s: System, k: nat, o: DeltaOptions)
    requires InRange(s) && k < |s.tasks| && s.tasks[k].phase == Late(o)
    ensures
      var l, i := LocationOf(h, o), s.tasks[k].server;
      var end := Run(h, s, [PushDummy(k, false, false)] + [Launch(k)] + [Accept(k)]);
      && end.Some? && |end.value.tasks| == |s.tasks| + 1
      && end.value.tasks[k].phase == Replied(Some(o), Accepted)
      && end.value.tasks[|s.tasks|] == Task(i, Diffing(o))
      && end.value.tags == (if l in s.servers[i].dummies then s.tags else s.tags[l := DummyManifest(o)])
      && end.value.servers[i].active == s.servers[i].active
  {
    hide LocationOf, DummyManifest, Run;
    RunOne(h, s, PushDummy(k, false, false));
    RunNext(h, s, [PushDummy(k, false, false)], Launch(k));
    RunNext(h, s, [PushDummy(k, false, false)] + [Launch(k)], Accept(k));
  }

  /** What a handler does with what it finds. */
  lemma FoundIsJudged(h: string -> string, s: System, k: nat, o: DeltaOptions, late: bool)
    requires InRange(s) && k < |s.tasks| && s.tasks[k].phase == Looking(o)
    requires LocationOf(h, o) in s.tags
    ensures
      var m := s.tags[LocationOf(h, o)];
      var end := Run(h, s, [LookUp(k, false)] + [Judge(k, late)]);
      && end.Some?
      && OnlyGets(s, k, if !SaysInWork(m) then Replied(Some(o), Success(Source(o.repo, o.to), m))
                        else if late then Late(o) else Replied(Some(o), Accepted), end.value)
  {
    hide LocationOf, Run;
    RunOne(h, s, LookUp(k, false));
    RunNext(h, s, [LookUp(k, false)], Judge(k, late));
  }

  lemma MissingIsOpen(h: string -> string, s: System, k: nat, o: DeltaOptions, fails: bool)
    requires InRange(s) && k < |s.tasks| && s.tasks[k].phase == Looking(o)
    requires fails || LocationOf(h, o) !in s.tags
    ensures Step(h, s, LookUp(k, fails)).Some? && OnlyGets(s, k, Late(o), Step(h, s, LookUp(k, fails)).value)
  {
    hide LocationOf;
  }

  lemma CreationPushes(h: string -> string, s: System, k: nat, o: DeltaOptions)
    requires InRange(s) && k < |s.tasks| && s.tasks[k].phase == Diffing(o)
    requires LocationOf(h, o) !in s.servers[s.tasks[k].server].active
    ensures
      var i, end := s.tasks[k].server, Run(h, s, [Enter(k)] + [Upload(k)]);
      && end.Some? && k < |end.value.tasks| && end.value.tasks[k] == Task(i, Tagging(o))
      && end.value.tags == s.tags && end.value.blobs == s.blobs + {Delta(o.from, o.to, o.choice)}
      && end.value.servers[i].active == s.servers[i].active + {LocationOf(h, o)}
  {
    hide LocationOf, DeltaManifest, Run;
    RunOne(h, s, Enter(k));
    RunNext(h, s, [Enter(k)], Upload(k));
  }

  /** A creation that nothing makes fail puts the delta in place, unless its server is already pushing it. */
  lemma CreationMakes(h: string -> string, s: System, k: nat, o: DeltaOptions)
    requires InRange(s) && k < |s.tasks| && s.tasks[k].phase == Diffing(o)
    requires LocationOf(h, o) !in s.servers[s.tasks[k].server].active
    ensures
      var end := Run(h, s, [Enter(k)] + [Upload(k)] + [Tag(k)] + [Leave(k)]);
      && end.Some? && k < |end.value.tasks| && end.value.tasks[k].phase == Finished
      && end.value.tags == s.tags[LocationOf(h, o) := DeltaManifest(o)]
      && end.value.blobs == s.blobs + {Delta(o.from, o.to, o.choice)}
      && end.value.servers[s.tasks[k].server].active == s.servers[s.tasks[k].server].active
  {
    hide LocationOf, DeltaManifest, Run;
    CreationPushes(h, s, k, o);
    RunNext(h, s, [Enter(k)] + [Upload(k)], Tag(k));
    RunNext(h, s, [Enter(k)] + [Upload(k)] + [Tag(k)], Leave(k));
  }

  lemma PushedIsLeft(h: string -> string, s: System, k: nat, o: DeltaOptions)
    requires InRange(s) && k < |s.tasks| && s.tasks[k].phase == Diffing(o)
    requires LocationOf(h, o) in s.servers[s.tasks[k].server].active
    ensures Step(h, s, Enter(k)).Some? && OnlyGets(s, k, Finished, Step(h, s, Enter(k)).value)
  {
    hide LocationOf;
  }

  lemma {:induction false} RunJoin(h: string -> string, s: System, a: seq<Event>, b: seq<Event>)
    requires InRange(s) && Run(h, s, a).Some?
    ensures Run(h, s, a + b) == Run(h, Run(h, s, a).value, b)
    decreases |b|
  {
    hide Step;
    if b == [] {
      assert a + b == a;
    } else {
      RunJoin(h, s, a, b[..|b| - 1]);
      assert (a + b)[..|a + b| - 1] == a + b[..|b| - 1];
    }
  }

  lemma OpenIsFinished(h: string -> string, s: System, k: nat, o: DeltaOptions)
    requires InRange(s) && k < |s.tasks| && s.tasks[k].phase == Late(o)
    requires LocationOf(h, o) !in s.servers[s.tasks[k].server].active
    ensures
      var end := Run(h, s, ([PushDummy(k, false, false)] + [Launch(k)] + [Accept(k)]) +
                           ([Enter(|s.tasks|)] + [Upload(|s.tasks|)] + [Tag(|s.tasks|)] + [Leave(|s.tasks|)]));
      && end.Some? && LocationOf(h, o) in end.value.tags
      && end.value.tags[LocationOf(h, o)] == DeltaManifest(o)
  {
    hide LocationOf, DeltaManifest, DummyManifest, Run, Step;
    var b := [PushDummy(k, false, false)] + [Launch(k)] + [Accept(k)];
    OpenIsMade(h, s, k, o);
    CreationMakes(h, Run(h, s, b).value, |s.tasks|, o);
    RunJoin(h, s, b, [Enter(|s.tasks|)] + [Upload(|s.tasks|)] + [Tag(|s.tasks|)] + [Leave(|s.tasks|)]);
  }

  /**
   So a delta whose maker died is made again: a request that finds its expired dummy can go on until the delta is in
   place.
   */
  lemma ExpiredIsMade(h: string -> string, s: System, k: nat, o: DeltaOptions)
    requires InRange(s) && k < |s.tasks| && s.tasks[k].phase == Looking(o)
    requires LocationOf(h, o) in s.tags && SaysInWork(s.tags[LocationOf(h, o)])
    requires LocationOf(h, o) !in s.servers[s.tasks[k].server].active
    ensures exists events ::
      && Judge(k, true) in events && Run(h, s, events).Some?
      && LocationOf(h, o) in Run(h, s, events).value.tags
      && Run(h, s, events).value.tags[LocationOf(h, o)] == DeltaManifest(o)
  {
    hide LocationOf, DeltaManifest, DummyManifest, Run, Step;
    var a := [LookUp(k, false)] + [Judge(k, true)];
    var b := [PushDummy(k, false, false)] + [Launch(k)] + [Accept(k)];
    var c := [Enter(|s.tasks|)] + [Upload(|s.tasks|)] + [Tag(|s.tasks|)] + [Leave(|s.tasks|)];
    FoundIsJudged(h, s, k, o, true);
    OpenIsFinished(h, Run(h, s, a).value, k, o);
    RunJoin(h, s, a, b + c);
    assert a[1] in a + (b + c);
  }

  /** Even by the server that died, once it is started again: nothing of what it was doing stands in the way. */
  lemma DeadIsRemade(h: string -> string, s: System, i: nat, o: DeltaOptions)
    requires InRange(s) && i < |s.servers| && WellFormed(o) && o.from != o.to
    requires LocationOf(h, o) in s.tags && SaysInWork(s.tags[LocationOf(h, o)])
    ensures
      var again := Run(h, s, [Die(i)] + [Arrive(i)]);
      again.Some? && again.value.tags == s.tags && again.value.servers[i] == Server(1, {}, {})
    ensures exists events ::
      && Run(h, s, [Die(i)] + [Arrive(i)] + [Resolve(|s.tasks|, o)] + events).Some?
      && var end := Run(h, s, [Die(i)] + [Arrive(i)] + [Resolve(|s.tasks|, o)] + events).value;
         LocationOf(h, o) in end.tags && end.tags[LocationOf(h, o)] == DeltaManifest(o)
  {
    hide LocationOf, DeltaManifest, Run, WellFormed, Kill;
    var a := [Die(i)] + [Arrive(i)] + [Resolve(|s.tasks|, o)];
    RunOne(h, s, Die(i));
    RunNext(h, s, [Die(i)], Arrive(i));
    RunNext(h, s, [Die(i)] + [Arrive(i)], Resolve(|s.tasks|, o));
    var s1 := Run(h, s, a).value;
    ExpiredIsMade(h, s1, |s.tasks|, o);
    var events :|
      && Judge(|s.tasks|, true) in events && Run(h, s1, events).Some?
      && LocationOf(h, o) in Run(h, s1, events).value.tags
      && Run(h, s1, events).value.tags[LocationOf(h, o)] == DeltaManifest(o);
    RunJoin(h, s, a, events);
  }
}
