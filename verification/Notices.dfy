/** Who is told of what: that every change of the tree reaches the watches it concerns, once. */
module Notices {
  import opened Base
  import opened Names
  import opened Tree
  import opened Store
  import opened Watches
  import opened Requests
  import opened LivePath
  import opened Runs
  import opened Reachable

  // --------------------------------------------- a firing for every event

  function KindOf(e: Event): EventType {
    match e
    case Created(_, _, _, _, _, _) => NodeCreated
    case Changed(_, _, _, _, _) => NodeChanged
    case Deleted(_, _) => NodeDeleted
  }

  /** One firing for each event, in order, at its path and of its kind. */
  function Announced(events: seq<Event>): (ops: seq<WatchOp>)
    ensures |ops| == |events|
    ensures forall i :: 0 <= i < |events| ==> ops[i] == Fire(Firing(events[i].path, KindOf(events[i])))
  {
    if events == [] then []
    else
      var init, e := events[..|events| - 1], events[|events| - 1];
      Announced(init) + [Fire(Firing(e.path, KindOf(e)))]
  }

  lemma AnnouncedSnoc(events: seq<Event>, e: Event)
    ensures Announced(events + [e]) == Announced(events) + [Fire(Firing(e.path, KindOf(e)))]
  {
    assert (events + [e])[..|events|] == events;
  }

  lemma AnnouncedOne(e: Event)
    ensures Announced([e]) == [Fire(Firing(e.path, KindOf(e)))]
  {
    AnnouncedSnoc([], e);
    assert [] + [e] == [e] && Announced([]) == [];
  }

  lemma OpAnnounces(s: Staged, sid: int, now: int, op: MultiOp<string>)
    requires MultiStep(s, sid, now, op).Success? && s.watchOps == Announced(s.events)
    ensures var t := MultiStep(s, sid, now, op).value; t.watchOps == Announced(t.events)
  {
    hide Announced;
    OpFires(s, sid, now, op);
    hide MultiStep;
    var t := MultiStep(s, sid, now, op).value;
    if t.events != s.events { AnnouncedSnoc(s.events, t.events[|s.events|]); }
  }

  lemma OpFires(s: Staged, sid: int, now: int, op: MultiOp<string>)
    requires MultiStep(s, sid, now, op).Success?
    ensures var t := MultiStep(s, sid, now, op).value;
      || (t.events == s.events && t.watchOps == s.watchOps)
      || (|t.events| == |s.events| + 1 && var e := t.events[|s.events|];
            t.events == s.events + [e] && t.watchOps == s.watchOps + [Fire(Firing(e.path, KindOf(e)))])
  {
    hide CreateEvent, DeleteEvent, Apply, SeqSuffix;
  }

  lemma {:induction false} MultiAnnounces(d: Image, sid: int, now: int, ops: seq<MultiOp<string>>)
    ensures var run := MultiFold(Begin(d), sid, now, ops);
      run.Running? ==> run.staged.watchOps == Announced(run.staged.events)
  {
    hide MultiStep, Announced;
    if ops == [] {
      assert Announced([]) == [];
    } else {
      var n := |ops| - 1;
      MultiAnnounces(d, sid, now, ops[..n]);
      var m := MultiFold(Begin(d), sid, now, ops[..n]);
      if m.Running? && MultiStep(m.staged, sid, now, ops[n]).Success? { OpAnnounces(m.staged, sid, now, ops[n]); }
    }
  }

  /** Which calls into the watch tables a step makes: for a create, write, delete or transaction one
      firing for each change of the tree, in order. An accepted delete of the root announces what it did
      not do. Expiry fires nothing for the nodes it removes; neither does Close, which clears the
      session's own watches. */
  lemma StepAnnounces(d: Image, step: Step)
    requires TreeInv(d.nodes) && Genuine(d, step)
    ensures var o := Live(d, step);
      match step
      case CreateSession(_) => o.watchOps == []
      case Expire(_, _) => o.watchOps == []
      case Ask(sid, _, request, _) =>
        match request
        case Close => o.watchOps == [Clear(sid)]
        case Read(path, watch) =>
          o.watchOps == if watch.Some? then [Register(Registration(sid, WatchInfo(path, watch.value)))] else []
        case Heartbeat => o.watchOps == []
        case Remove(path, _) =>
          o.watchOps ==
          if path == ROOT && o.reply.err == Ok then [Fire(Firing(ROOT, NodeDeleted))] else Announced(o.events)
        case _ => o.watchOps == Announced(o.events)
  {
    if step.Ask? {
      match step.request
      case Create(path, data, flags) => CreateAnnounces(d, step.sessionId, step.now, path, data, flags);
      case SetData(path, data, version) => SetAnnounces(d, step.now, path, data, version);
      case Remove(path, version) => RemoveAnnounces(d, path, version);
      case Multi(ops) =>
        AbortIndex(Begin(d), step.sessionId, step.now, ops);
        MultiAnnounces(d, step.sessionId, step.now, ops);
        assert Announced([]) == [];
      case _ =>
    }
  }

  lemma CreateAnnounces(d: Image, sid: int, now: int, path: string, data: Bytes, flags: int)
    ensures var o := LiveCreate(d, sid, now, path, data, flags); o.watchOps == Announced(o.events)
  {
    hide CreateEvent, CreateRefusal, Announced;
    assert Announced([]) == [];
    var e := CreateEvent(d.nodes, d.lastZxid + 1, path, data, now, sid, flags);
    if e.Success? { AnnouncedOne(e.value); }
  }

  lemma SetAnnounces(d: Image, now: int, path: string, data: Bytes, version: int)
    ensures var o := LiveSet(d, now, path, data, version); o.watchOps == Announced(o.events)
  {
    hide Announced;
    assert Announced([]) == [];
    AnnouncedOne(Changed(path, data, now, d.lastZxid + 1, version));
  }

  lemma RemoveAnnounces(d: Image, path: string, version: int)
    requires TreeInv(d.nodes)
    ensures var o := LiveRemove(d, path, version);
      o.watchOps == if path == ROOT && o.reply.err == Ok then [Fire(Firing(ROOT, NodeDeleted))] else Announced(o.events)
  {
    hide Announced, TreeInv;
    assert Announced([]) == [];
    DeleteNeverPanics(d.nodes, d.lastZxid + 1, path);
    AnnouncedOne(Deleted(path, d.lastZxid + 1));
  }

  // ------------------------------------------------- who hears of an event

  /** Whom an event concerns: data watches on its path; and, of a create or delete, list watches on the
      parent, and of a delete also on the path itself. */
  predicate Concerns(e: Event, info: WatchInfo) {
    match info.watchType
    case Watch => info.path == e.path
    case ListWatch => !e.Changed? && (info.path == Parent(e.path) || (e.Deleted? && info.path == e.path))
    case _ => false
  }

  lemma ConcernsIff(e: Event, info: WatchInfo)
    requires e.Changed? || IsNodePath(e.path)
    ensures info in Woken(Firing(e.path, KindOf(e))) <==> Concerns(e, info)
  {
  }

  /** What the holder of a watch is told: the event, or that the list of children changed. */
  function Telling(e: Event, r: Registration): WatchEvent {
    WatchEvent(r.sessionId, if r.info.watchType == Watch then KindOf(e) else NodeChild, r.info.path)
  }

  ghost predicate Pathed(events: seq<Event>) {
    forall i :: 0 <= i < |events| ==> events[i].Changed? || IsNodePath(events[i].path)
  }

  ghost predicate ConcernsAny(events: seq<Event>, info: WatchInfo) {
    exists i :: 0 <= i < |events| && Concerns(events[i], info)
  }

  /** The first event that concerns a watch. */
  ghost function FirstConcern(events: seq<Event>, info: WatchInfo): (e: Event)
    requires ConcernsAny(events, info)
    ensures e in events && Concerns(e, info)
    decreases |events|
  {
    var init, last := events[..|events| - 1], events[|events| - 1];
    if ConcernsAny(init, info) then FirstConcern(init, info) else last
  }

  lemma ConcernsSnoc(events: seq<Event>, info: WatchInfo)
    requires events != []
    ensures ConcernsAny(events, info) <==>
            ConcernsAny(events[..|events| - 1], info) || Concerns(events[|events| - 1], info)
  {
    hide Concerns;
    var init := events[..|events| - 1];
    if ConcernsAny(init, info) {
      var i :| 0 <= i < |init| && Concerns(init[i], info);
      assert Concerns(events[i], info);
    }
    if ConcernsAny(events, info) {
      var i :| 0 <= i < |events| && Concerns(events[i], info);
      assert i < |init| ==> init[i] == events[i];
    }
  }

  /** A watch that some event concerns is told of the first such event, and is used up; all others stay.
      Nothing else is sent. */
  lemma {:induction false} Told(regs: set<Registration>, events: seq<Event>, r: Registration)
    requires Pathed(events) && r in regs
    ensures r in AfterAll(regs, Announced(events)) <==> !ConcernsAny(events, r.info)
    ensures ConcernsAny(events, r.info) ==>
              Telling(FirstConcern(events, r.info), r) in DeliveredBy(regs, Announced(events))
  {
    hide Concerns, Woken, IsNodePath;
    if events != [] {
      var init, e := events[..|events| - 1], events[|events| - 1];
      Told(regs, init, r);
      ConcernsSnoc(events, r.info);
      ConcernsIff(e, r.info);
      AnnouncedInit(events);
      WatchSnoc(regs, Announced(init), Fire(Firing(e.path, KindOf(e))));
      if !ConcernsAny(init, r.info) && Concerns(e, r.info) {
        SentTo(AfterAll(regs, Announced(init)), e, r);
      }
    }
  }

  lemma AnnouncedInit(events: seq<Event>)
    requires events != []
    ensures var init, e := events[..|events| - 1], events[|events| - 1];
      Announced(events) == Announced(init) + [Fire(Firing(e.path, KindOf(e)))]
  {
  }

  lemma SentTo(regs: set<Registration>, e: Event, r: Registration)
    requires r in regs && r.info in Woken(Firing(e.path, KindOf(e)))
    ensures Telling(e, r) in Notices(regs, Firing(e.path, KindOf(e)))
  {
    var f := Firing(e.path, KindOf(e));
    assert r in Matching(regs, f) && Notice(f, r) == Telling(e, r);
  }

  /** Whatever is sent was asked for: by a watch that was there, of an event that concerns it. */
  lemma {:induction false} NothingElse(regs: set<Registration>, events: seq<Event>, notice: WatchEvent)
    requires Pathed(events) && notice in DeliveredBy(regs, Announced(events))
    ensures exists r, i ::
              r in regs && 0 <= i < |events| && Concerns(events[i], r.info) && notice == Telling(events[i], r)
  {
    hide Concerns, Woken, IsNodePath, Telling;
    if events != [] {
      var n := |events| - 1;
      var init, e := events[..n], events[n];
      AnnouncedInit(events);
      WatchSnoc(regs, Announced(init), Fire(Firing(e.path, KindOf(e))));
      if notice in DeliveredBy(regs, Announced(init)) {
        NothingElse(regs, init, notice);
        var r, i :| r in regs && 0 <= i < |init| && Concerns(init[i], r.info) && notice == Telling(init[i], r);
        assert Concerns(events[i], r.info) && notice == Telling(events[i], r);
      } else {
        var r := Sender(AfterAll(regs, Announced(init)), e, notice);
        OnlyFewer(regs, init, r);
        ConcernsIff(e, r.info);
        assert Concerns(events[n], r.info) && notice == Telling(events[n], r);
      }
    }
  }

  lemma Sender(regs: set<Registration>, e: Event, notice: WatchEvent) returns (r: Registration)
    requires notice in Notices(regs, Firing(e.path, KindOf(e)))
    ensures r in regs && r.info in Woken(Firing(e.path, KindOf(e))) && notice == Telling(e, r)
  {
    var f := Firing(e.path, KindOf(e));
    r :| r in Matching(regs, f) && Notice(f, r) == notice;
  }

  /** Firing never registers anything. */
  lemma {:induction false} OnlyFewer(regs: set<Registration>, events: seq<Event>, r: Registration)
    requires r in AfterAll(regs, Announced(events))
    ensures r in regs
  {
    if events != [] {
      AnnouncedInit(events);
      var init, e := events[..|events| - 1], events[|events| - 1];
      WatchSnoc(regs, Announced(init), Fire(Firing(e.path, KindOf(e))));
      OnlyFewer(regs, init, r);
    }
  }

  // -------------------------------------------------------------- over runs

  lemma {:induction false} AppliedArePathed(nodes: Nodes, events: seq<Event>)
    requires Fold(nodes, events).Some?
    ensures Pathed(events)
  {
    hide Apply, IsNodePath;
    if events != [] {
      var init := events[..|events| - 1];
      AppliedArePathed(nodes, init);
      forall i | 0 <= i < |events| ensures events[i].Changed? || IsNodePath(events[i].path) {
        if i < |init| { assert events[i] == init[i]; } else { AppliedPathed(Fold(nodes, init).value, events[i]); }
      }
    }
  }

  lemma AppliedPathed(nodes: Nodes, e: Event)
    requires Applicable(nodes, e)
    ensures e.Changed? || IsNodePath(e.path)
  {
  }

  /** The steps that announce what they do to the tree. */
  predicate Announcing(step: Step) {
    step.Ask? && (step.request.Create? || step.request.SetData? || step.request.Remove? || step.request.Multi?)
  }

  /** In any run, restarts included: when a create, write, delete or transaction changes the tree, every
      outstanding watch that a change concerns is told of the first such change and is no longer
      outstanding; every other watch is told nothing and stays. */
  lemma EveryWatchIsTold(acts: seq<Action>, step: Step, r: Registration)
    requires Legal(acts + [Do(step)]) && Announcing(step) && r in Outstanding(WatchCalls(acts))
    ensures var o := Live(Run(acts).image, step);
      var before, after := Outstanding(WatchCalls(acts)), Outstanding(WatchCalls(acts + [Do(step)]));
      && (ConcernsAny(o.events, r.info) ==>
            r !in after && Telling(FirstConcern(o.events, r.info), r) in DeliveredBy(before, o.watchOps))
      && (!ConcernsAny(o.events, r.info) && o.watchOps == Announced(o.events) ==> r in after)
      && (o.watchOps != Announced(o.events) ==> step.request.Remove? && step.request.path == ROOT && o.events == [])
  {
    hide Run, Legal, TreeInv, Genuine, Live, WatchCalls, Announced, Concerns, Fold, AfterAll, DeliveredBy;
    var d, o := Run(acts).image, Live(Run(acts).image, step);
    RunSnoc(acts, Do(step));
    EveryRun(acts);
    StepSound(d, step);
    StepAnnounces(d, step);
    RootEvents(d, step);
    AppliedArePathed(d.nodes, o.events);
    Told(Outstanding(WatchCalls(acts)), o.events, r);
    CallsSnoc(acts, step);
  }

  /** And whatever is sent is owed: to an outstanding watch that a change concerns, or to one on the root
      for an accepted delete of it. */
  lemma EveryNoticeIsOwed(acts: seq<Action>, step: Step, notice: WatchEvent)
    requires Legal(acts + [Do(step)]) && Announcing(step)
    requires notice in DeliveredBy(Outstanding(WatchCalls(acts)), Live(Run(acts).image, step).watchOps)
    ensures var o := Live(Run(acts).image, step);
      || (step.request.Remove? && step.request.path == ROOT && o.events == [])
      || exists r, i :: r in Outstanding(WatchCalls(acts)) && 0 <= i < |o.events|
                        && Concerns(o.events[i], r.info) && notice == Telling(o.events[i], r)
  {
    hide Run, Legal, TreeInv, Genuine, Live, WatchCalls, Announced, Concerns, Fold, AfterAll, DeliveredBy, Telling;
    var d, o := Run(acts).image, Live(Run(acts).image, step);
    RunSnoc(acts, Do(step));
    EveryRun(acts);
    StepSound(d, step);
    RootEvents(d, step);
    AppliedArePathed(d.nodes, o.events);
    if o.watchOps == Announced(o.events) { NothingElse(Outstanding(WatchCalls(acts)), o.events, notice); }
  }

  lemma RootEvents(d: Image, step: Step)
    requires TreeInv(d.nodes) && Genuine(d, step) && Announcing(step)
    ensures Live(d, step).watchOps != Announced(Live(d, step).events) ==>
              step.request.Remove? && step.request.path == ROOT && Live(d, step).events == []
  {
    hide Announced, LiveCreate, LiveSet, LiveMulti, TreeInv;
    StepAnnounces(d, step);
    if step.request.Remove? { DeleteNeverPanics(d.nodes, d.lastZxid + 1, step.request.path); }
  }

  lemma CallsSnoc(acts: seq<Action>, step: Step)
    ensures Outstanding(WatchCalls(acts + [Do(step)])) ==
            AfterAll(Outstanding(WatchCalls(acts)), Live(Run(acts).image, step).watchOps)
    ensures WatchCalls(acts + [Do(step)]) == WatchCalls(acts) + Live(Run(acts).image, step).watchOps
  {
    hide Live;
    assert (acts + [Do(step)])[..|acts|] == acts;
    WatchConcat({}, WatchCalls(acts), Live(Run(acts).image, step).watchOps);
  }

  /** Close clears the session's watches and no others, and tells nobody; expiry clears and tells nothing. */
  lemma ClosedWatches(acts: seq<Action>, step: Step, r: Registration)
    requires Legal(acts + [Do(step)]) && (step.Expire? || (step.Ask? && step.request.Close?))
    requires r in Outstanding(WatchCalls(acts))
    ensures r in Outstanding(WatchCalls(acts + [Do(step)])) <==> !(step.Ask? && r.sessionId == step.sessionId)
    ensures DeliveredBy(Outstanding(WatchCalls(acts)), Live(Run(acts).image, step).watchOps) == multiset{}
  {
    hide Run, Legal, TreeInv, Genuine, Live, WatchCalls, Fold;
    RunSnoc(acts, Do(step));
    EveryRun(acts);
    StepAnnounces(Run(acts).image, step);
    CallsSnoc(acts, step);
    var regs := Outstanding(WatchCalls(acts));
    if step.Ask? {
      WatchSnoc(regs, [], Clear(step.sessionId));
      assert [] + [Clear(step.sessionId)] == [Clear(step.sessionId)];
    }
  }
}
