/** Whole runs of the server, restarts included, and when replaying the log gives the live state. */
module Runs {
  import opened Base
  import opened Tree
  import opened Store
  import opened History
  import opened Requests
  import opened LivePath
  import opened Recovery
  import opened Replayed

  datatype Action = Do(step: Step) | Restart

  datatype RunState = RunState(image: Image, log: seq<Entry>)

  /** A step changes the state and appends its record; a restart replaces the state by the replayed
      one, if replay succeeds. */
  ghost function Exec(s: RunState, a: Action): RunState {
    match a
    case Do(step) => RunState(Live(s.image, step).image, s.log + Logged(s.image, step))
    case Restart =>
      match ReplayLog(EMPTY_IMAGE, s.log)
      case None => s
      case Some(d) => RunState(d, s.log)
  }

  ghost function Run(acts: seq<Action>): RunState {
    if acts == [] then RunState(EMPTY_IMAGE, [])
    else Exec(Run(acts[..|acts| - 1]), acts[|acts| - 1])
  }

  /** Replaying the log would give the present state. */
  ghost predicate Faithful(acts: seq<Action>) { ReplayLog(EMPTY_IMAGE, Run(acts).log) == Some(Run(acts).image) }

  /** Every run there is: any steps, and any restart from a log that replays. */
  ghost predicate Legal(acts: seq<Action>) {
    acts != [] ==>
      var init, last := acts[..|acts| - 1], acts[|acts| - 1];
      Legal(init) && match last
                     case Do(step) => Genuine(Run(init).image, step)
                     case Restart => ReplayLog(EMPTY_IMAGE, Run(init).log).Some?
  }

  /** Every step meets the guard of StepReplaysIff when its turn comes. */
  ghost predicate Guarded(acts: seq<Action>) {
    acts != [] ==>
      var init, last := acts[..|acts| - 1], acts[|acts| - 1];
      Guarded(init) && (last.Do? ==> Genuine(Run(init).image, last.step) && Guard(Run(init).image, last.step))
  }

  /** From action `i` on, no restart changes the state. */
  ghost predicate SteadyFrom(acts: seq<Action>, i: nat) {
    |acts| > i ==>
      var init := acts[..|acts| - 1];
      SteadyFrom(init, i) && (acts[|acts| - 1].Restart? ==> Faithful(init))
  }

  /** The tree changes that led to the present state, in order: those of the steps, or, after a restart
      that changed the state, those of the replay. */
  ghost function Trace(acts: seq<Action>): seq<Event> {
    if acts == [] then []
    else
      var init, last := acts[..|acts| - 1], acts[|acts| - 1];
      match last
      case Do(step) => Trace(init) + Live(Run(init).image, step).events
      case Restart => if Faithful(init) then Trace(init) else LogEvents(Run(init).log)
  }

  /** All tree changes that clients were ever told of, whether or not a restart kept them. */
  ghost function Happened(acts: seq<Action>): seq<Event> {
    if acts == [] then []
    else
      var init, last := acts[..|acts| - 1], acts[|acts| - 1];
      Happened(init) + if last.Do? then Live(Run(init).image, last.step).events else []
  }

  lemma RunSnoc(acts: seq<Action>, a: Action)
    ensures (acts + [a])[..|acts|] == acts && Run(acts + [a]) == Exec(Run(acts), a)
    ensures a.Do? ==>
      && (Legal(acts + [a]) <==> Legal(acts) && Genuine(Run(acts).image, a.step))
      && (Guarded(acts + [a]) <==> Guarded(acts) && Genuine(Run(acts).image, a.step) && Guard(Run(acts).image, a.step))
      && Happened(acts + [a]) == Happened(acts) + Live(Run(acts).image, a.step).events
    ensures a.Restart? ==>
      && (Legal(acts + [a]) <==> Legal(acts) && ReplayLog(EMPTY_IMAGE, Run(acts).log).Some?)
      && (Guarded(acts + [a]) <==> Guarded(acts)) && Happened(acts + [a]) == Happened(acts)
  {
    hide Exec, Live, Genuine, Guard, ReplayLog;
    assert (acts + [a])[..|acts|] == acts;
  }

  // ------------------------------------------------- replay equals live

  /** Replaying the log of any guarded run from nothing gives the live state, whatever orders hash sets
      come in: tree and stats, zxid, ephemeral index, session timeouts and the next session id. */
  lemma {:induction false} ReplayEqualsLive(acts: seq<Action>)
    requires Guarded(acts)
    ensures ReplayLog(EMPTY_IMAGE, Run(acts).log) == Some(Run(acts).image)
    ensures Inv(Run(acts).image) && Certain(EMPTY_IMAGE, Run(acts).log)
  {
    hide TreeInv, Exact, Genuine, Guard, Live, ReplayLog, Certain, Logged;
    if acts == [] {
      EmptyInv();
      NothingToReplay(Run(acts).log);
    } else {
      var init, last := acts[..|acts| - 1], acts[|acts| - 1];
      ReplayEqualsLive(init);
      if last.Do? {
        var d := Run(init).image;
        StepSound(d, last.step);
        StepReplaysIff(d, last.step);
        LoggedOnce(d, last.step);
        ReplayMore(Run(init).log, d, Logged(d, last.step));
      }
    }
  }

  lemma NothingToReplay(log: seq<Entry>)
    requires log == []
    ensures ReplayLog(EMPTY_IMAGE, log) == Some(EMPTY_IMAGE) && Certain(EMPTY_IMAGE, log)
  {
  }

  lemma LoggedOnce(d: Image, step: Step)
    ensures |Logged(d, step)| <= 1
  {
  }

  lemma ReplayMore(log: seq<Entry>, d: Image, more: seq<Entry>)
    requires ReplayLog(EMPTY_IMAGE, log) == Some(d) && |more| <= 1
    ensures ReplayLog(EMPTY_IMAGE, log + more) == ReplayLog(d, more)
    ensures Certain(EMPTY_IMAGE, log) && Certain(d, more) ==> Certain(EMPTY_IMAGE, log + more)
  {
    hide ReplayEntry, AnyOrder;
    if more == [] {
      assert log + more == log;
    } else {
      assert more == [more[0]] && more[..0] == [];
      assert (log + more)[..|log|] == log;
      ReplaySnoc(EMPTY_IMAGE, log, more[0]);
      ReplayOne(d, more[0]);
    }
  }

  /** The guards are needed one by one: a guarded run extended by a step replays to the live state
      exactly when that step is guarded. */
  lemma GuardIsNecessary(acts: seq<Action>, step: Step)
    requires Guarded(acts) && Genuine(Run(acts).image, step)
    ensures Faithful(acts + [Do(step)]) <==> Guarded(acts + [Do(step)])
  {
    hide TreeInv, Exact, Genuine, Guard, Live, ReplayLog, Logged, Certain, Guarded;
    RunSnoc(acts, Do(step));
    ReplayEqualsLive(acts);
    var d := Run(acts).image;
    StepReplaysIff(d, step);
    LoggedOnce(d, step);
    ReplayMore(Run(acts).log, d, Logged(d, step));
  }

  /** Replay equals the live state at every point of the run. */
  ghost predicate AlwaysFaithful(acts: seq<Action>) { forall k :: 0 <= k <= |acts| ==> Faithful(acts[..k]) }

  lemma AlwaysFaithfulSnoc(acts: seq<Action>)
    requires acts != []
    ensures AlwaysFaithful(acts) <==> AlwaysFaithful(acts[..|acts| - 1]) && Faithful(acts)
  {
    hide Faithful;
    var init := acts[..|acts| - 1];
    assert acts[..|acts|] == acts;
    forall k | 0 <= k <= |init| ensures init[..k] == acts[..k] { }
  }

  /** A run is guarded exactly when replay equals the live state at every point of it. At a single
      point the two can agree again by accident. */
  lemma {:induction false} GuardedIff(acts: seq<Action>)
    requires Legal(acts)
    ensures Guarded(acts) <==> AlwaysFaithful(acts)
  {
    hide Exec, Genuine, Guard, Faithful, AlwaysFaithful;
    if acts == [] {
      FaithfulAtFirst();
    } else {
      var init, last := acts[..|acts| - 1], acts[|acts| - 1];
      GuardedIff(init);
      AlwaysFaithfulSnoc(acts);
      assert init + [last] == acts;
      if Guarded(init) && last.Do? { GuardIsNecessary(init, last.step); }
      if Guarded(init) && last.Restart? { FaithfulRestart(init); }
    }
  }

  lemma FaithfulAtFirst()
    ensures AlwaysFaithful([])
  {
    assert forall acts: seq<Action> :: |acts| == 0 ==> acts == [];
  }

  lemma FaithfulRestart(acts: seq<Action>)
    requires Guarded(acts)
    ensures Faithful(acts + [Restart])
  {
    hide ReplayLog;
    RunSnoc(acts, Restart);
    ReplayEqualsLive(acts);
  }

  lemma {:induction false} GuardedIsLegal(acts: seq<Action>)
    requires Guarded(acts)
    ensures Legal(acts) && SteadyFrom(acts, 0)
  {
    hide Exec, Genuine, Guard, ReplayLog;
    if acts != [] {
      var init := acts[..|acts| - 1];
      GuardedIsLegal(init);
      ReplayEqualsLive(init);
    }
  }

  // ---------------------------------------------------- every reachable state

  /** In every reachable state, guarded or not: the tree invariant holds, the tree is what its trace of
      events makes it, zxids order the trace, and the log is numbered from 1 to the zxid. */
  lemma {:induction false} EveryRun(acts: seq<Action>)
    requires Legal(acts)
    ensures var s := Run(acts);
      && TreeInv(s.image.nodes) && Gapless(s.log, s.image.lastZxid) && GenuineLog(s.log)
      && Fold(EMPTY_TREE, Trace(acts)) == Some(s.image.nodes) && ZxidsOrdered(Trace(acts), s.image.lastZxid)
  {
    hide TreeInv, Genuine, Live, ReplayLog, Logged, Fold, ZxidsOrdered, Gapless, GenuineLog, LogEvents;
    if acts == [] {
      EmptyInv();
      NothingFolds(EMPTY_TREE);
      NoZxids();
      NoLog();
    } else {
      var init, last := acts[..|acts| - 1], acts[|acts| - 1];
      EveryRun(init);
      if last.Do? { RunStep(Run(init), Trace(init), last.step); } else { RunRestart(Run(init)); }
    }
  }

  lemma NoLog()
    ensures Gapless([], 0) && GenuineLog([])
  {
  }

  lemma RunRestart(s: RunState)
    requires Gapless(s.log, s.image.lastZxid) && GenuineLog(s.log) && ReplayLog(EMPTY_IMAGE, s.log).Some?
    ensures var d := ReplayLog(EMPTY_IMAGE, s.log).value;
      && TreeInv(d.nodes) && Gapless(s.log, d.lastZxid)
      && Fold(EMPTY_TREE, LogEvents(s.log)) == Some(d.nodes) && ZxidsOrdered(LogEvents(s.log), d.lastZxid)
  {
    hide TreeInv, ReplayLog, LogEvents, Fold, ZxidsOrdered;
    assert |s.log| == s.image.lastZxid;
    LogFollows(s.log);
  }

  lemma RunStep(s: RunState, trace: seq<Event>, step: Step)
    requires Genuine(s.image, step) && TreeInv(s.image.nodes) && Gapless(s.log, s.image.lastZxid) && GenuineLog(s.log)
    requires Fold(EMPTY_TREE, trace) == Some(s.image.nodes) && ZxidsOrdered(trace, s.image.lastZxid)
    ensures var t, more := Exec(s, Do(step)), trace + Live(s.image, step).events;
      && TreeInv(t.image.nodes) && Gapless(t.log, t.image.lastZxid) && GenuineLog(t.log)
      && Fold(EMPTY_TREE, more) == Some(t.image.nodes) && ZxidsOrdered(more, t.image.lastZxid)
  {
    var o := Live(s.image, step);
    StepSound(s.image, step);
    FoldConcat(EMPTY_TREE, trace, o.events);
    LogGrows(s, step);
    hide TreeInv, Genuine, Live, Fold, Gapless, GenuineLog, ZxidsOrdered;
    LastIsLength(s.log, s.image.lastZxid);
    ZxidsGrowBy(trace, o.events, s.image.lastZxid, o.image.lastZxid);
  }

  lemma LastIsLength(log: seq<Entry>, lastZxid: int)
    requires Gapless(log, lastZxid)
    ensures lastZxid == |log|
  {
  }

  lemma LogGrows(s: RunState, step: Step)
    requires Genuine(s.image, step) && StepIsSound(s.image, Live(s.image, step))
    requires Gapless(s.log, s.image.lastZxid) && GenuineLog(s.log)
    ensures var t := Exec(s, Do(step)); Gapless(t.log, t.image.lastZxid) && GenuineLog(t.log)
  {
    LoggedIsGenuine(s.image, step);
    hide Live, Genuine, Sound, Gapless, GenuineLog, GenuineOp;
    var o := Live(s.image, step);
    if o.logged.Some? {
      GaplessSnoc(s.log, s.image.lastZxid, o.logged.value);
      GenuineSnoc(s.log, Entry(s.image.lastZxid + 1, o.logged.value));
    } else {
      assert s.log + [] == s.log;
    }
  }

  lemma GenuineSnoc(log: seq<Entry>, entry: Entry)
    requires GenuineLog(log) && GenuineOp(entry.op)
    ensures GenuineLog(log + [entry])
  {
  }

  lemma LoggedIsGenuine(d: Image, step: Step)
    requires Genuine(d, step)
    ensures Live(d, step).logged.Some? ==> GenuineOp(Live(d, step).logged.value)
  {
  }

  /** No restart so far was from a log with a single Delete record that named an ephemeral node. */
  ghost predicate CleanRestarts(acts: seq<Action>) {
    acts != [] ==>
      var init := acts[..|acts| - 1];
      CleanRestarts(init) && (acts[|acts| - 1].Restart? ==> NoStaleDelete(Run(init).log))
  }

  /** The ephemeral index is exact in every reachable state, unless the server was started from a log
      in which a single Delete names an ephemeral node. For the states replay passes through that
      condition is exact (Replayed.AlwaysExactIff). */
  lemma {:induction false} EveryIndex(acts: seq<Action>)
    requires Legal(acts) && CleanRestarts(acts)
    ensures Inv(Run(acts).image)
  {
    hide TreeInv, Exact, Genuine, Live, ReplayLog, Logged, NoStaleDelete, AlwaysExact, Gapless, GenuineLog;
    EveryRun(acts);
    if acts == [] {
      EmptyInv();
    } else {
      var init, last := acts[..|acts| - 1], acts[|acts| - 1];
      EveryRun(init);
      EveryIndex(init);
      if last.Do? {
        StepSound(Run(init).image, last.step);
      } else {
        LastIsLength(Run(init).log, Run(init).image.lastZxid);
        AlwaysExactIff(Run(init).log);
        LastExact(Run(init).log);
      }
    }
  }

  /** While no restart changes the state, the trace of the run only grows. */
  lemma {:induction false} TraceGrows(acts: seq<Action>, i: nat)
    requires i <= |acts| && SteadyFrom(acts, i)
    ensures Trace(acts[..i]) <= Trace(acts)
    decreases |acts|
  {
    hide Run, Live, Faithful, LogEvents;
    if i < |acts| {
      var init := acts[..|acts| - 1];
      TraceGrows(init, i);
      assert init[..i] == acts[..i];
    } else {
      assert acts[..i] == acts;
    }
  }

  /** And it is then all that ever happened. */
  lemma {:induction false} TraceIsAll(acts: seq<Action>)
    requires SteadyFrom(acts, 0)
    ensures Trace(acts) == Happened(acts)
  {
    hide Run, Live, Faithful, LogEvents;
    if acts != [] { TraceIsAll(acts[..|acts| - 1]); }
  }
}
