/** What a client can rely on over a whole run, restarts included. */
module Reachable {
  import opened Base
  import opened Names
  import opened Tree
  import opened Store
  import opened Reaping
  import opened History
  import opened Watches
  import opened Requests
  import opened LivePath
  import opened Recovery
  import opened Runs

  /** What a client sees in a stat, in any reachable state: each field is read off the trace, the
      zxids are ordered, and children are conserved, so that `cversion` (below overflow) and the
      number of children differ by twice the number of child deletes. */
  lemma EveryStat(acts: seq<Action>, p: string)
    requires Legal(acts) && p in Run(acts).image.nodes
    ensures var node := Run(acts).image.nodes[p];
      && node.stat == StatAt(Trace(acts), p) && node.data == DataAt(Trace(acts), p)
      && 0 <= node.stat.czxid <= node.stat.mzxid <= Run(acts).image.lastZxid
      && node.stat.czxid <= node.stat.pzxid <= Run(acts).image.lastZxid
      && ((p == ROOT ==> Canonical(Trace(acts))) && ChildOps(Trace(acts), p) < 0x8000_0000 ==>
            node.stat.cversion - |node.children| == 2 * ChildDeletes(Trace(acts), p))
  {
    hide Run, Legal, Trace, TreeInv, Fold, ZxidsOrdered, Canonical, Gapless;
    EveryRun(acts);
    LastIsLength(Run(acts).log, Run(acts).image.lastZxid);
    HistoryDeterminesTree(Trace(acts), p);
    StatZxidsOrdered(Trace(acts), Run(acts).image.lastZxid, p);
    if p == ROOT ==> Canonical(Trace(acts)) { ChildrenConserved(Trace(acts), p); }
  }

  /** Over canonical paths the tree of every reachable state is well formed, root included. */
  lemma EveryTree(acts: seq<Action>)
    requires Legal(acts) && Canonical(Trace(acts))
    ensures WellFormed(Run(acts).image.nodes)
  {
    hide Run, Legal, Trace, WellFormed, Canonical;
    EveryRun(acts);
    ReachableTree(Trace(acts));
  }

  lemma {:induction false} LegalPrefix(acts: seq<Action>, i: nat)
    requires Legal(acts) && i <= |acts|
    ensures Legal(acts[..i])
    decreases |acts|
  {
    hide Run, Genuine, ReplayLog;
    if i < |acts| {
      assert acts[..|acts| - 1][..i] == acts[..i];
      LegalPrefix(acts[..|acts| - 1], i);
    } else {
      assert acts[..i] == acts;
    }
  }

  lemma {:induction false} StillAlive(h: seq<Event>, n: nat, p: string)
    requires n <= |h| && SameLife(h, n, |h|, p) && Alive(h[..n], p)
    ensures Alive(h, p)
    decreases |h|
  {
    if n < |h| {
      assert h[..|h| - 1][..n] == h[..n];
      StillAlive(h[..|h| - 1], n, p);
    } else {
      assert h[..n] == h;
    }
  }

  /** One node at two points of a run. While no event creates or deletes it and no restart changes the
      state, it is there, its czxid, ctime and owner are fixed, its mzxid and pzxid never decrease, and
      neither do its two counters below overflow. */
  lemma Lifetime(acts: seq<Action>, i: nat, p: string)
    requires Legal(acts) && i <= |acts| && SteadyFrom(acts, i) && p in Run(acts[..i]).image.nodes
    requires SameLife(Trace(acts), |Trace(acts[..i])|, |Trace(acts)|, p)
    ensures p in Run(acts).image.nodes
    ensures var past, now := Run(acts[..i]).image.nodes[p].stat, Run(acts).image.nodes[p].stat;
      && now.czxid == past.czxid && now.ctime == past.ctime && now.ephemeralOwner == past.ephemeralOwner
      && now.mzxid >= past.mzxid && now.pzxid >= past.pzxid
      && (Writes(Trace(acts), p) < 0x8000_0000 ==> now.version >= past.version)
      && (ChildOps(Trace(acts), p) < 0x8000_0000 ==> now.cversion >= past.cversion)
  {
    hide Run, Legal, SteadyFrom, TreeInv, ZxidsOrdered, Alive, Gapless, GenuineLog, Fold, Trace;
    hide Writes, ChildCreates, ChildDeletes, Birth, LastWrite, LastChildOp, SameLife;
    var h, n := Trace(acts), |Trace(acts[..i])|;
    TraceGrows(acts, i);
    LegalPrefix(acts, i);
    EveryRun(acts);
    EveryRun(acts[..i]);
    assert h[..n] == Trace(acts[..i]) && h[..|h|] == h;
    HistoryDeterminesTree(h[..n], p);
    HistoryDeterminesTree(h, p);
    StillAlive(h, n, p);
    CountersGrow(h, n, |h|, p);
    ZxidsGrow(h, n, |h|, p, Run(acts).image.lastZxid);
  }

  /** Optimistic concurrency over a whole run: of the writes conditioned on one version of one
      lifetime of a node, sent alone or inside transactions, at most one is ever applied. */
  lemma OneWritePerVersion(acts: seq<Action>, i: nat, j: nat)
    requires Legal(acts) && i < j < |Trace(acts)|
    requires Trace(acts)[i].Changed? && Trace(acts)[j].Changed? && Trace(acts)[i].path == Trace(acts)[j].path
    requires SameLife(Trace(acts), i, j, Trace(acts)[i].path)
    requires Writes(Trace(acts)[..j], Trace(acts)[i].path) < 0x8000_0000
    ensures Trace(acts)[i].expected == Trace(acts)[j].expected ==> Trace(acts)[i].expected == -1
  {
    hide Run, Legal, Trace, TreeInv, Gapless;
    EveryRun(acts);
    VersionsGuardWrites(Trace(acts), i, j);
  }

  /** The same of all writes that ever happened, while no restart changes the state. */
  lemma OneWriteEver(acts: seq<Action>, i: nat, j: nat)
    requires Legal(acts) && SteadyFrom(acts, 0) && i < j < |Happened(acts)|
    requires Happened(acts)[i].Changed? && Happened(acts)[j].Changed?
    requires Happened(acts)[i].path == Happened(acts)[j].path
    requires SameLife(Happened(acts), i, j, Happened(acts)[i].path)
    requires Writes(Happened(acts)[..j], Happened(acts)[i].path) < 0x8000_0000
    ensures Happened(acts)[i].expected == Happened(acts)[j].expected ==> Happened(acts)[i].expected == -1
  {
    hide Run, Legal, SteadyFrom, Trace, Happened;
    TraceIsAll(acts);
    OneWritePerVersion(acts, i, j);
  }

  /** Sequential names of the present history: never repeated, always sorting in creation order. For a
      run in which no restart changed the state that history is all that ever happened (TraceIsAll). */
  lemma SequentialOverRuns(acts: seq<Action>, i: nat, j: nat) returns (s: string, t: string)
    requires Legal(acts) && i < j < |Trace(acts)|
    requires Trace(acts)[i].Created? && Trace(acts)[i].base.Some?
    requires Trace(acts)[j].Created? && Trace(acts)[j].base.Some?
    requires Parent(Trace(acts)[i].path) == Parent(Trace(acts)[j].path)
    requires SameLife(Trace(acts), i, j, Parent(Trace(acts)[i].path))
    requires ChildOps(Trace(acts)[..j], Parent(Trace(acts)[i].path)) < 0x8000_0000
    ensures Trace(acts)[i].path == Trace(acts)[i].base.value + s
    ensures Trace(acts)[j].path == Trace(acts)[j].base.value + t
    ensures |s| == |t| == 10 && AllDigits(s) && AllDigits(t) && LexBefore(s, t)
    ensures Trace(acts)[i].base == Trace(acts)[j].base ==> Trace(acts)[i].path != Trace(acts)[j].path
  {
    hide Run, Legal, Trace, TreeInv, Gapless;
    EveryRun(acts);
    s, t := SequentialNamesIncrease(Trace(acts), i, j);
  }

  /** While no restart changes the state, sequential names are never given twice in one lifetime of
      their parent, of all that ever happened. */
  lemma NamesNeverRepeat(acts: seq<Action>, i: nat, j: nat)
    requires Legal(acts) && SteadyFrom(acts, 0) && i < j < |Happened(acts)|
    requires Happened(acts)[i].Created? && Happened(acts)[i].base.Some?
    requires Happened(acts)[j].Created? && Happened(acts)[j].base == Happened(acts)[i].base
    requires SameLife(Happened(acts), i, j, Parent(Happened(acts)[i].path))
    requires ChildOps(Happened(acts)[..j], Parent(Happened(acts)[i].path)) < 0x8000_0000
    ensures Happened(acts)[i].path != Happened(acts)[j].path
  {
    hide Run, Legal, SteadyFrom, TreeInv, Gapless, Trace, Happened;
    TraceIsAll(acts);
    EveryRun(acts);
    var h := Happened(acts);
    if h[i].path == h[j].path { var s, t := SequentialNamesIncrease(h, i, j); }
  }

  // ------------------------------------------------------------- session ids

  /** The next session id as the log tells it. */
  ghost function NextId(log: seq<Entry>): int {
    if log == [] then 1
    else
      var next := NextId(log[..|log| - 1]);
      match log[|log| - 1].op
      case WCreateSession(sid, _) => if sid >= next then sid + 1 else next
      case _ => next
  }

  lemma {:induction false} ReplayNextId(log: seq<Entry>)
    requires ReplayLog(EMPTY_IMAGE, log).Some?
    ensures ReplayLog(EMPTY_IMAGE, log).value.nextSessionId == NextId(log)
  {
    hide WriteEvent, Prunable, Apply;
    if log != [] {
      var init, last := log[..|log| - 1], log[|log| - 1];
      ReplayNextId(init);
      if last.op.WMulti? {
        MultiKeepsNextId(ReplayLog(EMPTY_IMAGE, init).value.(lastZxid := last.index),
                         last.op.operations, last.op.timestamp, last.op.sessionId);
      }
    }
  }

  lemma {:induction false} MultiKeepsNextId(d: Image, ops: seq<MultiWalOp>, timestamp: int, sid: int)
    ensures ReplayMulti(d, ops, timestamp, sid).Some? ==>
              ReplayMulti(d, ops, timestamp, sid).value.nextSessionId == d.nextSessionId
  {
    if ops != [] { MultiKeepsNextId(d, ops[..|ops| - 1], timestamp, sid); }
  }

  lemma {:induction false} FoldKeepsNextId(s: Staged, sid: int, now: int, ops: seq<MultiOp<string>>)
    ensures MultiFold(s, sid, now, ops).Running? ==>
              MultiFold(s, sid, now, ops).staged.image.nextSessionId == s.image.nextSessionId
  {
    if ops != [] {
      var n := |ops| - 1;
      FoldKeepsNextId(s, sid, now, ops[..n]);
      var m := MultiFold(s, sid, now, ops[..n]);
      if m.Running? { OpKeepsNextId(m.staged, sid, now, ops[n]); }
    }
  }

  lemma OpKeepsNextId(s: Staged, sid: int, now: int, op: MultiOp<string>)
    ensures MultiStep(s, sid, now, op).Success? ==>
              MultiStep(s, sid, now, op).value.image.nextSessionId == s.image.nextSessionId
  {
  }

  /** Only a handshake moves the next session id, by one, and logs it. */
  lemma LiveNextId(d: Image, step: Step, log: seq<Entry>)
    requires d.nextSessionId == NextId(log)
    ensures Live(d, step).image.nextSessionId == d.nextSessionId + if step.CreateSession? then 1 else 0
    ensures Live(d, step).image.nextSessionId == NextId(log + Logged(d, step))
  {
    StepNextId(d, step);
    hide Live;
    var more := Logged(d, step);
    if more == [] { assert log + more == log; } else { assert (log + more)[..|log|] == log; }
  }

  lemma StepNextId(d: Image, step: Step)
    ensures var o := Live(d, step);
      && o.image.nextSessionId == d.nextSessionId + (if step.CreateSession? then 1 else 0)
      && (step.CreateSession? ==> o.logged == Some(WCreateSession(d.nextSessionId, step.timeoutMs)))
      && (o.logged.Some? && !step.CreateSession? ==> !o.logged.value.WCreateSession?)
  {
    hide MultiFold, CreateEvent, DeleteEvent, CreateRefusal, RemoveRefusal, SetRefusal, Applicable, Apply;
    hide Tried, TriedEvents, AbortResponses, Fires, AddEphemeral, RemoveEphemeral;
    if step.Ask? && step.request.Multi? {
      AbortIndex(Begin(d), step.sessionId, step.now, step.request.ops);
      FoldKeepsNextId(Begin(d), step.sessionId, step.now, step.request.ops);
    }
  }

  lemma {:induction false} RunNextId(acts: seq<Action>)
    ensures Run(acts).image.nextSessionId == NextId(Run(acts).log)
  {
    hide Live, Logged, ReplayLog, NextId;
    if acts == [] {
      NoSessions();
    } else {
      var init, last := acts[..|acts| - 1], acts[|acts| - 1];
      RunNextId(init);
      if last.Do? {
        LiveNextId(Run(init).image, last.step, Run(init).log);
      } else if ReplayLog(EMPTY_IMAGE, Run(init).log).Some? {
        ReplayNextId(Run(init).log);
      }
    }
  }

  lemma NoSessions()
    ensures NextId([]) == 1
  {
  }

  /** How many sessions a run has opened. */
  ghost function Handshakes(acts: seq<Action>): nat {
    if acts == [] then 0
    else Handshakes(acts[..|acts| - 1]) + if acts[|acts| - 1].Do? && acts[|acts| - 1].step.CreateSession? then 1 else 0
  }

  /** Session ids are handed out as 1, 2, 3, ... without a gap and never twice, over any run with any
      restarts: the next one is always one more than the number of handshakes so far. */
  lemma {:induction false} SessionIdsNeverRepeat(acts: seq<Action>)
    ensures Run(acts).image.nextSessionId == 1 + Handshakes(acts)
  {
    hide Live, Logged, ReplayLog;
    if acts != [] {
      var init, last := acts[..|acts| - 1], acts[|acts| - 1];
      SessionIdsNeverRepeat(init);
      RunNextId(init);
      if last.Do? {
        LiveNextId(Run(init).image, last.step, Run(init).log);
      } else if ReplayLog(EMPTY_IMAGE, Run(init).log).Some? {
        ReplayNextId(Run(init).log);
      }
    }
  }

  // ----------------------------------------------------------------- watches

  /** The calls into the watch tables that a run makes; a restart loses the tables. */
  ghost function WatchCalls(acts: seq<Action>): seq<WatchOp> {
    if acts == [] then []
    else
      var init, last := acts[..|acts| - 1], acts[|acts| - 1];
      WatchCalls(init) + match last case Do(step) => Live(Run(init).image, step).watchOps case Restart => [Forget]
  }

  /** Over every run each watch registered is delivered exactly once, cleared with its session, lost at
      a restart, or still outstanding. */
  lemma WatchesOverRuns(acts: seq<Action>)
    ensures var calls := WatchCalls(acts);
      Added(calls) == |DeliveredBy({}, calls)| + Cleared(calls) + Lost(calls) + |Outstanding(calls)|
  {
    WatchesConserved(WatchCalls(acts));
    DeliveredCounts(WatchCalls(acts));
  }
}
