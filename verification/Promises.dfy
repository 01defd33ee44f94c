/** What conditional writes and checks promise over whole runs, said of requests and answers. */
module Promises {
  import opened Base
  import opened Tree
  import opened Store
  import opened History
  import opened Requests
  import opened LivePath
  import opened Answers
  import opened Runs
  import opened Reachable

  // ------------------------------------------------- acknowledged writes

  ghost function ReplyTo(acts: seq<Action>, i: nat): Reply
    requires i < |acts| && acts[i].Do?
  {
    Live(Run(acts[..i]).image, acts[i].step).reply
  }

  /** The `i`-th action is a write of `path` that asked for `version` and was answered Ok: sent alone, or
      as the `m`-th operation of a transaction. */
  ghost predicate Acknowledged(acts: seq<Action>, i: nat, m: nat, path: string, version: int) {
    && i < |acts| && acts[i].Do? && acts[i].step.Ask?
    && match acts[i].step.request
       case SetData(p, _, v) => m == 0 && p == path && v == version && ReplyTo(acts, i).err == Ok
       case Multi(ops) =>
         && m < |ops| && ops[m].SetOp? && ops[m].path == path && ops[m].version == version
         && ReplyTo(acts, i).body.MultiBody? && m < |ReplyTo(acts, i).body.responses|
         && ReplyTo(acts, i).body.responses[m].SetDone?
       case _ => false
  }

  /** How many of the first operations change the tree. */
  function Changing(ops: seq<MultiOp<string>>): nat {
    if ops == [] then 0 else Changing(ops[..|ops| - 1]) + if ops[|ops| - 1].CheckOp? then 0 else 1
  }

  /** Where among all that happened an acknowledged write is. */
  ghost function Place(acts: seq<Action>, i: nat, m: nat): nat
    requires i < |acts| && acts[i].Do? && acts[i].step.Ask?
  {
    var request := acts[i].step.request;
    |Happened(acts[..i])| + if request.Multi? && m <= |request.ops| then Changing(request.ops[..m]) else 0
  }

  lemma {:induction false} HappenedPrefix(acts: seq<Action>, i: nat)
    requires i <= |acts|
    ensures Happened(acts[..i]) <= Happened(acts)
    decreases |acts|
  {
    hide Run, Live;
    if i < |acts| {
      assert acts[..|acts| - 1][..i] == acts[..i];
      HappenedPrefix(acts[..|acts| - 1], i);
    } else {
      assert acts[..i] == acts;
    }
  }

  lemma OneEventEach(s: Staged, sid: int, now: int, op: MultiOp<string>)
    requires MultiStep(s, sid, now, op).Success?
    ensures var t := MultiStep(s, sid, now, op).value;
      && s.events <= t.events && |t.events| == |s.events| + (if op.CheckOp? then 0 else 1)
      && (op.SetOp? ==> t.events[|s.events|] == Changed(op.path, op.data, now, s.image.lastZxid, op.version))
  {
  }

  lemma {:induction false} EventsCount(d: Image, sid: int, now: int, ops: seq<MultiOp<string>>)
    requires MultiFold(Begin(d), sid, now, ops).Running?
    ensures |MultiFold(Begin(d), sid, now, ops).staged.events| == Changing(ops)
  {
    hide MultiStep;
    if ops != [] {
      var n := |ops| - 1;
      EventsCount(d, sid, now, ops[..n]);
      OneEventEach(MultiFold(Begin(d), sid, now, ops[..n]).staged, sid, now, ops[n]);
    }
  }

  lemma {:induction false} EventsSoFar(d: Image, sid: int, now: int, ops: seq<MultiOp<string>>, k: nat)
    requires k <= |ops| && MultiFold(Begin(d), sid, now, ops).Running?
    ensures StagedAt(d, sid, now, ops, k).Running?
    ensures StagedAt(d, sid, now, ops, k).staged.events <= MultiFold(Begin(d), sid, now, ops).staged.events
    decreases |ops|
  {
    hide MultiStep;
    if k < |ops| {
      var n := |ops| - 1;
      assert ops[..n][..k] == ops[..k];
      EventsSoFar(d, sid, now, ops[..n], k);
      OneEventEach(MultiFold(Begin(d), sid, now, ops[..n]).staged, sid, now, ops[n]);
    } else {
      assert ops[..k] == ops;
    }
  }

  /** An acknowledged write of a transaction is its event, at its place. */
  lemma WriteInMulti(d: Image, sid: int, now: int, ops: seq<MultiOp<string>>, m: nat)
    requires TreeInv(d.nodes) && m < |ops| && ops[m].SetOp? && MultiFold(Begin(d), sid, now, ops).Running?
    ensures var events := MultiFold(Begin(d), sid, now, ops).staged.events;
      && Changing(ops[..m]) < |events| && events[Changing(ops[..m])].Changed?
      && events[Changing(ops[..m])].path == ops[m].path && events[Changing(ops[..m])].expected == ops[m].version
  {
    hide MultiStep, TreeInv;
    Committed(d, sid, now, ops, [], m);
    EventsCount(d, sid, now, ops[..m]);
    EventsSoFar(d, sid, now, ops, m + 1);
    OneEventEach(StagedAt(d, sid, now, ops, m).staged, sid, now, ops[m]);
  }

  lemma AcknowledgedEvent(d: Image, step: Step, m: nat, path: string, version: int)
    requires TreeInv(d.nodes) && step.Ask?
    requires var o := Live(d, step);
      (match step.request
       case SetData(p, _, v) => m == 0 && p == path && v == version && o.reply.err == Ok
       case Multi(ops) =>
         && m < |ops| && ops[m].SetOp? && ops[m].path == path && ops[m].version == version
         && o.reply.body.MultiBody? && m < |o.reply.body.responses| && o.reply.body.responses[m].SetDone?
       case _ => false)
    ensures var o := Live(d, step);
      var k := if step.request.Multi? then Changing(step.request.ops[..m]) else 0;
      k < |o.events| && o.events[k].Changed? && o.events[k].path == path && o.events[k].expected == version
  {
    hide TreeInv, MultiFold, Changing;
    if step.request.Multi? {
      var sid, now, ops := step.sessionId, step.now, step.request.ops;
      AbortIndex(Begin(d), sid, now, ops);
      if MultiFold(Begin(d), sid, now, ops).Running? { WriteInMulti(d, sid, now, ops, m); }
    }
  }

  lemma AcknowledgedAt(acts: seq<Action>, i: nat, m: nat, path: string, version: int)
    requires Legal(acts) && Acknowledged(acts, i, m, path, version)
    ensures var h, k := Happened(acts), Place(acts, i, m);
      k < |h| && h[k].Changed? && h[k].path == path && h[k].expected == version
    ensures Place(acts, i, m) < |Happened(acts[..i + 1])|
  {
    hide Run, Legal, TreeInv, Live, Changing, Fold, Happened;
    LegalPrefix(acts, i);
    EveryRun(acts[..i]);
    AcknowledgedEvent(Run(acts[..i]).image, acts[i].step, m, path, version);
    HappenedPrefix(acts, i + 1);
    TakeOneMore(acts, i);
    RunSnoc(acts[..i], acts[i]);
    Inside(Happened(acts[..i]), Live(Run(acts[..i]).image, acts[i].step).events, Happened(acts),
           Place(acts, i, m) - |Happened(acts[..i])|);
  }

  lemma Inside(before: seq<Event>, events: seq<Event>, h: seq<Event>, k: nat)
    requires before + events <= h && k < |events|
    ensures |before| + k < |before + events| <= |h| && h[|before| + k] == events[k]
  {
    assert (before + events)[|before| + k] == events[k];
  }

  lemma {:induction false} ChangingMore(ops: seq<MultiOp<string>>, m: nat, n: nat)
    requires m < n <= |ops| && !ops[m].CheckOp?
    ensures Changing(ops[..m]) < Changing(ops[..n])
    decreases n
  {
    assert ops[..n][..n - 1] == ops[..n - 1];
    if m < n - 1 { ChangingMore(ops, m, n - 1); }
  }

  lemma PlacesInOrder(acts: seq<Action>, i: nat, m: nat, j: nat, n: nat, p: string, v: int, w: int)
    requires Legal(acts) && Acknowledged(acts, i, m, p, v) && Acknowledged(acts, j, n, p, w)
    requires i < j || (i == j && m < n)
    ensures Place(acts, i, m) < Place(acts, j, n)
  {
    hide Run, Legal, Live, Changing;
    if i < j {
      AcknowledgedAt(acts, i, m, p, v);
      HappenedPrefix(acts[..j], i + 1);
      assert acts[..j][..i + 1] == acts[..i + 1];
    } else {
      ChangingMore(acts[i].step.request.ops, m, n);
    }
  }

  /** Of the writes that ask for one version of one lifetime of a node, alone or inside transactions, at
      most one is answered Ok, over any run whose restarts change nothing. Two that were can only have
      asked for no version. */
  lemma AtMostOneOk(acts: seq<Action>, i: nat, m: nat, j: nat, n: nat, path: string, version: int)
    requires Legal(acts) && SteadyFrom(acts, 0) && (i < j || (i == j && m < n))
    requires Acknowledged(acts, i, m, path, version) && Acknowledged(acts, j, n, path, version)
    requires SameLife(Happened(acts), Place(acts, i, m), Place(acts, j, n), path)
    requires Writes(Happened(acts)[..Place(acts, j, n)], path) < 0x8000_0000
    ensures version == -1
  {
    hide Run, Legal, SteadyFrom, Happened, ReplyTo, Place, Writes;
    AcknowledgedAt(acts, i, m, path, version);
    AcknowledgedAt(acts, j, n, path, version);
    PlacesInOrder(acts, i, m, j, n, path, version, version);
    OneWriteEver(acts, Place(acts, i, m), Place(acts, j, n));
  }

  // ------------------------------------------------- versions and history

  /** In any run a write is answered Ok exactly if the node exists and the version asked for, if any, is
      the number of writes in the node's present lifetime. */
  lemma SetMeetsHistory(acts: seq<Action>, sid: int, now: int, path: string, data: Bytes, version: int,
                        order: seq<string>)
    requires Legal(acts)
    ensures var o := Live(Run(acts).image, Ask(sid, now, SetData(path, data, version), order));
      o.reply.err == Ok <==>
      Alive(Trace(acts), path) && (version == -1 || version == Wrap32(Writes(Trace(acts), path)))
  {
    hide Run, Legal, Trace, TreeInv, Live, Writes, Alive, ZxidsOrdered, Fold, WithData;
    EveryRun(acts);
    HistoryDeterminesTree(Trace(acts), path);
    SetAnswers(Run(acts).image, sid, now, path, data, version, order);
  }

  /** The history up to the `k`-th operation of a transaction. */
  ghost function HistoryAt(acts: seq<Action>, sid: int, now: int, ops: seq<MultiOp<string>>, k: nat): seq<Event>
    requires k <= |ops| && StagedAt(Run(acts).image, sid, now, ops, k).Running?
  {
    Trace(acts) + StagedAt(Run(acts).image, sid, now, ops, k).staged.events
  }

  lemma StagedHistory(acts: seq<Action>, sid: int, now: int, ops: seq<MultiOp<string>>, k: nat, path: string)
    requires Legal(acts) && k <= |ops| && StagedAt(Run(acts).image, sid, now, ops, k).Running?
    ensures var nodes := StagedAt(Run(acts).image, sid, now, ops, k).staged.image.nodes;
      var h := HistoryAt(acts, sid, now, ops, k);
      && (path in nodes <==> Alive(h, path))
      && (path in nodes ==> nodes[path].stat.version == Wrap32(Writes(h, path)))
  {
    hide Run, Legal, Trace, TreeInv, Writes, Alive, Fold, MultiFold, ZxidsOrdered;
    EveryRun(acts);
    var d := Run(acts).image;
    MultiFoldSound(d, sid, now, ops[..k]);
    FoldConcat(EMPTY_TREE, Trace(acts), StagedAt(d, sid, now, ops, k).staged.events);
    HistoryDeterminesTree(HistoryAt(acts, sid, now, ops, k), path);
  }

  /** In any run, at each check of a committed transaction the node existed, and the version asked for, if
      any, was the number of its writes so far, those of the transaction's earlier operations included. A
      transaction fails at a check exactly because this does not hold, and the code tells which part. */
  lemma ChecksMeetHistory(acts: seq<Action>, sid: int, now: int, ops: seq<MultiOp<string>>, k: nat)
    requires Legal(acts) && k < |ops| && ops[k].CheckOp?
    ensures MultiFold(Begin(Run(acts).image), sid, now, ops).Running? ==>
      && StagedAt(Run(acts).image, sid, now, ops, k).Running?
      && var h := HistoryAt(acts, sid, now, ops, k);
         Alive(h, ops[k].path) && (ops[k].version == -1 || ops[k].version == Wrap32(Writes(h, ops[k].path)))
    ensures var run := MultiFold(Begin(Run(acts).image), sid, now, ops);
      run.Aborted? && run.index == k ==>
        && StagedAt(Run(acts).image, sid, now, ops, k).Running?
        && var h := HistoryAt(acts, sid, now, ops, k);
           && (run.code == NoNode || run.code == BadVersion) && (run.code == NoNode <==> !Alive(h, ops[k].path))
           && (run.code == BadVersion <==>
                 Alive(h, ops[k].path) && ops[k].version != -1 && ops[k].version != Wrap32(Writes(h, ops[k].path)))
  {
    hide Run, Legal, Trace, TreeInv, Writes, Alive, Fold, MultiFold, ZxidsOrdered, HistoryAt;
    EveryRun(acts);
    ChecksHold(Run(acts).image, sid, now, ops, k);
    if StagedAt(Run(acts).image, sid, now, ops, k).Running? { StagedHistory(acts, sid, now, ops, k, ops[k].path); }
  }
}
