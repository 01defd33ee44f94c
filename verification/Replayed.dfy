/** States that a start-up rebuilds from a log that some server wrote, faithful or not: what holds of
    all of them, and when the ephemeral index is exact. */
module Replayed {
  import opened Base
  import opened Tree
  import opened Store
  import opened Reaping
  import opened History
  import opened Requests
  import opened Recovery

  // ----------------------------------------- replay is a history of events

  ghost function MultiEvents(d: Image, ops: seq<MultiWalOp>, timestamp: int, sid: int): seq<Event> {
    if ops == [] then []
    else
      var init, last := ops[..|ops| - 1], ops[|ops| - 1];
      MultiEvents(d, init, timestamp, sid) +
      match ReplayMulti(d, init, timestamp, sid)
      case None => []
      case Some(m) => OptionalEvent(WriteEvent(m, last, timestamp, sid))
  }

  function OptionalEvent(e: Option<Event>): seq<Event> { if e.Some? then [e.value] else [] }

  /** An order in which these paths can be deleted, if there is one. */
  ghost function GoodOrder(nodes: Nodes, gone: set<string>, zxid: int): (order: seq<string>)
    ensures TreeInv(nodes) && Prunable(nodes, gone) ==>
      Listing(order, gone) && Fold(nodes, Deletions(order, zxid)).Some?
  {
    if exists order :: Listing(order, gone) && Fold(nodes, Deletions(order, zxid)).Some? then
      var order :| Listing(order, gone) && Fold(nodes, Deletions(order, zxid)).Some?;
      order
    else
      assert TreeInv(nodes) && Prunable(nodes, gone) ==> false by {
        if TreeInv(nodes) && Prunable(nodes, gone) { SomeOrderIff(nodes, gone, zxid); }
      }
      []
  }

  /** The tree changes that replaying a record makes. */
  ghost function EntryEvents(before: Image, entry: Entry): seq<Event> {
    var d := before.(lastZxid := entry.index);
    match entry.op
    case WCreate(path, data, timestamp, flags, sid) =>
      OptionalEvent(WriteEvent(d, MCreate(path, data, flags), timestamp, sid))
    case WSet(path, data, timestamp) => OptionalEvent(WriteEvent(d, MSet(path, data), timestamp, 0))
    case WDelete(path) => OptionalEvent(WriteEvent(d, MDelete(path), 0, 0))
    case WCreateSession(_, _) => []
    case WCloseSession(sid) =>
      Deletions(GoodOrder(d.nodes, Owned(d.ephemerals, sid), d.lastZxid), d.lastZxid)
    case WMulti(ops, timestamp, sid) => MultiEvents(d, ops, timestamp, sid)
  }

  ghost function LogEvents(log: seq<Entry>): seq<Event> {
    if log == [] then []
    else
      LogEvents(log[..|log| - 1]) +
      match ReplayLog(EMPTY_IMAGE, log[..|log| - 1])
      case None => []
      case Some(m) => EntryEvents(m, log[|log| - 1])
  }

  /** What replaying a record does to the tree is exactly its events, at its index; the tree invariant
      holds afterwards, whatever log this is. */
  ghost predicate Follows(d: Image, after: Image, events: seq<Event>, zxid: int) {
    Fold(d.nodes, events) == Some(after.nodes) && AllAt(events, zxid) && TreeInv(after.nodes) && after.lastZxid == zxid
  }

  lemma {:induction false} MultiFollows(d: Image, ops: seq<MultiWalOp>, timestamp: int, sid: int)
    requires TreeInv(d.nodes) && sid != 0 && ReplayMulti(d, ops, timestamp, sid).Some?
    ensures var after := ReplayMulti(d, ops, timestamp, sid).value;
      Follows(d, after, MultiEvents(d, ops, timestamp, sid), d.lastZxid) && (Exact(d) ==> Exact(after))
  {
    hide TreeInv, Exact, WriteEvent, Fold;
    if ops == [] {
      NothingFolds(d.nodes);
    } else {
      var init, last := ops[..|ops| - 1], ops[|ops| - 1];
      MultiFollows(d, init, timestamp, sid);
      var m := ReplayMulti(d, init, timestamp, sid).value;
      OneMoreEvent(d, m, MultiEvents(d, init, timestamp, sid), WriteEvent(m, last, timestamp, sid).value);
    }
  }

  lemma NothingFolds(nodes: Nodes)
    ensures Fold(nodes, []) == Some(nodes)
  {
  }

  lemma OneMoreEvent(d: Image, m: Image, events: seq<Event>, e: Event)
    requires Fold(d.nodes, events) == Some(m.nodes) && AllAt(events, m.lastZxid) && TreeInv(m.nodes)
    requires Applicable(m.nodes, e) && e.zxid == m.lastZxid
    ensures Follows(d, Perform(m, e), events + [e], m.lastZxid) && (Exact(m) ==> Exact(Perform(m, e)))
  {
    hide TreeInv, IndexExact, Applicable, Apply;
    ApplyKeepsTreeInv(m.nodes, e);
    if Exact(m) { PerformKeepsIndex(m, e); }
    FoldSnoc(d.nodes, events, e);
  }

  lemma WriteFollows(d: Image, e: Event)
    requires TreeInv(d.nodes) && Applicable(d.nodes, e) && e.zxid == d.lastZxid
    ensures Follows(d, Perform(d, e), [e], d.lastZxid) && (Exact(d) ==> Exact(Perform(d, e)))
  {
    hide TreeInv, IndexExact, Applicable, Apply, Fold;
    NothingFolds(d.nodes);
    OneMoreEvent(d, d, [], e);
    assert [] + [e] == [e];
  }

  lemma CloseFollows(d: Image, sid: int)
    requires TreeInv(d.nodes) && sid != 0 && Prunable(d.nodes, Owned(d.ephemerals, sid))
    ensures var order := GoodOrder(d.nodes, Owned(d.ephemerals, sid), d.lastZxid);
      Follows(d, Closed(d, sid), Deletions(order, d.lastZxid), d.lastZxid)
    ensures Exact(d) ==> Exact(Closed(d, sid))
  {
    hide TreeInv, Exact, Prunable, Reap, Distinct, ToSet;
    var order := GoodOrder(d.nodes, Owned(d.ephemerals, sid), d.lastZxid);
    SuccessfulOrder(d.nodes, order, d.lastZxid);
    FoldKeepsTreeInv(d.nodes, Deletions(order, d.lastZxid));
    if Exact(d) { CloseKeepsInv(d, sid); }
  }

  /** A single Delete record that names an ephemeral node: replay forgets to take it out of the index. */
  predicate DeletesEphemeral(d: Image, op: WalOp) {
    op.WDelete? && op.path in d.nodes && d.nodes[op.path].stat.ephemeralOwner != 0
  }

  lemma DeleteFollows(d: Image, path: string)
    requires TreeInv(d.nodes) && WriteEvent(d, MDelete(path), 0, 0).Some?
    ensures var e := WriteEvent(d, MDelete(path), 0, 0).value;
      var after := d.(nodes := Apply(d.nodes, e));
      Follows(d, after, [e], d.lastZxid) && (Exact(d) ==> (Exact(after) <==> !DeletesEphemeral(d, WDelete(path))))
  {
    var e := WriteEvent(d, MDelete(path), 0, 0).value;
    hide TreeInv, Exact, Apply, Fold;
    WriteFollows(d, e);
    if DeletesEphemeral(d, WDelete(path)) && Exact(d) {
      StaleEntry(d, e);
    }
  }

  lemma StaleEntry(d: Image, e: Event)
    requires Exact(d) && e.Deleted? && Applicable(d.nodes, e) && d.nodes[e.path].stat.ephemeralOwner != 0
    ensures !Exact(d.(nodes := Apply(d.nodes, e)))
  {
    var owner := Owners(d.nodes)[e.path];
    assert owner in d.ephemerals && e.path in d.ephemerals[owner];
    OwnersAfter(d.nodes, e);
  }

  /** One record over any state with the tree invariant. An exact index stays exact if and only if the
      record is not a single Delete of an ephemeral node. */
  lemma EntryFollows(d: Image, entry: Entry)
    requires TreeInv(d.nodes) && GenuineOp(entry.op) && ReplayEntry(d, entry).Some?
    ensures Follows(d, ReplayEntry(d, entry).value, EntryEvents(d, entry), entry.index)
    ensures Exact(d) ==> (Exact(ReplayEntry(d, entry).value) <==> !DeletesEphemeral(d, entry.op))
  {
    hide TreeInv, IndexExact, WriteEvent, Prunable, Reap, GoodOrder, Fold, ReplayMulti, MultiEvents;
    var d1 := d.(lastZxid := entry.index);
    match entry.op
    case WCreate(path, data, timestamp, flags, sid) =>
      WriteFollows(d1, WriteEvent(d1, MCreate(path, data, flags), timestamp, sid).value);
    case WSet(path, data, timestamp) => WriteFollows(d1, WriteEvent(d1, MSet(path, data), timestamp, 0).value);
    case WDelete(path) => DeleteFollows(d1, path);
    case WCreateSession(_, _) => NothingFolds(d.nodes);
    case WCloseSession(sid) => CloseFollows(d1, sid);
    case WMulti(ops, timestamp, sid) => MultiFollows(d1, ops, timestamp, sid);
  }

  lemma ZxidsGrowBy(h: seq<Event>, ev: seq<Event>, last: int, now: int)
    requires ZxidsOrdered(h, last) && AllAt(ev, now) && 0 <= last <= now
    ensures ZxidsOrdered(h + ev, now)
  {
  }

  /** Whenever the server starts from a log, the tree invariant holds, the state is at the log's last
      index, and the tree is what the replayed events make it, in the order of their zxids. */
  lemma {:induction false} LogFollows(log: seq<Entry>)
    requires Gapless(log, |log|) && GenuineLog(log) && ReplayLog(EMPTY_IMAGE, log).Some?
    ensures var d := ReplayLog(EMPTY_IMAGE, log).value;
      && TreeInv(d.nodes) && d.lastZxid == |log|
      && Fold(EMPTY_TREE, LogEvents(log)) == Some(d.nodes) && ZxidsOrdered(LogEvents(log), |log|)
  {
    hide TreeInv, IndexExact, ReplayEntry, EntryEvents, Fold, ZxidsOrdered, GenuineOp, Gapless;
    if log == [] {
      EmptyInv();
      NothingFolds(EMPTY_TREE);
      NoZxids();
    } else {
      var init, last := log[..|log| - 1], log[|log| - 1];
      GaplessInit(log);
      LogFollows(init);
      var d := ReplayLog(EMPTY_IMAGE, init).value;
      EntryFollows(d, last);
      FoldConcat(EMPTY_TREE, LogEvents(init), EntryEvents(d, last));
      ZxidsGrowBy(LogEvents(init), EntryEvents(d, last), |init|, |log|);
    }
  }

  lemma NoZxids()
    ensures ZxidsOrdered([], 0)
  {
  }

  lemma GaplessInit(log: seq<Entry>)
    requires log != [] && Gapless(log, |log|)
    ensures Gapless(log[..|log| - 1], |log| - 1) && log[|log| - 1].index == |log|
  {
  }

  // ---------------------------------------------- the index after a replay

  /** The ephemeral index was exact after every record. */
  ghost predicate AlwaysExact(log: seq<Entry>) {
    forall k :: 0 <= k <= |log| ==>
      ReplayLog(EMPTY_IMAGE, log[..k]).Some? && Exact(ReplayLog(EMPTY_IMAGE, log[..k]).value)
  }

  /** No single Delete record named a node that was ephemeral when it was replayed. */
  ghost predicate NoStaleDelete(log: seq<Entry>) {
    log != [] ==>
      && NoStaleDelete(log[..|log| - 1])
      && (ReplayLog(EMPTY_IMAGE, log[..|log| - 1]).Some? ==>
            !DeletesEphemeral(ReplayLog(EMPTY_IMAGE, log[..|log| - 1]).value, log[|log| - 1].op))
  }

  lemma {:induction false} AlwaysExactSnoc(log: seq<Entry>)
    requires log != []
    ensures AlwaysExact(log) <==>
            AlwaysExact(log[..|log| - 1])
            && ReplayLog(EMPTY_IMAGE, log).Some? && Exact(ReplayLog(EMPTY_IMAGE, log).value)
  {
    hide ReplayLog, Exact;
    var init := log[..|log| - 1];
    assert log[..|log|] == log;
    forall k | 0 <= k <= |init| ensures init[..k] == log[..k] { }
  }

  /** Replay keeps the ephemeral index exact all the way if and only if no single Delete record named
      an ephemeral node. */
  lemma {:induction false} AlwaysExactIff(log: seq<Entry>)
    requires Gapless(log, |log|) && GenuineLog(log) && ReplayLog(EMPTY_IMAGE, log).Some?
    ensures AlwaysExact(log) <==> NoStaleDelete(log)
  {
    hide ReplayEntry, Exact, AlwaysExact, DeletesEphemeral, GenuineOp, Gapless;
    if log == [] {
      NothingReplayed(log);
    } else {
      var init, last := log[..|log| - 1], log[|log| - 1];
      GaplessInit(log);
      AlwaysExactIff(init);
      AlwaysExactSnoc(log);
      LogFollows(init);
      var d := ReplayLog(EMPTY_IMAGE, init).value;
      EntryFollows(d, last);
      if AlwaysExact(init) { LastExact(init); }
    }
  }

  lemma LastExact(log: seq<Entry>)
    requires AlwaysExact(log)
    ensures ReplayLog(EMPTY_IMAGE, log).Some? && Exact(ReplayLog(EMPTY_IMAGE, log).value)
  {
    assert log[..|log|] == log;
  }

  lemma NothingReplayed(log: seq<Entry>)
    requires log == []
    ensures AlwaysExact(log)
  {
    EmptyInv();
  }
}
