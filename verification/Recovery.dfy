/** Recovery: the interpreter that rebuilds the state from the log, written separately from the live
    path, and the proof that the two agree. */
module Recovery {
  import opened Base
  import opened Names
  import opened Tree
  import opened Store
  import opened Reaping
  import opened Requests
  import opened LivePath

  datatype Entry = Entry(index: int, op: WalOp)

  /** The change that a logged write stands for; None where an `expect` fails. */
  function WriteEvent(d: Image, op: MultiWalOp, timestamp: int, sid: int): (r: Option<Event>)
    ensures r.Some? ==> Applicable(d.nodes, r.value) && r.value.zxid == d.lastZxid
  {
    match op
    case MCreate(path, data, flags) =>
      (match CreateEvent(d.nodes, d.lastZxid, path, data, timestamp, sid, flags)
       case Failure(_) => None
       case Success(e) => Some(e))
    case MSet(path, data) =>
      if path in d.nodes then Some(Changed(path, data, timestamp, d.lastZxid, -1)) else None
    case MDelete(path) =>
      match DeleteEvent(d.nodes, d.lastZxid, path)
      case Failure(_) => None
      case Success(e) => Some(e)
  }

  function ReplayWrite(d: Image, op: MultiWalOp, timestamp: int, sid: int): Option<Image> {
    match WriteEvent(d, op, timestamp, sid)
    case None => None
    case Some(e) => Some(Perform(d, e))
  }

  function ReplayMulti(d: Image, ops: seq<MultiWalOp>, timestamp: int, sid: int): Option<Image> {
    if ops == [] then Some(d)
    else
      match ReplayMulti(d, ops[..|ops| - 1], timestamp, sid)
      case None => None
      case Some(m) => ReplayWrite(m, ops[|ops| - 1], timestamp, sid)
  }

  /** One record. None is a failed `expect`: the server does not start. A single Delete leaves the
      ephemeral index alone. A CloseSession deletes in an unspecified order: None means that every
      order fails, and when any order succeeds this is its result (Reaping.SomeOrderIff,
      SuccessfulOrder). */
  ghost function ReplayEntry(before: Image, entry: Entry): Option<Image> {
    var d := before.(lastZxid := entry.index);
    match entry.op
    case WCreate(path, data, timestamp, flags, sid) => ReplayWrite(d, MCreate(path, data, flags), timestamp, sid)
    case WSet(path, data, timestamp) => ReplayWrite(d, MSet(path, data), timestamp, 0)
    case WDelete(path) =>
      (match WriteEvent(d, MDelete(path), 0, 0)
       case None => None
       case Some(e) => Some(d.(nodes := Apply(d.nodes, e))))
    case WCreateSession(sid, timeoutMs) =>
      Some(d.(timeouts := d.timeouts[sid := timeoutMs],
              nextSessionId := if sid >= d.nextSessionId then sid + 1 else d.nextSessionId))
    case WCloseSession(sid) =>
      if Prunable(d.nodes, Owned(d.ephemerals, sid)) then Some(Closed(d, sid)) else None
    case WMulti(ops, timestamp, sid) => ReplayMulti(d, ops, timestamp, sid)
  }

  ghost function ReplayLog(d: Image, log: seq<Entry>): Option<Image> {
    if log == [] then Some(d)
    else
      match ReplayLog(d, log[..|log| - 1])
      case None => None
      case Some(m) => ReplayEntry(m, log[|log| - 1])
  }

  /** The record replays whatever order a hash set comes in. */
  ghost predicate AnyOrder(d: Image, op: WalOp) {
    op.WCloseSession? ==> Leaves(d.nodes, Owned(d.ephemerals, op.sessionId))
  }

  /** The whole log replays whatever orders hash sets come in. */
  ghost predicate Certain(d: Image, log: seq<Entry>) {
    log != [] ==>
      && Certain(d, log[..|log| - 1])
      && match ReplayLog(d, log[..|log| - 1]) case None => false case Some(m) => AnyOrder(m, log[|log| - 1].op)
  }

  lemma ReplaySnoc(d: Image, log: seq<Entry>, entry: Entry)
    ensures ReplayLog(d, log + [entry]) ==
            match ReplayLog(d, log) case None => None case Some(m) => ReplayEntry(m, entry)
  {
    assert (log + [entry])[..|log|] == log;
  }

  lemma {:induction false} ReplayMultiStops(d: Image, ops: seq<MultiWalOp>, timestamp: int, sid: int, i: nat)
    requires i <= |ops| && ReplayMulti(d, ops[..i], timestamp, sid).None?
    ensures ReplayMulti(d, ops, timestamp, sid).None?
    decreases |ops|
  {
    if i < |ops| {
      assert ops[..|ops| - 1][..i] == ops[..i];
      ReplayMultiStops(d, ops[..|ops| - 1], timestamp, sid, i);
    } else {
      assert ops[..i] == ops;
    }
  }

  /** Session ids start at 1. */
  predicate GenuineOp(op: WalOp) {
    match op
    case WCreate(_, _, _, _, sid) => sid != 0
    case WCloseSession(sid) => sid != 0
    case WMulti(_, _, sid) => sid != 0
    case _ => true
  }

  ghost predicate GenuineLog(log: seq<Entry>) { forall i :: 0 <= i < |log| ==> GenuineOp(log[i].op) }

  /** The log is numbered 1, 2, ..., last_zxid. */
  ghost predicate Gapless(log: seq<Entry>, lastZxid: int) {
    |log| == lastZxid && (log != [] ==> log[|log| - 1].index == lastZxid && Gapless(log[..|log| - 1], lastZxid - 1))
  }

  lemma GaplessSnoc(log: seq<Entry>, lastZxid: int, op: WalOp)
    requires Gapless(log, lastZxid)
    ensures Gapless(log + [Entry(lastZxid + 1, op)], lastZxid + 1)
  {
    assert (log + [Entry(lastZxid + 1, op)])[..|log|] == log;
  }

  lemma {:induction false} ReplayConcat(d: Image, a: seq<Entry>, b: seq<Entry>)
    ensures ReplayLog(d, a + b) == match ReplayLog(d, a) case None => None case Some(m) => ReplayLog(m, b)
  {
    hide ReplayEntry;
    ConcatSnoc(a, b);
    if b != [] { ReplayConcat(d, a, b[..|b| - 1]); }
  }

  // --------------------------------------------------- one step, replayed

  /** The record a step appends, with its index. */
  function Entries(o: Outcome): seq<Entry> {
    if o.logged.Some? then [Entry(o.image.lastZxid, o.logged.value)] else []
  }

  ghost function Logged(d: Image, step: Step): seq<Entry> { Entries(Live(d, step)) }

  /** A create that passes the handler's checks is one storage will not refuse after it was logged. */
  predicate CreateGuard(d: Image, path: string, flags: int) {
    path in d.nodes || !IsNodePath(path) || Parent(path) !in d.nodes
    || (var parent := d.nodes[Parent(path)].stat;
        parent.ephemeralOwner == 0
        && (Sequential(flags) ==> path + SeqSuffix(parent.cversion) !in d.nodes))
  }

  /** A delete that passes the handler's checks names neither the root nor an ephemeral node. */
  predicate RemoveGuard(d: Image, path: string, version: int) {
    path !in d.nodes || (version != -1 && d.nodes[path].stat.version != version) || d.nodes[path].children != {}
    || (path != ROOT && d.nodes[path].stat.ephemeralOwner == 0)
  }

  /** What can be checked before a step to know that replay will follow it. */
  predicate Guard(d: Image, step: Step) {
    match step
    case CreateSession(_) => true
    case Expire(_, _) => true
    case Ask(sid, _, request, _) =>
      match request
      case Create(path, _, flags) => CreateGuard(d, path, flags)
      case SetData(_, _, _) => true
      case Remove(path, version) => RemoveGuard(d, path, version)
      case Multi(_) => true
      case Close => sid !in d.timeouts && sid !in d.ephemerals
      case Read(_, _) => true
      case Heartbeat => true
  }

  /** A committed transaction's record replays from the same state to the same state: no `expect`
      fails, dropped checks do not matter, and unsuffixed sequential paths regenerate their names. */
  lemma {:induction false} MultiReplays(d: Image, sid: int, now: int, ops: seq<MultiOp<string>>)
    requires MultiFold(Begin(d), sid, now, ops).Running?
    ensures var s := MultiFold(Begin(d), sid, now, ops).staged;
      ReplayMulti(Advance(d), s.records, now, sid) == Some(s.image)
  {
    hide MultiStep, ReplayWrite;
    if ops != [] {
      var n := |ops| - 1;
      MultiReplays(d, sid, now, ops[..n]);
      MultiOpReplays(MultiFold(Begin(d), sid, now, ops[..n]).staged, sid, now, ops[n]);
      var s, t := MultiFold(Begin(d), sid, now, ops[..n]).staged, MultiFold(Begin(d), sid, now, ops).staged;
      if t.records != s.records { assert t.records[..|s.records|] == s.records; }
    }
  }

  lemma MultiOpReplays(s: Staged, sid: int, now: int, op: MultiOp<string>)
    requires MultiStep(s, sid, now, op).Success?
    ensures var t := MultiStep(s, sid, now, op).value;
      (t.records == s.records && t.image == s.image)
      || (|t.records| == |s.records| + 1 && t.records[..|s.records|] == s.records
          && ReplayWrite(s.image, t.records[|s.records|], now, sid) == Some(t.image))
  {
  }

  /** Replaying a step's record from the state before it gives the state after it, exactly when the
      guard holds; and then whatever order a hash set comes in. */
  lemma StepReplaysIff(d: Image, step: Step)
    requires Inv(d) && Genuine(d, step)
    ensures ReplayLog(d, Logged(d, step)) == Some(Live(d, step).image) <==> Guard(d, step)
    ensures Certain(d, Logged(d, step))
  {
    hide ReplayLog, ReplayEntry, LiveCreate, LiveSet, LiveRemove, LiveMulti, LiveExpire, CreateGuard, RemoveGuard;
    hide TreeInv, Exact, Certain, AnyOrder;
    StepCertain(d, step);
    if Live(d, step).logged.Some? { ReplayOne(d, Logged(d, step)[0]); } else { ReplayNothing(d); }
    match step
    case CreateSession(timeoutMs) => SessionReplays(d, timeoutMs);
    case Expire(sid, order) => ExpireReplays(d, sid, order);
    case Ask(sid, now, request, order) =>
      match request
      case Create(path, data, flags) => CreateReplaysIff(d, sid, now, path, data, flags);
      case SetData(path, data, version) => SetReplays(d, now, path, data, version);
      case Remove(path, version) => RemoveReplaysIff(d, path, version);
      case Multi(ops) => LiveMultiReplays(d, sid, now, ops);
      case Close => CloseIdleIff(d, sid, order);
      case Read(_, _) =>
      case Heartbeat =>
  }

  lemma StepCertain(d: Image, step: Step)
    requires Inv(d) && Genuine(d, step)
    ensures Certain(d, Logged(d, step))
  {
    var log := Logged(d, step);
    if log != [] {
      assert log[..|log| - 1] == [];
      if log[0].op.WCloseSession? { OwnedAreLeaves(d, log[0].op.sessionId); }
    }
  }

  lemma ReplayNothing(d: Image)
    ensures ReplayLog(d, []) == Some(d)
  {
  }

  ghost predicate ReplaysTo(d: Image, o: Outcome) {
    if o.logged.None? then o.image == d
    else ReplayEntry(d, Entry(o.image.lastZxid, o.logged.value)) == Some(o.image)
  }

  lemma SessionReplays(d: Image, timeoutMs: int)
    ensures ReplaysTo(d, LiveCreateSession(d, timeoutMs))
  {
  }

  lemma ExpireReplays(d: Image, sid: int, order: seq<string>)
    requires Inv(d) && Listing(order, Owned(d.ephemerals, sid))
    ensures ReplaysTo(d, LiveExpire(d, sid, order))
  {
    var d1 := Advance(d);
    hide TreeInv, IndexExact, Prunable, Leaves, Reap, Tried, Listing;
    OwnedAreLeaves(d1, sid);
    LeavesPrunable(d1.nodes, Owned(d1.ephemerals, sid));
    CloseAnyOrder(d1, sid, order);
  }

  lemma SetReplays(d: Image, now: int, path: string, data: Bytes, version: int)
    ensures ReplaysTo(d, LiveSet(d, now, path, data, version))
  {
  }

  lemma LiveMultiReplays(d: Image, sid: int, now: int, ops: seq<MultiOp<string>>)
    requires Inv(d)
    ensures ReplaysTo(d, LiveMulti(d, sid, now, ops))
  {
    hide MultiFold, MultiStep, ReplayMulti, TreeInv, IndexExact, Fold;
    AbortIndex(Begin(d), sid, now, ops);
    if MultiFold(Begin(d), sid, now, ops).Running? {
      MultiReplays(d, sid, now, ops);
      MultiFoldSound(d, sid, now, ops);
    }
  }

  lemma ReplayOne(d: Image, entry: Entry)
    ensures ReplayLog(d, [entry]) == ReplayEntry(d, entry)
  {
    assert [] + [entry] == [entry];
    ReplaySnoc(d, [], entry);
  }

  /** A create logged and then refused stops the next start. */
  lemma CreateReplaysIff(d: Image, sid: int, now: int, path: string, data: Bytes, flags: int)
    ensures var o := LiveCreate(d, sid, now, path, data, flags);
      o.logged.Some? ==>
        var r := ReplayEntry(d, Entry(o.image.lastZxid, o.logged.value));
        if CreateGuard(d, path, flags) then r == Some(o.image) else r == None
    ensures LiveCreate(d, sid, now, path, data, flags).logged.None? ==>
      CreateGuard(d, path, flags) && LiveCreate(d, sid, now, path, data, flags).image == d
  {
  }

  /** Deleting the root stops the next start; deleting an ephemeral node leaves a stale index entry. */
  lemma RemoveReplaysIff(d: Image, path: string, version: int)
    requires Inv(d)
    ensures var o := LiveRemove(d, path, version);
      o.logged.Some? ==>
        var r := ReplayEntry(d, Entry(o.image.lastZxid, o.logged.value));
        && (r == Some(o.image) <==> RemoveGuard(d, path, version))
        && (path == ROOT <==> r == None)
        && (path != ROOT ==> r.value.(ephemerals := o.image.ephemerals) == o.image)
    ensures LiveRemove(d, path, version).logged.None? ==>
      RemoveGuard(d, path, version) && LiveRemove(d, path, version).image == d
  {
    DeleteNeverPanics(d.nodes, d.lastZxid + 1, path);
    if path in d.nodes && d.nodes[path].stat.ephemeralOwner != 0 {
      StaleAfterRemove(d, path);
    }
  }

  lemma StaleAfterRemove(d: Image, path: string)
    requires Inv(d) && path in d.nodes && d.nodes[path].stat.ephemeralOwner != 0
    ensures RemoveEphemeral(d.ephemerals, d.nodes[path].stat.ephemeralOwner, path) != d.ephemerals
    ensures path in Owned(d.ephemerals, d.nodes[path].stat.ephemeralOwner)
  {
    var owner := Owners(d.nodes)[path];
    assert owner in d.ephemerals && path in d.ephemerals[owner];
  }

  lemma CloseIdleIff(d: Image, sid: int, order: seq<string>)
    requires Listing(order, Owned(d.ephemerals, sid))
    ensures CloseImage(d, sid, order) == d <==> sid !in d.timeouts && sid !in d.ephemerals
  {
    if order != [] { assert order[0] in ToSet(order); }
  }

  lemma EphemeralRemoved(d: Image, path: string)
    requires Inv(d) && path in d.nodes && d.nodes[path].stat.ephemeralOwner != 0
    ensures var o := LiveRemove(d, path, -1);
      && o.logged == Some(WDelete(path)) && path !in o.image.nodes
      && (var r := ReplayEntry(d, Entry(o.image.lastZxid, WDelete(path)));
          r.Some? && r.value.ephemerals == d.ephemerals && path !in r.value.nodes)
  {
    EphemeralsAreLeaves(d.nodes, path);
    DeleteNeverPanics(d.nodes, d.lastZxid + 1, path);
    ApplyAt(d.nodes, Deleted(path, d.lastZxid + 1), path);
  }

  lemma StaleClose(d: Image, index: int, owner: int, path: string)
    requires path in Owned(d.ephemerals, owner) && path !in d.nodes
    ensures ReplayEntry(d, Entry(index, WCloseSession(owner))) == None
  {
  }

  /** After an ephemeral node was deleted by request, expiry of its owner is fatal for the log: the
      live server carries on, and a start from this log fails in whatever order it deletes. */
  lemma StaleIndexStopsRecovery(d: Image, path: string, order: seq<string>)
    requires Inv(d) && path in d.nodes && d.nodes[path].stat.ephemeralOwner != 0
    requires Listing(order, Owned(LiveRemove(d, path, -1).image.ephemerals, d.nodes[path].stat.ephemeralOwner))
    ensures var owner := d.nodes[path].stat.ephemeralOwner;
      var removed := LiveRemove(d, path, -1);
      var expired := LiveExpire(removed.image, owner, order);
      && path !in removed.image.nodes && removed.logged == Some(WDelete(path))
      && Inv(expired.image) && expired.logged == Some(WCloseSession(owner))
      && ReplayLog(d, [Entry(removed.image.lastZxid, WDelete(path)),
                       Entry(expired.image.lastZxid, WCloseSession(owner))]) == None
  {
    hide ReplayLog, ReplayEntry, TreeInv, IndexExact, Owned, LiveRemove, Tried, Listing;
    var owner := d.nodes[path].stat.ephemeralOwner;
    var removed := LiveRemove(d, path, -1);
    RemoveSound(d, path, -1);
    EphemeralRemoved(d, path);
    StaleAfterRemove(d, path);
    CloseSound(Advance(removed.image), owner, order);
    var first := Entry(removed.image.lastZxid, WDelete(path));
    var second := Entry(removed.image.lastZxid + 1, WCloseSession(owner));
    ReplayOne(d, first);
    ReplaySnoc(d, [first], second);
    StaleClose(ReplayEntry(d, first).value, second.index, owner, path);
    assert [first, second] == [first] + [second];
  }
}
