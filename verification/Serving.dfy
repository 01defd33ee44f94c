/** A server at work: whole runs of the in-place server, from an empty directory on. */
module Serving {
  import opened Base
  import opened Names
  import opened Store
  import opened Sessions
  import opened Reaping
  import opened Watches
  import opened Requests
  import opened LivePath
  import opened Recovery
  import opened Runs
  import opened Reachable
  import opened Storage
  import opened Record
  import opened Wal
  import opened Server
  import opened Durability

  /** What reaches the server: a handshake, an expired session, or a message of a session, with the
      readings of the clock. */
  datatype Call =
    | Handshake(timeoutMs: int, clock: int)
    | Expiry(sessionId: int)
    | Message(sessionId: int, touched: int, clock: int, request: Request)

  predicate GenuineCall(call: Call) { call.Handshake? || call.sessionId != 0 }

  /** The action is this call; how hash sets were ordered is the action's own. */
  ghost predicate Performs(a: Action, call: Call) {
    match call
    case Handshake(timeoutMs, _) => a == Do(CreateSession(timeoutMs))
    case Expiry(sid) => a.Do? && a.step.Expire? && a.step.sessionId == sid
    case Message(sid, _, now, request) =>
      a.Do? && a.step.Ask? && a.step.sessionId == sid && a.step.now == now && a.step.request == request
  }

  ghost predicate PerformAll(acts: seq<Action>, calls: seq<Call>) {
    |acts| == |calls| && forall i :: 0 <= i < |calls| ==> Performs(acts[i], calls[i])
  }

  lemma PerformOneMore(acts: seq<Action>, a: Action, calls: seq<Call>, n: nat)
    requires n < |calls| && PerformAll(acts, calls[..n]) && Performs(a, calls[n])
    ensures PerformAll(acts + [a], calls[..n + 1])
  {
  }

  /** The sessions heard of in these calls. */
  function Heard(calls: seq<Call>): set<int> {
    set i | 0 <= i < |calls| && !calls[i].Handshake? :: calls[i].sessionId
  }

  /** The server is where this run leads: state, log and watch tables. */
  ghost predicate At(server: KeeperServer, acts: seq<Action>)
    reads server, server.storage, server.storage.sessionState, server.storage.watchState
  {
    && Legal(acts) && server.View() == Run(acts).image && server.log == Run(acts).log
    && server.Watching() == Outstanding(WatchCalls(acts))
  }

  /** Registered sessions without a deadline. They never expire. */
  ghost function Untimed(server: KeeperServer): set<int>
    reads server, server.storage, server.storage.sessionState, server.storage.sessionState.expiryQueue
  {
    server.View().timeouts.Keys - server.Deadlines().Keys
  }

  // ------------------------------------------------------------- deadlines

  /** The table of sessions after a call. */
  function TimeoutsAfter(d: Image, call: Call): map<int, int> {
    match call
    case Handshake(timeoutMs, _) => d.timeouts[d.nextSessionId := timeoutMs]
    case Expiry(sid) => d.timeouts - {sid}
    case Message(sid, _, _, request) => if request.Close? then d.timeouts - {sid} else d.timeouts
  }

  function DeadlinesAfter(d: Image, deadlines: map<int, int>, call: Call): map<int, int> {
    match call
    case Handshake(timeoutMs, clock) => deadlines[d.nextSessionId := Bucket(clock + timeoutMs, INTERVAL_MS)]
    case Expiry(sid) => deadlines - {sid}
    case Message(sid, touched, _, request) =>
      var kept := Refreshed(d, deadlines, sid, touched);
      if request.Close? then kept - {sid} else kept
  }

  /** When a session was last heard of in these calls: its handshake, or a message of its own. */
  ghost function LastHeard(before: seq<Action>, acts: seq<Action>, calls: seq<Call>, id: int): Option<int>
    requires |acts| == |calls|
  {
    if calls == [] then None
    else
      var n := |calls| - 1;
      match calls[n]
      case Handshake(_, clock) =>
        if Run(before + acts[..n]).image.nextSessionId == id then Some(clock)
        else LastHeard(before, acts[..n], calls[..n], id)
      case Message(sid, touched, _, _) =>
        if sid == id then Some(touched) else LastHeard(before, acts[..n], calls[..n], id)
      case Expiry(_) => LastHeard(before, acts[..n], calls[..n], id)
  }

  /** Each registered session is due one timeout after it was last heard of, rounded up to the interval;
      one not heard of in these calls is due when it was before them, if ever. */
  ghost predicate Timely(timeouts: map<int, int>, deadlines: map<int, int>, before: seq<Action>, acts: seq<Action>,
                         calls: seq<Call>, deadlines0: map<int, int>)
    requires |acts| == |calls|
  {
    forall id :: id in timeouts ==>
      match LastHeard(before, acts, calls, id)
      case Some(t) => id in deadlines && deadlines[id] == Bucket(t + timeouts[id], INTERVAL_MS)
      case None => (id in deadlines <==> id in deadlines0) && (id in deadlines ==> deadlines[id] == deadlines0[id])
  }

  lemma TimelyNone(timeouts: map<int, int>, before: seq<Action>, deadlines: map<int, int>)
    ensures Timely(timeouts, deadlines, before, [], [], deadlines)
  {
  }

  lemma TimelyMore(deadlines: map<int, int>, before: seq<Action>, acts: seq<Action>, a: Action,
                   calls: seq<Call>, call: Call, deadlines0: map<int, int>)
    requires |acts| == |calls|
    requires Timely(Run(before + acts).image.timeouts, deadlines, before, acts, calls, deadlines0)
    ensures var d := Run(before + acts).image;
      Timely(TimeoutsAfter(d, call), DeadlinesAfter(d, deadlines, call), before, acts + [a], calls + [call], deadlines0)
  {
    hide Run, Bucket;
    assert (acts + [a])[..|acts|] == acts && (calls + [call])[..|calls|] == calls;
    var d := Run(before + acts).image;
    forall id | id in TimeoutsAfter(d, call) ensures id in d.timeouts || (call.Handshake? && id == d.nextSessionId) { }
  }

  // -------------------------------------------------------- session tables

  lemma {:induction false} FoldKeepsTimeouts(s: Staged, sid: int, now: int, ops: seq<MultiOp<string>>)
    ensures MultiFold(s, sid, now, ops).Running? ==>
              MultiFold(s, sid, now, ops).staged.image.timeouts == s.image.timeouts
  {
    hide MultiStep;
    if ops != [] {
      var n := |ops| - 1;
      FoldKeepsTimeouts(s, sid, now, ops[..n]);
      var m := MultiFold(s, sid, now, ops[..n]);
      if m.Running? { OpKeepsTimeouts(m.staged, sid, now, ops[n]); }
    }
  }

  lemma OpKeepsTimeouts(s: Staged, sid: int, now: int, op: MultiOp<string>)
    ensures MultiStep(s, sid, now, op).Success? ==>
              MultiStep(s, sid, now, op).value.image.timeouts == s.image.timeouts
  {
  }

  /** Requests other than Close leave the table of sessions alone. */
  lemma MessageKeepsTimeouts(d: Image, sid: int, now: int, request: Request, order: seq<string>)
    ensures Live(d, Ask(sid, now, request, order)).image.timeouts
            == if request.Close? then d.timeouts - {sid} else d.timeouts
  {
    hide MultiFold, CreateEvent, Store.Perform, Tried;
    if request.Multi? {
      AbortIndex(Begin(d), sid, now, request.ops);
      FoldKeepsTimeouts(Begin(d), sid, now, request.ops);
    }
    PerformKeepsTimeouts();
  }

  lemma PerformKeepsTimeouts()
    ensures forall d: Image, e {:trigger Perform(d, e)} ::
      Tree.Applicable(d.nodes, e) ==> Perform(d, e).timeouts == d.timeouts
  {
  }

  // --------------------------------------------------------------- one call

  /** One call leads from the run so far to the run with one more action. */
  method Answer(server: KeeperServer, call: Call, ghost acts: seq<Action>)
    returns (events: seq<WatchEvent>, ghost a: Action)
    requires server.Valid() && At(server, acts) && GenuineCall(call)
    modifies server.Repr()
    ensures server.Valid() && fresh(server.Repr() - old(server.Repr()))
    ensures Performs(a, call) && At(server, acts + [a])
    ensures DeliveredBy({}, WatchCalls(acts + [a])) == DeliveredBy({}, WatchCalls(acts)) + multiset(events)
    ensures Untimed(server) == old(Untimed(server)) - Heard([call])
    ensures server.Deadlines() == DeadlinesAfter(Run(acts).image, old(server.Deadlines()), call)
    ensures Run(acts + [a]).image.timeouts == TimeoutsAfter(Run(acts).image, call)
  {
    hide KeeperServer.Valid, At, DeliveredBy, WatchCalls, Untimed, Run;
    HeardOne(call);
    events := [];
    match call
    case Handshake(timeoutMs, clock) => a := AnswerHandshake(server, timeoutMs, clock, acts);
    case Expiry(sid) => a := AnswerExpiry(server, sid, acts);
    case Message(sid, touched, clock, request) =>
      events, a := AnswerMessage(server, sid, touched, clock, request, acts);
  }

  lemma HeardOne(call: Call)
    ensures Heard([call]) == if call.Handshake? then {} else {call.sessionId}
  {
    if !call.Handshake? { assert [call][0] == call && call.sessionId in Heard([call]); }
  }

  method AnswerHandshake(server: KeeperServer, timeoutMs: int, clock: int, ghost acts: seq<Action>)
    returns (ghost a: Action)
    requires server.Valid() && At(server, acts)
    modifies server.Repr()
    ensures server.Valid() && fresh(server.Repr() - old(server.Repr()))
    ensures a == Do(CreateSession(timeoutMs)) && At(server, acts + [a])
    ensures DeliveredBy({}, WatchCalls(acts + [a])) == DeliveredBy({}, WatchCalls(acts))
    ensures Untimed(server) == old(Untimed(server))
    ensures server.Deadlines() == DeadlinesAfter(Run(acts).image, old(server.Deadlines()), Handshake(timeoutMs, clock))
    ensures Run(acts + [a]).image.timeouts == TimeoutsAfter(Run(acts).image, Handshake(timeoutMs, clock))
  {
    hide KeeperServer.Valid, Bucket, Legal, Run, DeliveredBy, WatchCalls, AfterAll, Outstanding;
    a := Do(CreateSession(timeoutMs));
    Joined(acts, a.step);
    NothingWatched(Outstanding(WatchCalls(acts)));
    var id := server.CreateSession(timeoutMs, clock);
  }

  method AnswerExpiry(server: KeeperServer, sid: int, ghost acts: seq<Action>) returns (ghost a: Action)
    requires server.Valid() && At(server, acts) && sid != 0
    modifies server.Repr()
    ensures server.Valid() && fresh(server.Repr() - old(server.Repr()))
    ensures a.Do? && a.step.Expire? && a.step.sessionId == sid && At(server, acts + [a])
    ensures DeliveredBy({}, WatchCalls(acts + [a])) == DeliveredBy({}, WatchCalls(acts))
    ensures Untimed(server) == old(Untimed(server)) - {sid}
    ensures server.Deadlines() == DeadlinesAfter(Run(acts).image, old(server.Deadlines()), Expiry(sid))
    ensures Run(acts + [a]).image.timeouts == TimeoutsAfter(Run(acts).image, Expiry(sid))
  {
    hide KeeperServer.Valid, Legal, Run, DeliveredBy, WatchCalls, AfterAll, Outstanding, Listing, Tried, TriedEvents;
    ghost var order := server.CloseSession(sid);
    a := Do(Expire(sid, order));
    Joined(acts, a.step);
    NothingWatched(Outstanding(WatchCalls(acts)));
  }

  method AnswerMessage(server: KeeperServer, sid: int, touched: int, clock: int, request: Request,
                       ghost acts: seq<Action>)
    returns (events: seq<WatchEvent>, ghost a: Action)
    requires server.Valid() && At(server, acts) && sid != 0
    modifies server.Repr()
    ensures server.Valid() && fresh(server.Repr() - old(server.Repr()))
    ensures a.Do? && a.step.Ask? && a.step.sessionId == sid && a.step.now == clock && a.step.request == request
    ensures At(server, acts + [a])
    ensures DeliveredBy({}, WatchCalls(acts + [a])) == DeliveredBy({}, WatchCalls(acts)) + multiset(events)
    ensures Untimed(server) == old(Untimed(server)) - {sid}
    ensures var call := Message(sid, touched, clock, request);
      server.Deadlines() == DeadlinesAfter(Run(acts).image, old(server.Deadlines()), call)
      && Run(acts + [a]).image.timeouts == TimeoutsAfter(Run(acts).image, call)
  {
    hide KeeperServer.Valid, Bucket, Legal, Run, Live, Genuine, DeliveredBy, WatchCalls, AfterAll, Outstanding;
    var reply;
    ghost var order;
    reply, events, order := server.Apply(sid, touched, clock, request);
    a := Do(Ask(sid, clock, request, order));
    MessageKeepsTimeouts(Run(acts).image, sid, clock, request, order);
    Joined(acts, a.step);
  }

  /** The run, its log, its watch calls and its deliveries, extended by one step. */
  lemma Joined(acts: seq<Action>, step: Step)
    ensures var d, more := Run(acts).image, acts + [Do(step)];
      var o := Live(d, step);
      && Run(more) == RunState(o.image, Run(acts).log + Entries(o))
      && (Legal(more) <==> Legal(acts) && Genuine(d, step))
      && WatchCalls(more) == WatchCalls(acts) + o.watchOps
      && Outstanding(WatchCalls(more)) == AfterAll(Outstanding(WatchCalls(acts)), o.watchOps)
      && DeliveredBy({}, WatchCalls(more))
         == DeliveredBy({}, WatchCalls(acts)) + DeliveredBy(Outstanding(WatchCalls(acts)), o.watchOps)
  {
    hide Live, Genuine;
    RunSnoc(acts, Do(step));
    WatchConcat({}, WatchCalls(acts), Live(Run(acts).image, step).watchOps);
  }

  // ---------------------------------------------------------------- a run

  /** The server has performed these calls on top of the run `before`: it is where the run goes, in
      state, log and watch tables, and has delivered exactly the run's notices. Every session is due one
      timeout after it was last heard of; those without a deadline are those there were before, unless
      heard of since. */
  ghost predicate Served(server: KeeperServer, before: seq<Action>, acts: seq<Action>, calls: seq<Call>,
                         events: seq<WatchEvent>, untimed: set<int>, deadlines: map<int, int>)
    reads server, server.storage, server.storage.sessionState, server.storage.watchState,
          server.storage.sessionState.expiryQueue
  {
    && At(server, before + acts) && PerformAll(acts, calls)
    && DeliveredBy({}, WatchCalls(before + acts)) == DeliveredBy({}, WatchCalls(before)) + multiset(events)
    && Untimed(server) == untimed - Heard(calls)
    && Timely(server.View().timeouts, server.Deadlines(), before, acts, calls, deadlines)
  }

  /** The server at work on any calls. */
  method Serve(server: KeeperServer, calls: seq<Call>, ghost before: seq<Action>)
    returns (events: seq<WatchEvent>, ghost acts: seq<Action>)
    requires server.Valid() && At(server, before) && forall i :: 0 <= i < |calls| ==> GenuineCall(calls[i])
    modifies server.Repr()
    ensures server.Valid() && fresh(server.Repr() - old(server.Repr()))
    ensures Served(server, before, acts, calls, events, old(Untimed(server)), old(server.Deadlines()))
  {
    hide KeeperServer.Valid, At, Untimed, Served, GenuineCall;
    events, acts := [], [];
    ServedNone(server, before, calls);
    for n := 0 to |calls|
      invariant server.Valid() && fresh(server.Repr() - old(server.Repr()))
      invariant Served(server, before, acts, calls[..n], events, old(Untimed(server)), old(server.Deadlines()))
    {
      events, acts := ServeNext(server, calls, n, before, acts, events, old(Untimed(server)), old(server.Deadlines()));
    }
    assert calls[..|calls|] == calls;
  }

  method ServeNext(server: KeeperServer, calls: seq<Call>, n: nat, ghost before: seq<Action>, ghost acts: seq<Action>,
                   events: seq<WatchEvent>, ghost untimed: set<int>, ghost deadlines: map<int, int>)
    returns (all: seq<WatchEvent>, ghost more: seq<Action>)
    requires server.Valid() && n < |calls| && GenuineCall(calls[n])
    requires Served(server, before, acts, calls[..n], events, untimed, deadlines)
    modifies server.Repr()
    ensures server.Valid() && fresh(server.Repr() - old(server.Repr()))
    ensures Served(server, before, more, calls[..n + 1], all, untimed, deadlines)
  {
    hide KeeperServer.Valid, Untimed, GenuineCall, Performs, Heard, DeliveredBy, WatchCalls, Timely;
    hide Legal, Run, DeadlinesAfter, TimeoutsAfter;
    var sent;
    ghost var a;
    TimelyBefore(server.Deadlines(), before, acts, calls, n, deadlines);
    sent, a := Answer(server, calls[n], before + acts);
    OneMoreServed(before, acts, a, calls, n, events, sent, untimed);
    all, more := events + sent, acts + [a];
  }

  lemma ServedNone(server: KeeperServer, before: seq<Action>, calls: seq<Call>)
    requires At(server, before)
    ensures Served(server, before, [], calls[..0], [], Untimed(server), server.Deadlines())
  {
    hide At, WatchCalls, DeliveredBy;
    assert before + [] == before && calls[..0] == [];
    HeardNone(calls);
    TimelyNone(server.View().timeouts, before, server.Deadlines());
  }

  lemma TimelyBefore(now: map<int, int>, before: seq<Action>, acts: seq<Action>, calls: seq<Call>, n: nat,
                     deadlines: map<int, int>)
    requires n < |calls| && |acts| == n
    requires Timely(Run(before + acts).image.timeouts, now, before, acts, calls[..n], deadlines)
    ensures var d := Run(before + acts).image;
      forall a: Action :: Timely(TimeoutsAfter(d, calls[n]), DeadlinesAfter(d, now, calls[n]),
                                 before, acts + [a], calls[..n + 1], deadlines)
  {
    hide Run, Timely, TimeoutsAfter, DeadlinesAfter;
    TakeOneMore(calls, n);
    forall a: Action
      ensures var d := Run(before + acts).image;
        Timely(TimeoutsAfter(d, calls[n]), DeadlinesAfter(d, now, calls[n]),
               before, acts + [a], calls[..n + 1], deadlines)
    {
      TimelyMore(now, before, acts, a, calls[..n], calls[n], deadlines);
    }
  }

  lemma HeardNone(calls: seq<Call>)
    ensures Heard(calls[..0]) == {} && PerformAll([], calls[..0])
  {
  }

  lemma OneMoreServed(before: seq<Action>, acts: seq<Action>, a: Action, calls: seq<Call>, n: nat,
                      events: seq<WatchEvent>, sent: seq<WatchEvent>, untimed: set<int>)
    requires n < |calls| && PerformAll(acts, calls[..n]) && Performs(a, calls[n])
    ensures before + acts + [a] == before + (acts + [a]) && PerformAll(acts + [a], calls[..n + 1])
    ensures multiset(events + sent) == multiset(events) + multiset(sent)
    ensures untimed - Heard(calls[..n]) - Heard([calls[n]]) == untimed - Heard(calls[..n + 1])
  {
    hide Performs, PerformAll, Heard;
    HeardOneMore(calls, n);
    PerformOneMore(acts, a, calls, n);
  }

  lemma HeardOneMore(calls: seq<Call>, n: nat)
    requires n < |calls|
    ensures Heard(calls[..n + 1]) == Heard(calls[..n]) + Heard([calls[n]])
  {
    TakeOneMore(calls, n);
    forall id | id in Heard([calls[n]]) ensures id in Heard(calls[..n + 1]) {
      assert calls[..n + 1][n] == [calls[n]][0];
    }
    forall id | id in Heard(calls[..n]) ensures id in Heard(calls[..n + 1]) {
      var i :| 0 <= i < n && !calls[..n][i].Handshake? && calls[..n][i].sessionId == id;
      assert calls[..n + 1][i] == calls[..n][i];
    }
    forall id | id in Heard(calls[..n + 1]) ensures id in Heard(calls[..n]) + Heard([calls[n]]) {
      var i :| 0 <= i < n + 1 && !calls[..n + 1][i].Handshake? && calls[..n + 1][i].sessionId == id;
      if i < n { assert calls[..n][i] == calls[..n + 1][i]; } else { assert [calls[n]][0] == calls[..n + 1][i]; }
    }
  }

  /** The first start, in an empty directory. */
  method StartFresh(disk: Disk, ck: Checksum, codec: Codec) returns (server: KeeperServer)
    requires NoStrangers(disk.files, {})
    modifies disk
    ensures server.Valid() && At(server, []) && Untimed(server) == {} && server.Deadlines() == map[]
    ensures fresh(server) && fresh(server.wal) && fresh(server.wal.writer) && fresh(server.storage.Repr())
    ensures server.wal.disk == disk && server.slim
  {
    hide KeeperServer.Valid, KeeperStorage.Valid, NoStrangers, LeftBehind, Decode, Certain, Gapless, GenuineLog;
    hide ReplayLog;
    NothingYet(ck, codec);
    var r := Start(disk, ck, codec, [], [], 1, [], []);
    server := r.value.value;
  }

  lemma NothingYet(ck: Checksum, codec: Codec)
    ensures Decode(ck, []) == Incomplete && Gapless([], 0) && GenuineLog([]) && Decodable(codec, [])
    ensures Records(codec, []) == Flatten([]) + [] && AllFit(Flatten([]) + [])
    ensures ReplayLog(EMPTY_IMAGE, []) == Some(EMPTY_IMAGE) && Certain(EMPTY_IMAGE, [])
    ensures Legal([]) && Run([]) == RunState(EMPTY_IMAGE, []) && Outstanding(WatchCalls([])) == {}
    ensures DeliveredBy({}, WatchCalls([])) == multiset{}
  {
  }

  /** A server started in an empty directory and given any calls: without a restart every registered
      session has a deadline. */
  method ServeFresh(disk: Disk, ck: Checksum, codec: Codec, calls: seq<Call>)
    returns (server: KeeperServer, events: seq<WatchEvent>, ghost acts: seq<Action>)
    requires NoStrangers(disk.files, {}) && forall i :: 0 <= i < |calls| ==> GenuineCall(calls[i])
    modifies disk
    ensures server.Valid() && At(server, acts) && PerformAll(acts, calls)
    ensures multiset(events) == DeliveredBy({}, WatchCalls(acts))
    ensures server.View().timeouts.Keys <= server.Deadlines().Keys
    ensures Timely(server.View().timeouts, server.Deadlines(), [], acts, calls, map[])
    ensures server.wal.maxSegmentBytes == MAX_SEGMENT_BYTES && server.wal.Compact()
  {
    hide At, Heard, GenuineCall, DeliveredBy, WatchCalls, NoStrangers, Timely, Performs;
    hide KeeperStorage.Valid, WalStore.Valid, WalStore.Compact, Gapless, Records;
    NothingYet(ck, codec);
    server := StartFresh(disk, ck, codec);
    events, acts := Serve(server, calls, []);
    assert [] + acts == acts;
    NoneUntimed(server.View().timeouts.Keys, server.Deadlines().Keys);
  }

  /** The background task asks which sessions have expired. Of the sessions heard of in these calls, none
      is listed before its timeout has passed since, and each is listed at most one interval later. */
  method ListExpired(server: KeeperServer, now: int, ghost before: seq<Action>, ghost acts: seq<Action>,
                     ghost calls: seq<Call>, ghost events: seq<WatchEvent>, ghost untimed: set<int>,
                     ghost deadlines: map<int, int>)
    returns (ids: seq<int>)
    requires server.Valid() && Served(server, before, acts, calls, events, untimed, deadlines)
    ensures Distinct(ids) && forall id :: id in ids ==> id in server.View().timeouts
    ensures forall id :: id in server.View().timeouts ==>
      InTime(LastHeard(before, acts, calls, id), server.View().timeouts[id], now, id in ids)
  {
    hide KeeperServer.Valid, At, Performs, DeliveredBy, WatchCalls, Heard, Bucket;
    ids := server.GetExpiredSessions(now);
    forall id | id in server.View().timeouts
      ensures InTime(LastHeard(before, acts, calls, id), server.View().timeouts[id], now, id in ids)
    {
      var t := LastHeard(before, acts, calls, id);
      if t.Some? { BucketWindow(t.value + server.View().timeouts[id], INTERVAL_MS); }
    }
  }

  predicate InTime(heard: Option<int>, timeout: int, now: int, listed: bool) {
    heard.Some? && 0 <= heard.value + timeout ==>
      && (now < heard.value + timeout ==> !listed)
      && (heard.value + timeout + INTERVAL_MS - 1 <= now ==> listed)
  }

  lemma NoneUntimed(registered: set<int>, timed: set<int>)
    ensures registered - timed == {} ==> registered <= timed
  {
    forall id | id in registered ensures registered - timed == {} ==> id in timed {
      assert id !in timed ==> id in registered - timed;
    }
  }

  /** A restart on the same disk: the server that comes up is where the run with a restart leads. It
      knows its sessions but has no deadline for any, and its watches are gone. */
  method Reopen(server: KeeperServer, ghost acts: seq<Action>) returns (r: Option<KeeperServer>)
    requires server.Valid() && At(server, acts) && server.wal.top < 0x1_0000_0000_0000_0000
    requires Decodable(server.codec, server.log) && AllFit(Records(server.codec, server.log))
    modifies server.wal.disk
    ensures r.Some? ==> r.value.Valid() && At(r.value, acts + [Restart])
    ensures r.Some? ==> Untimed(r.value) == r.value.View().timeouts.Keys && r.value.Watching() == {}
    ensures r.None? ==> !Guarded(acts)
  {
    hide KeeperServer.Valid, KeeperStorage.Valid, WalStore.Valid, Run, Legal, Guarded, Certain, ReplayLog;
    hide LeftBehind, NoStrangers, Records, AllFit, Decode, EncodeAll, Gapless, GenuineLog, Decodable, Flatten;
    hide WatchCalls, Outstanding;
    Stopped(server);
    Restartable(acts);
    NothingIsIncomplete(server.wal.ck);
    var started := Start(server.wal.disk, server.wal.ck, server.codec, server.log,
                         server.wal.closed, server.wal.top, server.wal.synced, []);
    r := started.value;
  }

  /** A crash in the middle of a step, and the next start: the server that comes up is where the run with
      or without that step leads, restarted, and can go on from there unless part of the record, but not
      all of it, was kept. */
  method CrashAndReopen(server: KeeperServer, ghost acts: seq<Action>, ghost step: Step, ghost kept: Bytes, disk: Disk)
    returns (r: Option<KeeperServer>)
    requires Legal(acts + [Do(step)]) && server.Valid() && At(server, acts)
    requires server.wal.top < 0x1_0000_0000_0000_0000
    requires Decodable(server.codec, Run(acts + [Do(step)]).log)
    requires AllFit(Records(server.codec, Run(acts + [Do(step)]).log))
    requires kept <= EncodeAll(server.wal.ck, Pending(server.codec, acts, step))
    requires disk.files == server.wal.disk.files[SegmentName(server.wal.top) :=
                                                   server.wal.disk.files[SegmentName(server.wal.top)] + kept]
    modifies disk
    ensures var record := EncodeAll(server.wal.ck, Pending(server.codec, acts, step));
      r.Some? ==> && At(r.value, SurvivingRun(acts, step, kept == record) + [Restart])
                  && Untimed(r.value) == r.value.View().timeouts.Keys
                  && (kept == [] || kept == record ==> r.value.Valid())
    ensures r.None? ==> !Guarded(acts + [Do(step)])
  {
    hide KeeperServer.Valid, Run, Legal, Guarded, ReplayLog, Decodable, Pending, Records, AllFit, EncodeAll;
    hide SurvivingRun, WatchCalls, Outstanding, Certain, Gapless, GenuineLog;
    ghost var survivor := SurvivingRun(acts, step, kept == EncodeAll(server.wal.ck, Pending(server.codec, acts, step)));
    SurvivorIsLegal(acts, step, kept == EncodeAll(server.wal.ck, Pending(server.codec, acts, step)));
    Restartable(survivor);
    var started := CrashAndStart(server, acts, step, kept, disk);
    r := started.value;
  }

  lemma SurvivorIsLegal(acts: seq<Action>, step: Step, whole: bool)
    requires Legal(acts + [Do(step)])
    ensures Legal(SurvivingRun(acts, step, whole))
  {
    hide Run, Legal, Genuine;
    RunSnoc(acts, Do(step));
  }

  /** What a restart needs of the run so far, and where it leads. */
  lemma Restartable(acts: seq<Action>)
    requires Legal(acts)
    ensures var log := Run(acts).log;
      && Gapless(log, |log|) && GenuineLog(log)
      && (Guarded(acts) ==> ReplayLog(EMPTY_IMAGE, log).Some? && Certain(EMPTY_IMAGE, log))
      && (ReplayLog(EMPTY_IMAGE, log).Some? ==>
            && Legal(acts + [Restart]) && Run(acts + [Restart]) == RunState(ReplayLog(EMPTY_IMAGE, log).value, log)
            && Outstanding(WatchCalls(acts + [Restart])) == {})
  {
    hide Guarded, Certain, Gapless, GenuineLog, ReplayLog, Legal, Outstanding, WatchCalls;
    StartableLog(acts);
    if Guarded(acts) { ReplayEqualsLive(acts); }
    RunSnoc(acts, Restart);
    ForgetAll(acts);
  }

  lemma Stopped(server: KeeperServer)
    requires server.Valid() && server.wal.top < 0x1_0000_0000_0000_0000
    ensures var wal := server.wal;
      LeftBehind(wal.ck, wal.disk.files, wal.closed, wal.top, wal.synced, [])
      && Records(server.codec, server.log) == Flatten(wal.closed) + wal.synced
  {
    hide LeftBehind, WalStore.Valid, Records, Flatten;
    StoreLeavesBehind(server.wal);
  }

  lemma ForgetAll(acts: seq<Action>)
    ensures Outstanding(WatchCalls(acts + [Restart])) == {}
  {
    hide Live;
    assert (acts + [Restart])[..|acts|] == acts;
    WatchSnoc({}, WatchCalls(acts), Forget);
  }
}
