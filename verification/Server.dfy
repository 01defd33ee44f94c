/** `KeeperServer`: the handlers that validate, log, flush and apply, and the start-up that replays. */
module Server {
  import opened Base
  import opened Names
  import opened Tree
  import opened Store
  import opened Reaping
  import opened Sessions
  import opened Watches
  import opened Storage
  import opened Requests
  import opened LivePath
  import opened Recovery
  import opened Replayed
  import opened Record
  import opened Wal

  /** How records become payload bytes. Only what a theorem needs is assumed, where it is needed. */
  datatype Codec = Codec(serialize: WalOp -> Bytes, deserialize: Bytes -> Option<WalOp>)

  function RecordOf(codec: Codec, e: Entry): Rec {
    Rec(1, if e.index >= 0 then e.index else 0, 0, 0, codec.serialize(e.op))
  }

  ghost function Records(codec: Codec, log: seq<Entry>): (rs: seq<Rec>)
    ensures |rs| == |log|
  {
    if log == [] then [] else Records(codec, log[..|log| - 1]) + [RecordOf(codec, log[|log| - 1])]
  }

  lemma RecordsSnoc(codec: Codec, log: seq<Entry>, e: Entry)
    ensures Records(codec, log + [e]) == Records(codec, log) + [RecordOf(codec, e)]
  {
    assert (log + [e])[..|log|] == log;
  }

  lemma LastRecord(codec: Codec, log: seq<Entry>, lastZxid: int)
    requires Gapless(log, lastZxid)
    ensures LastIndex(Records(codec, log)) == lastZxid
  {
  }

  lemma {:induction false} RecordAt(codec: Codec, log: seq<Entry>, i: nat)
    requires i < |log|
    ensures Records(codec, log)[i] == RecordOf(codec, log[i])
  {
    if i < |log| - 1 { RecordAt(codec, log[..|log| - 1], i); }
  }

  lemma {:induction false} IndexAt(log: seq<Entry>, lastZxid: int, i: nat)
    requires Gapless(log, lastZxid) && i < |log|
    ensures log[i].index == i + 1
  {
    if i < |log| - 1 { IndexAt(log[..|log| - 1], lastZxid - 1, i); }
  }

  lemma ReplayPrefix(log: seq<Entry>, i: nat)
    requires i < |log| && ReplayLog(EMPTY_IMAGE, log).Some?
    ensures ReplayLog(EMPTY_IMAGE, log[..i]).Some?
    ensures ReplayEntry(ReplayLog(EMPTY_IMAGE, log[..i]).value, log[i]) == ReplayLog(EMPTY_IMAGE, log[..i + 1])
    ensures ReplayLog(EMPTY_IMAGE, log[..i + 1]).Some?
  {
    hide ReplayLog, ReplayEntry;
    SplitAt(log, i);
    ReplayConcat(EMPTY_IMAGE, log[..i], log[i..]);
    SplitAt(log, i + 1);
    ReplayConcat(EMPTY_IMAGE, log[..i + 1], log[i + 1..]);
    TakeOneMore(log, i);
    ReplaySnoc(EMPTY_IMAGE, log[..i], log[i]);
  }

  const INTERVAL_MS := 500
  const MAX_SEGMENT_BYTES := 50 * 1024 * 1024

  /** Decoding undoes encoding for the operations of this log. */
  ghost predicate Decodable(codec: Codec, log: seq<Entry>) {
    forall i :: 0 <= i < |log| ==> codec.deserialize(codec.serialize(log[i].op)) == Some(log[i].op)
  }

  lemma {:induction false} CertainAt(log: seq<Entry>, i: nat)
    requires i < |log| && Certain(EMPTY_IMAGE, log)
    ensures ReplayLog(EMPTY_IMAGE, log[..i]).Some? && AnyOrder(ReplayLog(EMPTY_IMAGE, log[..i]).value, log[i].op)
    decreases |log|
  {
    hide ReplayLog, AnyOrder;
    if i < |log| - 1 {
      assert log[..|log| - 1][..i] == log[..i];
      CertainAt(log[..|log| - 1], i);
    }
  }

  lemma ReplayOneMore(log: seq<Entry>, i: nat)
    requires i < |log| && ReplayLog(EMPTY_IMAGE, log[..i]).Some?
    ensures ReplayLog(EMPTY_IMAGE, log[..i + 1]) == ReplayEntry(ReplayLog(EMPTY_IMAGE, log[..i]).value, log[i])
  {
    hide ReplayLog, ReplayEntry;
    TakeOneMore(log, i);
    ReplaySnoc(EMPTY_IMAGE, log[..i], log[i]);
  }

  /** The start-up loop: one record after another into an empty storage. It never succeeds on a log the
      interpreter rejects, and always on one that replays in every order. */
  method ReplayRecords(codec: Codec, records: seq<LogRecord>, ghost log: seq<Entry>)
    returns (r: Option<KeeperStorage>)
    requires Gapless(log, |log|) && GenuineLog(log) && Decodable(codec, log)
    requires records == LogicalAll(Records(codec, log))
    ensures r.Some? ==> fresh(r.value) && fresh(r.value.Repr()) && r.value.Valid()
    ensures r.Some? ==> r.value.Watching() == {} && r.value.Deadlines() == map[]
    ensures r.Some? ==> r.value.sessionState.expiryQueue.intervalMs == INTERVAL_MS
    ensures r.Some? ==> ReplayLog(EMPTY_IMAGE, log) == Some(r.value.View())
    ensures ReplayLog(EMPTY_IMAGE, log).Some? && Certain(EMPTY_IMAGE, log) ==> r.Some?
  {
    hide KeeperStorage.Valid, ReplayEntry, AnyOrder, Certain, Gapless, ReplayLog;
    var storage := new KeeperStorage(INTERVAL_MS);
    NoRecords(log);
    for i := 0 to |records|
      invariant fresh(storage) && fresh(storage.Repr()) && storage.Valid()
      invariant storage.Watching() == {} && storage.Deadlines() == map[]
      invariant storage.sessionState.expiryQueue.intervalMs == INTERVAL_MS
      invariant ReplayLog(EMPTY_IMAGE, log[..i]) == Some(storage.View())
    {
      RecordAt(codec, log, i);
      IndexAt(log, |log|, i);
      ReplayOneMore(log, i);
      if Certain(EMPTY_IMAGE, log) { CertainAt(log, i); }
      if ReplayLog(EMPTY_IMAGE, log).Some? { ReplayPrefix(log, i); }
      assert records[i] == LogRecord(log[i].index, 0, codec.serialize(log[i].op));
      var op := codec.deserialize(records[i].payload);
      var ok := storage.ReplayRecord(records[i].index, op.value);
      if !ok { return None; }
    }
    assert log[..|records|] == log;
    r := Some(storage);
  }

  lemma NoRecords(log: seq<Entry>)
    ensures ReplayLog(EMPTY_IMAGE, log[..0]) == Some(EMPTY_IMAGE)
  {
  }

  /** `KeeperServer::new`: opens the log directory, replays what it reads, and serves from there. The
      ghost parameters say what a server has left on disk; `torn` is the beginning of a record that a
      crash cut short. The server that starts is in exactly the state of the whole records, with no
      watches and no session deadlines. None stands for a failed `expect`: certain when the interpreter
      answers None, impossible when the log replays in every order. */
  method Start(disk: Disk, ck: Checksum, codec: Codec, ghost log: seq<Entry>,
               ghost closed: seq<Segment>, ghost top: nat, ghost synced: seq<Rec>, ghost torn: Bytes)
    returns (r: Result<Option<KeeperServer>, WalError>)
    requires LeftBehind(ck, disk.files, closed, top, synced, torn)
             || (NoStrangers(disk.files, {}) && closed == [] && top == 1 && synced == [] && torn == [])
    requires Gapless(log, |log|) && GenuineLog(log) && Decodable(codec, log)
    requires Records(codec, log) == Flatten(closed) + synced
    requires AllFit(Flatten(closed) + synced) && Decode(ck, torn) == Incomplete
    modifies disk
    ensures r.Success? && (r.value.Some? ==>
      && ReplayLog(EMPTY_IMAGE, log) == Some(r.value.value.View()) && r.value.value.log == log
      && r.value.value.Watching() == {} && r.value.value.Deadlines() == map[] && r.value.value.codec == codec
      && r.value.value.wal.disk == disk && fresh(r.value.value) && fresh(r.value.value.storage.Repr())
      && fresh(r.value.value.wal) && fresh(r.value.value.wal.writer)
      && (torn == [] ==> r.value.value.Valid())
      && r.value.value.slim == (|EncodeAll(ck, synced)| < MAX_SEGMENT_BYTES))
    ensures ReplayLog(EMPTY_IMAGE, log).Some? && Certain(EMPTY_IMAGE, log) ==> r.value.Some?
  {
    hide LeftBehind, NoStrangers, ReplayLog, Decodable, Certain, Gapless, GenuineLog, Flatten, AllFit, Decode;
    hide KeeperStorage.Valid, WalStore.Valid;
    var wal, records := WalStore.OpenAndRead(disk, ck, MAX_SEGMENT_BYTES, closed, top, synced, torn);
    var storage := ReplayRecords(codec, records, log);
    if storage.None? { return Success(None); }
    LogFollows(log);
    var server := new KeeperServer(codec, wal, storage.value, log, |EncodeAll(ck, synced)| < MAX_SEGMENT_BYTES);
    assert server.storage.Valid() && Gapless(log, server.storage.lastZxid);
    assert torn == [] ==> server.Durable();
    return Success(Some(server));
  }

  /** The deadlines after a session was heard of: its own is moved, if it is registered. */
  function Refreshed(d: Image, deadlines: map<int, int>, sid: int, touched: int): map<int, int> {
    if sid !in d.timeouts then deadlines else deadlines[sid := Bucket(touched + d.timeouts[sid], INTERVAL_MS)]
  }

  class KeeperServer {
    const codec: Codec
    const wal: WalStore
    var storage: KeeperStorage

    ghost var log: seq<Entry>

    /** The newest log file was below the size limit when the server started. */
    ghost const slim: bool

    ghost function Repr(): set<object>
      reads this, wal
    {
      {this, wal, wal.writer, wal.disk} + storage.Repr()
    }

    /** The log on disk is exactly the log of this server, in files cut at the size limit. */
    ghost predicate Durable()
      reads this`log, wal, wal.writer, wal.disk
    {
      && wal.Valid() && wal.pending == [] && wal.All() == Records(codec, log)
      && (slim ==> wal.maxSegmentBytes == MAX_SEGMENT_BYTES && wal.Compact())
    }

    ghost predicate Valid()
      reads this, wal, wal.writer, wal.disk, storage.Repr()
    {
      storage.Valid() && Gapless(log, storage.lastZxid) && Durable() && Interval() == INTERVAL_MS
    }

    ghost function View(): Image
      reads this, storage, storage.sessionState
    {
      storage.View()
    }

    ghost function Watching(): set<Registration>
      reads this, storage.watchState
    {
      storage.Watching()
    }

    ghost function Deadlines(): map<int, int>
      reads this, storage.sessionState.expiryQueue
    {
      storage.Deadlines()
    }

    ghost function Interval(): int
      reads this, storage, storage.sessionState
    {
      storage.sessionState.expiryQueue.intervalMs
    }

    constructor (codec: Codec, wal: WalStore, storage: KeeperStorage, ghost log: seq<Entry>, ghost slim: bool)
      ensures this.codec == codec && this.wal == wal && this.storage == storage && this.log == log && this.slim == slim
    {
      this.codec, this.wal, this.storage, this.log, this.slim := codec, wal, storage, log, slim;
    }

    /** Appends a record and flushes it: when this returns, the record is on disk. */
    method WriteAhead(zxid: int, op: WalOp)
      requires Durable() && Gapless(log, zxid - 1)
      modifies this`log, wal, wal.writer, wal.disk
      ensures Durable() && (wal.writer == old(wal.writer) || fresh(wal.writer))
      ensures log == old(log) + [Entry(zxid, op)]
    {
      hide WalStore.Valid, Records, Gapless, LastIndex, EncodeAll, Cut, Flatten;
      LastRecord(codec, log, zxid - 1);
      RecordsSnoc(codec, log, Entry(zxid, op));
      wal.Append(1, zxid, 0, 0, codec.serialize(op));
      wal.Flush();
      log := log + [Entry(zxid, op)];
    }

    /** Takes the next zxid and makes the record durable under it, before the state changes. */
    method Commit(op: WalOp)
      requires Valid()
      modifies Repr()
      ensures Valid() && fresh(Repr() - old(Repr())) && storage == old(storage)
      ensures View() == Advance(old(View())) && log == old(log) + [Entry(View().lastZxid, op)]
      ensures Watching() == old(Watching()) && Deadlines() == old(Deadlines())
    {
      hide TreeInv, Durable, Gapless;
      GaplessSnoc(log, storage.lastZxid, op);
      var zxid := storage.NextZxid();
      WriteAhead(zxid, op);
    }

    /** The state, log and watch tables are those the step function says. */
    ghost predicate Reached(o: Outcome, log0: seq<Entry>, watching0: set<Registration>)
      reads this, storage, storage.sessionState, storage.watchState
    {
      View() == o.image && log == log0 + Entries(o) && Watching() == AfterAll(watching0, o.watchOps)
    }

    /** And so are the reply and, as a multiset, the notices sent. */
    ghost predicate Handled(o: Outcome, log0: seq<Entry>, watching0: set<Registration>,
                            reply: Reply, events: seq<WatchEvent>)
      reads this, storage, storage.sessionState, storage.watchState
    {
      Reached(o, log0, watching0) && reply == o.reply && multiset(events) == DeliveredBy(watching0, o.watchOps)
    }

    method ValidateCreate(path: string) returns (refusal: Option<ErrorCode>)
      ensures refusal == CreateRefusal(View(), path)
    {
      if path in storage.nodes { return Some(NodeExists); }
      var split := RsplitOnce(path);
      if split.NoSlash? { return Some(BadArguments); }
      if split.name == "" { return Some(BadArguments); }
      var parentPath := if split.prefix == "" then ROOT else split.prefix;
      if parentPath !in storage.nodes { return Some(NoNode); }
      return None;
    }

    method ValidateSet(path: string, version: int) returns (refusal: Option<ErrorCode>)
      ensures refusal == SetRefusal(View(), path, version)
    {
      if path !in storage.nodes { return Some(NoNode); }
      var currentVersion := storage.nodes[path].stat.version;
      if version != -1 && currentVersion != version { return Some(BadVersion); }
      return None;
    }

    method ValidateDelete(path: string, version: int) returns (refusal: Option<ErrorCode>)
      ensures refusal == RemoveRefusal(View(), path, version)
    {
      if path !in storage.nodes { return Some(NoNode); }
      var node := storage.nodes[path];
      if version != -1 && node.stat.version != version { return Some(BadVersion); }
      if node.children != {} { return Some(NotEmpty); }
      return None;
    }

    method Touch(sid: int, touched: int)
      requires Valid()
      modifies storage.sessionState.expiryQueue
      ensures Valid() && View() == old(View()) && Watching() == old(Watching())
      ensures Deadlines() ==
              if sid !in View().timeouts then old(Deadlines())
              else old(Deadlines())[sid := Bucket(touched + View().timeouts[sid], INTERVAL_MS)]
    {
      hide TreeInv, Durable, Gapless;
      storage.sessionState.TouchSession(sid, touched);
    }

    /** One request of a session: its deadline is refreshed, then the request is handled. */
    method Apply(sid: int, touched: int, now: int, request: Request)
      returns (reply: Reply, events: seq<WatchEvent>, ghost order: seq<string>)
      requires Valid() && sid != 0
      modifies Repr()
      ensures Valid() && fresh(Repr() - old(Repr())) && Genuine(old(View()), Ask(sid, now, request, order))
      ensures Handled(Live(old(View()), Ask(sid, now, request, order)), old(log), old(Watching()), reply, events)
      ensures var kept := Refreshed(old(View()), old(Deadlines()), sid, touched);
        Deadlines() == if request.Close? then kept - {sid} else kept
    {
      hide KeeperStorage.Valid, Durable, Gapless, Live, Genuine, Handled;
      Touch(sid, touched);
      reply, events, order := Dispatch(sid, now, request);
    }

    method Dispatch(sid: int, now: int, request: Request)
      returns (reply: Reply, events: seq<WatchEvent>, ghost order: seq<string>)
      requires Valid() && sid != 0
      modifies Repr()
      ensures Valid() && fresh(Repr() - old(Repr())) && Genuine(old(View()), Ask(sid, now, request, order))
      ensures Handled(Live(old(View()), Ask(sid, now, request, order)), old(log), old(Watching()), reply, events)
      ensures Deadlines() == if request.Close? then old(Deadlines()) - {sid} else old(Deadlines())
    {
      hide KeeperServer.Valid, Handled, Live, Genuine, Listing;
      LiveIs(View(), sid, now, request);
      events, order := [], [];
      match request
      case Create(path, data, flags) => reply, events := HandleCreate(sid, now, path, data, flags);
      case SetData(path, data, version) => reply, events := HandleSet(now, path, data, version);
      case Remove(path, version) => reply, events := HandleDelete(path, version);
      case Multi(ops) => reply, events := HandleMulti(sid, now, ops);
      case Close => reply, order := HandleClose(sid); GenuineClose(old(View()), sid, now, order); events := [];
      case Read(path, watch) => reply := HandleRead(sid, path, watch); events := [];
      case Heartbeat => reply := HandleHeartbeat(); events := [];
    }

    method HandleHeartbeat() returns (reply: Reply)
      requires Valid()
      ensures Handled(Outcome(View(), None, [], [], Reply(View().lastZxid, Ok, NoBody)), log, Watching(), reply, [])
    {
      reply := Reply(storage.lastZxid, Ok, NoBody);
    }

    method Refused(code: ErrorCode) returns (reply: Reply)
      requires Valid()
      ensures Handled(Refuse(View(), code), log, Watching(), reply, [])
    {
      reply := Reply(storage.lastZxid, code, NoBody);
    }

    method HandleCreate(sid: int, now: int, path: string, data: Bytes, flags: int)
      returns (reply: Reply, events: seq<WatchEvent>)
      requires Valid() && sid != 0
      modifies Repr()
      ensures Valid() && fresh(Repr() - old(Repr())) && Deadlines() == old(Deadlines())
      ensures Handled(LiveCreate(old(View()), sid, now, path, data, flags), old(log), old(Watching()), reply, events)
    {
      hide KeeperStorage.Valid, Durable, Gapless, Refuse, LoggedCreate, CreateRefusal, Handled;
      var refusal := ValidateCreate(path);
      events := [];
      if refusal.Some? {
        reply := Refused(refusal.value);
      } else {
        reply, events := LogAndCreate(sid, now, path, data, flags);
      }
    }

    method LogAndCreate(sid: int, now: int, path: string, data: Bytes, flags: int)
      returns (reply: Reply, events: seq<WatchEvent>)
      requires Valid() && sid != 0
      modifies Repr()
      ensures Valid() && fresh(Repr() - old(Repr())) && Deadlines() == old(Deadlines())
      ensures Handled(LoggedCreate(old(View()), sid, now, path, data, flags), old(log), old(Watching()), reply, events)
    {
      hide KeeperStorage.Valid, Durable, Gapless, CreateEvent, AfterAll, DeliveredBy;
      NothingWatched(Watching());
      Commit(WCreate(path, data, now, flags, sid));
      var created;
      created, events := storage.CreateAndFire(path, data, now, sid, flags);
      reply := if created.Failure? then Reply(storage.lastZxid, BadArguments, NoBody)
               else Reply(storage.lastZxid, Ok, PathBody(created.value));
    }

    method HandleSet(now: int, path: string, data: Bytes, version: int)
      returns (reply: Reply, events: seq<WatchEvent>)
      requires Valid()
      modifies Repr()
      ensures Valid() && fresh(Repr() - old(Repr())) && Deadlines() == old(Deadlines())
      ensures var o := LiveSet(old(View()), now, path, data, version);
        Handled(o, old(log), old(Watching()), reply, events)
    {
      hide KeeperStorage.Valid, Durable, Gapless, Refuse, AfterAll, DeliveredBy;
      var refusal := ValidateSet(path, version);
      if refusal.Some? {
        reply := Refused(refusal.value);
        return reply, [];
      }
      Commit(WSet(path, data, now));
      events := storage.SetAndFire(path, data, now, version);
      var node := storage.nodes[path];
      reply := Reply(storage.lastZxid, Ok, StatBody(node.stat, |node.data|, |node.children|));
    }

    method HandleDelete(path: string, version: int) returns (reply: Reply, events: seq<WatchEvent>)
      requires Valid()
      modifies Repr()
      ensures Valid() && fresh(Repr() - old(Repr())) && Deadlines() == old(Deadlines())
      ensures Handled(LiveRemove(old(View()), path, version), old(log), old(Watching()), reply, events)
    {
      hide KeeperStorage.Valid, Durable, Gapless, Refuse, LoggedRemove, Handled;
      var refusal := ValidateDelete(path, version);
      events := [];
      if refusal.Some? {
        reply := Refused(refusal.value);
      } else {
        reply, events := LogAndDelete(path);
      }
    }

    method LogAndDelete(path: string) returns (reply: Reply, events: seq<WatchEvent>)
      requires Valid() && path in View().nodes && View().nodes[path].children == {}
      modifies Repr()
      ensures Valid() && fresh(Repr() - old(Repr())) && Deadlines() == old(Deadlines())
      ensures Handled(LoggedRemove(old(View()), path), old(log), old(Watching()), reply, events)
    {
      hide KeeperStorage.Valid, Durable, Gapless, DeleteEvent, AfterAll, DeliveredBy;
      Commit(WDelete(path));
      events := storage.DeleteAndFire(path);
      reply := Reply(storage.lastZxid, Ok, NoBody);
    }

    /** The handshake: the session exists in memory before its record is logged. Its id is new to both
        tables; over whole runs ids are never given twice (Reachable.SessionIdsNeverRepeat). */
    method CreateSession(timeoutMs: int, now: int) returns (id: int)
      requires Valid()
      modifies Repr()
      ensures Valid() && fresh(Repr() - old(Repr()))
      ensures Reached(LiveCreateSession(old(View()), timeoutMs), old(log), old(Watching()))
      ensures id == old(View()).nextSessionId && storage == old(storage)
      ensures id !in old(View()).timeouts && id !in old(Deadlines())
      ensures Deadlines() == old(Deadlines())[id := Bucket(now + timeoutMs, INTERVAL_MS)]
    {
      hide TreeInv, Durable, Gapless, Bucket, AfterAll;
      NothingWatched(Watching());
      id := storage.sessionState.CreateSession(timeoutMs, now);
      Commit(WCreateSession(id, timeoutMs));
    }

    /** Lists, without duplicates, exactly the sessions whose deadline has come. */
    method GetExpiredSessions(now: int) returns (ids: seq<int>)
      requires Valid()
      ensures Distinct(ids)
      ensures forall id :: id in ids <==> id in Deadlines() && Deadlines()[id] <= now
      ensures forall id :: id in ids ==> id in View().timeouts
    {
      ids := storage.sessionState.GetExpired(now);
    }

    /** Expiry: logged first, then applied. No watch fires and none is cleared. */
    method CloseSession(sid: int) returns (ghost order: seq<string>)
      requires Valid() && sid != 0
      modifies Repr()
      ensures Valid() && fresh(Repr() - old(Repr())) && Deadlines() == old(Deadlines()) - {sid}
      ensures Listing(order, Owned(old(View()).ephemerals, sid))
      ensures Reached(LiveExpire(old(View()), sid, order), old(log), old(Watching()))
    {
      hide KeeperStorage.Valid, Durable, Gapless, CloseImage, Listing;
      Commit(WCloseSession(sid));
      order := storage.CloseSession(sid);
      ClosedZxid(Advance(old(View())), sid, order);
    }

    /** The Close request: applied without a record; the session's watches are cleared. */
    method HandleClose(sid: int) returns (reply: Reply, ghost order: seq<string>)
      requires Valid() && sid != 0
      modifies Repr()
      ensures Valid() && fresh(Repr() - old(Repr())) && Deadlines() == old(Deadlines()) - {sid}
      ensures Listing(order, Owned(old(View()).ephemerals, sid))
      ensures Handled(LiveClose(old(View()), sid, order), old(log), old(Watching()), reply, [])
    {
      hide TreeInv, Durable, Gapless, CloseImage, Listing, AfterAll, DeliveredBy;
      NothingWatched(Watching());
      order := storage.CloseSession(sid);
      ClosedZxid(old(View()), sid, order);
      WatchSnoc(Watching(), [], Clear(sid));
      assert [] + [Clear(sid)] == [Clear(sid)];
      storage.watchState.Clear(sid);
      reply := Reply(storage.lastZxid, Ok, NoBody);
    }

    /** What the read handlers change: they register a watch, whether or not the node exists. */
    method HandleRead(sid: int, path: string, watch: Option<WatchType>) returns (reply: Reply)
      requires Valid()
      modifies Repr()
      ensures Valid() && fresh(Repr() - old(Repr())) && Deadlines() == old(Deadlines())
      ensures Handled(LiveRead(old(View()), sid, path, watch), old(log), old(Watching()), reply, [])
    {
      hide TreeInv, Durable, Gapless;
      if watch.Some? {
        ghost var op := Register(Registration(sid, WatchInfo(path, watch.value)));
        WatchSnoc(Watching(), [], op);
        assert [] + [op] == [op];
        storage.watchState.Register(sid, path, watch.value);
      }
      reply := Reply(storage.lastZxid, if path in storage.nodes then Ok else NoNode, NoBody);
    }

    /** A transaction: everything happens on a copy, which is thrown away or, after its one record is
        durable, takes the place of the state. */
    method HandleMulti(sid: int, now: int, ops: seq<MultiOp<string>>) returns (reply: Reply, events: seq<WatchEvent>)
      requires Valid() && sid != 0
      modifies Repr()
      ensures Valid() && fresh(Repr() - old(Repr())) && Deadlines() == old(Deadlines())
      ensures Handled(LiveMulti(old(View()), sid, now, ops), old(log), old(Watching()), reply, events)
    {
      hide KeeperStorage.Valid, Durable, Gapless, MultiFold, AfterAll, DeliveredBy, AbortResponses, LiveMulti;
      MultiIs(View(), sid, now, ops);
      var staged := storage.Stage();
      var zxid := staged.lastZxid;
      var failure, responses, records;
      failure, responses, records, events := staged.StageAll(View(), Watching(), sid, now, ops);
      if failure.Some? {
        reply := AbortMulti(sid, now, ops, |responses|, failure.value);
        return reply, [];
      }
      SwapIn(staged, zxid, WMulti(records, now, sid));
      reply := Reply(zxid, Ok, MultiBody(responses));
    }

    /** The answer to a transaction that failed at the operation `done`: the copy is thrown away. */
    method AbortMulti(sid: int, now: int, ops: seq<MultiOp<string>>, done: nat, code: ErrorCode) returns (reply: Reply)
      requires Valid() && MultiFold(Begin(View()), sid, now, ops) == Aborted(done, code)
      ensures Handled(LiveMulti(View(), sid, now, ops), log, Watching(), reply, [])
    {
      hide KeeperStorage.Valid, Durable, Gapless, MultiFold, AfterAll, DeliveredBy, AbortResponses, LiveMulti;
      NothingWatched(Watching());
      MultiIs(View(), sid, now, ops);
      var responses := RolledBack(done, code, |ops|);
      reply := Reply(storage.lastZxid, Ok, MultiBody(responses));
    }

    /** Overwrites the responses so far, adds the failure, and fills up to one response an operation. */
    method RolledBack(done: nat, code: ErrorCode, count: nat) returns (responses: seq<MultiOpResponse<string>>)
      requires done < count
      ensures responses == AbortResponses(done, code, count)
    {
      responses := seq(done, _ => Error(Ok));
      responses := responses + [Error(code)];
      responses := responses + seq(count - |responses|, _ => Error(RuntimeInconsistency));
    }

    /** The end of a successful transaction: one durable record, then the copy replaces the state. */
    method SwapIn(staged: KeeperStorage, zxid: int, op: WalOp)
      requires Valid() && staged.Valid() && staged.lastZxid == zxid == storage.lastZxid + 1
      requires staged.sessionState.expiryQueue.intervalMs == INTERVAL_MS
      modifies this, wal, wal.writer, wal.disk
      ensures Valid() && storage == staged && (wal.writer == old(wal.writer) || fresh(wal.writer))
      ensures View() == old(staged.View()) && log == old(log) + [Entry(zxid, op)]
      ensures Watching() == old(staged.Watching()) && Deadlines() == old(staged.Deadlines())
    {
      hide TreeInv, Durable, Gapless;
      GaplessSnoc(log, storage.lastZxid, op);
      WriteAhead(zxid, op);
      storage := staged;
    }
  }

  lemma ClosedZxid(d: Image, sid: int, order: seq<string>)
    ensures CloseImage(d, sid, order).lastZxid == d.lastZxid
  {
  }

  lemma GenuineClose(d: Image, sid: int, now: int, order: seq<string>)
    requires sid != 0 && Listing(order, Owned(d.ephemerals, sid))
    ensures Genuine(d, Ask(sid, now, Close, order))
  {
  }

  /** The step function, request by request. */
  lemma LiveIs(d: Image, sid: int, now: int, request: Request)
    ensures forall order {:trigger Live(d, Ask(sid, now, request, order))} ::
      var o := Live(d, Ask(sid, now, request, order));
      match request
      case Create(path, data, flags) => o == LiveCreate(d, sid, now, path, data, flags)
      case SetData(path, data, version) => o == LiveSet(d, now, path, data, version)
      case Remove(path, version) => o == LiveRemove(d, path, version)
      case Multi(ops) => o == LiveMulti(d, sid, now, ops)
      case Close => o == LiveClose(d, sid, order)
      case Read(path, watch) => o == LiveRead(d, sid, path, watch)
      case Heartbeat => o == Outcome(d, None, [], [], Reply(d.lastZxid, Ok, NoBody))
    ensures sid != 0 && !request.Close? ==> forall order :: Genuine(d, Ask(sid, now, request, order))
  {
  }

  lemma NothingWatched(regs: set<Registration>)
    ensures AfterAll(regs, []) == regs && DeliveredBy(regs, []) == multiset{}
  {
  }

  lemma MultiIs(d: Image, sid: int, now: int, ops: seq<MultiOp<string>>)
    ensures var run, o := MultiFold(Begin(d), sid, now, ops), LiveMulti(d, sid, now, ops);
      && (run.Aborted? ==>
            run.index < |ops|
            && o == Outcome(d, None, [], [],
                            Reply(d.lastZxid, Ok, MultiBody(AbortResponses(run.index, run.code, |ops|)))))
      && (run.Running? ==>
            o == Outcome(run.staged.image, Some(WMulti(run.staged.records, now, sid)), run.staged.events,
                         run.staged.watchOps, Reply(run.staged.image.lastZxid, Ok, MultiBody(run.staged.responses))))
  {
    AbortIndex(Begin(d), sid, now, ops);
  }
}
