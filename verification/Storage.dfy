/** `KeeperStorage`: the tree with its session and watch state, changed in place. */
module Storage {
  import opened Base
  import opened Names
  import opened Tree
  import opened Store
  import opened Reaping
  import opened Sessions
  import opened Watches
  import opened LivePath
  import opened Recovery
  import opened Requests

  class KeeperStorage {
    var nodes: Nodes
    var lastZxid: int
    const sessionState: SessionState
    const watchState: WatchState

    ghost function Repr(): set<object> { {this, watchState} + sessionState.Repr() }

    ghost predicate Valid()
      reads Repr()
    {
      sessionState.Valid() && watchState.Valid() && TreeInv(nodes)
    }

    /** The part of the state that replay rebuilds. */
    ghost function View(): Image
      reads this, sessionState
    {
      Image(nodes, lastZxid, sessionState.ephemerals, sessionState.sessionAndTimeout, sessionState.nextSessionId)
    }

    ghost function Watching(): set<Registration>
      reads watchState
    {
      watchState.Registered()
    }

    ghost function Deadlines(): map<int, int>
      reads sessionState.expiryQueue
    {
      sessionState.expiryQueue.Deadlines()
    }

    constructor (intervalMs: int)
      requires intervalMs > 0
      ensures Valid() && fresh(Repr())
      ensures View() == EMPTY_IMAGE && watchState.Registered() == {} && Deadlines() == map[]
      ensures sessionState.expiryQueue.intervalMs == intervalMs
    {
      var sessions := new SessionState(intervalMs);
      var watches := new WatchState();
      nodes, lastZxid, sessionState, watchState := EMPTY_TREE, 0, sessions, watches;
      new;
      EmptyInv();
    }

    /** The staging copy of `multi`: equal in every part, sharing none. */
    constructor Clone(from: KeeperStorage)
      requires from.Valid()
      ensures Valid() && fresh(Repr())
      ensures View() == from.View() && Deadlines() == from.Deadlines()
      ensures watchState.Registered() == from.watchState.Registered()
      ensures sessionState.expiryQueue.intervalMs == from.sessionState.expiryQueue.intervalMs
    {
      var sessions := new SessionState.Clone(from.sessionState);
      var watches := new WatchState.Clone(from.watchState);
      nodes, lastZxid, sessionState, watchState := from.nodes, from.lastZxid, sessions, watches;
    }

    method NextZxid() returns (zxid: int)
      requires Valid()
      modifies this
      ensures Valid()
      ensures View() == old(View()).(lastZxid := old(lastZxid) + 1) && zxid == lastZxid
    {
      lastZxid := lastZxid + 1;
      zxid := lastZxid;
    }

    method SetLastZxid(zxid: int)
      requires Valid()
      modifies this
      ensures Valid() && View() == old(View()).(lastZxid := zxid)
    {
      lastZxid := zxid;
    }

    /** Refusals change nothing; success is one Created event, index included. */
    method Create(path: string, data: Bytes, timestamp: int, sid: int, flags: int)
      returns (r: Result<string, StorageError>)
      requires Valid() && sid != 0
      modifies this, sessionState
      ensures Valid()
      ensures match CreateEvent(old(nodes), lastZxid, path, data, timestamp, sid, flags)
              case Failure(e) => r == Failure(e) && View() == old(View())
              case Success(e) => r == Success(e.path) && View() == Perform(old(View()), e)
    {
      var split := RsplitOnce(path);
      if split.NoSlash? { return Failure(InvalidPathFormat); }
      if split.name == "" { return Failure(RootNode); }
      var parentPath := if split.prefix == "" then ROOT else split.prefix;
      if parentPath !in nodes { return Failure(ParentMissing); }
      var parent := nodes[parentPath];
      if parent.stat.ephemeralOwner != 0 { return Failure(ParentEphemeral); }
      var seqNum := parent.stat.cversion;
      var owner := if Ephemeral(flags) then sid else 0;
      var newNode := Node(data, {}, Stat(lastZxid, lastZxid, timestamp, timestamp, 0, 0, 0, owner, lastZxid));
      var created := if Sequential(flags) then path + SeqSuffix(seqNum) else path;
      if created in nodes { return Failure(AlreadyExists); }

      ghost var e := CreateAccepted(nodes, lastZxid, path, data, timestamp, sid, flags);
      Insert(created, newNode, parentPath, sid, Ephemeral(flags), e);
      return Success(created);
    }

    /** The three mutations of `create`, after its checks. */
    method Insert(created: string, newNode: Node, parentPath: string, sid: int, ephemeral: bool, ghost e: Event)
      requires Valid() && e.Created? && Applicable(nodes, e) && TreeInv(Apply(nodes, e))
      requires e.path == created && parentPath == Parent(created) != created
      requires newNode == Fresh(e.data, e.time, e.owner, e.zxid) && e.zxid == lastZxid
      requires e.owner == (if ephemeral then sid else 0) && sid != 0
      modifies this, sessionState
      ensures Valid() && View() == Perform(old(View()), e)
    {
      ghost var before := View();
      ghost var after := Perform(before, e);
      nodes := nodes[created := newNode];
      if ephemeral {
        sessionState.AddEphemeral(sid, created);
      }
      assert sessionState.ephemerals == after.ephemerals;
      var parent := nodes[parentPath];
      assert parent == before.nodes[parentPath];
      parent := Node(parent.data, parent.children + {RsplitOnce(created).name},
                     parent.stat.(cversion := Wrap32(parent.stat.cversion + 1), pzxid := lastZxid));
      assert parent == Touched(before.nodes[parentPath], before.nodes[parentPath].children + {Name(created)}, lastZxid);
      nodes := nodes[parentPath := parent];
      assert nodes == after.nodes;
    }

    method Set(path: string, data: Bytes, timestamp: int, ghost expected: int) returns (r: Result<(), StorageError>)
      requires Valid()
      requires path in nodes && expected != -1 ==> nodes[path].stat.version == expected
      modifies this
      ensures Valid()
      ensures if path in old(nodes)
              then r == Success(())
                   && View() == Perform(old(View()), Changed(path, data, timestamp, lastZxid, expected))
              else r == Failure(NotFound) && View() == old(View())
    {
      if path !in nodes { return Failure(NotFound); }
      ApplyKeepsTreeInv(nodes, Changed(path, data, timestamp, lastZxid, expected));
      var node := nodes[path];
      var stat := node.stat.(version := Wrap32(node.stat.version + 1));
      stat := stat.(mzxid := lastZxid);
      stat := stat.(mtime := timestamp);
      nodes := nodes[path := Node(data, node.children, stat)];
      return Success(());
    }

    /** Refusals change nothing; success changes the tree alone. */
    method Delete(path: string) returns (r: Result<(), StorageError>)
      requires Valid()
      modifies this
      ensures Valid()
      ensures match DeleteEvent(old(nodes), lastZxid, path)
              case Failure(e) => r == Failure(e) && View() == old(View())
              case Success(e) => r == Success(()) && View() == old(View()).(nodes := Apply(old(nodes), e))
    {
      DeleteNeverPanics(nodes, lastZxid, path);
      var split := RsplitOnce(path);
      if split.NoSlash? { return Failure(InvalidPathFormat); }
      if split.name == "" { return Failure(RootNode); }
      var parentPath := if split.prefix == "" then ROOT else split.prefix;
      if path !in nodes { return Failure(NotFound); }
      if nodes[path].children != {} { return Failure(HasChildren); }
      Unlink(path, parentPath);
      return Success(());
    }

    /** The two mutations of `delete`, after its checks. */
    method Unlink(path: string, parentPath: string)
      requires Valid() && Applicable(nodes, Deleted(path, lastZxid)) && parentPath == Parent(path)
      modifies this`nodes
      ensures Valid() && nodes == Apply(old(nodes), Deleted(path, lastZxid))
    {
      ghost var before := nodes;
      ApplyKeepsTreeInv(nodes, Deleted(path, lastZxid));
      ParentShorter(path);
      nodes := nodes - {path};
      var parent := nodes[parentPath];
      assert parent == before[parentPath];
      parent := Node(parent.data, parent.children - {RsplitOnce(path).name},
                     parent.stat.(cversion := Wrap32(parent.stat.cversion + 1), pzxid := lastZxid));
      assert parent == Touched(before[parentPath], before[parentPath].children - {Name(path)}, lastZxid);
      nodes := nodes[parentPath := parent];
      assert nodes == Apply(before, Deleted(path, lastZxid));
    }

    /** A delete with its ephemeral bookkeeping, as the delete request and `multi` perform it. */
    method DeleteIndexed(path: string)
      requires Valid() && path in nodes && nodes[path].children == {}
      modifies this, sessionState
      ensures Valid()
      ensures match DeleteEvent(old(nodes), lastZxid, path)
              case Failure(_) => View() == old(View())
              case Success(e) => View() == Perform(old(View()), e)
    {
      hide TreeInv;
      DeleteNeverPanics(nodes, lastZxid, path);
      RootIsPersistent(nodes);
      var owner := nodes[path].stat.ephemeralOwner;
      var _ := Delete(path);
      if owner != 0 {
        sessionState.RemoveEphemeral(owner, path);
      }
    }

    method Announce(path: string, kind: EventType) returns (events: seq<WatchEvent>)
      requires Valid()
      modifies watchState
      ensures Valid() && View() == old(View())
      ensures Watching() == AfterAll(old(Watching()), Fires(path, kind))
      ensures multiset(events) == DeliveredBy(old(Watching()), Fires(path, kind))
    {
      WatchSnoc(Watching(), [], Fire(Firing(path, kind)));
      assert [] + Fires(path, kind) == Fires(path, kind);
      events := watchState.Fire(path, kind);
    }

    /** A create and its notifications. */
    method CreateAndFire(path: string, data: Bytes, timestamp: int, sid: int, flags: int)
      returns (r: Result<string, StorageError>, events: seq<WatchEvent>)
      requires Valid() && sid != 0
      modifies this, sessionState, watchState
      ensures Valid()
      ensures match CreateEvent(old(nodes), old(lastZxid), path, data, timestamp, sid, flags)
              case Failure(e) =>
                r == Failure(e) && View() == old(View()) && Watching() == old(Watching()) && events == []
              case Success(e) =>
                && r == Success(e.path) && View() == Perform(old(View()), e)
                && Watching() == AfterAll(old(Watching()), Fires(e.path, NodeCreated))
                && multiset(events) == DeliveredBy(old(Watching()), Fires(e.path, NodeCreated))
    {
      hide TreeInv, CreateEvent, Apply;
      events := [];
      r := Create(path, data, timestamp, sid, flags);
      if r.Success? {
        events := Announce(r.value, NodeCreated);
      }
    }

    /** A write to a node that exists, and its notifications. */
    method SetAndFire(path: string, data: Bytes, timestamp: int, ghost expected: int) returns (events: seq<WatchEvent>)
      requires Valid() && path in nodes && (expected != -1 ==> nodes[path].stat.version == expected)
      modifies this, watchState
      ensures Valid() && View() == Perform(old(View()), Changed(path, data, timestamp, old(lastZxid), expected))
      ensures Watching() == AfterAll(old(Watching()), Fires(path, NodeChanged))
      ensures multiset(events) == DeliveredBy(old(Watching()), Fires(path, NodeChanged))
    {
      hide TreeInv, Apply;
      var _ := Set(path, data, timestamp, expected);
      events := Announce(path, NodeChanged);
    }

    /** A delete and its notifications; the notifications go out even when the root refuses to go. */
    method DeleteAndFire(path: string) returns (events: seq<WatchEvent>)
      requires Valid() && path in nodes && nodes[path].children == {}
      modifies this, sessionState, watchState
      ensures Valid()
      ensures match DeleteEvent(old(nodes), old(lastZxid), path)
              case Failure(_) => View() == old(View())
              case Success(e) => View() == Perform(old(View()), e)
      ensures Watching() == AfterAll(old(Watching()), Fires(path, NodeDeleted))
      ensures multiset(events) == DeliveredBy(old(Watching()), Fires(path, NodeDeleted))
    {
      hide TreeInv, DeleteEvent, Apply;
      DeleteIndexed(path);
      events := Announce(path, NodeDeleted);
    }

    /** The cleanup loop after `close_session`: the session's nodes go, one by one, in whatever order
        the hash set lists them. The live path goes on after a failure, which replay reports. */
    method Reap(paths: seq<string>) returns (ok: bool)
      requires Valid()
      modifies this
      ensures Valid() && View() == old(View()).(nodes := Tried(old(nodes), paths, lastZxid))
      ensures ok <==> Fold(old(nodes), Deletions(paths, lastZxid)).Some?
      ensures ok ==> Fold(old(nodes), Deletions(paths, lastZxid)) == Some(nodes)
    {
      hide TreeInv, Apply, DeleteEvent, Fold, Deletions, Tried;
      ghost var before, z := nodes, lastZxid;
      ok := true;
      TryNone(nodes, z);
      assert paths[..0] == [];
      for i := 0 to |paths|
        invariant Valid() && View() == old(View()).(nodes := Tried(before, paths[..i], z))
        invariant ok <==> Fold(before, Deletions(paths[..i], z)).Some?
        invariant ok ==> Fold(before, Deletions(paths[..i], z)) == Some(nodes)
      {
        TryNext(before, paths, i, z);
        var r := Delete(paths[i]);
        if r.Failure? { ok := false; }
      }
      assert paths[..|paths|] == paths;
    }

    /** Closes a session and deletes its nodes, in the order its hash set came in. */
    method CloseSession(id: int) returns (ghost order: seq<string>)
      requires Valid()
      modifies this, sessionState.Repr()
      ensures Valid() && Listing(order, Owned(old(sessionState.ephemerals), id))
      ensures View() == CloseImage(old(View()), id, order)
      ensures Deadlines() == old(Deadlines()) - {id}
    {
      hide TreeInv, Tried;
      var paths := sessionState.CloseSession(id);
      order := paths;
      var _ := Reap(paths);
    }

    /** One operation of a transaction on the staging copy: `s` is what the copy has accumulated and
        `watching0` the registrations it started from. */
    method StageOp(ghost s: Staged, ghost watching0: set<Registration>, sid: int, now: int, op: MultiOp<string>)
      returns (r: Result<MultiOpResponse<string>, ErrorCode>, record: seq<MultiWalOp>, events: seq<WatchEvent>)
      requires Valid() && sid != 0 && View() == s.image && Watching() == AfterAll(watching0, s.watchOps)
      modifies this, sessionState, watchState
      ensures Valid()
      ensures match MultiStep(s, sid, now, op)
              case Failure(code) => r == Failure(code)
              case Success(t) =>
                && r.Success? && t.responses == s.responses + [r.value] && t.records == s.records + record
                && View() == t.image && Watching() == AfterAll(watching0, t.watchOps)
                && DeliveredBy(watching0, t.watchOps) == DeliveredBy(watching0, s.watchOps) + multiset(events)
    {
      hide TreeInv;
      record, events := [], [];
      match op
      case CreateOp(path, data, flags) =>
        var created;
        created, events := CreateAndFire(path, data, now, sid, flags);
        if created.Failure? { return Failure(CreateErrorCode(created.error)), [], []; }
        WatchMore(watching0, s.watchOps, created.value, NodeCreated);
        record := [MCreate(path, data, flags)];
        r := Success(CreateDone(created.value));
      case CheckOp(path, version) =>
        if path !in nodes { return Failure(NoNode), [], []; }
        if version != -1 && version != nodes[path].stat.version { return Failure(BadVersion), [], []; }
        r := Success(CheckDone);
      case SetOp(path, data, version) =>
        if path !in nodes { return Failure(NoNode), [], []; }
        if version != -1 && version != nodes[path].stat.version { return Failure(BadVersion), [], []; }
        events := SetAndFire(path, data, now, version);
        WatchMore(watching0, s.watchOps, path, NodeChanged);
        record := [MSet(path, data)];
        var updated := nodes[path];
        r := Success(SetDone(updated.stat, |updated.data|, |updated.children|));
      case DeleteOp(path, version) =>
        if path !in nodes { return Failure(NoNode), [], []; }
        var node := nodes[path];
        if version != -1 && version != node.stat.version { return Failure(BadVersion), [], []; }
        if path == ROOT { return Failure(BadArguments), [], []; }
        if node.children != {} { return Failure(NotEmpty), [], []; }
        DeleteNeverPanics(nodes, lastZxid, path);
        events := DeleteAndFire(path);
        WatchMore(watching0, s.watchOps, path, NodeDeleted);
        record := [MDelete(path)];
        r := Success(DeleteDone);
    }

    // ------------------------------------------------------------ replay

    method ReplayWrite(op: MultiWalOp, timestamp: int, sid: int) returns (ok: bool)
      requires Valid() && (op.MCreate? ==> sid != 0)
      modifies this, sessionState
      ensures Valid()
      ensures match Recovery.ReplayWrite(old(View()), op, timestamp, sid)
              case None => !ok
              case Some(d) => ok && View() == d
    {
      hide TreeInv, Apply;
      match op
      case MCreate(path, data, flags) =>
        var r := Create(path, data, timestamp, sid, flags);
        ok := r.Success?;
      case MSet(path, data) =>
        var r := Set(path, data, timestamp, -1);
        ok := r.Success?;
      case MDelete(path) =>
        if path !in nodes {
          NotThere(nodes, lastZxid, path);
          return false;
        }
        var owner := nodes[path].stat.ephemeralOwner;
        var r := Delete(path);
        if r.Failure? { return false; }
        if owner != 0 {
          sessionState.RemoveEphemeral(owner, path);
        }
        ok := true;
    }

    /** Interprets one record of the log; `ok` is false where the server would fail an `expect`. When
        the interpreter answers None it is false in every order of the hash set; when it answers a
        state, that is the state if `ok`, and `ok` holds in every order for leaves. */
    method ReplayRecord(index: int, op: WalOp) returns (ok: bool)
      requires Valid() && GenuineOp(op)
      modifies this, sessionState.Repr()
      ensures Valid() && (old(Deadlines()) == map[] ==> Deadlines() == map[])
      ensures ok ==> ReplayEntry(old(View()), Entry(index, op)) == Some(View())
      ensures ReplayEntry(old(View()), Entry(index, op)).Some? && AnyOrder(old(View()), op) ==> ok
    {
      hide TreeInv, Apply, WriteEvent, Prunable, Leaves, Fold, ReplayMulti, Store.Reap;
      SetLastZxid(index);
      match op
      case WCreate(path, data, timestamp, flags, sid) =>
        ok := ReplayWrite(MCreate(path, data, flags), timestamp, sid);
      case WSet(path, data, timestamp) =>
        ok := ReplayWrite(MSet(path, data), timestamp, 0);
      case WDelete(path) =>
        WriteOfDelete(View(), path);
        var r := Delete(path);
        ok := r.Success?;
      case WCreateSession(sid, timeoutMs) =>
        sessionState.RestoreSession(sid, timeoutMs);
        ok := true;
      case WCloseSession(sid) =>
        ok := ReplayClose(sid);
      case WMulti(operations, timestamp, sid) =>
        ok := ReplayOperations(operations, timestamp, sid);
    }

    method ReplayClose(sid: int) returns (ok: bool)
      requires Valid()
      modifies this, sessionState.Repr()
      ensures Valid() && Deadlines() == old(Deadlines()) - {sid}
      ensures ok ==> Prunable(old(nodes), Owned(old(sessionState.ephemerals), sid))
      ensures ok ==> View() == Closed(old(View()), sid)
      ensures Leaves(old(nodes), Owned(old(sessionState.ephemerals), sid)) ==> ok
    {
      hide TreeInv, Prunable, Leaves, Fold, Store.Reap, Tried, Deletions;
      var paths := sessionState.CloseSession(sid);
      if Leaves(nodes, ToSet(paths)) { ReapAnyOrder(nodes, paths, lastZxid); }
      ghost var before := nodes;
      ok := Reap(paths);
      if ok { SuccessfulOrder(before, paths, lastZxid); }
    }

    method ReplayOperations(operations: seq<MultiWalOp>, timestamp: int, sid: int) returns (ok: bool)
      requires Valid() && sid != 0
      modifies this, sessionState
      ensures Valid()
      ensures match ReplayMulti(old(View()), operations, timestamp, sid)
              case None => !ok
              case Some(d) => ok && View() == d
    {
      hide TreeInv, WriteEvent;
      ghost var before := View();
      assert operations[..0] == [];
      for i := 0 to |operations|
        invariant Valid() && ReplayMulti(before, operations[..i], timestamp, sid) == Some(View())
      {
        assert operations[..i + 1][..i] == operations[..i];
        var done := ReplayWrite(operations[i], timestamp, sid);
        if !done {
          ReplayMultiStops(before, operations, timestamp, sid, i + 1);
          return false;
        }
      }
      assert operations[..|operations|] == operations;
      ok := true;
    }

    /** The staging copy, already at the next zxid. */
    method Stage() returns (staged: KeeperStorage)
      requires Valid()
      ensures fresh(staged) && fresh(staged.Repr()) && staged.Valid() && staged.View() == Advance(View())
      ensures staged.Watching() == Watching() && staged.Deadlines() == Deadlines()
      ensures staged.sessionState.expiryQueue.intervalMs == sessionState.expiryQueue.intervalMs
    {
      staged := new KeeperStorage.Clone(this);
      var _ := staged.NextZxid();
    }

    /** The operations of a transaction in order, up to the first that fails. */
    method StageAll(ghost d: Image, ghost watching0: set<Registration>, sid: int, now: int, ops: seq<MultiOp<string>>)
      returns (failure: Option<ErrorCode>, responses: seq<MultiOpResponse<string>>, records: seq<MultiWalOp>,
               events: seq<WatchEvent>)
      requires Valid() && sid != 0 && View() == Advance(d) && Watching() == watching0
      modifies this, sessionState, watchState
      ensures match MultiFold(Begin(d), sid, now, ops)
              case Aborted(i, code) => failure == Some(code) && |responses| == i
              case Running(s) =>
                && failure == None && responses == s.responses && records == s.records && lastZxid == d.lastZxid + 1
                && Valid() && View() == s.image && Watching() == AfterAll(watching0, s.watchOps)
                && multiset(events) == DeliveredBy(watching0, s.watchOps)
    {
      hide TreeInv;
      ghost var s := Begin(d);
      failure, responses, records, events := None, [], [], [];
      assert ops[..0] == [];
      for i := 0 to |ops|
        invariant Valid() && |responses| == i
        invariant MultiFold(Begin(d), sid, now, ops[..i]) == Running(s)
        invariant View() == s.image && responses == s.responses && records == s.records
        invariant Watching() == AfterAll(watching0, s.watchOps)
        invariant multiset(events) == DeliveredBy(watching0, s.watchOps)
      {
        assert ops[..i + 1][..i] == ops[..i];
        var result, record, fired := StageOp(s, watching0, sid, now, ops[i]);
        if result.Failure? {
          AbortSticks(Begin(d), sid, now, ops, i + 1);
          failure := Some(result.error);
          return;
        }
        s := MultiStep(s, sid, now, ops[i]).value;
        responses := responses + [result.value];
        records := records + record;
        events := events + fired;
      }
      assert ops[..|ops|] == ops;
      MultiFoldSound(d, sid, now, ops);
    }
  }

  lemma WatchMore(watching0: set<Registration>, ops: seq<WatchOp>, path: string, kind: EventType)
    ensures AfterAll(AfterAll(watching0, ops), Fires(path, kind)) == AfterAll(watching0, ops + Fires(path, kind))
    ensures DeliveredBy(watching0, ops + Fires(path, kind)) ==
            DeliveredBy(watching0, ops) + DeliveredBy(AfterAll(watching0, ops), Fires(path, kind))
  {
    var f := Fire(Firing(path, kind));
    WatchSnoc(watching0, ops, f);
    WatchSnoc(AfterAll(watching0, ops), [], f);
    assert [] + [f] == [f];
  }

  lemma TryNone(nodes: Nodes, zxid: int)
    ensures Tried(nodes, [], zxid) == nodes && Fold(nodes, Deletions([], zxid)) == Some(nodes)
  {
  }

  /** The next deletion of the cleanup loop, tried and counted. */
  lemma TryNext(nodes: Nodes, paths: seq<string>, i: nat, zxid: int)
    requires i < |paths|
    ensures var m := Tried(nodes, paths[..i], zxid);
      Tried(nodes, paths[..i + 1], zxid) ==
      match DeleteEvent(m, zxid, paths[i]) case Failure(_) => m case Success(e) => Apply(m, e)
    ensures Fold(nodes, Deletions(paths[..i + 1], zxid)) ==
      match Fold(nodes, Deletions(paths[..i], zxid))
      case None => None
      case Some(m) =>
        if DeleteEvent(m, zxid, paths[i]).Success? then Some(Apply(m, Deleted(paths[i], zxid))) else None
  {
    hide DeleteEvent, Apply, Applicable;
    TakeOneMore(paths, i);
    DeletionsSnoc(nodes, paths[..i + 1], zxid);
    if Fold(nodes, Deletions(paths[..i], zxid)).Some? {
      DeletesApplicable(Fold(nodes, Deletions(paths[..i], zxid)).value, paths[i], zxid);
    }
  }

  lemma RootIsPersistent(nodes: Nodes)
    requires TreeInv(nodes)
    ensures ROOT in nodes && nodes[ROOT].stat.ephemeralOwner == 0
  {
  }

  lemma NotThere(nodes: Nodes, zxid: int, path: string)
    requires path !in nodes
    ensures DeleteEvent(nodes, zxid, path).Failure?
  {
  }

  lemma WriteOfDelete(d: Image, path: string)
    ensures WriteEvent(d, MDelete(path), 0, 0) ==
            match DeleteEvent(d.nodes, d.lastZxid, path) case Failure(_) => None case Success(e) => Some(e)
  {
  }

  /** When none of the checks refuses, the create is this event, with this effect on the tree. */
  lemma CreateAccepted(nodes: Nodes, zxid: int, path: string, data: Bytes, time: int, sid: int, flags: int)
    returns (e: Event)
    requires TreeInv(nodes) && IsNodePath(path)
    requires Parent(path) in nodes && nodes[Parent(path)].stat.ephemeralOwner == 0
    requires (if Sequential(flags) then path + SeqSuffix(nodes[Parent(path)].stat.cversion) else path) !in nodes
    ensures CreateEvent(nodes, zxid, path, data, time, sid, flags) == Success(e)
    ensures e.Created? && Applicable(nodes, e) && TreeInv(Apply(nodes, e))
    ensures e.owner == if Ephemeral(flags) then sid else 0
    ensures e.path == if Sequential(flags) then path + SeqSuffix(nodes[Parent(path)].stat.cversion) else path
    ensures e.data == data && e.time == time && e.zxid == zxid
    ensures Parent(path) == Parent(e.path) != e.path
  {
    e := CreateEvent(nodes, zxid, path, data, time, sid, flags).value;
    ApplyKeepsTreeInv(nodes, e);
    ParentShorter(e.path);
  }
}
