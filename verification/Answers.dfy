/** What a client is told, and what that means: each request's answer, effect, record and notices, said
    of the state before and after and not of how the server decides. */
module Answers {
  import opened Base
  import opened Names
  import opened Tree
  import opened Store
  import opened Reaping
  import opened Watches
  import opened Requests
  import opened LivePath

  /** Nothing happened but the answer. */
  ghost predicate OnlyAnswered(d: Image, o: Outcome, code: ErrorCode) {
    o.image == d && o.logged == None && o.events == [] && o.watchOps == [] && o.reply == Reply(d.lastZxid, code, NoBody)
  }

  /** No version was asked for, or it is the node's. */
  predicate VersionMet(n: Node, version: int) { version == -1 || n.stat.version == version }

  // --------------------------------------------------------------- create

  /** The path a create would make: bit 1 of the flags asks for a sequential name. */
  function MadePath(nodes: Nodes, path: string, flags: int): string
    requires Parent(path) in nodes
  {
    if flags % 4 >= 2 then path + SeqSuffix(nodes[Parent(path)].stat.cversion) else path
  }

  /** Storage refuses the create: the parent is ephemeral, or the path is taken. */
  predicate Barred(nodes: Nodes, path: string, flags: int)
    requires Parent(path) in nodes
  {
    nodes[Parent(path)].stat.ephemeralOwner != 0 || MadePath(nodes, path, flags) in nodes
  }

  /** Which answer a create gets. */
  lemma CreateAnswers(d: Image, sid: int, now: int, path: string, data: Bytes, flags: int, order: seq<string>)
    ensures var err := Live(d, Ask(sid, now, Create(path, data, flags), order)).reply.err;
      && (err == NodeExists <==> path in d.nodes)
      && (err == NoNode <==> path !in d.nodes && IsNodePath(path) && Parent(path) !in d.nodes)
      && (err == BadArguments <==>
            path !in d.nodes && (!IsNodePath(path) || (Parent(path) in d.nodes && Barred(d.nodes, path, flags))))
      && (err == Ok <==>
            path !in d.nodes && IsNodePath(path) && Parent(path) in d.nodes && !Barred(d.nodes, path, flags))
  {
    CreateVerdict(d.nodes, d.lastZxid + 1, path, data, now, sid, flags);
    hide CreateEvent, IsNodePath, Parent, SeqSuffix;
  }

  /** When storage accepts a create, and what it then makes. */
  lemma CreateVerdict(nodes: Nodes, zxid: int, path: string, data: Bytes, now: int, sid: int, flags: int)
    ensures var r := CreateEvent(nodes, zxid, path, data, now, sid, flags);
      && (r.Success? <==> IsNodePath(path) && Parent(path) in nodes && !Barred(nodes, path, flags))
      && (r.Success? ==>
            var owner := if flags % 2 == 1 then sid else 0;
            r.value.Created? && r.value == Created(MadePath(nodes, path, flags), data, now, owner, zxid, r.value.base))
    ensures var r := CreateEvent(nodes, zxid, path, data, now, sid, flags);
      r.Failure? ==>
        && (CreateErrorCode(r.error) == BadArguments <==> !IsNodePath(path))
        && (CreateErrorCode(r.error) == NoNode <==> IsNodePath(path) && Parent(path) !in nodes)
        && (CreateErrorCode(r.error) == NoChildrenForEphemerals <==>
              IsNodePath(path) && Parent(path) in nodes && nodes[Parent(path)].stat.ephemeralOwner != 0)
        && (CreateErrorCode(r.error) == NodeExists <==>
              IsNodePath(path) && Parent(path) in nodes && nodes[Parent(path)].stat.ephemeralOwner == 0)
  {
    hide SeqSuffix, RsplitOnce;
    Bits(flags);
  }

  lemma Bits(flags: int)
    ensures Sequential(flags) <==> flags % 4 >= 2
    ensures Ephemeral(flags) <==> flags % 2 == 1
  {
  }

  /** The tree with one more node, and its parent told. */
  ghost predicate WithNode(nodes: Nodes, after: Nodes, made: string, n: Node, zxid: int) {
    && made !in nodes && Parent(made) in nodes && after.Keys == nodes.Keys + {made} && after[made] == n
    && (forall q :: q in nodes && q != Parent(made) ==> after[q] == nodes[q])
    && var p, p0 := after[Parent(made)], nodes[Parent(made)];
       && p.children == p0.children + {Name(made)} && p.data == p0.data
       && p.stat == p0.stat.(cversion := Wrap32(p0.stat.cversion + 1), pzxid := zxid)
  }

  /** A create is answered Ok exactly if it made one node, with this data, time and owner, at the path it
      names; otherwise the tree is as it was, and it was logged only if storage refused it late. */
  lemma CreateEffect(d: Image, sid: int, now: int, path: string, data: Bytes, flags: int, order: seq<string>)
    ensures var o := Live(d, Ask(sid, now, Create(path, data, flags), order));
      var z := d.lastZxid + 1;
      && (o.reply.err == Ok <==> |o.events| == 1)
      && (o.reply.err == Ok ==>
            var made, owner := MadePath(d.nodes, path, flags), if flags % 2 == 1 then sid else 0;
            && o.reply == Reply(z, Ok, PathBody(made)) && o.events[0].Created? && o.events[0].path == made
            && WithNode(d.nodes, o.image.nodes, made, Node(data, {}, Stat(z, z, now, now, 0, 0, 0, owner, z)), z)
            && o.image == d.(nodes := o.image.nodes, lastZxid := z, ephemerals := o.image.ephemerals)
            && o.logged == Some(WCreate(path, data, now, flags, sid))
            && o.image.ephemerals ==
               if owner != 0 then d.ephemerals[owner := Owned(d.ephemerals, owner) + {made}] else d.ephemerals)
      && (o.reply.err != Ok ==>
            if path !in d.nodes && IsNodePath(path) && Parent(path) in d.nodes
            then && o.image == d.(lastZxid := z) && o.events == [] && o.watchOps == []
                 && o.logged == Some(WCreate(path, data, now, flags, sid)) && o.reply == Reply(z, BadArguments, NoBody)
            else OnlyAnswered(d, o, o.reply.err))
  {
    hide CreateEvent, IsNodePath, Parent, SeqSuffix, Apply, MadePath, WithNode;
    CreateAnswers(d, sid, now, path, data, flags, order);
    CreateVerdict(d.nodes, d.lastZxid + 1, path, data, now, sid, flags);
    var e := CreateEvent(d.nodes, d.lastZxid + 1, path, data, now, sid, flags);
    if e.Success? { AddsNode(d.nodes, e.value); }
  }

  lemma AddsNode(nodes: Nodes, e: Event)
    requires Applicable(nodes, e) && e.Created?
    ensures WithNode(nodes, Apply(nodes, e), e.path,
                     Node(e.data, {}, Stat(e.zxid, e.zxid, e.time, e.time, 0, 0, 0, e.owner, e.zxid)), e.zxid)
  {
    ParentShorter(e.path);
    ApplyAt(nodes, e, e.path);
    hide IsNodePath, SeqSuffix;
  }

  // ------------------------------------------------------------------ set

  ghost predicate WithData(nodes: Nodes, after: Nodes, path: string, data: Bytes, now: int, zxid: int) {
    && path in nodes && after.Keys == nodes.Keys
    && (forall q :: q in nodes && q != path ==> after[q] == nodes[q])
    && var n, n0 := after[path], nodes[path];
       && n.data == data && n.children == n0.children
       && n.stat == n0.stat.(version := Wrap32(n0.stat.version + 1), mzxid := zxid, mtime := now)
  }

  /** A write is applied and answered Ok exactly if the node exists and has the version asked for;
      otherwise nothing happens but the answer. */
  lemma SetAnswers(d: Image, sid: int, now: int, path: string, data: Bytes, version: int, order: seq<string>)
    ensures var o := Live(d, Ask(sid, now, SetData(path, data, version), order));
      var z := d.lastZxid + 1;
      && (path !in d.nodes ==> OnlyAnswered(d, o, NoNode))
      && (path in d.nodes && !VersionMet(d.nodes[path], version) ==> OnlyAnswered(d, o, BadVersion))
      && (path in d.nodes && VersionMet(d.nodes[path], version) ==>
            && WithData(d.nodes, o.image.nodes, path, data, now, z)
            && o.image == d.(nodes := o.image.nodes, lastZxid := z)
            && o.logged == Some(WSet(path, data, now)) && |o.events| == 1
            && var n := o.image.nodes[path]; o.reply == Reply(z, Ok, StatBody(n.stat, |data|, |n.children|)))
  {
  }

  // --------------------------------------------------------------- remove

  ghost predicate WithoutNode(nodes: Nodes, after: Nodes, path: string, zxid: int) {
    && path in nodes && Parent(path) in nodes && Parent(path) != path && after.Keys == nodes.Keys - {path}
    && (forall q :: q in after && q != Parent(path) ==> after[q] == nodes[q])
    && var p, p0 := after[Parent(path)], nodes[Parent(path)];
       && p.children == p0.children - {Name(path)} && p.data == p0.data
       && p.stat == p0.stat.(cversion := Wrap32(p0.stat.cversion + 1), pzxid := zxid)
  }

  /** A delete removes one node and is answered Ok exactly if the node exists, has the version asked for
      and no children. The childless root is the exception: it is answered Ok and logged, and stays. */
  lemma RemoveAnswers(d: Image, sid: int, now: int, path: string, version: int, order: seq<string>)
    requires TreeInv(d.nodes)
    ensures var o := Live(d, Ask(sid, now, Remove(path, version), order));
      var z := d.lastZxid + 1;
      && (path !in d.nodes ==> OnlyAnswered(d, o, NoNode))
      && (path in d.nodes && !VersionMet(d.nodes[path], version) ==> OnlyAnswered(d, o, BadVersion))
      && (path in d.nodes && VersionMet(d.nodes[path], version) && d.nodes[path].children != {} ==>
            OnlyAnswered(d, o, NotEmpty))
      && (path in d.nodes && VersionMet(d.nodes[path], version) && d.nodes[path].children == {} ==>
            && o.logged == Some(WDelete(path)) && o.reply == Reply(z, Ok, NoBody)
            && if path == ROOT
               then o.image == d.(lastZxid := z) && o.events == []
               else && WithoutNode(d.nodes, o.image.nodes, path, z) && o.events == [Deleted(path, z)]
                    && o.image == d.(nodes := o.image.nodes, lastZxid := z, ephemerals := o.image.ephemerals)
                    && var owner := d.nodes[path].stat.ephemeralOwner;
                       if owner == 0 then o.image.ephemerals == d.ephemerals
                       else WithoutEntry(d.ephemerals, o.image.ephemerals, owner, path))
  {
    DeleteNeverPanics(d.nodes, d.lastZxid + 1, path);
    if path in d.nodes && path != ROOT && d.nodes[path].children == {} {
      RemovesNode(d.nodes, path, d.lastZxid + 1);
      if d.nodes[path].stat.ephemeralOwner != 0 {
        DropsEntry(d.ephemerals, d.nodes[path].stat.ephemeralOwner, path);
      }
    }
    hide Apply, WithoutNode, WithoutEntry, TreeInv, RemoveEphemeral, IsNodePath, Parent;
  }

  lemma RemovesNode(nodes: Nodes, path: string, zxid: int)
    requires TreeInv(nodes) && path in nodes && path != ROOT && nodes[path].children == {}
    ensures Applicable(nodes, Deleted(path, zxid)) && WithoutNode(nodes, Apply(nodes, Deleted(path, zxid)), path, zxid)
  {
    LeafDeletable(nodes, path, zxid);
    hide TreeInv, IsNodePath;
  }

  /** The path is no longer the owner's, and the owner has no empty entry; all others are as they were. */
  ghost predicate WithoutEntry(eph: Index, after: Index, owner: int, path: string) {
    && Owned(after, owner) == Owned(eph, owner) - {path} && (owner in after ==> after[owner] != {})
    && after - {owner} == eph - {owner}
  }

  lemma DropsEntry(eph: Index, owner: int, path: string)
    ensures WithoutEntry(eph, RemoveEphemeral(eph, owner, path), owner, path)
  {
  }

  // ------------------------------------------------ sessions and the rest

  /** A session that closes takes with it exactly the nodes it owns. */
  ghost predicate SessionGone(d: Image, after: Image, sid: int) {
    && (forall p :: p in after.nodes <==> p in d.nodes && d.nodes[p].stat.ephemeralOwner != sid)
    && (forall p :: p in after.nodes ==> after.nodes[p].data == d.nodes[p].data)
    && after.timeouts == d.timeouts - {sid} && after.ephemerals == d.ephemerals - {sid}
    && after.nextSessionId == d.nextSessionId
  }

  /** Close is answered at the present zxid, without a record; it clears the session's watches. */
  lemma CloseAnswers(d: Image, sid: int, now: int, order: seq<string>)
    requires Inv(d) && Genuine(d, Ask(sid, now, Close, order))
    ensures var o := Live(d, Ask(sid, now, Close, order));
      && SessionGone(d, o.image, sid) && o.image.lastZxid == d.lastZxid && o.logged == None
      && o.watchOps == [Clear(sid)] && o.reply == Reply(d.lastZxid, Ok, NoBody)
  {
    CloseExact(d, sid);
    CloseAnyOrder(d, sid, order);
  }

  /** Expiry takes one zxid, logs one record, and says nothing to any watch. */
  lemma ExpireAnswers(d: Image, sid: int, order: seq<string>)
    requires Inv(d) && Genuine(d, Expire(sid, order))
    ensures var o := Live(d, Expire(sid, order));
      && SessionGone(d, o.image, sid) && o.image.lastZxid == d.lastZxid + 1
      && o.logged == Some(WCloseSession(sid)) && o.watchOps == []
  {
    var d1 := d.(lastZxid := d.lastZxid + 1);
    assert d1 == Advance(d) && Inv(d1);
    CloseExact(d1, sid);
    CloseAnyOrder(d1, sid, order);
  }

  /** Handshakes, reads and heartbeats touch nothing but the session table and the watch they ask for. */
  lemma OtherAnswers(d: Image, step: Step)
    requires step.CreateSession? || (step.Ask? && (step.request.Read? || step.request.Heartbeat?))
    ensures var o := Live(d, step);
      match step
      case CreateSession(t) =>
        var id := d.nextSessionId;
        && o.image == d.(lastZxid := d.lastZxid + 1, timeouts := d.timeouts[id := t], nextSessionId := id + 1)
        && o.logged == Some(WCreateSession(id, t)) && o.events == [] && o.watchOps == []
      case Ask(sid, _, Read(path, watch), _) =>
        && o.image == d && o.logged == None && o.events == []
        && o.reply == Reply(d.lastZxid, if path in d.nodes then Ok else NoNode, NoBody)
        && o.watchOps == if watch.Some? then [Register(Registration(sid, WatchInfo(path, watch.value)))] else []
      case _ => OnlyAnswered(d, o, Ok)
  {
  }

  // ---------------------------------------------------------------- multi

  /** Which operations succeed inside a transaction, and with which code each other one fails. */
  lemma OpVerdict(s: Staged, sid: int, now: int, op: MultiOp<string>)
    requires TreeInv(s.image.nodes)
    ensures var r, nodes := MultiStep(s, sid, now, op), s.image.nodes;
      if op.CreateOp? then
        && (r == Failure(BadArguments) <==> !IsNodePath(op.path))
        && (r == Failure(NoNode) <==> IsNodePath(op.path) && Parent(op.path) !in nodes)
        && (r == Failure(NoChildrenForEphemerals) <==>
              IsNodePath(op.path) && Parent(op.path) in nodes && nodes[Parent(op.path)].stat.ephemeralOwner != 0)
        && (r == Failure(NodeExists) <==>
              IsNodePath(op.path) && Parent(op.path) in nodes && nodes[Parent(op.path)].stat.ephemeralOwner == 0
              && MadePath(nodes, op.path, op.flags) in nodes)
        && (r.Success? <==> IsNodePath(op.path) && Parent(op.path) in nodes && !Barred(nodes, op.path, op.flags))
      else
        && (r == Failure(NoNode) <==> op.path !in nodes)
        && (r == Failure(BadVersion) <==> op.path in nodes && !VersionMet(nodes[op.path], op.version))
        && var there := op.path in nodes && VersionMet(nodes[op.path], op.version);
           && (r == Failure(BadArguments) <==> op.DeleteOp? && there && op.path == ROOT)
           && (r == Failure(NotEmpty) <==> op.DeleteOp? && there && op.path != ROOT && nodes[op.path].children != {})
           && (r.Success? <==> there && (op.DeleteOp? ==> op.path != ROOT && nodes[op.path].children == {}))
  {
    var nodes := s.image.nodes;
    if op.CreateOp? {
      CreateVerdict(nodes, s.image.lastZxid, op.path, op.data, now, sid, op.flags);
    } else if op.DeleteOp? {
      DeleteNeverPanics(nodes, s.image.lastZxid, op.path);
    }
    hide CreateEvent, DeleteEvent, IsNodePath, Parent, SeqSuffix, TreeInv, Apply;
  }

  /** What a successful operation does to the staging copy, and what it answers. A check changes nothing. */
  lemma OpEffect(s: Staged, sid: int, now: int, op: MultiOp<string>)
    requires TreeInv(s.image.nodes) && MultiStep(s, sid, now, op).Success?
    ensures var t, z := MultiStep(s, sid, now, op).value, s.image.lastZxid;
      && t.image == s.image.(nodes := t.image.nodes, ephemerals := t.image.ephemerals)
      && |t.responses| == |s.responses| + 1 && t.responses[..|s.responses|] == s.responses
      && var answer := t.responses[|s.responses|];
         match op
         case CheckOp(_, _) => t == s.(responses := t.responses) && answer == CheckDone
         case CreateOp(path, data, flags) =>
           var made := MadePath(s.image.nodes, path, flags);
           var owner := if flags % 2 == 1 then sid else 0;
           && WithNode(s.image.nodes, t.image.nodes, made, Node(data, {}, Stat(z, z, now, now, 0, 0, 0, owner, z)), z)
           && answer == CreateDone(made) && t.records == s.records + [MCreate(path, data, flags)]
         case SetOp(path, data, _) =>
           && WithData(s.image.nodes, t.image.nodes, path, data, now, z)
           && answer == SetDone(t.image.nodes[path].stat, |data|, |t.image.nodes[path].children|)
           && t.records == s.records + [MSet(path, data)]
         case DeleteOp(path, _) =>
           && WithoutNode(s.image.nodes, t.image.nodes, path, z)
           && answer == DeleteDone && t.records == s.records + [MDelete(path)]
  {
    OpVerdict(s, sid, now, op);
    hide TreeInv;
    match op
    case CheckOp(_, _) =>
    case CreateOp(path, data, flags) => CreateOpEffect(s, sid, now, path, data, flags);
    case SetOp(path, data, version) =>
    case DeleteOp(path, version) => DeleteOpEffect(s, sid, now, path, version);
  }

  lemma CreateOpEffect(s: Staged, sid: int, now: int, path: string, data: Bytes, flags: int)
    requires MultiStep(s, sid, now, CreateOp(path, data, flags)).Success?
    requires Parent(path) in s.image.nodes
    ensures var t, z := MultiStep(s, sid, now, CreateOp(path, data, flags)).value, s.image.lastZxid;
      var made := MadePath(s.image.nodes, path, flags);
      var owner := if flags % 2 == 1 then sid else 0;
      && WithNode(s.image.nodes, t.image.nodes, made, Node(data, {}, Stat(z, z, now, now, 0, 0, 0, owner, z)), z)
      && t.responses == s.responses + [CreateDone(made)] && t.records == s.records + [MCreate(path, data, flags)]
      && t.image == s.image.(nodes := t.image.nodes, ephemerals := t.image.ephemerals)
  {
    CreateVerdict(s.image.nodes, s.image.lastZxid, path, data, now, sid, flags);
    AddsNode(s.image.nodes, CreateEvent(s.image.nodes, s.image.lastZxid, path, data, now, sid, flags).value);
    hide CreateEvent, IsNodePath, Parent, SeqSuffix, Apply, MadePath, WithNode;
  }

  lemma DeleteOpEffect(s: Staged, sid: int, now: int, path: string, version: int)
    requires TreeInv(s.image.nodes) && MultiStep(s, sid, now, DeleteOp(path, version)).Success?
    ensures var t := MultiStep(s, sid, now, DeleteOp(path, version)).value;
      && WithoutNode(s.image.nodes, t.image.nodes, path, s.image.lastZxid)
      && t.responses == s.responses + [DeleteDone] && t.records == s.records + [MDelete(path)]
      && t.image == s.image.(nodes := t.image.nodes, ephemerals := t.image.ephemerals)
  {
    RemovesNode(s.image.nodes, path, s.image.lastZxid);
    hide TreeInv, Apply, WithoutNode, IsNodePath, Parent;
  }

  /** The staging copy before the `k`-th operation. */
  ghost function StagedAt(d: Image, sid: int, now: int, ops: seq<MultiOp<string>>, k: nat): MultiRun
    requires k <= |ops|
  {
    MultiFold(Begin(d), sid, now, ops[..k])
  }

  lemma {:induction false} RunningSoFar(d: Image, sid: int, now: int, ops: seq<MultiOp<string>>, k: nat)
    requires k <= |ops| && MultiFold(Begin(d), sid, now, ops).Running?
    ensures StagedAt(d, sid, now, ops, k).Running?
    decreases |ops|
  {
    hide MultiStep;
    if k < |ops| {
      assert ops[..|ops| - 1][..k] == ops[..k];
      RunningSoFar(d, sid, now, ops[..|ops| - 1], k);
    } else {
      assert ops[..k] == ops;
    }
  }

  lemma {:induction false} AnswersSoFar(d: Image, sid: int, now: int, ops: seq<MultiOp<string>>, k: nat)
    requires TreeInv(d.nodes) && k < |ops| && MultiFold(Begin(d), sid, now, ops).Running?
    requires StagedAt(d, sid, now, ops, k + 1).Running?
    ensures var s, t := StagedAt(d, sid, now, ops, k + 1).staged, MultiFold(Begin(d), sid, now, ops).staged;
      |s.responses| == k + 1 && |t.responses| == |ops| && t.responses[k] == s.responses[k]
    decreases |ops|
  {
    hide MultiStep, TreeInv;
    MultiFoldSound(d, sid, now, ops);
    MultiFoldSound(d, sid, now, ops[..k + 1]);
    if k + 1 < |ops| {
      var init := ops[..|ops| - 1];
      assert init[..k + 1] == ops[..k + 1];
      AnswersSoFar(d, sid, now, init, k);
      MultiFoldSound(d, sid, now, init);
      OpEffect(MultiFold(Begin(d), sid, now, init).staged, sid, now, ops[|ops| - 1]);
    } else {
      assert ops[..k + 1] == ops;
    }
  }

  /** A transaction commits exactly if each operation succeeds on the copy the earlier ones left. It is
      then answered at one fresh zxid with one answer an operation, in order, and logged as one record. */
  lemma Committed(d: Image, sid: int, now: int, ops: seq<MultiOp<string>>, order: seq<string>, k: nat)
    requires TreeInv(d.nodes) && k < |ops| && MultiFold(Begin(d), sid, now, ops).Running?
    ensures var o := Live(d, Ask(sid, now, Multi(ops), order));
      && o.reply.zxid == o.image.lastZxid == d.lastZxid + 1 && o.reply.err == Ok && o.reply.body.MultiBody?
      && |o.reply.body.responses| == |ops|
      && o.logged.Some? && o.logged.value.WMulti? && o.logged.value.timestamp == now && o.logged.value.sessionId == sid
      && StagedAt(d, sid, now, ops, k).Running? && StagedAt(d, sid, now, ops, k + 1).Running?
      && var s, t := StagedAt(d, sid, now, ops, k).staged, StagedAt(d, sid, now, ops, k + 1).staged;
         && MultiStep(s, sid, now, ops[k]) == Success(t) && |t.responses| == k + 1
         && TreeInv(s.image.nodes) && s.image.lastZxid == d.lastZxid + 1
         && o.reply.body.responses[k] == t.responses[k]
  {
    hide MultiStep, TreeInv;
    RunningSoFar(d, sid, now, ops, k);
    RunningSoFar(d, sid, now, ops, k + 1);
    MultiFoldSound(d, sid, now, ops);
    MultiFoldSound(d, sid, now, ops[..k]);
    AnswersSoFar(d, sid, now, ops, k);
    assert ops[..k + 1][..k] == ops[..k];
  }

  /** What a committed transaction has checked: at each check the node was there, with the version asked
      for. And a transaction fails at a check only if it was not, with the code that says which. */
  lemma ChecksHold(d: Image, sid: int, now: int, ops: seq<MultiOp<string>>, k: nat)
    requires TreeInv(d.nodes) && k < |ops| && ops[k].CheckOp?
    ensures MultiFold(Begin(d), sid, now, ops).Running? ==>
      && StagedAt(d, sid, now, ops, k).Running?
      && var nodes := StagedAt(d, sid, now, ops, k).staged.image.nodes;
         ops[k].path in nodes && VersionMet(nodes[ops[k].path], ops[k].version)
    ensures var run := MultiFold(Begin(d), sid, now, ops);
      run.Aborted? && run.index == k ==>
        && StagedAt(d, sid, now, ops, k).Running?
        && var nodes := StagedAt(d, sid, now, ops, k).staged.image.nodes;
           && (run.code == NoNode || run.code == BadVersion) && (run.code == NoNode <==> ops[k].path !in nodes)
           && (run.code == BadVersion <==> ops[k].path in nodes && !VersionMet(nodes[ops[k].path], ops[k].version))
  {
    hide MultiStep, TreeInv;
    if MultiFold(Begin(d), sid, now, ops).Running? {
      Committed(d, sid, now, ops, [], k);
      OpVerdict(StagedAt(d, sid, now, ops, k).staged, sid, now, ops[k]);
    } else if MultiFold(Begin(d), sid, now, ops).index == k {
      AbortPoint(Begin(d), sid, now, ops);
      MultiFoldSound(d, sid, now, ops[..k]);
      OpVerdict(StagedAt(d, sid, now, ops, k).staged, sid, now, ops[k]);
    }
  }

  /** Where a failure inside a transaction differs from the answer to the same request sent alone: a
      create of the root or one that is logged before storage refuses it, and a delete of the root. */
  predicate FailsUnlike(nodes: Nodes, op: MultiOp<string>) {
    match op
    case CreateOp(path, _, flags) =>
      path == ROOT
      || (path !in nodes && IsNodePath(path) && Parent(path) in nodes && Barred(nodes, path, flags))
    case DeleteOp(path, version) => path == ROOT && path in nodes && VersionMet(nodes[path], version)
    case _ => false
  }

  /** An operation that fails inside a transaction is refused when sent alone, with the same code and
      without any effect, but for the exceptions just named. */
  lemma FailuresMatch(s: Staged, sid: int, now: int, op: MultiOp<string>)
    requires TreeInv(s.image.nodes) && MultiStep(s, sid, now, op).Failure? && !op.CheckOp?
    ensures var d := Before(s);
      OnlyAnswered(d, Live(d, Ask(sid, now, Single(op), [])), MultiStep(s, sid, now, op).error)
      <==> !FailsUnlike(s.image.nodes, op)
  {
    var d := Before(s);
    hide Live, MultiStep, TreeInv, IsNodePath, Parent, SeqSuffix, WithNode, WithData, WithoutNode;
    OpVerdict(s, sid, now, op);
    match op
    case CreateOp(path, data, flags) =>
      CreateAnswers(d, sid, now, path, data, flags, []);
      CreateEffect(d, sid, now, path, data, flags, []);
      if path in s.image.nodes && path != ROOT { ParentsOf(s.image.nodes, path); }
      NotANode(s.image.nodes);
    case SetOp(path, data, version) => SetAnswers(d, sid, now, path, data, version, []);
    case DeleteOp(path, version) => RemoveAnswers(d, sid, now, path, version, []);
  }

  lemma NotANode(nodes: Nodes)
    requires TreeInv(nodes)
    ensures ROOT in nodes && !IsNodePath(ROOT)
  {
    assert RsplitOnce(ROOT) == At("", "");
  }

  lemma ParentsOf(nodes: Nodes, path: string)
    requires TreeInv(nodes) && path in nodes && path != ROOT
    ensures IsNodePath(path) && Parent(path) in nodes && nodes[Parent(path)].stat.ephemeralOwner == 0
  {
    assert Linked(nodes, path);
  }
}
