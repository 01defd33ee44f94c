/** The live path as a step function on values: what each request does to the state, what it logs,
    which watches it fires and what it answers. */
module LivePath {
  import opened Base
  import opened Names
  import opened Tree
  import opened Store
  import opened Reaping
  import opened Watches
  import opened Requests

  /** `events` are the elementary tree changes, `watchOps` the calls into the watch tables, both in
      order; `logged` is the record appended to the log, at index `image.lastZxid`. */
  datatype Outcome = Outcome(
    image: Image,
    logged: Option<WalOp>,
    events: seq<Event>,
    watchOps: seq<WatchOp>,
    reply: Reply)

  function Refuse(d: Image, code: ErrorCode): Outcome {
    Outcome(d, None, [], [], Reply(d.lastZxid, code, NoBody))
  }

  function Advance(d: Image): Image { d.(lastZxid := d.lastZxid + 1) }

  function Fires(path: string, kind: EventType): seq<WatchOp> { [Fire(Firing(path, kind))] }

  function StatReply(d: Image, path: string): Reply
    requires path in d.nodes
  {
    var node := d.nodes[path];
    Reply(d.lastZxid, Ok, StatBody(node.stat, |node.data|, |node.children|))
  }

  /** What `handle_create` checks before it logs. */
  function CreateRefusal(d: Image, path: string): Option<ErrorCode> {
    if path in d.nodes then Some(NodeExists)
    else if !IsNodePath(path) then Some(BadArguments)
    else if Parent(path) !in d.nodes then Some(NoNode)
    else None
  }

  /** After the checks: logged first, whether or not storage then accepts it. */
  function LoggedCreate(d: Image, sid: int, now: int, path: string, data: Bytes, flags: int): Outcome {
    var d1 := Advance(d);
    var record := Some(WCreate(path, data, now, flags, sid));
    match CreateEvent(d1.nodes, d1.lastZxid, path, data, now, sid, flags)
    case Failure(_) => Outcome(d1, record, [], [], Reply(d1.lastZxid, BadArguments, NoBody))
    case Success(e) =>
      Outcome(Perform(d1, e), record, [e], Fires(e.path, NodeCreated), Reply(d1.lastZxid, Ok, PathBody(e.path)))
  }

  function LiveCreate(d: Image, sid: int, now: int, path: string, data: Bytes, flags: int): Outcome {
    match CreateRefusal(d, path)
    case Some(code) => Refuse(d, code)
    case None => LoggedCreate(d, sid, now, path, data, flags)
  }

  /** What `handle_set` checks before it logs. */
  function SetRefusal(d: Image, path: string, version: int): Option<ErrorCode> {
    if path !in d.nodes then Some(NoNode)
    else if version != -1 && d.nodes[path].stat.version != version then Some(BadVersion)
    else None
  }

  function LiveSet(d: Image, now: int, path: string, data: Bytes, version: int): Outcome {
    match SetRefusal(d, path, version)
    case Some(code) => Refuse(d, code)
    case None =>
      var d1 := Advance(d);
      var e := Changed(path, data, now, d1.lastZxid, version);
      var d2 := Perform(d1, e);
      Outcome(d2, Some(WSet(path, data, now)), [e], Fires(path, NodeChanged), StatReply(d2, path))
  }

  /** What `handle_delete` checks before it logs. */
  function RemoveRefusal(d: Image, path: string, version: int): Option<ErrorCode> {
    if path !in d.nodes then Some(NoNode)
    else if version != -1 && d.nodes[path].stat.version != version then Some(BadVersion)
    else if d.nodes[path].children != {} then Some(NotEmpty)
    else None
  }

  /** After the checks. A delete of the childless root is logged, answered Ok and fires, but changes
      nothing. */
  function LoggedRemove(d: Image, path: string): Outcome {
    var d1 := Advance(d);
    var record, reply := Some(WDelete(path)), Reply(d1.lastZxid, Ok, NoBody);
    match DeleteEvent(d1.nodes, d1.lastZxid, path)
    case Failure(_) => Outcome(d1, record, [], Fires(path, NodeDeleted), reply)
    case Success(e) => Outcome(Perform(d1, e), record, [e], Fires(path, NodeDeleted), reply)
  }

  function LiveRemove(d: Image, path: string, version: int): Outcome {
    match RemoveRefusal(d, path, version)
    case Some(code) => Refuse(d, code)
    case None => LoggedRemove(d, path)
  }

  /** The Close request: no record, no new zxid, no firing. Deletions that fail are skipped. */
  function LiveClose(d: Image, sid: int, order: seq<string>): Outcome {
    Outcome(CloseImage(d, sid, order), None, TriedEvents(d.nodes, order, d.lastZxid), [Clear(sid)],
            Reply(d.lastZxid, Ok, NoBody))
  }

  function LiveExpire(d: Image, sid: int, order: seq<string>): Outcome {
    var d1 := Advance(d);
    Outcome(CloseImage(d1, sid, order), Some(WCloseSession(sid)), TriedEvents(d1.nodes, order, d1.lastZxid), [],
            Reply(d1.lastZxid, Ok, NoBody))
  }

  function LiveCreateSession(d: Image, timeoutMs: int): Outcome {
    var id := d.nextSessionId;
    var d1 := Advance(d).(timeouts := d.timeouts[id := timeoutMs], nextSessionId := id + 1);
    Outcome(d1, Some(WCreateSession(id, timeoutMs)), [], [], Reply(d1.lastZxid, Ok, NoBody))
  }

  function LiveRead(d: Image, sid: int, path: string, watch: Option<WatchType>): Outcome {
    var ops := if watch.Some? then [Register(Registration(sid, WatchInfo(path, watch.value)))] else [];
    Outcome(d, None, [], ops, Reply(d.lastZxid, if path in d.nodes then Ok else NoNode, NoBody))
  }

  // ---------------------------------------------------------------- multi

  /** What a transaction has accumulated on its staging copy. */
  datatype Staged = Staged(
    image: Image,
    responses: seq<MultiOpResponse<string>>,
    records: seq<MultiWalOp>,
    events: seq<Event>,
    watchOps: seq<WatchOp>)

  datatype MultiRun = Running(staged: Staged) | Aborted(index: nat, code: ErrorCode)

  function CreateErrorCode(e: StorageError): ErrorCode {
    match e
    case ParentMissing => NoNode
    case AlreadyExists => NodeExists
    case ParentEphemeral => NoChildrenForEphemerals
    case InvalidPathFormat => BadArguments
    case RootNode => BadArguments
    case _ => SystemError
  }

  function Extend(s: Staged, e: Event, record: MultiWalOp, kind: EventType, response: MultiOpResponse<string>): Staged
    requires Applicable(s.image.nodes, e)
  {
    Staged(Perform(s.image, e), s.responses + [response], s.records + [record], s.events + [e],
           s.watchOps + Fires(e.path, kind))
  }

  function MultiStep(s: Staged, sid: int, now: int, op: MultiOp<string>): Result<Staged, ErrorCode> {
    var nodes, zxid := s.image.nodes, s.image.lastZxid;
    if op.CreateOp? then
      match CreateEvent(nodes, zxid, op.path, op.data, now, sid, op.flags)
      case Failure(e) => Failure(CreateErrorCode(e))
      case Success(e) => Success(Extend(s, e, MCreate(op.path, op.data, op.flags), NodeCreated, CreateDone(e.path)))
    else if op.path !in nodes then Failure(NoNode)
    else if op.version != -1 && op.version != nodes[op.path].stat.version then Failure(BadVersion)
    else
      match op
      case CheckOp(_, _) => Success(s.(responses := s.responses + [CheckDone]))
      case SetOp(path, data, version) =>
        var e := Changed(path, data, now, zxid, version);
        var node := Apply(nodes, e)[path];
        Success(Extend(s, e, MSet(path, data), NodeChanged, SetDone(node.stat, |node.data|, |node.children|)))
      case DeleteOp(path, _) =>
        if path == ROOT then Failure(BadArguments)
        else if nodes[path].children != {} then Failure(NotEmpty)
        else
          match DeleteEvent(nodes, zxid, path)
          case Failure(_) => Failure(SystemError) // the `expect`; DeleteNeverPanics shows it never fails
          case Success(e) => Success(Extend(s, e, MDelete(path), NodeDeleted, DeleteDone))
  }

  /** The operations in order on one staging copy, up to the first that fails. */
  function MultiFold(s: Staged, sid: int, now: int, ops: seq<MultiOp<string>>): MultiRun {
    if ops == [] then Running(s)
    else
      var n := |ops| - 1;
      match MultiFold(s, sid, now, ops[..n])
      case Aborted(i, code) => Aborted(i, code)
      case Running(t) =>
        match MultiStep(t, sid, now, ops[n])
        case Failure(code) => Aborted(n, code)
        case Success(u) => Running(u)
  }

  function Begin(d: Image): Staged { Staged(Advance(d), [], [], [], []) }

  function Errors(code: ErrorCode, n: nat): seq<MultiOpResponse<string>> {
    seq(n, _ => Error(code))
  }

  /** Before the failing operation Error(Ok), at it its code, after it RuntimeInconsistency. */
  function AbortResponses(index: nat, code: ErrorCode, count: nat): seq<MultiOpResponse<string>>
    requires index < count
  {
    Errors(Ok, index) + [Error(code)] + Errors(RuntimeInconsistency, count - index - 1)
  }

  lemma {:induction false} AbortIndex(s: Staged, sid: int, now: int, ops: seq<MultiOp<string>>)
    ensures MultiFold(s, sid, now, ops).Aborted? ==> MultiFold(s, sid, now, ops).index < |ops|
  {
    if ops != [] { AbortIndex(s, sid, now, ops[..|ops| - 1]); }
  }

  function LiveMulti(d: Image, sid: int, now: int, ops: seq<MultiOp<string>>): Outcome {
    AbortIndex(Begin(d), sid, now, ops);
    match MultiFold(Begin(d), sid, now, ops)
    case Aborted(i, code) =>
      Outcome(d, None, [], [], Reply(d.lastZxid, Ok, MultiBody(AbortResponses(i, code, |ops|))))
    case Running(s) =>
      Outcome(s.image, Some(WMulti(s.records, now, sid)), s.events, s.watchOps,
              Reply(s.image.lastZxid, Ok, MultiBody(s.responses)))
  }

  // ------------------------------------------------------------- dispatch

  function Live(d: Image, step: Step): Outcome {
    match step
    case CreateSession(timeoutMs) => LiveCreateSession(d, timeoutMs)
    case Expire(sid, order) => LiveExpire(d, sid, order)
    case Ask(sid, now, request, order) =>
      match request
      case Create(path, data, flags) => LiveCreate(d, sid, now, path, data, flags)
      case SetData(path, data, version) => LiveSet(d, now, path, data, version)
      case Remove(path, version) => LiveRemove(d, path, version)
      case Multi(ops) => LiveMulti(d, sid, now, ops)
      case Close => LiveClose(d, sid, order)
      case Read(path, watch) => LiveRead(d, sid, path, watch)
      case Heartbeat => Outcome(d, None, [], [], Reply(d.lastZxid, Ok, NoBody))
  }

  /** Session ids start at 1, so the id 0 that marks persistent nodes is never a session's; and a hash
      set lists its elements once each. */
  ghost predicate Genuine(d: Image, step: Step) {
    match step
    case CreateSession(_) => true
    case Expire(sid, order) => sid != 0 && Listing(order, Owned(d.ephemerals, sid))
    case Ask(sid, _, request, order) => sid != 0 && (request.Close? ==> Listing(order, Owned(d.ephemerals, sid)))
  }

  // ----------------------------------------------- every step is its events

  /** The state reached is the one the events lead to, they all carry its zxid, the tree invariant
      holds, and the ephemeral index is still exact if it was. */
  ghost predicate Sound(d: Image, after: Image, events: seq<Event>) {
    && Fold(d.nodes, events) == Some(after.nodes) && AllAt(events, after.lastZxid)
    && TreeInv(after.nodes) && (Exact(d) ==> Exact(after))
  }

  lemma PerformSound(d: Image, e: Event)
    requires TreeInv(d.nodes) && Applicable(d.nodes, e) && e.zxid == d.lastZxid
    ensures Sound(d, Perform(d, e), [e])
  {
    ExtendSound(d, d, [], e);
    assert [] + [e] == [e];
  }

  lemma CloseSound(d: Image, sid: int, order: seq<string>)
    requires TreeInv(d.nodes) && sid != 0 && Listing(order, Owned(d.ephemerals, sid))
    ensures Sound(d, CloseImage(d, sid, order), TriedEvents(d.nodes, order, d.lastZxid))
  {
    hide TreeInv, Exact, Tried, TriedEvents, Listing, Closed;
    TriedFolds(d.nodes, order, d.lastZxid);
    FoldKeepsTreeInv(d.nodes, TriedEvents(d.nodes, order, d.lastZxid));
    if Exact(d) {
      CloseAnyOrder(d, sid, order);
      CloseKeepsInv(d, sid);
    }
  }

  lemma ExtendSound(d: Image, image: Image, events: seq<Event>, e: Event)
    requires Fold(d.nodes, events) == Some(image.nodes) && AllAt(events, image.lastZxid)
    requires TreeInv(image.nodes) && (Exact(d) ==> Exact(image))
    requires Applicable(image.nodes, e) && e.zxid == image.lastZxid
    ensures Sound(d, Perform(image, e), events + [e])
  {
    hide TreeInv, IndexExact, Fold;
    ApplyKeepsTreeInv(image.nodes, e);
    if Exact(image) { PerformKeepsIndex(image, e); }
    FoldSnoc(d.nodes, events, e);
  }

  /** A successful operation either changes nothing or extends the staging copy by one event. */
  lemma MultiStepEvent(s: Staged, sid: int, now: int, op: MultiOp<string>)
    requires MultiStep(s, sid, now, op).Success?
    ensures var t := MultiStep(s, sid, now, op).value;
      && |t.responses| == |s.responses| + 1
      && ((t.image == s.image && t.events == s.events)
          || exists e :: && Applicable(s.image.nodes, e) && e.zxid == s.image.lastZxid
                         && t.image == Perform(s.image, e) && t.events == s.events + [e])
  {
    var t := MultiStep(s, sid, now, op).value;
    if !op.CheckOp? {
      var e := t.events[|s.events|];
      assert t.events == s.events + [e];
    }
  }

  lemma MultiStepSound(d: Image, s: Staged, sid: int, now: int, op: MultiOp<string>)
    requires Sound(d, s.image, s.events) && MultiStep(s, sid, now, op).Success?
    ensures var t := MultiStep(s, sid, now, op).value;
      Sound(d, t.image, t.events) && t.image.lastZxid == s.image.lastZxid && |t.responses| == |s.responses| + 1
  {
    var t := MultiStep(s, sid, now, op).value;
    MultiStepEvent(s, sid, now, op);
    if !(t.image == s.image && t.events == s.events) {
      var e :| && Applicable(s.image.nodes, e) && e.zxid == s.image.lastZxid
               && t.image == Perform(s.image, e) && t.events == s.events + [e];
      ExtendSound(d, s.image, s.events, e);
    }
  }

  lemma {:induction false} MultiFoldSound(d: Image, sid: int, now: int, ops: seq<MultiOp<string>>)
    requires TreeInv(d.nodes)
    ensures var run := MultiFold(Begin(d), sid, now, ops);
      run.Running? ==> && Sound(d, run.staged.image, run.staged.events)
                       && run.staged.image.lastZxid == d.lastZxid + 1
                       && |run.staged.responses| == |ops|
  {
    if ops != [] {
      var n := |ops| - 1;
      MultiFoldSound(d, sid, now, ops[..n]);
      var before := MultiFold(Begin(d), sid, now, ops[..n]);
      if before.Running? && MultiStep(before.staged, sid, now, ops[n]).Success? {
        MultiStepSound(d, before.staged, sid, now, ops[n]);
      }
    }
  }

  ghost predicate StepIsSound(d: Image, o: Outcome) {
    && Sound(d, o.image, o.events)
    && o.image.lastZxid == d.lastZxid + (if o.logged.Some? then 1 else 0)
  }

  lemma CreateSound(d: Image, sid: int, now: int, path: string, data: Bytes, flags: int)
    requires TreeInv(d.nodes)
    ensures StepIsSound(d, LiveCreate(d, sid, now, path, data, flags))
  {
    hide TreeInv, Sound, CreateEvent, CreateRefusal, Applicable, Apply;
    var e := CreateEvent(d.nodes, d.lastZxid + 1, path, data, now, sid, flags);
    NothingSound(d, d);
    NothingSound(d, Advance(d));
    if e.Success? {
      PerformSound(Advance(d), e.value);
      AdvanceSound(d, Perform(Advance(d), e.value), [e.value]);
    }
  }

  lemma SetSound(d: Image, now: int, path: string, data: Bytes, version: int)
    requires TreeInv(d.nodes)
    ensures StepIsSound(d, LiveSet(d, now, path, data, version))
  {
    var e := Changed(path, data, now, d.lastZxid + 1, version);
    if Applicable(d.nodes, e) { PerformSound(Advance(d), e); }
  }

  lemma RemoveSound(d: Image, path: string, version: int)
    requires TreeInv(d.nodes)
    ensures StepIsSound(d, LiveRemove(d, path, version))
  {
    var e := DeleteEvent(d.nodes, d.lastZxid + 1, path);
    if e.Success? { PerformSound(Advance(d), e.value); }
  }

  /** Every step, accepted or refused, keeps the invariants; its effect on the tree is exactly its
      events, at the state's zxid; a record takes one zxid, and no record takes none. */
  lemma StepSound(d: Image, step: Step)
    requires TreeInv(d.nodes) && Genuine(d, step)
    ensures StepIsSound(d, Live(d, step))
  {
    hide TreeInv, Sound, LiveCreate, LiveSet, LiveRemove, MultiFold;
    match step
    case CreateSession(_) => NothingSound(d, Live(d, step).image);
    case Expire(sid, order) =>
      CloseSound(Advance(d), sid, order);
      AdvanceSound(d, Live(d, step).image, Live(d, step).events);
    case Ask(sid, now, request, order) =>
      match request
      case Create(path, data, flags) => CreateSound(d, sid, now, path, data, flags);
      case SetData(path, data, version) => SetSound(d, now, path, data, version);
      case Remove(path, version) => RemoveSound(d, path, version);
      case Multi(ops) => MultiSound(d, sid, now, ops);
      case Close => CloseSound(d, sid, order);
      case Read(_, _) => NothingSound(d, d);
      case Heartbeat => NothingSound(d, d);
  }

  lemma NothingSound(d: Image, after: Image)
    requires TreeInv(d.nodes) && after.nodes == d.nodes && after.ephemerals == d.ephemerals
    ensures Sound(d, after, [])
  {
  }

  lemma AdvanceSound(d: Image, after: Image, events: seq<Event>)
    requires Sound(Advance(d), after, events)
    ensures Sound(d, after, events)
  {
  }

  lemma MultiSound(d: Image, sid: int, now: int, ops: seq<MultiOp<string>>)
    requires TreeInv(d.nodes)
    ensures StepIsSound(d, LiveMulti(d, sid, now, ops))
  {
    hide TreeInv, Sound, MultiFold;
    AbortIndex(Begin(d), sid, now, ops);
    NothingSound(d, d);
    MultiFoldSound(d, sid, now, ops);
  }

  // ------------------------------------------------------ multi is serial

  /** A transaction aborted leaves everything as it was and says where and why it failed. */
  lemma AbortedMultiChangesNothing(d: Image, sid: int, now: int, ops: seq<MultiOp<string>>)
    requires MultiFold(Begin(d), sid, now, ops).Aborted?
    ensures var o := LiveMulti(d, sid, now, ops);
      var Aborted(i, code) := MultiFold(Begin(d), sid, now, ops);
      && o.image == d && o.logged == None && o.events == [] && o.watchOps == []
      && o.reply.zxid == d.lastZxid && o.reply.body.MultiBody?
      && |o.reply.body.responses| == |ops| && i < |ops|
      && MultiFold(Begin(d), sid, now, ops[..i]).Running?
      && MultiStep(MultiFold(Begin(d), sid, now, ops[..i]).staged, sid, now, ops[i]) == Failure(code)
      && forall k :: 0 <= k < |ops| ==>
           o.reply.body.responses[k] == Error(if k < i then Ok else if k == i then code else RuntimeInconsistency)
  {
    AbortIndex(Begin(d), sid, now, ops);
    AbortPoint(Begin(d), sid, now, ops);
  }

  lemma {:induction false} AbortPoint(s: Staged, sid: int, now: int, ops: seq<MultiOp<string>>)
    requires MultiFold(s, sid, now, ops).Aborted?
    ensures var Aborted(i, code) := MultiFold(s, sid, now, ops);
      && i < |ops| && MultiFold(s, sid, now, ops[..i]).Running?
      && MultiStep(MultiFold(s, sid, now, ops[..i]).staged, sid, now, ops[i]) == Failure(code)
  {
    if ops != [] {
      var n := |ops| - 1;
      if MultiFold(s, sid, now, ops[..n]).Aborted? {
        AbortPoint(s, sid, now, ops[..n]);
        var i := MultiFold(s, sid, now, ops[..n]).index;
        assert ops[..n][..i] == ops[..i];
      }
    }
  }

  lemma {:induction false} AbortSticks(s: Staged, sid: int, now: int, ops: seq<MultiOp<string>>, i: nat)
    requires i <= |ops| && MultiFold(s, sid, now, ops[..i]).Aborted?
    ensures MultiFold(s, sid, now, ops) == MultiFold(s, sid, now, ops[..i])
    decreases |ops|
  {
    if i < |ops| {
      assert ops[..|ops| - 1][..i] == ops[..i];
      AbortSticks(s, sid, now, ops[..|ops| - 1], i);
    } else {
      assert ops[..i] == ops;
    }
  }

  /** The single request that corresponds to a write inside a transaction. */
  function Single(op: MultiOp<string>): Request
    requires !op.CheckOp?
  {
    match op
    case CreateOp(path, data, flags) => Create(path, data, flags)
    case SetOp(path, data, version) => SetData(path, data, version)
    case DeleteOp(path, version) => Remove(path, version)
  }

  /** The answer to a single write, as an answer inside a transaction. */
  function AsResponse(body: Body): MultiOpResponse<string> {
    match body
    case PathBody(path) => CreateDone(path)
    case StatBody(stat, dataLength, numChildren) => SetDone(stat, dataLength, numChildren)
    case _ => DeleteDone
  }

  /** The step from `s` to `t` is what this outcome of a single request says. */
  ghost predicate DoneAlike(s: Staged, t: Staged, o: Outcome) {
    && t.image == o.image && t.events == s.events + o.events && t.watchOps == s.watchOps + o.watchOps
    && t.responses == s.responses + [AsResponse(o.reply.body)] && o.reply.err == Ok
  }

  /** An operation that succeeds inside a transaction does exactly what the corresponding single
      request does at the same zxid: same state, events, notifications and answer. One exception
      decides it: a sequential create whose requested path exists is refused when sent alone and
      accepted inside a transaction. */
  lemma MultiMatchesSingles(s: Staged, sid: int, now: int, op: MultiOp<string>)
    requires TreeInv(s.image.nodes) && MultiStep(s, sid, now, op).Success?
    ensures op.CheckOp? ==> MultiStep(s, sid, now, op).value == s.(responses := s.responses + [CheckDone])
    ensures !op.CheckOp? ==>
      (DoneAlike(s, MultiStep(s, sid, now, op).value, Live(Before(s), Ask(sid, now, Single(op), [])))
       <==> !(op.CreateOp? && op.path in s.image.nodes))
  {
    hide TreeInv, DoneAlike, LiveCreate, LiveSet, LiveRemove;
    match op
    case CreateOp(_, _, _) => CreateMatches(s, sid, now, op);
    case SetOp(_, _, _) => SetMatches(s, sid, now, op);
    case DeleteOp(_, _) => DeleteMatches(s, sid, now, op);
    case CheckOp(_, _) => CheckChanges(s, sid, now, op);
  }

  /** The state in which a single request would take the transaction's zxid. */
  function Before(s: Staged): Image { s.image.(lastZxid := s.image.lastZxid - 1) }

  lemma CheckChanges(s: Staged, sid: int, now: int, op: MultiOp<string>)
    requires op.CheckOp? && MultiStep(s, sid, now, op).Success?
    ensures MultiStep(s, sid, now, op).value == s.(responses := s.responses + [CheckDone])
  {
  }

  lemma CreateMatches(s: Staged, sid: int, now: int, op: MultiOp<string>)
    requires op.CreateOp? && MultiStep(s, sid, now, op).Success?
    ensures DoneAlike(s, MultiStep(s, sid, now, op).value, LiveCreate(Before(s), sid, now, op.path, op.data, op.flags))
            <==> op.path !in s.image.nodes
  {
    assert Advance(Before(s)) == s.image;
    CreateCouldBe(s.image.nodes, s.image.lastZxid, op.path, op.data, now, sid, op.flags);
    hide CreateEvent, Apply;
  }

  lemma CreateCouldBe(nodes: Nodes, zxid: int, path: string, data: Bytes, now: int, sid: int, flags: int)
    requires CreateEvent(nodes, zxid, path, data, now, sid, flags).Success?
    ensures IsNodePath(path) && Parent(path) in nodes
  {
  }

  lemma SetMatches(s: Staged, sid: int, now: int, op: MultiOp<string>)
    requires op.SetOp? && MultiStep(s, sid, now, op).Success?
    ensures DoneAlike(s, MultiStep(s, sid, now, op).value, LiveSet(Before(s), now, op.path, op.data, op.version))
  {
    assert Advance(Before(s)) == s.image;
  }

  lemma DeleteMatches(s: Staged, sid: int, now: int, op: MultiOp<string>)
    requires op.DeleteOp? && MultiStep(s, sid, now, op).Success?
    ensures DoneAlike(s, MultiStep(s, sid, now, op).value, LiveRemove(Before(s), op.path, op.version))
  {
    assert Advance(Before(s)) == s.image;
    hide Apply;
  }
}
