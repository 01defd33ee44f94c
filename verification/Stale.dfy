/** Runs in which ephemeral nodes are deleted by request. Replay does not take such a node out of its
    index, so the replayed index lags behind the live one. Which entries it lags behind by can be told
    from the run, and they decide whether and how a later start goes wrong. */
module Stale {
  import opened Base
  import opened Names
  import opened Tree
  import opened Store
  import opened Reaping
  import opened Requests
  import opened LivePath
  import opened Recovery
  import opened Runs

  /** An entry that the replayed index has and the live index has not. */
  datatype Claim = Claim(owner: int, path: string)

  /** A path created again for its owner is no longer a stale entry. */
  function Shed(stale: set<Claim>, e: Event): set<Claim> {
    if e.Created? then stale - {Claim(e.owner, e.path)} else stale
  }

  function ShedAll(stale: set<Claim>, events: seq<Event>): set<Claim> {
    if events == [] then stale else Shed(ShedAll(stale, events[..|events| - 1]), events[|events| - 1])
  }

  function ClaimsOf(stale: set<Claim>, sid: int): set<string> { set c | c in stale && c.owner == sid :: c.path }

  ghost predicate NoEmptyEntry(eph: Index) { forall id :: id in eph ==> eph[id] != {} }

  ghost predicate Lags(live: Index, replayed: Index, stale: set<Claim>) {
    && NoEmptyEntry(live) && NoEmptyEntry(replayed)
    && forall id :: Owned(replayed, id) == Owned(live, id) + ClaimsOf(stale, id)
  }

  ghost predicate Apart(live: Index, stale: set<Claim>) {
    forall c :: c in stale ==> c.owner != 0 && IsNodePath(c.path) && c.path !in Owned(live, c.owner)
  }

  /** The replayed state is the live one, but for the stale entries of its index. */
  ghost predicate Lagging(d: Image, r: Image, stale: set<Claim>) {
    r == d.(ephemerals := r.ephemerals) && Lags(d.ephemerals, r.ephemerals, stale) && Apart(d.ephemerals, stale)
  }

  // ---------------------------------------------------------- one event

  lemma OwnedAfterAdd(eph: Index, id: int, p: string, j: int)
    requires NoEmptyEntry(eph)
    ensures Owned(AddEphemeral(eph, id, p), j) == Owned(eph, j) + (if j == id then {p} else {})
    ensures NoEmptyEntry(AddEphemeral(eph, id, p))
  {
    if j == id { assert p in Owned(AddEphemeral(eph, id, p), j); }
  }

  lemma OwnedAfterRemove(eph: Index, id: int, p: string, j: int)
    requires NoEmptyEntry(eph)
    ensures Owned(RemoveEphemeral(eph, id, p), j) == Owned(eph, j) - (if j == id then {p} else {})
    ensures NoEmptyEntry(RemoveEphemeral(eph, id, p))
  {
  }

  lemma ClaimsWithout(stale: set<Claim>, c: Claim, j: int)
    ensures ClaimsOf(stale - {c}, j) == ClaimsOf(stale, j) - (if j == c.owner then {c.path} else {})
    ensures ClaimsOf(stale + {c}, j) == ClaimsOf(stale, j) + (if j == c.owner then {c.path} else {})
  {
    forall p | p in ClaimsOf(stale, j) && !(j == c.owner && p == c.path) ensures p in ClaimsOf(stale - {c}, j) {
      assert Claim(j, p) in stale - {c};
    }
    forall p | p in ClaimsOf(stale, j) ensures p in ClaimsOf(stale + {c}, j) { assert Claim(j, p) in stale + {c}; }
    if j == c.owner { assert c in stale + {c}; }
  }

  lemma AddLags(live: Index, replayed: Index, stale: set<Claim>, id: int, p: string)
    requires Lags(live, replayed, stale) && Apart(live, stale)
    ensures Lags(AddEphemeral(live, id, p), AddEphemeral(replayed, id, p), stale - {Claim(id, p)})
    ensures Apart(AddEphemeral(live, id, p), stale - {Claim(id, p)})
  {
    hide AddEphemeral, ClaimsOf, NoEmptyEntry, Owned, IsNodePath;
    OwnedAfterAdd(live, id, p, id);
    OwnedAfterAdd(replayed, id, p, id);
    forall j ensures Owned(AddEphemeral(replayed, id, p), j) ==
                     Owned(AddEphemeral(live, id, p), j) + ClaimsOf(stale - {Claim(id, p)}, j)
    {
      OwnedAfterAdd(live, id, p, j);
      OwnedAfterAdd(replayed, id, p, j);
      ClaimsWithout(stale, Claim(id, p), j);
    }
    forall c | c in stale - {Claim(id, p)} ensures c.path !in Owned(AddEphemeral(live, id, p), c.owner) {
      OwnedAfterAdd(live, id, p, c.owner);
    }
  }

  lemma RemoveLags(live: Index, replayed: Index, stale: set<Claim>, id: int, p: string)
    requires Lags(live, replayed, stale) && Apart(live, stale) && p in Owned(live, id)
    ensures Lags(RemoveEphemeral(live, id, p), RemoveEphemeral(replayed, id, p), stale)
    ensures Apart(RemoveEphemeral(live, id, p), stale)
  {
    hide RemoveEphemeral, NoEmptyEntry, Owned, IsNodePath;
    OwnedAfterRemove(live, id, p, id);
    OwnedAfterRemove(replayed, id, p, id);
    forall j ensures Owned(RemoveEphemeral(replayed, id, p), j) ==
                     Owned(RemoveEphemeral(live, id, p), j) + ClaimsOf(stale, j)
    {
      OwnedAfterRemove(live, id, p, j);
      OwnedAfterRemove(replayed, id, p, j);
    }
    forall c | c in stale ensures c.path !in Owned(RemoveEphemeral(live, id, p), c.owner) {
      OwnedAfterRemove(live, id, p, c.owner);
    }
  }

  /** The live index loses an entry that the replayed one keeps. */
  lemma ForgetLags(live: Index, replayed: Index, stale: set<Claim>, id: int, p: string)
    requires Lags(live, replayed, stale) && Apart(live, stale) && p in Owned(live, id) && id != 0 && IsNodePath(p)
    ensures Lags(RemoveEphemeral(live, id, p), replayed, stale + {Claim(id, p)})
    ensures Apart(RemoveEphemeral(live, id, p), stale + {Claim(id, p)})
  {
    hide RemoveEphemeral, ClaimsOf, NoEmptyEntry, Owned, IsNodePath;
    OwnedAfterRemove(live, id, p, id);
    forall j ensures Owned(replayed, j) ==
                     Owned(RemoveEphemeral(live, id, p), j) + ClaimsOf(stale + {Claim(id, p)}, j)
    {
      OwnedAfterRemove(live, id, p, j);
      ClaimsWithout(stale, Claim(id, p), j);
    }
    forall c | c in stale + {Claim(id, p)} ensures c.path !in Owned(RemoveEphemeral(live, id, p), c.owner) {
      OwnedAfterRemove(live, id, p, c.owner);
    }
  }

  lemma OwnedWhenExact(d: Image, p: string)
    requires Exact(d) && p in d.nodes && d.nodes[p].stat.ephemeralOwner != 0
    ensures p in Owned(d.ephemerals, d.nodes[p].stat.ephemeralOwner)
  {
    assert Owners(d.nodes)[p] == d.nodes[p].stat.ephemeralOwner;
  }

  lemma EventLags(d: Image, r: Image, stale: set<Claim>, e: Event)
    requires Exact(d) && Lagging(d, r, stale) && Applicable(d.nodes, e)
    ensures Lagging(Perform(d, e), Perform(r, e), Shed(stale, e))
  {
    hide Exact, Lags, Apart, Apply, AddEphemeral, RemoveEphemeral;
    if e.Created? {
      if e.owner != 0 {
        AddLags(d.ephemerals, r.ephemerals, stale, e.owner, e.path);
      } else {
        NoClaimOfNobody(d, stale, e.path);
      }
    } else if e.Deleted? && d.nodes[e.path].stat.ephemeralOwner != 0 {
      OwnedWhenExact(d, e.path);
      RemoveLags(d.ephemerals, r.ephemerals, stale, d.nodes[e.path].stat.ephemeralOwner, e.path);
    }
  }

  lemma NoClaimOfNobody(d: Image, stale: set<Claim>, p: string)
    requires Apart(d.ephemerals, stale)
    ensures stale - {Claim(0, p)} == stale
  {
  }

  // ------------------------------------------------------- a transaction

  /** What a successful operation does is what replaying its record does, sheds included. */
  lemma OpEvent(s: Staged, stale: set<Claim>, sid: int, now: int, op: MultiOp<string>)
    requires MultiStep(s, sid, now, op).Success?
    ensures var t := MultiStep(s, sid, now, op).value;
      (t.records == s.records && t.image == s.image && t.events == s.events)
      || (&& |t.records| == |s.records| + 1 && t.records[..|s.records|] == s.records
          && |t.events| == |s.events| + 1 && t.events[..|s.events|] == s.events
          && var w := WriteEvent(s.image, t.records[|s.records|], now, sid);
             && w.Some? && t.image == Perform(s.image, w.value)
             && Shed(stale, t.events[|s.events|]) == Shed(stale, w.value))
  {
  }

  lemma SameWrite(d: Image, r: Image, op: MultiWalOp, now: int, sid: int)
    requires d.nodes == r.nodes && d.lastZxid == r.lastZxid
    ensures WriteEvent(d, op, now, sid) == WriteEvent(r, op, now, sid)
  {
  }

  lemma {:induction false} MultiLags(d: Image, r: Image, stale: set<Claim>, sid: int, now: int,
                                     ops: seq<MultiOp<string>>)
    requires Inv(d) && Lagging(d, r, stale) && MultiFold(Begin(d), sid, now, ops).Running?
    ensures var s := MultiFold(Begin(d), sid, now, ops).staged;
      var m := ReplayMulti(Advance(r), s.records, now, sid);
      m.Some? && Lagging(s.image, m.value, ShedAll(stale, s.events))
  {
    hide TreeInv, Exact, MultiStep, WriteEvent, Lags, Apart, Perform, Fold, Shed;
    if ops == [] {
    } else {
      var n := |ops| - 1;
      MultiLags(d, r, stale, sid, now, ops[..n]);
      var s, t := MultiFold(Begin(d), sid, now, ops[..n]).staged, MultiFold(Begin(d), sid, now, ops).staged;
      var m := ReplayMulti(Advance(r), s.records, now, sid).value;
      MultiFoldSound(d, sid, now, ops[..n]);
      OpEvent(s, ShedAll(stale, s.events), sid, now, ops[n]);
      if t.records != s.records {
        SameWrite(s.image, m, t.records[|s.records|], now, sid);
        EventLags(s.image, m, ShedAll(stale, s.events), WriteEvent(s.image, t.records[|s.records|], now, sid).value);
      } else {
        assert t.records != s.records || t.image == s.image;
      }
    }
  }

  // -------------------------------------------------------------- a step

  /** The stale entries after a step, told from the live state alone. */
  function StaleAfter(d: Image, stale: set<Claim>, step: Step): set<Claim> {
    if step.Ask? && step.request.Remove? then
      var path := step.request.path;
      if RemoveRefusal(d, path, step.request.version).None? && d.nodes[path].stat.ephemeralOwner != 0
      then stale + {Claim(d.nodes[path].stat.ephemeralOwner, path)}
      else stale
    else ShedAll(stale, Live(d, step).events)
  }

  /** What can be checked before a step to know that replay will follow it in all but the index. */
  predicate WeakGuard(d: Image, stale: set<Claim>, step: Step) {
    match step
    case CreateSession(_) => true
    case Expire(sid, _) => ClaimsOf(stale, sid) == {}
    case Ask(sid, _, request, _) =>
      match request
      case Create(path, _, flags) => CreateGuard(d, path, flags)
      case SetData(_, _, _) => true
      case Remove(path, version) => path == ROOT ==> RemoveRefusal(d, path, version).Some?
      case Multi(_) => true
      case Close => sid !in d.timeouts && sid !in d.ephemerals
      case Read(_, _) => true
      case Heartbeat => true
  }

  /** The step's record replays from the lagging state to one that lags behind the live one by the
      entries told, in every order of hash sets. */
  ghost predicate Follows(d: Image, r: Image, stale: set<Claim>, step: Step) {
    var x := ReplayLog(r, Logged(d, step));
    x.Some? && Lagging(Live(d, step).image, x.value, StaleAfter(d, stale, step)) && Certain(r, Logged(d, step))
  }

  lemma FollowsOne(d: Image, r: Image, stale: set<Claim>, step: Step)
    requires Live(d, step).logged.Some? && AnyOrder(r, Live(d, step).logged.value)
    requires var o := Live(d, step);
      var x := ReplayEntry(r, Entry(o.image.lastZxid, o.logged.value));
      x.Some? && Lagging(o.image, x.value, StaleAfter(d, stale, step))
    ensures Follows(d, r, stale, step)
  {
    hide ReplayEntry, Live, Lagging, AnyOrder, StaleAfter;
    var o := Live(d, step);
    var entry := Entry(o.image.lastZxid, o.logged.value);
    assert Logged(d, step) == [entry];
    ReplayOne(r, entry);
    CertainOne(r, entry);
  }

  lemma CertainOne(r: Image, entry: Entry)
    requires AnyOrder(r, entry.op)
    ensures Certain(r, [entry])
  {
    hide AnyOrder, ReplayEntry;
    assert [entry][..0] == [];
  }

  lemma FollowsNone(d: Image, r: Image, stale: set<Claim>, step: Step)
    requires Live(d, step).logged.None? && Lagging(Live(d, step).image, r, StaleAfter(d, stale, step))
    ensures Follows(d, r, stale, step)
  {
    hide Live, Lagging, StaleAfter;
    NothingLogged(r);
  }

  lemma NothingLogged(r: Image)
    ensures ReplayLog(r, []) == Some(r) && Certain(r, [])
  {
  }

  lemma CreateFollows(d: Image, r: Image, stale: set<Claim>, step: Step)
    requires Inv(d) && Lagging(d, r, stale) && step.Ask? && step.request.Create? && WeakGuard(d, stale, step)
    ensures Follows(d, r, stale, step)
  {
    hide TreeInv, Exact, Lags, Apart, Apply;
    var Create(path, data, flags) := step.request;
    if CreateRefusal(d, path).Some? {
      FollowsNone(d, r, stale, step);
    } else {
      var d1 := Advance(d);
      AdvanceKeeps(d);
      GuardedCreate(d, step.sessionId, step.now, path, data, flags);
      var e := CreateEvent(d1.nodes, d1.lastZxid, path, data, step.now, step.sessionId, flags).value;
      hide CreateEvent, CreateGuard, CreateRefusal, Perform;
      hide Shed, ShedAll, SeqSuffix;
      EventLags(d1, Advance(r), stale, e);
      OneShed(stale, e);
      FollowsOne(d, r, stale, step);
    }
  }

  lemma GuardedCreate(d: Image, sid: int, now: int, path: string, data: Bytes, flags: int)
    requires CreateGuard(d, path, flags) && CreateRefusal(d, path).None?
    ensures CreateEvent(d.nodes, d.lastZxid + 1, path, data, now, sid, flags).Success?
  {
  }

  lemma OneShed(stale: set<Claim>, e: Event)
    ensures ShedAll(stale, [e]) == Shed(stale, e)
  {
    assert [e][..0] == [];
  }

  lemma SetFollows(d: Image, r: Image, stale: set<Claim>, step: Step)
    requires Inv(d) && Lagging(d, r, stale) && step.Ask? && step.request.SetData?
    ensures Follows(d, r, stale, step)
  {
    hide TreeInv, Exact, Lags, Apart;
    var SetData(path, data, version) := step.request;
    if SetRefusal(d, path, version).Some? {
      FollowsNone(d, r, stale, step);
    } else {
      var e := Changed(path, data, step.now, d.lastZxid + 1, version);
      OneShed(stale, e);
      FollowsOne(d, r, stale, step);
    }
  }

  lemma RemoveFollows(d: Image, r: Image, stale: set<Claim>, step: Step)
    requires Inv(d) && Lagging(d, r, stale) && step.Ask? && step.request.Remove? && WeakGuard(d, stale, step)
    ensures Follows(d, r, stale, step)
  {
    hide Exact, Lags, Apart, Apply, TreeInv;
    var Remove(path, version) := step.request;
    if RemoveRefusal(d, path, version).Some? {
      FollowsNone(d, r, stale, step);
    } else {
      DeleteNeverPanics(d.nodes, d.lastZxid + 1, path);
      var owner := d.nodes[path].stat.ephemeralOwner;
      if owner != 0 {
        OwnedWhenExact(d, path);
        ForgetLags(d.ephemerals, r.ephemerals, stale, owner, path);
      }
      hide IsNodePath, RemoveEphemeral, Owned;
      FollowsOne(d, r, stale, step);
    }
  }

  lemma MultiFollows(d: Image, r: Image, stale: set<Claim>, step: Step)
    requires Inv(d) && Lagging(d, r, stale) && step.Ask? && step.request.Multi?
    ensures Follows(d, r, stale, step)
  {
    hide TreeInv, Exact, Lags, Apart, MultiFold, ReplayMulti;
    var ops := step.request.ops;
    AbortIndex(Begin(d), step.sessionId, step.now, ops);
    if MultiFold(Begin(d), step.sessionId, step.now, ops).Aborted? {
      FollowsNone(d, r, stale, step);
    } else {
      MultiLags(d, r, stale, step.sessionId, step.now, ops);
      MultiFoldSound(d, step.sessionId, step.now, ops);
      FollowsOne(d, r, stale, step);
    }
  }

  lemma ExpireFollows(d: Image, r: Image, stale: set<Claim>, step: Step)
    requires Inv(d) && Lagging(d, r, stale) && step.Expire? && Genuine(d, step) && WeakGuard(d, stale, step)
    ensures Follows(d, r, stale, step)
  {
    hide TreeInv, Exact, Apart, Prunable, Leaves, Reap, Tried, TriedEvents, Listing;
    var d1, sid := Advance(d), step.sessionId;
    assert Owned(r.ephemerals, sid) == Owned(d.ephemerals, sid);
    AdvanceKeeps(d);
    OwnedAreLeaves(d1, sid);
    LeavesPrunable(d1.nodes, Owned(d1.ephemerals, sid));
    CloseAnyOrder(d1, sid, step.order);
    OnlyDeleted(d1.nodes, stale, step.order, d1.lastZxid);
    CloseLags(d.ephemerals, r.ephemerals, stale, sid);
    FollowsOne(d, r, stale, step);
  }

  lemma AdvanceKeeps(d: Image)
    requires Inv(d)
    ensures Inv(Advance(d))
  {
  }

  lemma CloseLags(live: Index, replayed: Index, stale: set<Claim>, sid: int)
    requires Lags(live, replayed, stale) && Apart(live, stale) && ClaimsOf(stale, sid) == {}
    ensures Lags(live - {sid}, replayed - {sid}, stale) && Apart(live - {sid}, stale)
  {
    hide ClaimsOf, IsNodePath;
    forall id ensures Owned(replayed - {sid}, id) == Owned(live - {sid}, id) + ClaimsOf(stale, id) {
      assert Owned(replayed, id) == Owned(live, id) + ClaimsOf(stale, id);
    }
  }

  lemma {:induction false} OnlyDeleted(nodes: Nodes, stale: set<Claim>, order: seq<string>, zxid: int)
    ensures ShedAll(stale, TriedEvents(nodes, order, zxid)) == stale
  {
    hide Tried, DeleteEvent;
    if order != [] {
      OnlyDeleted(nodes, stale, order[..|order| - 1], zxid);
      TriedSnoc(nodes, order, zxid);
    }
  }

  /** Under the weak guard every step is followed. */
  lemma StepFollows(d: Image, r: Image, stale: set<Claim>, step: Step)
    requires Inv(d) && Lagging(d, r, stale) && Genuine(d, step) && WeakGuard(d, stale, step)
    ensures Follows(d, r, stale, step)
  {
    hide TreeInv, Exact, Lags, Apart, Follows;
    match step
    case CreateSession(_) => SessionFollows(d, r, stale, step);
    case Expire(_, _) => ExpireFollows(d, r, stale, step);
    case Ask(sid, now, request, order) =>
      match request
      case Create(_, _, _) => CreateFollows(d, r, stale, step);
      case SetData(_, _, _) => SetFollows(d, r, stale, step);
      case Remove(_, _) => RemoveFollows(d, r, stale, step);
      case Multi(_) => MultiFollows(d, r, stale, step);
      case Close => CloseFollows(d, r, stale, step);
      case Read(_, _) => FollowsNone(d, r, stale, step);
      case Heartbeat => FollowsNone(d, r, stale, step);
  }

  lemma SessionFollows(d: Image, r: Image, stale: set<Claim>, step: Step)
    requires Lagging(d, r, stale) && step.CreateSession?
    ensures Follows(d, r, stale, step)
  {
    hide Lags, Apart;
    FollowsOne(d, r, stale, step);
  }

  lemma CloseFollows(d: Image, r: Image, stale: set<Claim>, step: Step)
    requires Lagging(d, r, stale) && step.Ask? && step.request.Close? && Genuine(d, step) && WeakGuard(d, stale, step)
    ensures Follows(d, r, stale, step)
  {
    hide Lags, Apart;
    CloseIdleIff(d, step.sessionId, step.order);
    OnlyDeleted(d.nodes, stale, step.order, d.lastZxid);
    FollowsNone(d, r, stale, step);
  }

  // ---------------------------------------------- expiry over stale entries

  /** The stale paths exist, and every node below one of them is stale or owned as well. */
  ghost predicate Reapable(nodes: Nodes, owned: set<string>, extra: set<string>) {
    forall p :: p in extra ==>
      p in nodes && forall c :: c in nodes && c != ROOT && Parent(c) == p ==> c in owned + extra
  }

  lemma ReapableIff(nodes: Nodes, owned: set<string>, extra: set<string>)
    requires TreeInv(nodes) && Leaves(nodes, owned) && forall p :: p in extra ==> IsNodePath(p)
    ensures Prunable(nodes, owned + extra) <==> Reapable(nodes, owned, extra)
  {
    hide TreeInv, Leaves, Prunable, Reapable, IsNodePath;
    LeavesPrunable(nodes, owned);
    if Prunable(nodes, owned + extra) { PrunableReapable(nodes, owned, extra); }
    if Reapable(nodes, owned, extra) { ReapablePrunable(nodes, owned, extra); }
  }

  lemma PrunableReapable(nodes: Nodes, owned: set<string>, extra: set<string>)
    requires Prunable(nodes, owned + extra)
    ensures Reapable(nodes, owned, extra)
  {
    hide IsNodePath, Parent;
    var gone := owned + extra;
    forall p | p in extra
      ensures p in nodes && forall c :: c in nodes && c != ROOT && Parent(c) == p ==> c in owned + extra
    {
      assert p in gone;
    }
  }

  lemma ReapablePrunable(nodes: Nodes, owned: set<string>, extra: set<string>)
    requires Reapable(nodes, owned, extra) && Prunable(nodes, owned) && forall p :: p in extra ==> IsNodePath(p)
    ensures Prunable(nodes, owned + extra)
  {
    hide IsNodePath, Parent;
    forall c | c in nodes && c != ROOT && Parent(c) in owned + extra ensures c in owned + extra {
      var p := Parent(c);
      if p in owned { assert c in owned; } else { assert p in extra; }
    }
  }

  lemma KeysReaped(nodes: Nodes, gone: set<string>, zxid: int)
    ensures Reap(nodes, gone, zxid).Keys == nodes.Keys - gone
  {
  }

  /** The expiry of a session that has stale entries. Its record replays, in some order, if and only if
      every stale path has been created again and has nothing below it that is neither stale nor the
      session's; and then the replayed tree lacks exactly those paths, which the live tree keeps. */
  lemma ExpiryIff(d: Image, r: Image, stale: set<Claim>, sid: int, order: seq<string>)
    requires Inv(d) && Lagging(d, r, stale) && sid != 0 && Listing(order, Owned(d.ephemerals, sid))
    ensures var x := ReplayEntry(r, Entry(d.lastZxid + 1, WCloseSession(sid)));
      var extra, live := ClaimsOf(stale, sid), LiveExpire(d, sid, order).image;
      && (x.None? <==> !Reapable(d.nodes, Owned(d.ephemerals, sid), extra))
      && (x.Some? ==> extra <= live.nodes.Keys && x.value.nodes.Keys == live.nodes.Keys - extra)
  {
    hide TreeInv, Exact, Leaves, Reap, Tried, Listing, IsNodePath, Reapable;
    var owned, extra := Owned(d.ephemerals, sid), ClaimsOf(stale, sid);
    AdvanceKeeps(d);
    OwnedAreLeaves(d, sid);
    CloseAnyOrder(Advance(d), sid, order);
    ReapableIff(d.nodes, owned, extra);
    KeysReaped(d.nodes, owned, d.lastZxid + 1);
    KeysReaped(d.nodes, owned + extra, d.lastZxid + 1);
    ExtraApart(d, stale, sid);
  }

  lemma ExtraApart(d: Image, stale: set<Claim>, sid: int)
    requires Apart(d.ephemerals, stale)
    ensures ClaimsOf(stale, sid) !! Owned(d.ephemerals, sid)
    ensures forall p :: p in ClaimsOf(stale, sid) ==> IsNodePath(p)
  {
  }

  /** Replaying gives the live state in all but the ephemeral index. */
  ghost predicate AllButIndex(live: Image, x: Option<Image>) {
    x.Some? && x.value.(ephemerals := live.ephemerals) == live
  }

  lemma ExpiryBreaks(d: Image, r: Image, stale: set<Claim>, step: Step)
    requires Inv(d) && Lagging(d, r, stale) && step.Expire? && Genuine(d, step) && !WeakGuard(d, stale, step)
    ensures !AllButIndex(Live(d, step).image, ReplayLog(r, Logged(d, step)))
  {
    hide TreeInv, Exact, Lags, Apart, ReplayEntry, ReplayLog, Reapable, Tried, Listing;
    ExpiryIff(d, r, stale, step.sessionId, step.order);
    ReplayOne(r, Logged(d, step)[0]);
  }

  lemma CloseBreaks(d: Image, r: Image, stale: set<Claim>, step: Step)
    requires Inv(d) && Lagging(d, r, stale) && step.Ask? && step.request.Close? && Genuine(d, step)
    requires !WeakGuard(d, stale, step)
    ensures !AllButIndex(Live(d, step).image, ReplayLog(r, Logged(d, step)))
  {
    hide TreeInv, Lags, Apart, Tried, Listing, Reap;
    var sid := step.sessionId;
    NothingLogged(r);
    CloseAnyOrder(d, sid, step.order);
    if sid in d.ephemerals {
      var p :| p in d.ephemerals[sid];
      KeysReaped(d.nodes, Owned(d.ephemerals, sid), d.lastZxid);
      OwnedAreLeaves(d, sid);
    }
  }

  lemma CreateBreaks(d: Image, r: Image, stale: set<Claim>, step: Step)
    requires Lagging(d, r, stale) && step.Ask? && step.request.Create? && !WeakGuard(d, stale, step)
    ensures ReplayLog(r, Logged(d, step)) == None
  {
    hide Lags, Apart, ReplayLog;
    var Create(path, data, flags) := step.request;
    CreateReplaysIff(d, step.sessionId, step.now, path, data, flags);
    SameWrite(Advance(d), Advance(r), MCreate(path, data, flags), step.now, step.sessionId);
    hide WriteEvent, CreateEvent, CreateGuard, CreateRefusal;
    ReplayOne(r, Logged(d, step)[0]);
  }

  lemma RemoveBreaks(d: Image, r: Image, stale: set<Claim>, step: Step)
    requires Inv(d) && Lagging(d, r, stale) && step.Ask? && step.request.Remove? && !WeakGuard(d, stale, step)
    ensures ReplayLog(r, Logged(d, step)) == None
  {
    hide Exact, Lags, Apart, ReplayLog, TreeInv;
    DeleteNeverPanics(d.nodes, d.lastZxid + 1, ROOT);
    ReplayOne(r, Logged(d, step)[0]);
  }

  /** The weak guard is exact: a step's record replays to the live state in all but the index if and only
      if the step meets it. */
  lemma WeakGuardIff(d: Image, r: Image, stale: set<Claim>, step: Step)
    requires Inv(d) && Lagging(d, r, stale) && Genuine(d, step)
    ensures AllButIndex(Live(d, step).image, ReplayLog(r, Logged(d, step))) <==> WeakGuard(d, stale, step)
  {
    hide TreeInv, Exact, Lags, Apart, ReplayLog, Live, Logged;
    if WeakGuard(d, stale, step) {
      StepFollows(d, r, stale, step);
    } else if step.Expire? {
      ExpiryBreaks(d, r, stale, step);
    } else if step.request.Close? {
      CloseBreaks(d, r, stale, step);
    } else if step.request.Create? {
      CreateBreaks(d, r, stale, step);
    } else {
      RemoveBreaks(d, r, stale, step);
    }
  }

  // ------------------------------------------------------------ whole runs

  /** The stale entries at the end of a run: ephemeral nodes deleted by a request of their own, and not
      created again for their owner since. */
  ghost function StaleOf(acts: seq<Action>): set<Claim> {
    if acts == [] then {}
    else
      var init, last := acts[..|acts| - 1], acts[|acts| - 1];
      match last
      case Do(step) => StaleAfter(Run(init).image, StaleOf(init), step)
      case Restart => StaleOf(init)
  }

  /** Every step meets the weak guard when its turn comes, and no restart finds stale entries. */
  ghost predicate WeaklyGuarded(acts: seq<Action>) {
    acts != [] ==>
      var init, last := acts[..|acts| - 1], acts[|acts| - 1];
      var d := Run(init).image;
      WeaklyGuarded(init) && match last
                             case Do(step) => Genuine(d, step) && WeakGuard(d, StaleOf(init), step)
                             case Restart => StaleOf(init) == {}
  }

  lemma WeaklySnoc(acts: seq<Action>, a: Action)
    ensures (acts + [a])[..|acts|] == acts
    ensures a.Do? ==>
      && StaleOf(acts + [a]) == StaleAfter(Run(acts).image, StaleOf(acts), a.step)
      && (WeaklyGuarded(acts + [a]) <==>
            && WeaklyGuarded(acts) && Genuine(Run(acts).image, a.step)
            && WeakGuard(Run(acts).image, StaleOf(acts), a.step))
  {
    hide Run, StaleAfter, Genuine, WeakGuard;
    assert (acts + [a])[..|acts|] == acts;
  }

  /** Replay succeeds, in every order, with a state that lags behind by exactly the stale entries told. */
  lemma {:induction false} RunLags(acts: seq<Action>) returns (r: Image)
    requires WeaklyGuarded(acts)
    ensures ReplayLog(EMPTY_IMAGE, Run(acts).log) == Some(r) && Certain(EMPTY_IMAGE, Run(acts).log)
    ensures Inv(Run(acts).image) && Lagging(Run(acts).image, r, StaleOf(acts))
  {
    hide TreeInv, Exact, Lags, Apart, Genuine, WeakGuard, Live, ReplayLog, Logged, Certain, StaleAfter;
    if acts == [] {
      EmptyInv();
      NothingToReplay(Run(acts).log);
      r := EMPTY_IMAGE;
      NothingLags();
    } else {
      var init, last := acts[..|acts| - 1], acts[|acts| - 1];
      var m := RunLags(init);
      if last.Do? {
        var d := Run(init).image;
        StepSound(d, last.step);
        StepFollows(d, m, StaleOf(init), last.step);
        LoggedOnce(d, last.step);
        ReplayMore(Run(init).log, m, Logged(d, last.step));
        r := ReplayLog(m, Logged(d, last.step)).value;
      } else {
        NothingStale(Run(init).image, m);
        r := m;
      }
    }
  }

  lemma NothingLags()
    ensures Lagging(EMPTY_IMAGE, EMPTY_IMAGE, {})
  {
  }

  /** Without stale entries the two indexes are the same map. */
  lemma NothingStale(d: Image, r: Image)
    requires Lagging(d, r, {})
    ensures d == r
  {
    var a, b := d.ephemerals, r.ephemerals;
    forall id ensures Owned(a, id) == Owned(b, id) { assert ClaimsOf({}, id) == {}; }
    forall id | id in a ensures id in b && a[id] == b[id] { assert Owned(a, id) == Owned(b, id); }
    forall id | id in b ensures id in a { assert Owned(a, id) == Owned(b, id); }
  }

  lemma SomethingStale(d: Image, r: Image, stale: set<Claim>)
    requires Lagging(d, r, stale) && stale != {}
    ensures d != r
  {
    var c :| c in stale;
    assert c.path in ClaimsOf(stale, c.owner);
    assert c.path in Owned(r.ephemerals, c.owner);
  }

  ghost predicate KeepsAllButIndex(acts: seq<Action>) {
    AllButIndex(Run(acts).image, ReplayLog(EMPTY_IMAGE, Run(acts).log))
  }

  /** Replay keeps the live state in all but the index exactly as long as the weak guard is met: no
      create refused after it was logged, no delete of the root, no Close of a known session, and no
      expiry of a session with stale entries. */
  lemma WeakGuardIsNecessary(acts: seq<Action>, step: Step)
    requires WeaklyGuarded(acts) && Genuine(Run(acts).image, step)
    ensures KeepsAllButIndex(acts + [Do(step)]) <==> WeaklyGuarded(acts + [Do(step)])
  {
    hide TreeInv, Exact, Lags, Apart, Genuine, WeakGuard, Live, ReplayLog, Logged, Certain, StaleAfter, WeaklyGuarded;
    var r := RunLags(acts);
    var d := Run(acts).image;
    RunSnoc(acts, Do(step));
    WeaklySnoc(acts, Do(step));
    LoggedOnce(d, step);
    ReplayMore(Run(acts).log, r, Logged(d, step));
    WeakGuardIff(d, r, StaleOf(acts), step);
  }

  ghost predicate AlwaysAllButIndex(acts: seq<Action>) { forall k :: 0 <= k <= |acts| ==> KeepsAllButIndex(acts[..k]) }

  lemma AlwaysSnoc(acts: seq<Action>)
    requires acts != []
    ensures AlwaysAllButIndex(acts) <==> AlwaysAllButIndex(acts[..|acts| - 1]) && KeepsAllButIndex(acts)
  {
    hide KeepsAllButIndex;
    var init := acts[..|acts| - 1];
    assert acts[..|acts|] == acts;
    forall k | 0 <= k <= |init| ensures init[..k] == acts[..k] { }
  }

  /** A run whose restarts change nothing can be started again at every point with everything but the
      index intact if and only if it is weakly guarded. */
  lemma {:induction false} WeaklyGuardedIff(acts: seq<Action>)
    requires Legal(acts) && SteadyFrom(acts, 0)
    ensures WeaklyGuarded(acts) <==> AlwaysAllButIndex(acts)
  {
    hide Exec, Genuine, WeakGuard, KeepsAllButIndex, AlwaysAllButIndex, StaleAfter, Lagging, Faithful, ReplayLog;
    hide Inv, Certain;
    if acts == [] {
      FirstKept();
    } else {
      var init, last := acts[..|acts| - 1], acts[|acts| - 1];
      WeaklyGuardedIff(init);
      AlwaysSnoc(acts);
      assert init + [last] == acts;
      if WeaklyGuarded(init) {
        if last.Do? { WeakGuardIsNecessary(init, last.step); } else { SteadyRestart(init); }
      }
    }
  }

  lemma FirstKept()
    ensures AlwaysAllButIndex([])
  {
    hide ReplayLog;
    NothingToReplay([]);
    assert forall acts: seq<Action> :: |acts| == 0 ==> acts == [];
  }

  lemma SteadyRestart(acts: seq<Action>)
    requires WeaklyGuarded(acts) && Faithful(acts)
    ensures StaleOf(acts) == {} && KeepsAllButIndex(acts + [Restart])
  {
    hide ReplayLog, WeaklyGuarded, Lagging, StaleOf, Certain, Inv;
    var r := RunLags(acts);
    if StaleOf(acts) != {} { SomethingStale(Run(acts).image, r, StaleOf(acts)); }
    RunSnoc(acts, Restart);
  }

  /** What the expiry of a session with stale entries does to every later start. The start fails, now
      and for good, if some stale path is missing or has something foreign below it; otherwise a server
      can start, but has lost exactly the stale paths, which the running server still has. */
  lemma ExpiryDamages(acts: seq<Action>, sid: int, order: seq<string>, later: seq<Entry>)
    requires WeaklyGuarded(acts) && Genuine(Run(acts).image, Expire(sid, order))
    ensures var d, next := Run(acts).image, acts + [Do(Expire(sid, order))];
      var extra, x := ClaimsOf(StaleOf(acts), sid), ReplayLog(EMPTY_IMAGE, Run(next).log);
      && Legal(next)
      && (x.None? <==> !Reapable(d.nodes, Owned(d.ephemerals, sid), extra))
      && (x.None? ==> ReplayLog(EMPTY_IMAGE, Run(next).log + later).None?)
      && (x.Some? ==> extra <= Run(next).image.nodes.Keys && x.value.nodes.Keys == Run(next).image.nodes.Keys - extra)
      && (Leaves(d.nodes, Owned(d.ephemerals, sid) + extra) ==> Certain(EMPTY_IMAGE, Run(next).log))
  {
    hide TreeInv, Exact, Lagging, Reapable, ReplayLog, ReplayEntry, Certain, WeaklyGuarded, StaleOf, Listing;
    hide ClaimsOf, Owned;
    hide Run, CloseImage, TriedEvents, Leaves, AnyOrder;
    var r := RunLags(acts);
    var d, step := Run(acts).image, Expire(sid, order);
    WeaklyIsLegal(acts);
    RunSnoc(acts, Do(step));
    ExpiryIff(d, r, StaleOf(acts), sid, order);
    ReplayOne(r, Entry(d.lastZxid + 1, WCloseSession(sid)));
    LogOfExpiry(Run(acts), sid, order);
    if Leaves(d.nodes, Owned(d.ephemerals, sid) + ClaimsOf(StaleOf(acts), sid)) {
      ExpiryCertain(d, r, StaleOf(acts), sid);
    }
    ReplayMore(Run(acts).log, r, [Entry(d.lastZxid + 1, WCloseSession(sid))]);
    ReplayConcat(EMPTY_IMAGE, Run(acts + [Do(step)]).log, later);
  }

  lemma ExpiryCertain(d: Image, r: Image, stale: set<Claim>, sid: int)
    requires Lagging(d, r, stale) && Leaves(d.nodes, Owned(d.ephemerals, sid) + ClaimsOf(stale, sid))
    ensures Certain(r, [Entry(d.lastZxid + 1, WCloseSession(sid))])
  {
    hide Leaves, Owned, ClaimsOf;
    CertainOne(r, Entry(d.lastZxid + 1, WCloseSession(sid)));
  }

  lemma LogOfExpiry(s: RunState, sid: int, order: seq<string>)
    ensures Exec(s, Do(Expire(sid, order))) ==
            RunState(LiveExpire(s.image, sid, order).image, s.log + [Entry(s.image.lastZxid + 1, WCloseSession(sid))])
  {
    hide Tried, TriedEvents;
  }

  lemma {:induction false} WeaklyIsLegal(acts: seq<Action>)
    requires WeaklyGuarded(acts)
    ensures Legal(acts)
  {
    hide Exec, Genuine, WeakGuard, ReplayLog, Lagging, Inv, Certain, StaleAfter;
    if acts != [] {
      var init := acts[..|acts| - 1];
      WeaklyIsLegal(init);
      var r := RunLags(init);
    }
  }

  /** A guarded run is weakly guarded, without stale entries. */
  lemma {:induction false} GuardedHasNothingStale(acts: seq<Action>)
    requires Guarded(acts)
    ensures WeaklyGuarded(acts) && StaleOf(acts) == {}
  {
    hide Exec, Genuine, ReplayLog, Live, Guard, WeakGuard, StaleAfter;
    if acts != [] {
      var init, last := acts[..|acts| - 1], acts[|acts| - 1];
      GuardedHasNothingStale(init);
      if last.Do? { GuardIsStronger(Run(init).image, last.step); }
    }
  }

  lemma GuardIsStronger(d: Image, step: Step)
    requires Guard(d, step)
    ensures WeakGuard(d, {}, step) && StaleAfter(d, {}, step) == {}
  {
    NothingToShed(Live(d, step).events);
  }

  lemma {:induction false} NothingToShed(events: seq<Event>)
    ensures ShedAll({}, events) == {}
  {
    if events != [] { NothingToShed(events[..|events| - 1]); }
  }
}
