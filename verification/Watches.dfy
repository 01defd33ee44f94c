/** Watches: five forward maps and a reverse map against one plain set of registrations. */
module Watches {
  import opened Base
  import opened Names

  datatype WatchType = Watch | ListWatch | PersistentWatch | PersistentListWatch | PersistentRecursiveWatch

  datatype WatchInfo = WatchInfo(path: string, watchType: WatchType)

  datatype EventType = NodeCreated | NodeDeleted | NodeChanged | NodeChild

  /** A notification addressed to one session. */
  datatype WatchEvent = WatchEvent(sessionId: int, kind: EventType, path: string)

  /** A call of `fire`: what happened, and where. */
  datatype Firing = Firing(path: string, kind: EventType)

  datatype Registration = Registration(sessionId: int, info: WatchInfo)

  // ------------------------------------------------- reference semantics

  /** The watches an event wakes: the data watch on the node itself, and the list watches on the
      parent of a created node and on a deleted node and its parent. */
  function Woken(f: Firing): set<WatchInfo> {
    var parent := if RsplitOnce(f.path).NoSlash? then {} else {WatchInfo(Parent(f.path), ListWatch)};
    {WatchInfo(f.path, Watch)} +
    match f.kind
    case NodeChanged => {}
    case NodeCreated => parent
    case NodeDeleted => {WatchInfo(f.path, ListWatch)} + parent
    case NodeChild => {}
  }

  lemma WokenSets(path: string, kind: EventType)
    ensures var data, list := WatchInfo(path, Watch), WatchInfo(path, ListWatch);
      var above := WatchInfo(Parent(path), ListWatch);
      Woken(Firing(path, kind)) ==
      match kind
      case NodeCreated => if RsplitOnce(path).At? then {data} + {above} else {data}
      case NodeDeleted => if RsplitOnce(path).At? then {data} + {list} + {above} else {data} + {list}
      case _ => {data}
  {
  }

  ghost function On(regs: set<Registration>, info: WatchInfo): set<Registration> {
    set r | r in regs && r.info == info
  }

  ghost function Among(regs: set<Registration>, infos: set<WatchInfo>): set<Registration> {
    set r | r in regs && r.info in infos
  }

  ghost function Matching(regs: set<Registration>, f: Firing): set<Registration> {
    Among(regs, Woken(f))
  }

  /** What a woken registration is told: the event itself, or that the child list changed. */
  function Notice(f: Firing, r: Registration): WatchEvent {
    WatchEvent(r.sessionId, if r.info.watchType == Watch then f.kind else NodeChild, r.info.path)
  }

  ghost function NoticesTo(matching: set<Registration>, f: Firing): set<WatchEvent> {
    set r | r in matching :: Notice(f, r)
  }

  ghost function Notices(regs: set<Registration>, f: Firing): set<WatchEvent> {
    NoticesTo(Matching(regs, f), f)
  }

  ghost function Each(ids: set<int>, info: WatchInfo): set<Registration> {
    set id | id in ids :: Registration(id, info)
  }

  ghost function Told(regs: set<Registration>, kind: EventType, path: string): set<WatchEvent> {
    set r | r in regs :: WatchEvent(r.sessionId, kind, path)
  }

  lemma ToldOneMore(regs: set<Registration>, r: Registration, kind: EventType, path: string)
    requires r !in regs && forall q :: q in regs ==> q.info == r.info
    ensures multiset(Told(regs + {r}, kind, path)) ==
            multiset(Told(regs, kind, path)) + multiset{WatchEvent(r.sessionId, kind, path)}
  {
    assert Told(regs + {r}, kind, path) == Told(regs, kind, path) + {WatchEvent(r.sessionId, kind, path)};
    assert WatchEvent(r.sessionId, kind, path) !in Told(regs, kind, path);
  }

  ghost function AfterFiring(regs: set<Registration>, f: Firing): set<Registration> {
    regs - Matching(regs, f)
  }

  ghost function OfSession(regs: set<Registration>, id: int): set<Registration> {
    set r | r in regs && r.sessionId == id
  }

  /** No two woken registrations are told the same thing: one notice for each. */
  lemma NoticesAreDistinct(f: Firing, r: Registration, s: Registration)
    requires r.info in Woken(f) && s.info in Woken(f) && Notice(f, r) == Notice(f, s)
    ensures r == s
  {
  }

  lemma {:induction false} OneNoticeEach(matching: set<Registration>, f: Firing)
    requires forall r :: r in matching ==> r.info in Woken(f)
    ensures |NoticesTo(matching, f)| == |matching|
  {
    if matching != {} {
      var r :| r in matching;
      var rest := matching - {r};
      OneNoticeEach(rest, f);
      var told := NoticesTo(rest, f);
      if Notice(f, r) in told {
        var q :| q in rest && Notice(f, q) == Notice(f, r);
        NoticesAreDistinct(f, q, r);
      }
      assert NoticesTo(matching, f) == told + {Notice(f, r)};
    }
  }

  /** Draining one more woken watch adds its registrations' notices, once each. */
  lemma WokenStep(regs: set<Registration>, done: set<WatchInfo>, info: WatchInfo, f: Firing)
    requires done + {info} <= Woken(f)
    ensures var drained := On(regs - Among(regs, done), info);
      && Among(regs, done + {info}) == Among(regs, done) + drained
      && multiset(NoticesTo(Among(regs, done + {info}), f)) ==
         multiset(NoticesTo(Among(regs, done), f))
         + multiset(Told(drained, if info.watchType == Watch then f.kind else NodeChild, info.path))
  {
    var drained := On(regs - Among(regs, done), info);
    var kind := if info.watchType == Watch then f.kind else NodeChild;
    var a, b := NoticesTo(Among(regs, done), f), Told(drained, kind, info.path);
    assert Among(regs, done + {info}) == Among(regs, done) + drained;
    assert NoticesTo(Among(regs, done + {info}), f) == a + b;
    forall e | e in a && e in b ensures false {
      var r :| r in Among(regs, done) && Notice(f, r) == e;
      var q :| q in drained && Notice(f, q) == e;
      NoticesAreDistinct(f, r, q);
    }
  }

  // ----------------------------------------------------------- whole runs

  /** A call into the watch tables, or their loss at a restart. */
  datatype WatchOp = Register(reg: Registration) | Clear(id: int) | Fire(firing: Firing) | Forget

  ghost function After(regs: set<Registration>, op: WatchOp): set<Registration> {
    match op
    case Register(r) => regs + {r}
    case Clear(id) => regs - OfSession(regs, id)
    case Fire(f) => AfterFiring(regs, f)
    case Forget => {}
  }

  ghost function AfterAll(regs: set<Registration>, ops: seq<WatchOp>): set<Registration> {
    if ops == [] then regs else After(AfterAll(regs, ops[..|ops| - 1]), ops[|ops| - 1])
  }

  /** Everything the firings among `ops` deliver, starting from `regs`. */
  ghost function DeliveredBy(regs: set<Registration>, ops: seq<WatchOp>): multiset<WatchEvent> {
    if ops == [] then multiset{}
    else
      var op, init := ops[|ops| - 1], ops[..|ops| - 1];
      DeliveredBy(regs, init) + if op.Fire? then multiset(Notices(AfterAll(regs, init), op.firing)) else multiset{}
  }

  lemma WatchSnoc(regs: set<Registration>, ops: seq<WatchOp>, op: WatchOp)
    ensures AfterAll(regs, ops + [op]) == After(AfterAll(regs, ops), op)
    ensures DeliveredBy(regs, ops + [op]) ==
            DeliveredBy(regs, ops) + if op.Fire? then multiset(Notices(AfterAll(regs, ops), op.firing)) else multiset{}
  {
    assert (ops + [op])[..|ops|] == ops;
  }

  lemma {:induction false} WatchConcat(regs: set<Registration>, a: seq<WatchOp>, b: seq<WatchOp>)
    ensures AfterAll(regs, a + b) == AfterAll(AfterAll(regs, a), b)
    ensures DeliveredBy(regs, a + b) == DeliveredBy(regs, a) + DeliveredBy(AfterAll(regs, a), b)
  {
    hide After, Notices;
    ConcatSnoc(a, b);
    if b != [] { WatchConcat(regs, a, b[..|b| - 1]); }
  }

  ghost function Outstanding(ops: seq<WatchOp>): set<Registration> { AfterAll({}, ops) }

  /** Registrations that were new when they were made. */
  ghost function Added(ops: seq<WatchOp>): nat {
    if ops == [] then 0
    else
      var op, before := ops[|ops| - 1], Outstanding(ops[..|ops| - 1]);
      Added(ops[..|ops| - 1]) + if op.Register? && op.reg !in before then 1 else 0
  }

  ghost function Delivered(ops: seq<WatchOp>): nat {
    if ops == [] then 0
    else
      var op, before := ops[|ops| - 1], Outstanding(ops[..|ops| - 1]);
      Delivered(ops[..|ops| - 1]) + if op.Fire? then |Notices(before, op.firing)| else 0
  }

  ghost function Cleared(ops: seq<WatchOp>): nat {
    if ops == [] then 0
    else
      var op, before := ops[|ops| - 1], Outstanding(ops[..|ops| - 1]);
      Cleared(ops[..|ops| - 1]) + if op.Clear? then |OfSession(before, op.id)| else 0
  }

  ghost function Lost(ops: seq<WatchOp>): nat {
    if ops == [] then 0
    else
      var op, before := ops[|ops| - 1], Outstanding(ops[..|ops| - 1]);
      Lost(ops[..|ops| - 1]) + if op.Forget? then |before| else 0
  }

  lemma Partition(whole: set<Registration>, part: set<Registration>)
    requires part <= whole
    ensures |whole| == |whole - part| + |part|
  {
    assert whole == (whole - part) + part;
  }

  lemma OpConserves(before: set<Registration>, op: WatchOp)
    ensures |before| + (if op.Register? && op.reg !in before then 1 else 0) ==
            |After(before, op)| + (if op.Fire? then |Notices(before, op.firing)| else 0)
            + (if op.Clear? then |OfSession(before, op.id)| else 0) + (if op.Forget? then |before| else 0)
  {
    match op
    case Register(r) => assert r in before ==> before + {r} == before;
    case Clear(id) => Partition(before, OfSession(before, id));
    case Fire(f) =>
      OneNoticeEach(Matching(before, f), f);
      Partition(before, Matching(before, f));
    case Forget =>
  }

  /** Over every run, each registration made is delivered once, cleared, lost at a restart, or still
      outstanding. */
  lemma {:induction false} WatchesConserved(ops: seq<WatchOp>)
    ensures Added(ops) == Delivered(ops) + Cleared(ops) + Lost(ops) + |Outstanding(ops)|
  {
    hide After, Notices, OfSession;
    if ops != [] {
      var op, before := ops[|ops| - 1], Outstanding(ops[..|ops| - 1]);
      WatchesConserved(ops[..|ops| - 1]);
      OpConserves(before, op);
      assert Outstanding(ops) == After(before, op);
    }
  }

  /** The deliveries counted are the notices sent. */
  lemma {:induction false} DeliveredCounts(ops: seq<WatchOp>)
    ensures |DeliveredBy({}, ops)| == Delivered(ops)
  {
    hide Notices;
    if ops != [] { DeliveredCounts(ops[..|ops| - 1]); }
  }

  // ------------------------------------------------------------ the class

  type Forward = map<string, set<int>>

  ghost predicate InBucket(m: Forward, path: string, id: int) { path in m && id in m[path] }

  ghost predicate NoneEmpty(m: Forward) { forall path :: path in m ==> m[path] != {} }

  class WatchState {
    var watches: Forward
    var listWatches: Forward
    var persistentWatches: Forward
    var persistentListWatches: Forward
    var persistentRecursiveWatches: Forward
    var sessionsAndWatchers: map<int, set<WatchInfo>>

    function ForwardMap(t: WatchType): Forward
      reads `watches, `listWatches, `persistentWatches, `persistentListWatches, `persistentRecursiveWatches
    {
      match t
      case Watch => watches
      case ListWatch => listWatches
      case PersistentWatch => persistentWatches
      case PersistentListWatch => persistentListWatches
      case PersistentRecursiveWatch => persistentRecursiveWatches
    }

    ghost predicate Forwards(t: WatchType, path: string, id: int)
      reads `watches, `listWatches, `persistentWatches, `persistentListWatches, `persistentRecursiveWatches
    {
      InBucket(ForwardMap(t), path, id)
    }

    ghost predicate Reverses(id: int, info: WatchInfo)
      reads `sessionsAndWatchers
    {
      id in sessionsAndWatchers && info in sessionsAndWatchers[id]
    }

    /** The relation the indexes speed up. */
    ghost function Registered(): (regs: set<Registration>)
      reads `sessionsAndWatchers
      ensures forall r :: r in regs <==> Reverses(r.sessionId, r.info)
    {
      set id, info | id in sessionsAndWatchers && info in sessionsAndWatchers[id] :: Registration(id, info)
    }

    ghost predicate NoEmptyBucket()
      reads `watches, `listWatches, `persistentWatches, `persistentListWatches, `persistentRecursiveWatches
    {
      NoneEmpty(watches) && NoneEmpty(listWatches) && NoneEmpty(persistentWatches)
      && NoneEmpty(persistentListWatches) && NoneEmpty(persistentRecursiveWatches)
    }

    /** Forward and reverse maps agree, and no forward bucket is empty. */
    ghost predicate Valid()
      reads this
    {
      NoEmptyBucket() && forall t, path, id :: Forwards(t, path, id) <==> Reverses(id, WatchInfo(path, t))
    }

    constructor ()
      ensures Valid() && Registered() == {}
    {
      watches, listWatches, persistentWatches := map[], map[], map[];
      persistentListWatches, persistentRecursiveWatches, sessionsAndWatchers := map[], map[], map[];
    }

    constructor Clone(from: WatchState)
      requires from.Valid()
      ensures Valid() && Registered() == from.Registered()
    {
      watches, listWatches, persistentWatches := from.watches, from.listWatches, from.persistentWatches;
      persistentListWatches := from.persistentListWatches;
      persistentRecursiveWatches := from.persistentRecursiveWatches;
      sessionsAndWatchers := from.sessionsAndWatchers;
      new;
      forall t, path, id ensures Forwards(t, path, id) <==> Reverses(id, WatchInfo(path, t)) {
        assert from.Forwards(t, path, id) <==> from.Reverses(id, WatchInfo(path, t));
      }
    }

    method SetForward(t: WatchType, m: Forward)
      requires NoEmptyBucket() && NoneEmpty(m)
      modifies `watches, `listWatches, `persistentWatches, `persistentListWatches, `persistentRecursiveWatches
      ensures NoEmptyBucket()
      ensures forall u, path, id :: Forwards(u, path, id) <==>
                if u == t then InBucket(m, path, id) else old(Forwards(u, path, id))
    {
      match t
      case Watch => watches := m;
      case ListWatch => listWatches := m;
      case PersistentWatch => persistentWatches := m;
      case PersistentListWatch => persistentListWatches := m;
      case PersistentRecursiveWatch => persistentRecursiveWatches := m;
    }

    method Register(id: int, path: string, watchType: WatchType)
      requires Valid()
      modifies this
      ensures Valid() && Registered() == old(Registered()) + {Registration(id, WatchInfo(path, watchType))}
    {
      var info := WatchInfo(path, watchType);
      AddForward(id, info);
      var infos := if id in sessionsAndWatchers then sessionsAndWatchers[id] else {};
      sessionsAndWatchers := sessionsAndWatchers[id := infos + {info}];
      assert forall s, i :: Reverses(s, i) <==> old(Reverses(s, i)) || (s == id && i == info);
      assert forall r :: r in Registered() <==> r in old(Registered()) || r == Registration(id, info);
    }

    method AddForward(id: int, info: WatchInfo)
      requires NoEmptyBucket()
      modifies `watches, `listWatches, `persistentWatches, `persistentListWatches, `persistentRecursiveWatches
      ensures NoEmptyBucket()
      ensures forall t, p, s :: Forwards(t, p, s) <==> old(Forwards(t, p, s)) || (s == id && WatchInfo(p, t) == info)
    {
      var forward := ForwardMap(info.watchType);
      var bucket := if info.path in forward then forward[info.path] else {};
      var updated := forward[info.path := bucket + {id}];
      assert forall p, s :: InBucket(updated, p, s) <==> InBucket(forward, p, s) || (p == info.path && s == id);
      SetForward(info.watchType, updated);
    }

    method Clear(id: int)
      requires Valid()
      modifies this
      ensures Valid() && Registered() == old(Registered()) - OfSession(old(Registered()), id)
    {
      if id !in sessionsAndWatchers { return; }
      var infos := sessionsAndWatchers[id];
      sessionsAndWatchers := sessionsAndWatchers - {id};
      assert forall t, p, s :: Forwards(t, p, s) <==> old(Forwards(t, p, s));
      assert forall s, i :: Reverses(s, i) <==> old(Reverses(s, i)) && s != id;
      while infos != {}
        invariant sessionsAndWatchers == old(sessionsAndWatchers) - {id}
        invariant forall t, p, s :: Forwards(t, p, s) <==>
                    Reverses(s, WatchInfo(p, t)) || (s == id && WatchInfo(p, t) in infos)
        invariant NoEmptyBucket()
        decreases infos
      {
        var info :| info in infos;
        RemoveForward(id, info);
        infos := infos - {info};
      }
    }

    method RemoveForward(id: int, info: WatchInfo)
      requires NoEmptyBucket()
      modifies `watches, `listWatches, `persistentWatches, `persistentListWatches, `persistentRecursiveWatches
      ensures NoEmptyBucket()
      ensures forall t, p, s :: Forwards(t, p, s) <==> old(Forwards(t, p, s)) && !(s == id && WatchInfo(p, t) == info)
    {
      var forward := ForwardMap(info.watchType);
      if info.path in forward {
        var sessions := forward[info.path] - {id};
        var updated := forward[info.path := sessions];
        assert forall p, s :: InBucket(updated, p, s) <==> InBucket(forward, p, s) && !(p == info.path && s == id);
        if sessions == {} {
          assert forall p, s :: InBucket(updated, p, s) <==> InBucket(forward - {info.path}, p, s);
          updated := forward - {info.path};
        }
        SetForward(info.watchType, updated);
      }
    }

    /** Notifies each session of a drained bucket and takes the watch out of its reverse entry. */
    method NotifyEach(bucket: set<int>, info: WatchInfo, kind: EventType) returns (events: seq<WatchEvent>)
      modifies `sessionsAndWatchers
      ensures forall id, i :: Reverses(id, i) <==> old(Reverses(id, i)) && !(i == info && id in bucket)
      ensures multiset(events) == multiset(Told(Each(bucket, info), kind, info.path))
    {
      events := [];
      var sessions := bucket;
      while sessions != {}
        invariant sessions <= bucket
        invariant forall id, i :: Reverses(id, i) <==> old(Reverses(id, i)) && !(i == info && id in bucket - sessions)
        invariant multiset(events) == multiset(Told(Each(bucket - sessions, info), kind, info.path))
        decreases sessions
      {
        Inhabited(sessions);
        var id :| id in sessions;
        events := events + [WatchEvent(id, kind, info.path)];
        if id in sessionsAndWatchers {
          sessionsAndWatchers := sessionsAndWatchers[id := sessionsAndWatchers[id] - {info}];
        }
        ToldOneMore(Each(bucket - sessions, info), Registration(id, info), kind, info.path);
        assert Each(bucket - (sessions - {id}), info) == Each(bucket - sessions, info) + {Registration(id, info)};
        sessions := sessions - {id};
      }
      assert bucket - sessions == bucket;
    }

    /** Drains the one-shot watches of one kind on one path. */
    method FireOneshot(t: WatchType, path: string, kind: EventType) returns (events: seq<WatchEvent>)
      requires Valid()
      modifies this
      ensures Valid() && Registered() == old(Registered()) - On(old(Registered()), WatchInfo(path, t))
      ensures multiset(events) == multiset(Told(On(old(Registered()), WatchInfo(path, t)), kind, path))
    {
      events := [];
      var info := WatchInfo(path, t);
      ghost var regs := Registered();
      if path in ForwardMap(t) {
        var bucket := ForwardMap(t)[path];
        assert forall id :: id in bucket <==> Reverses(id, info);
        assert On(regs, info) == Each(bucket, info);
        SetForward(t, ForwardMap(t) - {path});
        assert forall u, p, s :: Forwards(u, p, s) <==> old(Forwards(u, p, s)) && WatchInfo(p, u) != info;
        events := NotifyEach(bucket, info, kind);
        assert forall id, i :: Reverses(id, i) <==> old(Reverses(id, i)) && i != info;
      } else {
        assert forall r :: r in On(regs, info) ==> Forwards(t, path, r.sessionId);
        assert On(regs, info) == {};
      }
    }

    /** `fire` after draining the woken watches `done`, about to drain `info`. */
    method DrainNext(ghost regs: set<Registration>, ghost done: set<WatchInfo>, ghost f: Firing,
                     events: seq<WatchEvent>, info: WatchInfo, kind: EventType)
      returns (more: seq<WatchEvent>)
      requires Valid() && done + {info} <= Woken(f)
      requires kind == if info.watchType == Watch then f.kind else NodeChild
      requires Registered() == regs - Among(regs, done)
      requires multiset(events) == multiset(NoticesTo(Among(regs, done), f))
      modifies this
      ensures Valid() && Registered() == regs - Among(regs, done + {info})
      ensures multiset(more) == multiset(NoticesTo(Among(regs, done + {info}), f))
    {
      WokenStep(regs, done, info, f);
      var drained := FireOneshot(info.watchType, info.path, kind);
      more := events + drained;
    }

    /** One notice for every registration the event wakes, which is thereby consumed; all others stay. */
    method Fire(path: string, kind: EventType) returns (events: seq<WatchEvent>)
      requires Valid()
      modifies this
      ensures Valid() && Registered() == AfterFiring(old(Registered()), Firing(path, kind))
      ensures multiset(events) == multiset(Notices(old(Registered()), Firing(path, kind)))
    {
      hide WatchState.Valid, WatchState.Registered, Woken, Notice;
      WokenSets(path, kind);
      ghost var regs, f := Registered(), Firing(path, kind);
      var data, list, above := WatchInfo(path, Watch), WatchInfo(path, ListWatch), WatchInfo(Parent(path), ListWatch);
      assert Among(regs, {}) == {} && NoticesTo({}, f) == {};
      events := DrainNext(regs, {}, f, [], data, kind);
      assert {} + {data} == {data};
      var split := RsplitOnce(path);
      match kind
      case NodeChanged =>
        assert Woken(f) == {data};
      case NodeChild =>
        assert Woken(f) == {data};
      case NodeCreated =>
        if split.At? {
          events := DrainNext(regs, {data}, f, events, above, NodeChild);
          assert Woken(f) == {data} + {above};
        } else {
          assert Woken(f) == {data};
        }
      case NodeDeleted =>
        events := DrainNext(regs, {data}, f, events, list, NodeChild);
        if split.At? {
          events := DrainNext(regs, {data} + {list}, f, events, above, NodeChild);
          assert Woken(f) == {data} + {list} + {above};
        } else {
          assert Woken(f) == {data} + {list};
        }
    }
  }
}
