/** Runs in which the server does less than one would expect. */
module Anomalies {
  import opened Base
  import opened Names
  import opened Tree
  import opened Store
  import opened Reaping
  import opened Requests
  import opened LivePath
  import opened Recovery
  import opened Runs
  import opened Stale

  // -------------------------------- an ephemeral node deleted by a request

  /** After a guarded run: a request deletes the ephemeral node `path`. */
  ghost function Deleting(acts: seq<Action>, path: string): seq<Action> {
    acts + [Do(Ask(Owner(acts, path), 0, Remove(path, -1), []))]
  }

  ghost function Owner(acts: seq<Action>, path: string): int {
    if path in Run(acts).image.nodes then Run(acts).image.nodes[path].stat.ephemeralOwner else 0
  }

  /** The delete is harmless by itself; it leaves one stale entry, and the path is gone. */
  lemma AfterDelete(acts: seq<Action>, path: string)
    requires Guarded(acts) && Owner(acts, path) != 0
    ensures var more, owner := Deleting(acts, path), Owner(acts, path);
      && WeaklyGuarded(more) && StaleOf(more) == {Claim(owner, path)} && path !in Run(more).image.nodes
      && IsNodePath(path) && Parent(path) in Run(more).image.nodes
      && Run(more).image.nodes[Parent(path)].stat.ephemeralOwner == 0 && Inv(Run(more).image)
  {
    hide TreeInv, Exact, Guarded, WeaklyGuarded, StaleOf, Run, Exec, Genuine, Certain, ReplayLog, Lagging;
    var owner, d := Owner(acts, path), Run(acts).image;
    var step := Ask(owner, 0, Remove(path, -1), []);
    GuardedHasNothingStale(acts);
    ReplayEqualsLive(acts);
    RunSnoc(acts, Do(step));
    DoneImage(Run(acts), step);
    WeaklySnoc(acts, Do(step));
    DeletedOnly(d, path, owner);
    var r := RunLags(Deleting(acts, path));
  }

  lemma DeletedOnly(d: Image, path: string, owner: int)
    requires Inv(d) && path in d.nodes && owner == d.nodes[path].stat.ephemeralOwner != 0
    ensures var step := Ask(owner, 0, Remove(path, -1), []);
      var nodes := Live(d, step).image.nodes;
      && Genuine(d, step) && WeakGuard(d, {}, step) && StaleAfter(d, {}, step) == {Claim(owner, path)}
      && path !in nodes && IsNodePath(path) && Parent(path) in nodes && nodes[Parent(path)].stat.ephemeralOwner == 0
  {
    var e := Deleted(path, d.lastZxid + 1);
    EphemeralsAreLeaves(d.nodes, path);
    DeleteNeverPanics(d.nodes, d.lastZxid + 1, path);
    assert Linked(d.nodes, path);
    ParentShorter(path);
    hide TreeInv, Exact, IsNodePath, Parent;
    ApplyAt(d.nodes, e, path);
    ApplyAt(d.nodes, e, Parent(path));
  }

  lemma DoneImage(s: RunState, step: Step)
    ensures Exec(s, Do(step)).image == Live(s.image, step).image
    ensures Exec(s, Do(step)).log == s.log + Logged(s.image, step)
  {
  }

  /** From any guarded run whose state has an ephemeral node, two more requests lead to a server that
      runs on but can never be started again: delete that node, and let its session expire at once. */
  lemma DeletedEphemeralBlocksStart(acts: seq<Action>, path: string, order: seq<string>, later: seq<Entry>)
    requires Guarded(acts) && Owner(acts, path) != 0
    requires Listing(order, Owned(Run(Deleting(acts, path)).image.ephemerals, Owner(acts, path)))
    ensures var more := Deleting(acts, path) + [Do(Expire(Owner(acts, path), order))];
      Legal(more) && TreeInv(Run(more).image.nodes) && ReplayLog(EMPTY_IMAGE, Run(more).log + later) == None
  {
    hide TreeInv, Guarded, WeaklyGuarded, StaleOf, Run, Legal, Listing, Inv, ReplayLog, Leaves;
    var before, owner := Deleting(acts, path), Owner(acts, path);
    AfterDelete(acts, path);
    OneClaim(owner, path);
    GenuineExpiry(Run(before).image, owner, order);
    ExpiryDamages(before, owner, order, later);
    EveryRun(before + [Do(Expire(owner, order))]);
  }

  lemma OneClaim(owner: int, path: string)
    ensures ClaimsOf({Claim(owner, path)}, owner) == {path}
  {
    assert Claim(owner, path) in {Claim(owner, path)};
  }

  lemma GenuineExpiry(d: Image, sid: int, order: seq<string>)
    requires sid != 0 && Listing(order, Owned(d.ephemerals, sid))
    ensures Genuine(d, Expire(sid, order))
  {
  }

  /** The same path created again, persistent, by any session, and answered Ok. */
  ghost function Recreating(acts: seq<Action>, path: string, user: int, data: Bytes): seq<Action> {
    Deleting(acts, path) + [Do(Ask(user, 0, Create(path, data, 0), []))]
  }

  lemma AfterRecreate(acts: seq<Action>, path: string, user: int, data: Bytes)
    requires Guarded(acts) && Owner(acts, path) != 0 && user != 0
    ensures var before, more := Deleting(acts, path), Recreating(acts, path, user, data);
      && Live(Run(before).image, Ask(user, 0, Create(path, data, 0), [])).reply.body == PathBody(path)
      && WeaklyGuarded(more) && StaleOf(more) == {Claim(Owner(acts, path), path)}
      && path in Run(more).image.nodes && Run(more).image.nodes[path].data == data
      && Inv(Run(more).image) && IsNodePath(path) && Run(more).image.nodes[path].children == {}
      && Run(more).image.nodes[path].stat.ephemeralOwner == 0
  {
    hide TreeInv, Exact, Guarded, WeaklyGuarded, StaleOf, Run, Exec, Certain, ReplayLog, Lagging;
    var before := Deleting(acts, path);
    var d, step := Run(before).image, Ask(user, 0, Create(path, data, 0), []);
    AfterDelete(acts, path);
    RunSnoc(before, Do(step));
    DoneImage(Run(before), step);
    WeaklySnoc(before, Do(step));
    CreatedAgain(d, user, path, data, Claim(Owner(acts, path), path));
    var r := RunLags(Recreating(acts, path, user, data));
  }

  lemma CreatedAgain(d: Image, user: int, path: string, data: Bytes, claim: Claim)
    requires user != 0 && path !in d.nodes && IsNodePath(path) && Parent(path) in d.nodes
    requires d.nodes[Parent(path)].stat.ephemeralOwner == 0 && claim.owner != 0
    ensures var step := Ask(user, 0, Create(path, data, 0), []);
      var o := Live(d, step);
      && o.reply.body == PathBody(path) && Genuine(d, step) && WeakGuard(d, {claim}, step)
      && StaleAfter(d, {claim}, step) == {claim} && path in o.image.nodes
      && o.image.nodes[path] == Fresh(data, 0, 0, d.lastZxid + 1)
  {
    hide SeqSuffix;
    var e := Created(path, data, 0, 0, d.lastZxid + 1, None);
    assert CreateEvent(d.nodes, d.lastZxid + 1, path, data, 0, user, 0) == Success(e);
    ApplyAt(d.nodes, e, path);
    OneShed({claim}, e);
  }

  /** If the session expires later than that, the start succeeds, in every order, and silently loses the
      node that the other session had created and been answered for. */
  lemma RecreatedNodeIsLost(acts: seq<Action>, path: string, user: int, data: Bytes, order: seq<string>)
    requires Guarded(acts) && Owner(acts, path) != 0 && user != 0
    requires Listing(order, Owned(Run(Recreating(acts, path, user, data)).image.ephemerals, Owner(acts, path)))
    ensures var more := Recreating(acts, path, user, data) + [Do(Expire(Owner(acts, path), order))];
      && Legal(more) && path in Run(more).image.nodes
      && Certain(EMPTY_IMAGE, Run(more).log) && Legal(more + [Restart]) && path !in Run(more + [Restart]).image.nodes
  {
    hide TreeInv, Exact, Guarded, WeaklyGuarded, StaleOf, Run, Legal, Listing, Certain, ReplayLog, Reapable;
    hide Leaves, Exec;
    var before, owner := Recreating(acts, path, user, data), Owner(acts, path);
    var more := before + [Do(Expire(owner, order))];
    AfterRecreate(acts, path, user, data);
    OneClaim(owner, path);
    GenuineExpiry(Run(before).image, owner, order);
    ExpiryDamages(before, owner, order, []);
    LeafAgain(Run(before).image, owner, path);
    RunSnoc(more, Restart);
    RestartImage(Run(more));
  }

  lemma LeafAgain(d: Image, owner: int, path: string)
    requires Inv(d) && path in d.nodes && IsNodePath(path) && d.nodes[path].children == {}
    requires d.nodes[path].stat.ephemeralOwner == 0 && owner != 0
    ensures Reapable(d.nodes, Owned(d.ephemerals, owner), {path})
    ensures Leaves(d.nodes, Owned(d.ephemerals, owner) + {path})
  {
    OwnedAreLeaves(d, owner);
    LeafDeletable(d.nodes, path, 0);
    hide IsNodePath, Parent, TreeInv;
    forall q | q in Owned(d.ephemerals, owner) + {path}
      ensures && q in d.nodes && IsNodePath(q) && d.nodes[q].children == {}
              && Parent(q) in d.nodes && Parent(q) !in Owned(d.ephemerals, owner) + {path}
    {
      if q == path { NotOwned(d, owner, path); }
    }
  }

  /** A parent of a node is not ephemeral, so it is nobody's. */
  lemma NotOwned(d: Image, owner: int, path: string)
    requires Inv(d) && path in d.nodes && path != ROOT
    ensures Parent(path) in d.nodes && Parent(path) !in Owned(d.ephemerals, owner) && Parent(path) != path
  {
    assert Linked(d.nodes, path);
    ParentShorter(path);
    assert Owners(d.nodes)[Parent(path)] == 0;
  }

  lemma RestartImage(s: RunState)
    requires ReplayLog(EMPTY_IMAGE, s.log).Some?
    ensures Exec(s, Restart).image == ReplayLog(EMPTY_IMAGE, s.log).value
  {
  }

  // ---------------------------------------------------- a first such run

  const SHAKES := [Do(CreateSession(1000)), Do(CreateSession(1000))]
  const SHAKEN := Image(EMPTY_TREE, 2, map[], map[1 := 1000, 2 := 1000], 3)
  const FIRST := SHAKES + [Do(Ask(1, 0, Create("/e", [], 1), []))]

  lemma TwoHandshakes()
    ensures Guarded(SHAKES) && Run(SHAKES).image == SHAKEN
  {
    var one := [Do(CreateSession(1000))];
    assert SHAKES[..1] == one && one[..0] == [];
    assert Run(one).image == Image(EMPTY_TREE, 1, map[], map[1 := 1000], 2);
  }

  lemma FirstEvent()
    ensures CreateEvent(EMPTY_TREE, 3, "/e", [], 0, 1, 1) == Success(Created("/e", [], 0, 1, 3, None))
    ensures CreateGuard(SHAKEN, "/e", 1) && CreateRefusal(SHAKEN, "/e") == None
    ensures Parent("/e") == ROOT && IsNodePath("/e")
  {
    hide SeqSuffix, RsplitOnce;
    assert "/e" == "" + "/" + "e";
    SplitUnique("", "e");
  }

  lemma FirstTree()
    ensures var e := Created("/e", [], 0, 1, 3, None);
      && Applicable(EMPTY_TREE, e)
      && var nodes := Apply(EMPTY_TREE, e);
         && nodes.Keys == {ROOT, "/e"} && nodes["/e"].stat.ephemeralOwner == 1
         && nodes[ROOT].stat.ephemeralOwner == 0 && nodes[ROOT].stat.cversion == 1
  {
    hide CreateEvent, CreateGuard, CreateRefusal, IsNodePath;
    FirstEvent();
    var e := Created("/e", [], 0, 1, 3, None);
    ApplyAt(EMPTY_TREE, e, "/e");
    ApplyAt(EMPTY_TREE, e, ROOT);
  }

  lemma OneCreate()
    ensures var o := LiveCreate(SHAKEN, 1, 0, "/e", [], 1);
      && CreateGuard(SHAKEN, "/e", 1) && o.image.nodes.Keys == {ROOT, "/e"}
      && o.image.nodes["/e"].stat.ephemeralOwner == 1 && o.image.nodes[ROOT].stat.ephemeralOwner == 0
      && o.image.nodes[ROOT].stat.cversion == 1 && o.image.ephemerals == map[1 := {"/e"}]
      && Parent("/e") == ROOT && IsNodePath("/e")
  {
    hide CreateEvent, CreateGuard, CreateRefusal, IsNodePath, Parent, Apply;
    FirstEvent();
    FirstTree();
    assert LiveCreate(SHAKEN, 1, 0, "/e", [], 1).image
           == Perform(Advance(SHAKEN), Created("/e", [], 0, 1, 3, None));
    var none: set<string> := {};
    assert none + {"/e"} == {"/e"};
  }

  /** Such runs exist: two handshakes, and one create by the first session. */
  lemma FirstEphemeral()
    ensures Guarded(FIRST) && Run(FIRST).image == LiveCreate(SHAKEN, 1, 0, "/e", [], 1).image && Owner(FIRST, "/e") == 1
  {
    hide LiveCreate, CreateGuard, Run, Guarded;
    TwoHandshakes();
    OneCreate();
    var step := Ask(1, 0, Create("/e", [], 1), []);
    RunSnoc(SHAKES, Do(step));
    DoneImage(Run(SHAKES), step);
  }

  // --------------------------------------------- a name that is given twice

  /** The path that a sequential create of `b` makes at count `n`. */
  function Nth(b: string, n: nat): string { b + SeqSuffix(n) }

  /** The next sequential create of `b` gets the number `c`, and neither `b` nor a higher number is taken. */
  ghost predicate Counting(nodes: Nodes, b: string, c: nat) {
    && IsNodePath(b) && b !in nodes && Parent(b) in nodes
    && nodes[Parent(b)].stat.ephemeralOwner == 0 && nodes[Parent(b)].stat.cversion == c
    && forall i: nat :: c <= i < 0x8000_0000 ==> Nth(b, i) !in nodes
  }

  lemma NumbersDiffer(b: string, c: nat, d: nat)
    requires c < 0x8000_0000 && d < 0x8000_0000
    ensures Nth(b, c) == Nth(b, d) <==> c == d
    ensures Nth(b, c) != b
  {
    if c < d { SeqSuffixOrder(c, d); } else if d < c { SeqSuffixOrder(d, c); }
    assert Nth(b, c)[|b|..] == SeqSuffix(c) && Nth(b, d)[|b|..] == SeqSuffix(d);
    SuffixLength(c);
  }

  lemma SuffixLength(c: nat)
    requires c < 0x8000_0000
    ensures SeqSuffix(c) != ""
  {
    if c > 0 { SeqSuffixOrder(0, c); } else { SeqSuffixOrder(0, 1); }
  }

  /** A request for a sequential node: who asks, when, and with what data. */
  datatype Wish = Wish(user: int, now: int, data: Bytes)

  ghost predicate Users(wishes: seq<Wish>) { forall i :: 0 <= i < |wishes| ==> wishes[i].user != 0 }

  function Count(b: string, w: Wish): Step { Ask(w.user, w.now, Create(b, w.data, 2), []) }

  function CountedEvent(b: string, w: Wish, c: nat, zxid: int): Event {
    Created(Nth(b, c), w.data, w.now, 0, zxid, Some(b))
  }

  lemma CountEvent(d: Image, b: string, w: Wish, c: nat)
    requires Counting(d.nodes, b, c) && c < 0x7fff_ffff
    ensures CreateRefusal(d, b) == None && CreateGuard(d, b, 2) && Parent(Nth(b, c)) == Parent(b)
    ensures CreateEvent(d.nodes, d.lastZxid + 1, b, w.data, w.now, w.user, 2)
            == Success(CountedEvent(b, w, c, d.lastZxid + 1))
  {
    hide SeqSuffix, RsplitOnce;
    SuffixKeepsParent(b, SeqSuffix(c));
    assert Nth(b, c) !in d.nodes;
  }

  lemma CountOn(nodes: Nodes, e: Event, b: string, c: nat)
    requires Counting(nodes, b, c) && c < 0x7fff_ffff && Applicable(nodes, e)
    requires e.Created? && e.path == Nth(b, c) && Parent(e.path) == Parent(b)
    ensures Counting(Apply(nodes, e), b, c + 1)
  {
    hide Nth;
    ApplyAt(nodes, e, Parent(b));
    ParentShorter(e.path);
    NumbersDiffer(b, c, c);
    forall i: nat | c + 1 <= i < 0x8000_0000 ensures Nth(b, i) !in Apply(nodes, e) { NumbersDiffer(b, i, c); }
  }

  /** The data of all nodes there were is still there. */
  ghost predicate DataKept(nodes: Nodes, after: Nodes) {
    forall q :: q in nodes ==> q in after && after[q].data == nodes[q].data
  }

  lemma CreateKeepsData(nodes: Nodes, e: Event)
    requires Applicable(nodes, e) && e.Created?
    ensures DataKept(nodes, Apply(nodes, e))
  {
    forall q | q in nodes ensures q in Apply(nodes, e) && Apply(nodes, e)[q].data == nodes[q].data {
      ApplyAt(nodes, e, q);
    }
  }

  /** A sequential create gives the next number, is guarded, and counts on. */
  lemma CountOne(d: Image, b: string, w: Wish, c: nat)
    requires w.user != 0 && Counting(d.nodes, b, c) && c < 0x7fff_ffff
    ensures var o := Live(d, Count(b, w));
      && o.reply.body == PathBody(Nth(b, c)) && o.logged == Some(WCreate(b, w.data, w.now, 2, w.user))
      && o.image.lastZxid == d.lastZxid + 1 && Counting(o.image.nodes, b, c + 1) && DataKept(d.nodes, o.image.nodes)
      && Nth(b, c) in o.image.nodes && o.image.nodes[Nth(b, c)].data == w.data
    ensures Guard(d, Count(b, w)) && Genuine(d, Count(b, w))
  {
    hide Nth;
    CountEvent(d, b, w, c);
    var e := CountedEvent(b, w, c, d.lastZxid + 1);
    hide CreateEvent, CreateGuard, CreateRefusal, Counting, Apply, Applicable, DataKept;
    CountOn(d.nodes, e, b, c);
    CreateKeepsData(d.nodes, e);
    ApplyAt(d.nodes, e, Nth(b, c));
  }

  /** Closing a session moves the count by the number of its nodes below the parent. */
  lemma CloseMovesCount(d: Image, sid: int, order: seq<string>, b: string, c: nat)
    requires Inv(d) && sid != 0 && Listing(order, Owned(d.ephemerals, sid)) && Counting(d.nodes, b, c)
    requires c + |Below(Owned(d.ephemerals, sid), Parent(b))| < 0x8000_0000
    ensures var after := CloseImage(d, sid, order);
      && after.lastZxid == d.lastZxid && Counting(after.nodes, b, c + |Below(Owned(d.ephemerals, sid), Parent(b))|)
  {
    CloseAnyOrder(d, sid, order);
    CloseExact(d, sid);
    hide TreeInv, Exact, Listing, CloseImage, IsNodePath, Nth;
    var after := Closed(d, sid);
    assert after.nodes[Parent(b)] == Reaped(d.nodes[Parent(b)], Below(Owned(d.ephemerals, sid), Parent(b)), d.lastZxid);
    KeysReaped(d.nodes, Owned(d.ephemerals, sid), d.lastZxid);
  }

  /** Sequential creates of one path, one after another. */
  ghost function Creates(acts: seq<Action>, b: string, wishes: seq<Wish>): seq<Action> {
    if wishes == [] then acts
    else Creates(acts, b, wishes[..|wishes| - 1]) + [Do(Count(b, wishes[|wishes| - 1]))]
  }

  /** What the `i`-th of them is answered. */
  ghost function Given(acts: seq<Action>, b: string, wishes: seq<Wish>, i: nat): Body
    requires i < |wishes|
  {
    Live(Run(Creates(acts, b, wishes[..i])).image, Count(b, wishes[i])).reply.body
  }

  /** The nodes with the numbers from `c` on hold the data of these wishes, in order. */
  ghost predicate Holding(nodes: Nodes, b: string, c: nat, wishes: seq<Wish>) {
    forall j: nat :: c <= j < c + |wishes| ==> Nth(b, j) in nodes && nodes[Nth(b, j)].data == wishes[j - c].data
  }

  lemma HoldingMore(nodes: Nodes, after: Nodes, b: string, c: nat, wishes: seq<Wish>)
    requires wishes != [] && Holding(nodes, b, c, wishes[..|wishes| - 1]) && DataKept(nodes, after)
    requires var n := |wishes| - 1; Nth(b, c + n) in after && after[Nth(b, c + n)].data == wishes[n].data
    ensures Holding(after, b, c, wishes)
  {
    hide Nth;
    forall j: nat | c <= j < c + |wishes| ensures Nth(b, j) in after && after[Nth(b, j)].data == wishes[j - c].data {
      if j < c + |wishes| - 1 { assert wishes[..|wishes| - 1][j - c] == wishes[j - c]; }
    }
  }

  lemma {:induction false} CreatesCount(acts: seq<Action>, b: string, c: nat, wishes: seq<Wish>)
    requires Legal(acts) && Counting(Run(acts).image.nodes, b, c) && Users(wishes) && c + |wishes| <= 0x7fff_ffff
    ensures var more := Creates(acts, b, wishes);
      && Legal(more) && (Guarded(acts) ==> Guarded(more)) && Counting(Run(more).image.nodes, b, c + |wishes|)
      && Holding(Run(more).image.nodes, b, c, wishes)
  {
    hide Legal, Run, Guarded, Counting, Genuine, Guard, Live, Exec, Nth, Holding, DataKept;
    if wishes == [] {
      NothingHeld(Run(acts).image.nodes, b, c, wishes);
    } else {
      var n := |wishes| - 1;
      CreatesCount(acts, b, c, wishes[..n]);
      var before := Creates(acts, b, wishes[..n]);
      CountOne(Run(before).image, b, wishes[n], c + n);
      RunSnoc(before, Do(Count(b, wishes[n])));
      DoneImage(Run(before), Count(b, wishes[n]));
      HoldingMore(Run(before).image.nodes, Run(Creates(acts, b, wishes)).image.nodes, b, c, wishes);
    }
  }

  lemma NothingHeld(nodes: Nodes, b: string, c: nat, wishes: seq<Wish>)
    requires wishes == []
    ensures Holding(nodes, b, c, wishes)
  {
  }

  lemma GivenNumber(acts: seq<Action>, b: string, c: nat, wishes: seq<Wish>, i: nat, x: nat)
    requires Legal(acts) && Counting(Run(acts).image.nodes, b, c) && Users(wishes) && c + |wishes| <= 0x7fff_ffff
    requires i < |wishes| && x == c + i
    ensures Given(acts, b, wishes, i) == PathBody(Nth(b, x))
  {
    hide Legal, Run, Counting, Genuine, Guard, Guarded, Live, Nth, Holding, DataKept;
    assert Users(wishes[..i]);
    CreatesCount(acts, b, c, wishes[..i]);
    CountOne(Run(Creates(acts, b, wishes[..i])).image, b, wishes[i], c + i);
  }

  /** The log does not tell the two states apart in which the same creates were answered. */
  lemma {:induction false} SameLog(acts: seq<Action>, others: seq<Action>, b: string, c: nat, d: nat, wishes: seq<Wish>)
    requires Legal(acts) && Counting(Run(acts).image.nodes, b, c) && c + |wishes| <= 0x7fff_ffff
    requires Legal(others) && Counting(Run(others).image.nodes, b, d) && d + |wishes| <= 0x7fff_ffff && Users(wishes)
    requires Run(acts).log == Run(others).log && Run(acts).image.lastZxid == Run(others).image.lastZxid
    ensures var a, o := Run(Creates(acts, b, wishes)), Run(Creates(others, b, wishes));
      a.log == o.log && a.image.lastZxid == o.image.lastZxid
  {
    hide Legal, Run, Counting, Genuine, Guard, Guarded, Live, Exec, Nth, Holding, DataKept;
    if wishes != [] {
      var n := |wishes| - 1;
      var w := wishes[n];
      SameLog(acts, others, b, c, d, wishes[..n]);
      CreatesCount(acts, b, c, wishes[..n]);
      CreatesCount(others, b, d, wishes[..n]);
      var a, o := Creates(acts, b, wishes[..n]), Creates(others, b, wishes[..n]);
      CountOne(Run(a).image, b, w, c + n);
      CountOne(Run(o).image, b, w, d + n);
      RunSnoc(a, Do(Count(b, w)));
      RunSnoc(o, Do(Count(b, w)));
      DoneImage(Run(a), Count(b, w));
      DoneImage(Run(o), Count(b, w));
    }
  }

  ghost function Closing(acts: seq<Action>, sid: int, order: seq<string>): seq<Action> {
    acts + [Do(Ask(sid, 0, Close, order))]
  }

  /** How many nodes the session owns below the parent of `b`. */
  ghost function OwnedBeside(acts: seq<Action>, sid: int, b: string): nat {
    |Below(Owned(Run(acts).image.ephemerals, sid), Parent(b))|
  }

  /** After the Close the count has moved by the nodes reaped below the parent. */
  lemma AfterClose(acts: seq<Action>, sid: int, order: seq<string>, b: string, c: nat)
    requires Guarded(acts) && Genuine(Run(acts).image, Ask(sid, 0, Close, order))
    requires Counting(Run(acts).image.nodes, b, c) && c + OwnedBeside(acts, sid, b) < 0x7fff_ffff
    ensures var closed := Closing(acts, sid, order);
      && Legal(closed) && Counting(Run(closed).image.nodes, b, c + OwnedBeside(acts, sid, b))
      && Run(closed).log == Run(acts).log && Run(closed).image.lastZxid == Run(acts).image.lastZxid
  {
    hide TreeInv, Exact, Guarded, Legal, Run, Counting, Genuine, Guard, ReplayLog, Exec, Certain, Nth, Tried;
    var d, close := Run(acts).image, Ask(sid, 0, Close, order);
    GuardedIsLegal(acts);
    ReplayEqualsLive(acts);
    RunSnoc(acts, Do(close));
    DoneImage(Run(acts), close);
    GenuineClose(d, sid, order);
    CloseMovesCount(d, sid, order, b, c);
    CloseLogsNothing(Run(acts), sid, order);
  }

  lemma GenuineClose(d: Image, sid: int, order: seq<string>)
    requires Genuine(d, Ask(sid, 0, Close, order))
    ensures sid != 0 && Listing(order, Owned(d.ephemerals, sid))
  {
  }

  lemma CloseLogsNothing(s: RunState, sid: int, order: seq<string>)
    ensures Live(s.image, Ask(sid, 0, Close, order)).image == CloseImage(s.image, sid, order)
    ensures s.log + Logged(s.image, Ask(sid, 0, Close, order)) == s.log
  {
  }

  /** The restart takes the count back, because Close left no record: the state is the one in which the
      session had not closed. */
  lemma AfterRestart(acts: seq<Action>, sid: int, order: seq<string>, b: string, c: nat, wishes: seq<Wish>)
    requires Guarded(acts) && Genuine(Run(acts).image, Ask(sid, 0, Close, order)) && Users(wishes)
    requires Counting(Run(acts).image.nodes, b, c) && c + OwnedBeside(acts, sid, b) + |wishes| < 0x7fff_ffff
    ensures var answered := Creates(Closing(acts, sid, order), b, wishes);
      var nodes := Run(answered + [Restart]).image.nodes;
      Legal(answered + [Restart]) && Counting(nodes, b, c + |wishes|) && Holding(nodes, b, c, wishes)
  {
    hide Guarded, Legal, Run, Counting, Genuine, ReplayLog, Exec, Certain, Nth, Holding, Inv;
    var closed := Closing(acts, sid, order);
    var answered := Creates(closed, b, wishes);
    GuardedIsLegal(acts);
    AfterClose(acts, sid, order, b, c);
    CreatesCount(closed, b, c + OwnedBeside(acts, sid, b), wishes);
    CreatesCount(acts, b, c, wishes);
    SameLog(closed, acts, b, c + OwnedBeside(acts, sid, b), c, wishes);
    ReplayEqualsLive(Creates(acts, b, wishes));
    RunSnoc(answered, Restart);
    RestartImage(Run(answered));
  }

  /** The Close request leaves no record, so a restart renumbers what came after it. Let a session that
      owns k nodes below the parent of `b` close after a guarded run, let m creates of `b` be answered,
      and let the server restart; then let more creates follow.
      - The i-th name answered is still there after the restart exactly if i + k < m, and then holds the
        data of the (i + k)-th create: its own only if k is 0. So the last min(k, m) answered names are
        lost, and the others stand for what someone else created.
      - The n-th create after the restart is answered the i-th name again exactly if m + n == k + i. */
  lemma NamesRepeatIff(acts: seq<Action>, sid: int, order: seq<string>, b: string, c: nat,
                       wishes: seq<Wish>, again: seq<Wish>, i: nat, n: nat)
    requires Guarded(acts) && Genuine(Run(acts).image, Ask(sid, 0, Close, order)) && Users(wishes) && Users(again)
    requires Counting(Run(acts).image.nodes, b, c) && i < |wishes| && n < |again|
    requires c + OwnedBeside(acts, sid, b) + |wishes| < 0x7fff_ffff && c + |wishes| + |again| < 0x7fff_ffff
    ensures var k, m := OwnedBeside(acts, sid, b), |wishes|;
      var closed := Closing(acts, sid, order);
      var answered := Creates(closed, b, wishes);
      var restarted := answered + [Restart];
      var given := Given(closed, b, wishes, i);
      var live, nodes := Run(answered).image.nodes, Run(restarted).image.nodes;
      && Legal(Creates(restarted, b, again)) && given.PathBody?
      && given.path in live && live[given.path].data == wishes[i].data
      && (given.path in nodes <==> i + k < m) && (i + k < m ==> nodes[given.path].data == wishes[i + k].data)
      && (Given(restarted, b, again, n) == given <==> m + n == k + i)
  {
    hide Legal, Run, Genuine, Guarded, Counting, Creates, Closing, Given, Live, Nth, Users, Holding, OwnedBeside;
    var k, m := OwnedBeside(acts, sid, b), |wishes|;
    var closed := Closing(acts, sid, order);
    var restarted := Creates(closed, b, wishes) + [Restart];
    var x: nat, y: nat := c + k + i, c + m + n;
    AfterClose(acts, sid, order, b, c);
    CreatesCount(closed, b, c + k, wishes);
    GivenNumber(closed, b, c + k, wishes, i, x);
    HeldAt(Run(Creates(closed, b, wishes)).image.nodes, b, c + k, wishes, x);
    AfterRestart(acts, sid, order, b, c, wishes);
    CreatesCount(restarted, b, c + m, again);
    GivenNumber(restarted, b, c + m, again, n, y);
    NumbersDiffer(b, x, y);
    WhatIsThere(Run(restarted).image.nodes, b, c, wishes, x);
  }

  lemma HeldAt(nodes: Nodes, b: string, c: nat, wishes: seq<Wish>, x: nat)
    requires Holding(nodes, b, c, wishes) && c <= x < c + |wishes|
    ensures Nth(b, x) in nodes && nodes[Nth(b, x)].data == wishes[x - c].data
  {
    hide Nth;
  }

  lemma WhatIsThere(nodes: Nodes, b: string, c: nat, wishes: seq<Wish>, x: nat)
    requires Counting(nodes, b, c + |wishes|) && Holding(nodes, b, c, wishes) && c <= x < 0x8000_0000
    ensures Nth(b, x) in nodes <==> x < c + |wishes|
    ensures x < c + |wishes| ==> nodes[Nth(b, x)].data == wishes[x - c].data
  {
    hide Nth, IsNodePath, Parent;
  }

  lemma FirstCounts()
    ensures Counting(Run(FIRST).image.nodes, "/s", 1) && Genuine(Run(FIRST).image, Ask(1, 0, Close, ["/e"]))
    ensures OwnedBeside(FIRST, 1, "/s") == 1
  {
    hide Run, LiveCreate, SeqSuffix, RsplitOnce, Parent, IsNodePath, Guarded;
    FirstEphemeral();
    OneCreate();
    NodeS();
    assert Below({"/e"}, ROOT) == {"/e"};
    assert Listing(["/e"], {"/e"}) by { assert ToSet(["/e"]) == {"/e"}; }
    forall i: nat | 1 <= i < 0x8000_0000 ensures Nth("/s", i) !in Run(FIRST).image.nodes {
      NotAmong(SeqSuffix(i));
    }
  }

  lemma NodeS()
    ensures Parent("/s") == ROOT && IsNodePath("/s") && "/s" != ROOT && "/s" != "/e"
  {
    hide RsplitOnce;
    assert "/s" == "" + "/" + "s" && "/e"[1] == 'e' && "/s"[1] == 's';
    SplitUnique("", "s");
  }

  lemma NotAmong(suffix: string)
    ensures "/s" + suffix != ROOT && "/s" + suffix != "/e"
  {
    assert ("/s" + suffix)[1] == 's' && "/e"[1] == 'e';
  }

  /** One create before the restart and one after it are enough: two clients get one name, and the first
      node is lost. */
  lemma NameGivenTwice()
    ensures var closed, wish := Closing(FIRST, 1, ["/e"]), Wish(2, 0, []);
      var answered := Creates(closed, "/s", [wish]);
      var given := Given(closed, "/s", [wish], 0);
      && Legal(answered + [Restart]) && given.PathBody?
      && given.path in Run(answered).image.nodes && given.path !in Run(answered + [Restart]).image.nodes
      && Given(answered + [Restart], "/s", [wish], 0) == given
  {
    hide Run, Guarded, Legal, LiveCreate, Counting, Closing, Creates, Given, Count, Nth, Parent, Genuine, OwnedBeside;
    hide Certain, ReplayLog;
    FirstEphemeral();
    FirstCounts();
    var wish := Wish(2, 0, []);
    AfterRestart(FIRST, 1, ["/e"], "/s", 1, [wish]);
    NamesRepeatIff(FIRST, 1, ["/e"], "/s", 1, [wish], [wish], 0, 0);
  }
}
