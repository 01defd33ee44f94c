/** What replay has to rebuild: the tree, the ephemeral index, the sessions and the two counters. */
module Store {
  import opened Base
  import opened Names
  import opened Tree

  datatype Image = Image(
    nodes: Nodes,
    lastZxid: int,
    ephemerals: map<int, set<string>>,
    timeouts: map<int, int>,
    nextSessionId: int)

  const EMPTY_IMAGE := Image(EMPTY_TREE, 0, map[], map[], 1)

  datatype StorageError =
    | InvalidPathFormat
    | RootNode
    | ParentMissing
    | ParentEphemeral
    | AlreadyExists
    | NotFound
    | HasChildren
    | ParentLost // the `unwrap` on the parent; LeafDeletable shows that it never fails

  /** `flags & 1 != 0` and `flags & 2 != 0` on a two's complement integer. */
  predicate Ephemeral(flags: int) { flags % 2 == 1 }

  predicate Sequential(flags: int) { flags / 2 % 2 == 1 }

  /** What `KeeperStorage::create` decides before it mutates anything. */
  function CreateEvent(nodes: Nodes, zxid: int, path: string, data: Bytes, time: int, sid: int, flags: int)
    : (r: Result<Event, StorageError>)
    ensures r.Success? ==> r.value.Created? && Applicable(nodes, r.value) && Parent(r.value.path) == Parent(path)
    ensures r.Success? ==> r.value.zxid == zxid && r.value.owner == if Ephemeral(flags) then sid else 0
  {
    match RsplitOnce(path)
    case NoSlash => Failure(InvalidPathFormat)
    case At(_, name) =>
      if name == "" then Failure(RootNode)
      else if Parent(path) !in nodes then Failure(ParentMissing)
      else if nodes[Parent(path)].stat.ephemeralOwner != 0 then Failure(ParentEphemeral)
      else
        var owner := if Ephemeral(flags) then sid else 0;
        if Sequential(flags) then
          var suffix := SeqSuffix(nodes[Parent(path)].stat.cversion);
          SuffixKeepsParent(path, suffix);
          if path + suffix in nodes then Failure(AlreadyExists)
          else Success(Created(path + suffix, data, time, owner, zxid, Some(path)))
        else if path in nodes then Failure(AlreadyExists)
        else Success(Created(path, data, time, owner, zxid, None))
  }

  /** What `KeeperStorage::delete` decides before it mutates anything. */
  function DeleteEvent(nodes: Nodes, zxid: int, path: string): (r: Result<Event, StorageError>)
    ensures r.Success? ==> r.value == Deleted(path, zxid) && Applicable(nodes, r.value)
  {
    match RsplitOnce(path)
    case NoSlash => Failure(InvalidPathFormat)
    case At(_, name) =>
      if name == "" then Failure(RootNode)
      else if path !in nodes then Failure(NotFound)
      else if nodes[path].children != {} then Failure(HasChildren)
      else if Parent(path) !in nodes then Failure(ParentLost)
      else Success(Deleted(path, zxid))
  }

  /** The `unwrap` on the parent never fails: in a tree with the invariant, `delete` accepts exactly
      the childless nodes other than the root. */
  lemma DeleteNeverPanics(nodes: Nodes, zxid: int, path: string)
    requires TreeInv(nodes)
    ensures DeleteEvent(nodes, zxid, path) != Failure(ParentLost)
    ensures DeleteEvent(nodes, zxid, path).Success? <==> path in nodes && path != ROOT && nodes[path].children == {}
  {
    assert RsplitOnce(ROOT) == At("", "");
    if path in nodes && path != ROOT { assert Linked(nodes, path); }
  }

  // ------------------------------------------------------ ephemeral index

  type Index = map<int, set<string>>

  function AddEphemeral(eph: Index, id: int, path: string): Index {
    eph[id := (if id in eph then eph[id] else {}) + {path}]
  }

  function RemoveEphemeral(eph: Index, id: int, path: string): Index {
    if id !in eph then eph
    else
      var left := eph[id] - {path};
      if left == {} then eph - {id} else eph[id := left]
  }

  function Owned(eph: Index, id: int): set<string> { if id in eph then eph[id] else {} }

  function Owners(nodes: Nodes): map<string, int> {
    map p | p in nodes :: nodes[p].stat.ephemeralOwner
  }

  /** The index lists exactly the ephemeral nodes under their owners and keeps no empty entry. */
  ghost predicate IndexOf(owners: map<string, int>, eph: Index) {
    && (forall id :: id in eph ==> id != 0 && eph[id] != {})
    && (forall id, p :: id in eph && p in eph[id] ==> p in owners && owners[p] == id)
    && (forall p :: p in owners && owners[p] != 0 ==> owners[p] in eph && p in eph[owners[p]])
  }

  ghost predicate IndexExact(nodes: Nodes, eph: Index) { IndexOf(Owners(nodes), eph) }

  lemma IndexedBoth(owners: map<string, int>, a: Index, b: Index, id: int, p: string)
    requires IndexOf(owners, a) && IndexOf(owners, b) && id in a && p in a[id]
    ensures id in b && p in b[id]
  {
    assert owners[p] == id;
  }

  /** The index is a function of the tree. */
  lemma IndexDetermined(owners: map<string, int>, a: Index, b: Index)
    requires IndexOf(owners, a) && IndexOf(owners, b)
    ensures a == b
  {
    forall id, p | id in a && p in a[id] ensures id in b && p in b[id] { IndexedBoth(owners, a, b, id, p); }
    forall id, p | id in b && p in b[id] ensures id in a && p in a[id] { IndexedBoth(owners, b, a, id, p); }
    forall id | id in a ensures id in b && a[id] == b[id] { var p :| p in a[id]; }
    forall id | id in b ensures id in a { var p :| p in b[id]; }
  }

  lemma AddKeepsIndex(owners: map<string, int>, eph: Index, id: int, p: string)
    requires IndexOf(owners, eph) && p !in owners
    ensures IndexOf(owners[p := id], if id != 0 then AddEphemeral(eph, id, p) else eph)
  {
  }

  lemma RemoveKeepsIndex(owners: map<string, int>, eph: Index, p: string)
    requires IndexOf(owners, eph) && p in owners
    ensures IndexOf(owners - {p}, if owners[p] != 0 then RemoveEphemeral(eph, owners[p], p) else eph)
  {
  }

  /** An event together with the index update that goes with it on the live path. */
  function Perform(d: Image, e: Event): Image
    requires Applicable(d.nodes, e)
  {
    d.(nodes := Apply(d.nodes, e),
       ephemerals :=
         if e.Created? && e.owner != 0 then AddEphemeral(d.ephemerals, e.owner, e.path)
         else if e.Deleted? && d.nodes[e.path].stat.ephemeralOwner != 0
         then RemoveEphemeral(d.ephemerals, d.nodes[e.path].stat.ephemeralOwner, e.path)
         else d.ephemerals)
  }

  lemma OwnersAfter(nodes: Nodes, e: Event)
    requires Applicable(nodes, e)
    ensures Owners(Apply(nodes, e)) ==
            match e
            case Created(p, _, _, owner, _, _) => Owners(nodes)[p := owner]
            case Changed(_, _, _, _, _) => Owners(nodes)
            case Deleted(p, _) => Owners(nodes) - {p}
  {
    var after := Apply(nodes, e);
    ApplyAt(nodes, e, e.path);
    forall p | p in after
      ensures after[p].stat.ephemeralOwner ==
              if e.Created? && p == e.path then e.owner else nodes[p].stat.ephemeralOwner
    {
      ApplyAt(nodes, e, p);
    }
  }

  lemma PerformKeepsIndex(d: Image, e: Event)
    requires IndexExact(d.nodes, d.ephemerals) && Applicable(d.nodes, e)
    ensures IndexExact(Perform(d, e).nodes, Perform(d, e).ephemerals)
  {
    OwnersAfter(d.nodes, e);
    match e
    case Created(p, _, _, owner, _, _) => AddKeepsIndex(Owners(d.nodes), d.ephemerals, owner, p);
    case Changed(_, _, _, _, _) =>
    case Deleted(p, _) => RemoveKeepsIndex(Owners(d.nodes), d.ephemerals, p);
  }

  ghost predicate Exact(d: Image) { IndexExact(d.nodes, d.ephemerals) }

  ghost predicate Inv(d: Image) { TreeInv(d.nodes) && Exact(d) }

  lemma PerformKeepsInv(d: Image, e: Event)
    requires Inv(d) && Applicable(d.nodes, e)
    ensures Inv(Perform(d, e))
  {
    ApplyKeepsTreeInv(d.nodes, e);
    PerformKeepsIndex(d, e);
  }

  lemma EmptyInv()
    ensures Inv(EMPTY_IMAGE)
  {
    assert EMPTY_TREE.Keys == {ROOT};
  }

  // -------------------------------------------------------------- reaping

  function Below(gone: set<string>, p: string): set<string> { set q | q in gone && Parent(q) == p }

  function NamesOf(paths: set<string>): set<string> { set q | q in paths :: Name(q) }

  function Reaped(n: Node, lost: set<string>, zxid: int): Node {
    if lost == {} then n
    else n.(children := n.children - NamesOf(lost),
            stat := n.stat.(cversion := Wrap32(n.stat.cversion + |lost|), pzxid := zxid))
  }

  /** The tree without a set of leaves, as a closed form that mentions no order. */
  function Reap(nodes: Nodes, gone: set<string>, zxid: int): Nodes {
    map p | p in nodes && p !in gone :: Reaped(nodes[p], Below(gone, p), zxid)
  }

  ghost predicate Leaves(nodes: Nodes, gone: set<string>) {
    forall q :: q in gone ==>
      && q in nodes && IsNodePath(q) && nodes[q].children == {}
      && Parent(q) in nodes && Parent(q) !in gone
  }

  lemma ReapNone(nodes: Nodes, zxid: int)
    ensures Reap(nodes, {}, zxid) == nodes
  {
    assert forall p :: Below({}, p) == {};
  }

  lemma NamesOneMore(paths: set<string>, q: string)
    ensures NamesOf(paths + {q}) == NamesOf(paths) + {Name(q)}
  {
  }

  lemma MinusBoth(a: set<string>, b: set<string>, c: set<string>)
    ensures a - (b + c) == a - b - c
  {
  }

  lemma ReapedOnce(n: Node, lost: set<string>, q: string, zxid: int)
    requires q !in lost
    ensures Reaped(n, lost + {q}, zxid) ==
            Touched(Reaped(n, lost, zxid), Reaped(n, lost, zxid).children - {Name(q)}, zxid)
  {
    hide Wrap32, NamesOf, Name;
    NamesOneMore(lost, q);
    MinusBoth(n.children, NamesOf(lost), {Name(q)});
    assert |lost + {q}| == |lost| + 1;
    WrapTwice(n.stat.cversion + |lost|, 1);
    if lost == {} {
      assert lost + {q} == {q} && NamesOf({q}) == {Name(q)} by { NamesOneMore({}, q); NoNames(); }
    }
  }

  lemma NoNames()
    ensures NamesOf({}) == {}
  {
  }

  lemma ReapStepAt(nodes: Nodes, gone: set<string>, q: string, r: string, zxid: int)
    requires q !in gone && r in nodes && r !in gone && r != q
    ensures var before, after := Reap(nodes, gone, zxid)[r], Reap(nodes, gone + {q}, zxid)[r];
      after == if r == Parent(q) then Touched(before, before.children - {Name(q)}, zxid) else before
  {
    if r == Parent(q) {
      assert Below(gone + {q}, r) == Below(gone, r) + {q};
      ReapedOnce(nodes[r], Below(gone, r), q, zxid);
    } else {
      assert Below(gone + {q}, r) == Below(gone, r);
    }
  }

  /** A leaf outside the reaped set is still a leaf. */
  lemma ReapKeepsLeaf(nodes: Nodes, gone: set<string>, q: string, zxid: int)
    requires Leaves(nodes, gone + {q}) && q !in gone
    ensures Applicable(Reap(nodes, gone, zxid), Deleted(q, zxid))
  {
    var before := Reap(nodes, gone, zxid);
    assert q in gone + {q};
    forall r | r in gone ensures Parent(r) != q { assert r in gone + {q}; }
    assert Below(gone, q) == {};
    assert before[q] == nodes[q];
    assert Parent(q) in before;
  }

  lemma ReapStepAgrees(nodes: Nodes, gone: set<string>, q: string, r: string, zxid: int)
    requires q !in gone && r in nodes && r !in gone && r != q
    requires Applicable(Reap(nodes, gone, zxid), Deleted(q, zxid))
    ensures r in Apply(Reap(nodes, gone, zxid), Deleted(q, zxid))
    ensures Apply(Reap(nodes, gone, zxid), Deleted(q, zxid))[r] == Reap(nodes, gone + {q}, zxid)[r]
  {
    hide Reaped, Touched, Below;
    ApplyAt(Reap(nodes, gone, zxid), Deleted(q, zxid), r);
    ReapStepAt(nodes, gone, q, r, zxid);
  }

  lemma ReapStepPaths(nodes: Nodes, gone: set<string>, q: string, zxid: int)
    requires Applicable(Reap(nodes, gone, zxid), Deleted(q, zxid))
    ensures Apply(Reap(nodes, gone, zxid), Deleted(q, zxid)).Keys == Reap(nodes, gone + {q}, zxid).Keys
  {
    ApplyAt(Reap(nodes, gone, zxid), Deleted(q, zxid), q);
  }

  lemma SameMap(a: Nodes, b: Nodes)
    requires a.Keys == b.Keys && forall r :: r in a.Keys ==> a[r] == b[r]
    ensures a == b
  {
  }

  /** Whenever one more deletion succeeds, it moves from one closed form to the next. */
  lemma ReapOneMore(nodes: Nodes, gone: set<string>, q: string, zxid: int)
    requires Applicable(Reap(nodes, gone, zxid), Deleted(q, zxid))
    ensures Apply(Reap(nodes, gone, zxid), Deleted(q, zxid)) == Reap(nodes, gone + {q}, zxid)
  {
    ReapStepPaths(nodes, gone, q, zxid);
    var result, after := Apply(Reap(nodes, gone, zxid), Deleted(q, zxid)), Reap(nodes, gone + {q}, zxid);
    forall r | r in result.Keys ensures result[r] == after[r] {
      ReapStepAgrees(nodes, gone, q, r, zxid);
    }
    SameMap(result, after);
  }

  /** Deleting a leaf succeeds whatever other leaves are already gone. */
  lemma ReapStep(nodes: Nodes, gone: set<string>, q: string, zxid: int)
    requires Leaves(nodes, gone + {q}) && q !in gone
    ensures Applicable(Reap(nodes, gone, zxid), Deleted(q, zxid))
    ensures Apply(Reap(nodes, gone, zxid), Deleted(q, zxid)) == Reap(nodes, gone + {q}, zxid)
  {
    ReapKeepsLeaf(nodes, gone, q, zxid);
    ReapOneMore(nodes, gone, q, zxid);
  }

  function Deletions(paths: seq<string>, zxid: int): (h: seq<Event>)
    ensures |h| == |paths| && forall i :: 0 <= i < |paths| ==> h[i] == Deleted(paths[i], zxid)
  {
    if paths == [] then [] else Deletions(paths[..|paths| - 1], zxid) + [Deleted(paths[|paths| - 1], zxid)]
  }

  ghost predicate Distinct<T>(s: seq<T>) {
    forall i, j :: 0 <= i < j < |s| ==> s[i] != s[j]
  }

  function ToSet<T>(s: seq<T>): set<T> { set x | x in s }

  /** Reaping does not depend on the order: deleting the leaves one by one, in any order at all,
      succeeds at every step and ends in the closed form. */
  lemma {:induction false} ReapAnyOrder(nodes: Nodes, paths: seq<string>, zxid: int)
    requires Distinct(paths) && Leaves(nodes, ToSet(paths))
    ensures Fold(nodes, Deletions(paths, zxid)) == Some(Reap(nodes, ToSet(paths), zxid))
  {
    if paths == [] {
      assert ToSet(paths) == {};
      ReapNone(nodes, zxid);
    } else {
      var n := |paths| - 1;
      var init, q := paths[..n], paths[n];
      assert ToSet(paths) == ToSet(init) + {q};
      assert Leaves(nodes, ToSet(init)) by {
        forall r | r in ToSet(init) ensures r in ToSet(paths) { }
      }
      ReapAnyOrder(nodes, init, zxid);
      ReapStep(nodes, ToSet(init), q, zxid);
      assert Deletions(paths, zxid) == Deletions(init, zxid) + [Deleted(q, zxid)];
      FoldSnoc(nodes, Deletions(init, zxid), Deleted(q, zxid));
    }
  }

  ghost function Listed(s: set<string>): (r: seq<string>)
    ensures Distinct(r) && ToSet(r) == s
  {
    if s == {} then
      assert ToSet<string>([]) == {};
      []
    else
      var x :| x in s;
      var rest := Listed(s - {x});
      assert ToSet(rest + [x]) == ToSet(rest) + {x};
      rest + [x]
  }

  /** Whatever a session owns can be reaped. */
  lemma OwnedAreLeaves(d: Image, id: int)
    requires Inv(d)
    ensures Leaves(d.nodes, Owned(d.ephemerals, id))
  {
    forall q | q in Owned(d.ephemerals, id)
      ensures && q in d.nodes && IsNodePath(q) && d.nodes[q].children == {}
              && Parent(q) in d.nodes && Parent(q) !in Owned(d.ephemerals, id)
    {
      assert Owners(d.nodes)[q] == id != 0;
      EphemeralsAreLeaves(d.nodes, q);
      assert Linked(d.nodes, q);
      assert Owners(d.nodes)[Parent(q)] == 0;
    }
  }

  lemma CloseIndex(owners: map<string, int>, eph: Index, id: int)
    requires IndexOf(owners, eph) && id != 0
    ensures forall p :: p in owners ==> (owners[p] == id <==> p in Owned(eph, id))
    ensures IndexOf(owners - Owned(eph, id), eph - {id})
  {
  }

  lemma OwnersReaped(nodes: Nodes, gone: set<string>, zxid: int)
    ensures Owners(Reap(nodes, gone, zxid)) == Owners(nodes) - gone
  {
  }

  /** The session closed: its entry leaves both tables and its nodes leave the tree. */
  function Closed(d: Image, id: int): Image {
    d.(nodes := Reap(d.nodes, Owned(d.ephemerals, id), d.lastZxid),
       ephemerals := d.ephemerals - {id},
       timeouts := d.timeouts - {id})
  }

  /** Closing is exact: precisely the nodes the session owns disappear; every other node keeps its
      data and owner. */
  lemma CloseExact(d: Image, id: int)
    requires Inv(d) && id != 0
    ensures var after := Closed(d, id).nodes;
      forall p :: (p in after <==> p in d.nodes && d.nodes[p].stat.ephemeralOwner != id)
                  && (p in after ==> after[p].data == d.nodes[p].data
                                     && after[p].stat.ephemeralOwner == d.nodes[p].stat.ephemeralOwner)
  {
    CloseIndex(Owners(d.nodes), d.ephemerals, id);
    assert forall p :: p in d.nodes ==> Owners(d.nodes)[p] == d.nodes[p].stat.ephemeralOwner;
  }

  lemma CloseKeepsInv(d: Image, id: int)
    requires Inv(d) && id != 0
    ensures Inv(Closed(d, id))
  {
    var gone := Owned(d.ephemerals, id);
    var paths := Listed(gone);
    OwnedAreLeaves(d, id);
    ReapAnyOrder(d.nodes, paths, d.lastZxid);
    FoldKeepsTreeInv(d.nodes, Deletions(paths, d.lastZxid));
    OwnersReaped(d.nodes, gone, d.lastZxid);
    CloseIndex(Owners(d.nodes), d.ephemerals, id);
  }

  lemma {:induction false} FoldKeepsTreeInv(nodes: Nodes, h: seq<Event>)
    requires TreeInv(nodes) && Fold(nodes, h).Some?
    ensures TreeInv(Fold(nodes, h).value)
  {
    if h != [] {
      var n := |h| - 1;
      FoldKeepsTreeInv(nodes, h[..n]);
      ApplyKeepsTreeInv(Fold(nodes, h[..n]).value, h[n]);
    }
  }
}
