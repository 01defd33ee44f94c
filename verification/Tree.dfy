/** The znode tree as a value, the events that change it, and its structural invariant. */
module Tree {
  import opened Base
  import opened Names

  datatype Stat = Stat(
    czxid: int,
    mzxid: int,
    ctime: int,
    mtime: int,
    version: int,
    cversion: int,
    aversion: int,
    ephemeralOwner: int,
    pzxid: int)

  const DEFAULT_STAT := Stat(0, 0, 0, 0, 0, 0, 0, 0, 0)

  datatype Node = Node(data: Bytes, children: set<string>, stat: Stat)

  type Nodes = map<string, Node>

  const ROOT := "/"
  const EMPTY_TREE: Nodes := map[ROOT := Node([], {}, DEFAULT_STAT)]

  /** One elementary change of the tree. `base` is the requested path of a sequential create;
      `expected` is the version a write was conditioned on, -1 for none. */
  datatype Event =
    | Created(path: string, data: Bytes, time: int, owner: int, zxid: int, base: Option<string>)
    | Changed(path: string, data: Bytes, time: int, zxid: int, expected: int)
    | Deleted(path: string, zxid: int)

  function Fresh(data: Bytes, time: int, owner: int, zxid: int): Node {
    Node(data, {}, Stat(zxid, zxid, time, time, 0, 0, 0, owner, zxid))
  }

  function Touched(n: Node, children: set<string>, zxid: int): Node {
    n.(children := children, stat := n.stat.(cversion := Wrap32(n.stat.cversion + 1), pzxid := zxid))
  }

  function Written(n: Node, data: Bytes, time: int, zxid: int): Node {
    n.(data := data, stat := n.stat.(version := Wrap32(n.stat.version + 1), mzxid := zxid, mtime := time))
  }

  predicate Applicable(nodes: Nodes, e: Event) {
    match e
    case Created(p, _, _, _, _, base) =>
      && p !in nodes && IsNodePath(p)
      && Parent(p) in nodes && nodes[Parent(p)].stat.ephemeralOwner == 0
      && (base.Some? ==> IsNodePath(base.value) && Parent(base.value) == Parent(p)
                         && p == base.value + SeqSuffix(nodes[Parent(p)].stat.cversion))
    case Changed(p, _, _, _, expected) =>
      p in nodes && (expected != -1 ==> nodes[p].stat.version == expected)
    case Deleted(p, _) =>
      p in nodes && IsNodePath(p) && nodes[p].children == {} && Parent(p) in nodes
  }

  function Apply(nodes: Nodes, e: Event): Nodes
    requires Applicable(nodes, e)
  {
    match e
    case Created(p, data, time, owner, zxid, _) =>
      var q := Parent(p);
      nodes[p := Fresh(data, time, owner, zxid)][q := Touched(nodes[q], nodes[q].children + {Name(p)}, zxid)]
    case Changed(p, data, time, zxid, _) =>
      nodes[p := Written(nodes[p], data, time, zxid)]
    case Deleted(p, zxid) =>
      var q := Parent(p);
      (nodes - {p})[q := Touched(nodes[q], nodes[q].children - {Name(p)}, zxid)]
  }

  /** The tree after a history, or None when some event was not applicable. */
  function Fold(nodes: Nodes, h: seq<Event>): Option<Nodes> {
    if h == [] then Some(nodes)
    else
      var n := |h| - 1;
      match Fold(nodes, h[..n])
      case None => None
      case Some(m) => if Applicable(m, h[n]) then Some(Apply(m, h[n])) else None
  }

  ghost predicate AllAt(h: seq<Event>, zxid: int) { forall i :: 0 <= i < |h| ==> h[i].zxid == zxid }

  lemma FoldSnoc(nodes: Nodes, h: seq<Event>, e: Event)
    ensures Fold(nodes, h + [e]) ==
            match Fold(nodes, h)
            case None => None
            case Some(m) => if Applicable(m, e) then Some(Apply(m, e)) else None
  {
    assert (h + [e])[..|h|] == h;
  }

  lemma {:induction false} FoldConcat(nodes: Nodes, a: seq<Event>, b: seq<Event>)
    ensures Fold(nodes, a + b) == match Fold(nodes, a) case None => None case Some(m) => Fold(m, b)
  {
    hide Apply, Applicable;
    ConcatSnoc(a, b);
    if b != [] { FoldConcat(nodes, a, b[..|b| - 1]); }
  }

  /** A history that applies, applies up to any point. */
  lemma FoldPrefix(nodes: Nodes, h: seq<Event>, i: nat)
    requires i <= |h| && Fold(nodes, h).Some?
    ensures Fold(nodes, h[..i]).Some?
    ensures i < |h| ==> Applicable(Fold(nodes, h[..i]).value, h[i])
  {
    hide Fold, Apply, Applicable;
    SplitAt(h, i);
    FoldConcat(nodes, h[..i], h[i..]);
    if i < |h| {
      SplitAt(h, i + 1);
      FoldConcat(nodes, h[..i + 1], h[i + 1..]);
      TakeOneMore(h, i);
      FoldSnoc(nodes, h[..i], h[i]);
    }
  }

  // ------------------------------------------------- structural invariant

  /** The names that the paths directly below `p` end in. */
  function ChildNames(paths: set<string>, p: string): set<string> {
    set q | q in paths && q != ROOT && Parent(q) == p :: Name(q)
  }

  ghost predicate Rooted(nodes: Nodes) {
    ROOT in nodes && nodes[ROOT].stat.ephemeralOwner == 0
  }

  ghost predicate Linked(nodes: Nodes, q: string) {
    IsNodePath(q) && Parent(q) in nodes && nodes[Parent(q)].stat.ephemeralOwner == 0
  }

  /** Every node but the root hangs below a node of the map that is not ephemeral. */
  ghost predicate ParentsPresent(nodes: Nodes) {
    forall q {:trigger Linked(nodes, q)} :: q in nodes && q != ROOT ==> Linked(nodes, q)
  }

  ghost predicate ChildrenExact(nodes: Nodes, p: string)
    requires p in nodes
  {
    nodes[p].children == ChildNames(nodes.Keys, p)
  }

  /** The invariant no request can break, whatever paths it names. The root is the one node whose
      `children` may be wrong: see RootDeleteExact. */
  ghost predicate TreeInv(nodes: Nodes) {
    && Rooted(nodes)
    && ParentsPresent(nodes)
    && forall p {:trigger ChildrenExact(nodes, p)} :: p in nodes && p != ROOT ==> ChildrenExact(nodes, p)
  }

  /** The well-formed tree, root included. */
  ghost predicate WellFormed(nodes: Nodes) {
    TreeInv(nodes) && ChildrenExact(nodes, ROOT)
  }

  /** Ephemeral nodes are leaves. */
  lemma EphemeralsAreLeaves(nodes: Nodes, p: string)
    requires TreeInv(nodes) && p in nodes && nodes[p].stat.ephemeralOwner != 0
    ensures p != ROOT && nodes[p].children == {}
  {
    assert ChildrenExact(nodes, p);
    forall q | q in nodes && q != ROOT ensures Parent(q) != p { assert Linked(nodes, q); }
  }

  /** Without children the node can be deleted: the parent look-up after removal never fails. */
  lemma LeafDeletable(nodes: Nodes, p: string, zxid: int)
    requires TreeInv(nodes) && p in nodes && p != ROOT && nodes[p].children == {}
    ensures Applicable(nodes, Deleted(p, zxid)) && Parent(p) != p
    ensures forall q :: q in nodes && q != ROOT ==> Parent(q) != p
  {
    assert Linked(nodes, p);
    ParentShorter(p);
    assert ChildrenExact(nodes, p);
    forall q | q in nodes && q != ROOT ensures Parent(q) != p {
      assert Parent(q) == p ==> Name(q) in ChildNames(nodes.Keys, p);
    }
  }

  lemma NamesWith(paths: set<string>, q: string, p: string)
    requires q != ROOT
    ensures ChildNames(paths + {q}, p) == ChildNames(paths, p) + if Parent(q) == p then {Name(q)} else {}
  {
    var more := paths + {q};
    forall c | c in ChildNames(paths, p) ensures c in ChildNames(more, p) {
      var r :| r in paths && r != ROOT && Parent(r) == p && Name(r) == c;
      assert r in more;
    }
    if Parent(q) == p { assert q in more; }
  }

  /** Removing a path removes its name, unless its twin still supplies it. */
  lemma NamesWithout(paths: set<string>, q: string, p: string)
    requires q in paths && forall r :: r in paths && r != ROOT ==> IsNodePath(r)
    requires q != ROOT && !(Parent(q) == p == ROOT && Twin(q) in paths)
    ensures ChildNames(paths - {q}, p) == ChildNames(paths, p) - if Parent(q) == p then {Name(q)} else {}
  {
    hide IsNodePath, Parent, Name, Twin;
    var fewer := paths - {q};
    forall c | c in ChildNames(fewer, p)
      ensures c in ChildNames(paths, p) && (Parent(q) == p ==> c != Name(q))
    {
      var r :| r in fewer && r != ROOT && Parent(r) == p && Name(r) == c;
      if Parent(q) == p && c == Name(q) { PathFixed(q, r); }
    }
    forall c | c in ChildNames(paths, p) && !(Parent(q) == p && c == Name(q)) ensures c in ChildNames(fewer, p) {
      var r :| r in paths && r != ROOT && Parent(r) == p && Name(r) == c;
      assert r in fewer;
    }
  }

  /** No other node of the map shares the deleted node's parent and name. */
  ghost predicate NoTwin(nodes: Nodes, p: string) {
    Parent(p) == ROOT ==> Twin(p) !in nodes
  }

  /** What an event does to the set of paths and to the node `p`, seen from outside. */
  lemma ApplyAt(nodes: Nodes, e: Event, p: string)
    requires Applicable(nodes, e)
    ensures var after := Apply(nodes, e);
      && after.Keys == (match e
                        case Created(q, _, _, _, _, _) => nodes.Keys + {q}
                        case Changed(_, _, _, _, _) => nodes.Keys
                        case Deleted(q, _) => nodes.Keys - {q})
      && (p in nodes && p in after && p != e.path ==>
            after[p] == if e.Changed? || Parent(e.path) != p then nodes[p]
                        else if e.Created? then Touched(nodes[p], nodes[p].children + {Name(e.path)}, e.zxid)
                        else Touched(nodes[p], nodes[p].children - {Name(e.path)}, e.zxid))
      && (e.Created? && p == e.path ==> after[p] == Fresh(e.data, e.time, e.owner, e.zxid))
      && (e.Changed? && p == e.path ==> after[p] == Written(nodes[p], e.data, e.time, e.zxid))
  {
    if !e.Changed? { ParentShorter(e.path); }
  }

  /** Every event keeps the invariant. */
  lemma ApplyKeepsTreeInv(nodes: Nodes, e: Event)
    requires TreeInv(nodes) && Applicable(nodes, e)
    ensures TreeInv(Apply(nodes, e))
  {
    var after := Apply(nodes, e);
    ApplyAt(nodes, e, ROOT);
    if !e.Changed? { ParentShorter(e.path); }
    forall p | p in after && p != ROOT ensures ChildrenExact(after, p) {
      if p in nodes { assert ChildrenExact(nodes, p); }
      ApplyKeepsExact(nodes, e, p);
    }
    forall q | q in after && q != ROOT ensures Linked(after, q) {
      ApplyKeepsLinked(nodes, e, q);
    }
  }

  lemma ApplyKeepsLinked(nodes: Nodes, e: Event, q: string)
    requires TreeInv(nodes) && Applicable(nodes, e) && q in Apply(nodes, e) && q != ROOT
    ensures Linked(Apply(nodes, e), q)
  {
    ApplyAt(nodes, e, Parent(q));
    ApplyAt(nodes, e, q);
    if q in nodes { assert Linked(nodes, q); }
    if e.Deleted? { LeafDeletable(nodes, e.path, e.zxid); }
  }

  lemma ApplyKeepsExact(nodes: Nodes, e: Event, p: string)
    requires TreeInv(nodes) && Applicable(nodes, e) && p in Apply(nodes, e)
    requires p in nodes ==> ChildrenExact(nodes, p)
    requires p == ROOT && e.Deleted? ==> NoTwin(nodes, e.path)
    ensures ChildrenExact(Apply(nodes, e), p)
  {
    ApplyAt(nodes, e, p);
    if !e.Changed? { ParentShorter(e.path); }
    match e
    case Created(q, _, _, _, _, _) =>
      NamesWith(nodes.Keys, q, p);
      if p == q { NoOrphans(nodes, p); }
    case Changed(_, _, _, _, _) =>
    case Deleted(q, _) =>
      forall r | r in nodes.Keys && r != ROOT ensures IsNodePath(r) { assert Linked(nodes, r); }
      NamesWithout(nodes.Keys, q, p);
  }

  lemma NoOrphans(nodes: Nodes, p: string)
    requires TreeInv(nodes) && p !in nodes
    ensures ChildNames(nodes.Keys, p) == {}
  {
    forall q | q in nodes && q != ROOT ensures Parent(q) != p { assert Linked(nodes, q); }
  }

  /** Creating a child and writing data never disturb the root's child set. */
  lemma RootStaysExact(nodes: Nodes, e: Event)
    requires WellFormed(nodes) && Applicable(nodes, e) && !e.Deleted?
    ensures WellFormed(Apply(nodes, e))
  {
    ApplyKeepsTreeInv(nodes, e);
    ApplyKeepsExact(nodes, e, ROOT);
  }

  /** Deleting keeps the tree well formed exactly when the node has no twin: with both `/x` and
      `//x` in the map, deleting one takes the shared name out of the root's child set. */
  lemma RootDeleteExact(nodes: Nodes, p: string, zxid: int)
    requires WellFormed(nodes) && Applicable(nodes, Deleted(p, zxid))
    ensures WellFormed(Apply(nodes, Deleted(p, zxid))) <==> NoTwin(nodes, p)
  {
    var e := Deleted(p, zxid);
    var after := Apply(nodes, e);
    ApplyKeepsTreeInv(nodes, e);
    ParentShorter(p);
    if NoTwin(nodes, p) {
      ApplyKeepsExact(nodes, e, ROOT);
    } else {
      TwinSibling(p);
      assert Twin(p) in after && Twin(p) != ROOT by { ParentShorter(Twin(p)); }
      assert Name(p) in ChildNames(after.Keys, ROOT);
      assert Name(p) !in after[ROOT].children by { ApplyAt(nodes, e, ROOT); }
    }
  }

  /** Paths as clients normalise them. */
  ghost predicate Canonical(h: seq<Event>) {
    forall i :: 0 <= i < |h| && h[i].Created? ==> !DoubleSlash(h[i].path)
  }

  lemma CanonicalPrefix(h: seq<Event>)
    requires h != [] && Canonical(h)
    ensures Canonical(h[..|h| - 1])
  {
    var g := h[..|h| - 1];
    forall i | 0 <= i < |g| && g[i].Created? ensures !DoubleSlash(g[i].path) {
      assert g[i] == h[i];
    }
  }

  lemma {:induction false} CanonicalKeys(h: seq<Event>)
    requires Canonical(h) && Fold(EMPTY_TREE, h).Some?
    ensures forall q :: q in Fold(EMPTY_TREE, h).value ==> !DoubleSlash(q)
  {
    if h != [] {
      var n := |h| - 1;
      CanonicalPrefix(h);
      CanonicalKeys(h[..n]);
      var m := Fold(EMPTY_TREE, h[..n]).value;
      forall q | q in Apply(m, h[n]) ensures !DoubleSlash(q) {
        assert h[n].Created? ==> !DoubleSlash(h[n].path);
      }
    }
  }

  /** In every reachable tree the invariant holds, and over canonical paths the tree is well formed. */
  lemma {:induction false} ReachableTree(h: seq<Event>)
    requires Fold(EMPTY_TREE, h).Some?
    ensures TreeInv(Fold(EMPTY_TREE, h).value)
    ensures Canonical(h) ==> WellFormed(Fold(EMPTY_TREE, h).value)
  {
    if h != [] {
      var n := |h| - 1;
      var m := Fold(EMPTY_TREE, h[..n]).value;
      ReachableTree(h[..n]);
      ApplyKeepsTreeInv(m, h[n]);
      if Canonical(h) {
        CanonicalPrefix(h);
        CanonicalKeys(h[..n]);
        if h[n].Deleted? {
          if Parent(h[n].path) == ROOT { TwinSibling(h[n].path); }
          RootDeleteExact(m, h[n].path, h[n].zxid);
        } else {
          RootStaysExact(m, h[n]);
        }
      }
    }
  }
}
