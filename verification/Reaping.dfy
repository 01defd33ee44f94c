/** The clean-up after a session in the order in which a hash set happens to list its paths: what
    depends on that order and what does not. */
module Reaping {
  import opened Base
  import opened Names
  import opened Tree
  import opened Store

  ghost predicate Listing(order: seq<string>, paths: set<string>) { Distinct(order) && ToSet(order) == paths }

  // ------------------------------------------- failures ignored: the live path

  /** `let _ = tree.delete(path)` for each path: a deletion that fails is skipped. */
  function Tried(nodes: Nodes, order: seq<string>, zxid: int): Nodes {
    if order == [] then nodes
    else
      var m := Tried(nodes, order[..|order| - 1], zxid);
      match DeleteEvent(m, zxid, order[|order| - 1])
      case Failure(_) => m
      case Success(e) => Apply(m, e)
  }

  /** The deletions that succeeded. */
  function TriedEvents(nodes: Nodes, order: seq<string>, zxid: int): seq<Event> {
    if order == [] then []
    else
      var init, last := order[..|order| - 1], order[|order| - 1];
      TriedEvents(nodes, init, zxid) +
      if DeleteEvent(Tried(nodes, init, zxid), zxid, last).Success? then [Deleted(last, zxid)] else []
  }

  lemma TriedSnoc(nodes: Nodes, order: seq<string>, zxid: int)
    requires order != []
    ensures var init, last := order[..|order| - 1], order[|order| - 1];
      var h, m := TriedEvents(nodes, init, zxid), Tried(nodes, init, zxid);
      if DeleteEvent(m, zxid, last).Success?
      then TriedEvents(nodes, order, zxid) == h + [Deleted(last, zxid)] && Applicable(m, Deleted(last, zxid))
           && Tried(nodes, order, zxid) == Apply(m, Deleted(last, zxid))
      else TriedEvents(nodes, order, zxid) == h && Tried(nodes, order, zxid) == m
  {
  }

  lemma {:induction false} TriedFolds(nodes: Nodes, order: seq<string>, zxid: int)
    ensures Fold(nodes, TriedEvents(nodes, order, zxid)) == Some(Tried(nodes, order, zxid))
    ensures AllAt(TriedEvents(nodes, order, zxid), zxid)
  {
    hide Apply, Applicable, DeleteEvent;
    if order != [] {
      var init, last := order[..|order| - 1], order[|order| - 1];
      TriedFolds(nodes, init, zxid);
      TriedSnoc(nodes, order, zxid);
      FoldSnoc(nodes, TriedEvents(nodes, init, zxid), Deleted(last, zxid));
    }
  }

  /** Over leaves nothing is skipped and the order leaves no trace. */
  lemma {:induction false} TriedLeaves(nodes: Nodes, order: seq<string>, zxid: int)
    requires Distinct(order) && Leaves(nodes, ToSet(order))
    ensures Tried(nodes, order, zxid) == Reap(nodes, ToSet(order), zxid)
  {
    hide Reap, Apply, Applicable, Leaves, DeleteEvent;
    if order == [] {
      assert ToSet(order) == {};
      ReapNone(nodes, zxid);
    } else {
      var init, q := order[..|order| - 1], order[|order| - 1];
      ListingSnoc(order);
      FewerLeaves(nodes, ToSet(order), ToSet(init));
      TriedLeaves(nodes, init, zxid);
      LeafGoes(nodes, ToSet(init), q, zxid);
    }
  }

  lemma LeafGoes(nodes: Nodes, gone: set<string>, q: string, zxid: int)
    requires Leaves(nodes, gone + {q}) && q !in gone
    ensures DeleteEvent(Reap(nodes, gone, zxid), zxid, q) == Success(Deleted(q, zxid))
    ensures Apply(Reap(nodes, gone, zxid), Deleted(q, zxid)) == Reap(nodes, gone + {q}, zxid)
  {
    ReapStep(nodes, gone, q, zxid);
    DeletesApplicable(Reap(nodes, gone, zxid), q, zxid);
  }

  lemma FewerLeaves(nodes: Nodes, all: set<string>, some: set<string>)
    requires Leaves(nodes, all) && some <= all
    ensures Leaves(nodes, some)
  {
  }

  lemma ListingSnoc(order: seq<string>)
    requires order != [] && Distinct(order)
    ensures var init, q := order[..|order| - 1], order[|order| - 1];
      Distinct(init) && q !in ToSet(init) && ToSet(order) == ToSet(init) + {q}
  {
  }

  lemma DeletesApplicable(nodes: Nodes, q: string, zxid: int)
    ensures DeleteEvent(nodes, zxid, q).Success? <==> Applicable(nodes, Deleted(q, zxid))
  {
  }

  // ------------------------------------------------ failures fatal: replay

  /** Everything below one of these paths is one of them: they can go from the bottom up. */
  ghost predicate Prunable(nodes: Nodes, gone: set<string>) {
    && (forall q :: q in gone ==> q in nodes && IsNodePath(q))
    && (forall c :: c in nodes && c != ROOT && Parent(c) in gone ==> c in gone)
  }

  /** When the deletions succeed in some order, the paths were prunable, and the result is the closed
      form, which does not mention the order. */
  lemma {:induction false} SuccessfulOrder(nodes: Nodes, order: seq<string>, zxid: int)
    requires TreeInv(nodes) && Fold(nodes, Deletions(order, zxid)).Some?
    ensures Fold(nodes, Deletions(order, zxid)) == Some(Reap(nodes, ToSet(order), zxid))
    ensures Distinct(order) && Prunable(nodes, ToSet(order))
  {
    hide Reap, Apply, Applicable, TreeInv, Prunable, Distinct, ToSet, Deletions, Fold;
    if order == [] {
      NothingListed(nodes, zxid);
    } else {
      var n := |order| - 1;
      var init, q := order[..n], order[n];
      DeletionsSnoc(nodes, order, zxid);
      SuccessfulOrder(nodes, init, zxid);
      PruneOne(nodes, ToSet(init), q, zxid);
      ReapOneMore(nodes, ToSet(init), q, zxid);
      ListedSnoc(order);
    }
  }

  lemma NothingListed(nodes: Nodes, zxid: int)
    ensures ToSet<string>([]) == {} && Distinct<string>([]) && Prunable(nodes, {})
    ensures Fold(nodes, Deletions([], zxid)) == Some(nodes) && Reap(nodes, {}, zxid) == nodes
  {
    ReapNone(nodes, zxid);
  }

  lemma ListedSnoc(order: seq<string>)
    requires order != []
    ensures var init, q := order[..|order| - 1], order[|order| - 1];
      ToSet(order) == ToSet(init) + {q} && (Distinct(init) && q !in ToSet(init) ==> Distinct(order))
  {
  }

  lemma DeletionsSnoc(nodes: Nodes, order: seq<string>, zxid: int)
    requires order != []
    ensures var init, q := order[..|order| - 1], order[|order| - 1];
      Fold(nodes, Deletions(order, zxid)) ==
      match Fold(nodes, Deletions(init, zxid))
      case None => None
      case Some(m) => if Applicable(m, Deleted(q, zxid)) then Some(Apply(m, Deleted(q, zxid))) else None
  {
    FoldSnoc(nodes, Deletions(order[..|order| - 1], zxid), Deleted(order[|order| - 1], zxid));
  }

  /** A node that can be deleted after others has only those others below it. */
  lemma PruneOne(nodes: Nodes, gone: set<string>, q: string, zxid: int)
    requires TreeInv(nodes) && Prunable(nodes, gone) && Applicable(Reap(nodes, gone, zxid), Deleted(q, zxid))
    ensures q !in gone && Prunable(nodes, gone + {q})
  {
    hide Reap, Applicable, TreeInv, IsNodePath, Parent, Below, NamesOf;
    GoesNow(nodes, gone, q, zxid);
    forall c | c in nodes && c != ROOT && Parent(c) == q ensures c in gone { ChildGone(nodes, gone, q, c); }
    AlsoPrunable(nodes, gone, q);
  }

  lemma AlsoPrunable(nodes: Nodes, gone: set<string>, q: string)
    requires Prunable(nodes, gone) && q in nodes && IsNodePath(q)
    requires forall c :: c in nodes && c != ROOT && Parent(c) == q ==> c in gone
    ensures Prunable(nodes, gone + {q})
  {
    hide IsNodePath, Parent;
  }

  lemma GoesNow(nodes: Nodes, gone: set<string>, q: string, zxid: int)
    requires Applicable(Reap(nodes, gone, zxid), Deleted(q, zxid))
    ensures q !in gone && q in nodes && IsNodePath(q) && nodes[q].children <= NamesOf(Below(gone, q))
  {
    hide NamesOf, Below, IsNodePath, Parent;
    assert Reap(nodes, gone, zxid)[q] == Reaped(nodes[q], Below(gone, q), zxid);
    NothingOver(nodes[q].children, NamesOf(Below(gone, q)));
  }

  lemma NothingOver(a: set<string>, b: set<string>)
    ensures a == {} || a - b == {} ==> a <= b
  {
    forall x | x in a ensures a - b == {} ==> x in b { assert x !in b ==> x in a - b; }
  }

  lemma ChildGone(nodes: Nodes, gone: set<string>, q: string, c: string)
    requires TreeInv(nodes) && q in nodes && IsNodePath(q) && (forall g :: g in gone ==> IsNodePath(g))
    requires nodes[q].children <= NamesOf(Below(gone, q)) && c in nodes && c != ROOT && Parent(c) == q
    ensures c in gone
  {
    assert ChildrenExact(nodes, q) && Linked(nodes, c);
    assert Name(c) in nodes[q].children;
    var g :| g in Below(gone, q) && Name(g) == Name(c);
    PathFixed(c, g);
  }

  /** Prunable paths can be deleted in some order: a parent after everything below it. */
  lemma {:induction false} PruningOrder(nodes: Nodes, gone: set<string>, zxid: int) returns (order: seq<string>)
    requires TreeInv(nodes) && Prunable(nodes, gone)
    ensures Listing(order, gone) && Fold(nodes, Deletions(order, zxid)).Some?
    decreases |gone|
  {
    hide Reap, Apply, Applicable, TreeInv, Prunable, Distinct, ToSet, Deletions, Fold;
    if gone == {} {
      order := [];
      NothingListed(nodes, zxid);
    } else {
      var q := Shortest(gone);
      var rest := gone - {q};
      assert rest + {q} == gone;
      StillPrunable(nodes, rest, q);
      var init := PruningOrder(nodes, rest, zxid);
      SuccessfulOrder(nodes, init, zxid);
      LastToGo(nodes, rest, q, zxid);
      order := init + [q];
      assert order[..|order| - 1] == init;
      DeletionsSnoc(nodes, order, zxid);
      ListedSnoc(order);
    }
  }

  lemma StillPrunable(nodes: Nodes, rest: set<string>, q: string)
    requires TreeInv(nodes) && Prunable(nodes, rest + {q}) && forall p :: p in rest ==> |q| <= |p|
    ensures Prunable(nodes, rest)
  {
    forall c | c in nodes && c != ROOT && Parent(c) in rest ensures c in rest {
      assert Linked(nodes, c);
      ShorterParent(c);
    }
  }

  lemma ShorterParent(c: string)
    requires IsNodePath(c) && Parent(c) != ROOT
    ensures |Parent(c)| < |c|
  {
  }

  lemma {:induction false} Shortest(paths: set<string>) returns (q: string)
    requires paths != {}
    ensures q in paths && forall p :: p in paths ==> |q| <= |p|
  {
    q :| q in paths;
    if paths != {q} {
      var rest := paths - {q};
      var r := Shortest(rest);
      var first := q;
      if |r| < |q| { q := r; }
      forall p | p in paths ensures |q| <= |p| { assert p == first || p in rest; }
    }
  }

  lemma LastToGo(nodes: Nodes, rest: set<string>, q: string, zxid: int)
    requires TreeInv(nodes) && Prunable(nodes, rest + {q}) && q !in rest
    requires forall p :: p in rest ==> |q| <= |p|
    ensures Applicable(Reap(nodes, rest, zxid), Deleted(q, zxid))
  {
    assert q in rest + {q} && Linked(nodes, q);
    NoneLeft(nodes, rest, q);
    if Parent(q) in rest { ShorterParent(q); }
  }

  lemma NoneLeft(nodes: Nodes, rest: set<string>, q: string)
    requires TreeInv(nodes) && Prunable(nodes, rest + {q}) && q !in rest && q in nodes && IsNodePath(q)
    ensures nodes[q].children <= NamesOf(Below(rest, q))
  {
    assert ChildrenExact(nodes, q);
    forall n | n in nodes[q].children ensures n in NamesOf(Below(rest, q)) {
      var c :| c in nodes.Keys && c != ROOT && Parent(c) == q && Name(c) == n;
      assert c in rest + {q} && Linked(nodes, c);
      ParentShorter(c);
      assert c in Below(rest, q);
    }
  }

  /** Some order succeeds exactly when everything below these paths is among them. */
  lemma SomeOrderIff(nodes: Nodes, gone: set<string>, zxid: int)
    requires TreeInv(nodes)
    ensures (exists order :: Listing(order, gone) && Fold(nodes, Deletions(order, zxid)).Some?)
            <==> Prunable(nodes, gone)
  {
    if Prunable(nodes, gone) { var order := PruningOrder(nodes, gone, zxid); }
    if order :| Listing(order, gone) && Fold(nodes, Deletions(order, zxid)).Some? {
      SuccessfulOrder(nodes, order, zxid);
    }
  }

  ghost predicate LeafAmong(nodes: Nodes, gone: set<string>, q: string) {
    q in nodes && IsNodePath(q) && nodes[q].children == {} && Parent(q) in nodes && Parent(q) !in gone
  }

  ghost predicate EveryOrder(nodes: Nodes, gone: set<string>, zxid: int) {
    forall order :: Listing(order, gone) ==> Fold(nodes, Deletions(order, zxid)).Some?
  }

  /** Every order succeeds exactly when the paths are leaves. */
  lemma EveryOrderIff(nodes: Nodes, gone: set<string>, zxid: int)
    requires TreeInv(nodes)
    ensures EveryOrder(nodes, gone, zxid) <==> Leaves(nodes, gone)
  {
    if Leaves(nodes, gone) {
      forall order | Listing(order, gone) ensures Fold(nodes, Deletions(order, zxid)).Some? {
        ReapAnyOrder(nodes, order, zxid);
      }
    }
    if EveryOrder(nodes, gone, zxid) {
      hide TreeInv, EveryOrder, Fold, Listing;
      forall q | q in gone ensures LeafAmong(nodes, gone, q) {
        GoesFirst(nodes, gone, q, zxid);
        ParentStays(nodes, gone, q, zxid);
      }
    }
  }

  lemma ParentStays(nodes: Nodes, gone: set<string>, q: string, zxid: int)
    requires TreeInv(nodes) && EveryOrder(nodes, gone, zxid) && q in gone
    ensures Parent(q) !in gone
  {
    hide TreeInv, EveryOrder;
    if Parent(q) in gone {
      GoesFirst(nodes, gone, Parent(q), zxid);
      GoesFirst(nodes, gone, q, zxid);
      HasChild(nodes, q);
      assert false;
    }
  }

  lemma HasChild(nodes: Nodes, q: string)
    requires TreeInv(nodes) && q in nodes && IsNodePath(q) && IsNodePath(Parent(q)) && Parent(q) in nodes
    ensures nodes[Parent(q)].children != {}
  {
    assert ChildrenExact(nodes, Parent(q));
    assert Name(q) in nodes[Parent(q)].children;
  }

  /** If every order succeeds, then so does one that begins with `q`. */
  lemma GoesFirst(nodes: Nodes, gone: set<string>, q: string, zxid: int)
    requires EveryOrder(nodes, gone, zxid) && q in gone
    ensures Applicable(nodes, Deleted(q, zxid))
  {
    var rest := Listed(gone - {q});
    var order := [q] + rest;
    assert ToSet(order) == ToSet(rest) + {q};
    assert Listing(order, gone);
    FoldPrefix(nodes, Deletions(order, zxid), 0);
    assert Deletions(order, zxid)[0] == Deleted(q, zxid);
    assert Deletions(order, zxid)[..0] == [];
  }

  lemma LeavesPrunable(nodes: Nodes, gone: set<string>)
    requires TreeInv(nodes) && Leaves(nodes, gone)
    ensures Prunable(nodes, gone)
  {
    forall c | c in nodes && c != ROOT ensures Parent(c) !in gone {
      assert Linked(nodes, c);
      if Parent(c) in gone {
        HasChild(nodes, c);
        assert false;
      }
    }
  }

  // ------------------------------------------------------ closing a session

  /** The session closed on the live path, its paths listed in this order. */
  function CloseImage(d: Image, id: int, order: seq<string>): Image {
    d.(nodes := Tried(d.nodes, order, d.lastZxid), ephemerals := d.ephemerals - {id}, timeouts := d.timeouts - {id})
  }

  /** With an exact index the order does not matter. */
  lemma CloseAnyOrder(d: Image, id: int, order: seq<string>)
    requires Inv(d) && Listing(order, Owned(d.ephemerals, id))
    ensures CloseImage(d, id, order) == Closed(d, id)
  {
    OwnedAreLeaves(d, id);
    TriedLeaves(d.nodes, order, d.lastZxid);
  }
}
