/** What a node's stat means: every field is read off the history of events, with no reference to
    how the server maintains it. Counters here are unbounded; the server's are 32-bit. */
module History {
  import opened Base
  import opened Names
  import opened Tree

  ghost predicate IsChildOp(e: Event, p: string) {
    !e.Changed? && Parent(e.path) == p
  }

  ghost predicate IsBirth(e: Event, p: string) { e.Created? && e.path == p }

  ghost predicate IsWrite(e: Event, p: string) { e.Changed? && e.path == p }

  ghost predicate Alive(h: seq<Event>, p: string) {
    if h == [] then p == ROOT
    else
      var n := |h| - 1;
      if h[n].Created? && h[n].path == p then true
      else if h[n].Deleted? && h[n].path == p then false
      else Alive(h[..n], p)
  }

  /** The event that began the present lifetime of `p`; None for the root. */
  ghost function Birth(h: seq<Event>, p: string): (r: Option<Event>)
    ensures r.Some? ==> IsBirth(r.value, p)
  {
    if h == [] then None
    else
      var n := |h| - 1;
      if IsBirth(h[n], p) then Some(h[n]) else Birth(h[..n], p)
  }

  /** The event that gave `p` its present data. */
  ghost function LastWrite(h: seq<Event>, p: string): (r: Option<Event>)
    ensures r.Some? ==> IsBirth(r.value, p) || IsWrite(r.value, p)
  {
    if h == [] then None
    else
      var n := |h| - 1;
      if IsBirth(h[n], p) || IsWrite(h[n], p) then Some(h[n]) else LastWrite(h[..n], p)
  }

  /** The event that last changed the children of `p`, its birth counting as one. */
  ghost function LastChildOp(h: seq<Event>, p: string): Option<Event> {
    if h == [] then None
    else
      var n := |h| - 1;
      if IsBirth(h[n], p) || IsChildOp(h[n], p) then Some(h[n]) else LastChildOp(h[..n], p)
  }

  /** How many writes `p` has seen in its present lifetime. */
  ghost function Writes(h: seq<Event>, p: string): nat {
    if h == [] then 0
    else
      var n := |h| - 1;
      if IsBirth(h[n], p) then 0
      else Writes(h[..n], p) + if IsWrite(h[n], p) then 1 else 0
  }

  ghost function ChildCreates(h: seq<Event>, p: string): nat {
    if h == [] then 0
    else
      var n := |h| - 1;
      if IsBirth(h[n], p) then 0
      else ChildCreates(h[..n], p) + if h[n].Created? && IsChildOp(h[n], p) then 1 else 0
  }

  ghost function ChildDeletes(h: seq<Event>, p: string): nat {
    if h == [] then 0
    else
      var n := |h| - 1;
      if IsBirth(h[n], p) then 0
      else ChildDeletes(h[..n], p) + if h[n].Deleted? && IsChildOp(h[n], p) then 1 else 0
  }

  ghost function ChildOps(h: seq<Event>, p: string): nat {
    ChildCreates(h, p) + ChildDeletes(h, p)
  }

  ghost function Zxid(e: Option<Event>): int { if e.Some? then e.value.zxid else 0 }

  ghost function StatAt(h: seq<Event>, p: string): Stat {
    var birth, write := Birth(h, p), LastWrite(h, p);
    Stat(
      Zxid(birth),
      Zxid(write),
      if birth.Some? then birth.value.time else 0,
      if write.Some? then write.value.time else 0,
      Wrap32(Writes(h, p)),
      Wrap32(ChildOps(h, p)),
      0,
      if birth.Some? then birth.value.owner else 0,
      Zxid(LastChildOp(h, p)))
  }

  ghost function DataAt(h: seq<Event>, p: string): Bytes {
    var write := LastWrite(h, p);
    if write.Some? then write.value.data else []
  }

  /** The tree is a function of the history: which paths exist, their data and all nine stat fields. */
  lemma {:induction false} HistoryDeterminesTree(h: seq<Event>, p: string)
    requires Fold(EMPTY_TREE, h).Some?
    ensures var nodes := Fold(EMPTY_TREE, h).value;
      && (p in nodes <==> Alive(h, p))
      && (p in nodes ==> nodes[p].stat == StatAt(h, p) && nodes[p].data == DataAt(h, p))
  {
    if h == [] {
      EmptyHistory(h, p);
    } else {
      var n := |h| - 1;
      var m := Fold(EMPTY_TREE, h[..n]).value;
      HistoryDeterminesTree(h[..n], p);
      PathFollowsHistory(m, h, p);
      if p in Apply(m, h[n]) { NodeFollowsHistory(m, h, p); }
    }
  }

  lemma EmptyHistory(h: seq<Event>, p: string)
    requires h == []
    ensures Alive(h, p) <==> p in EMPTY_TREE
    ensures StatAt(h, p) == DEFAULT_STAT && DataAt(h, p) == []
  {
  }

  lemma PathFollowsHistory(m: Nodes, h: seq<Event>, p: string)
    requires h != [] && Applicable(m, h[|h| - 1]) && (p in m <==> Alive(h[..|h| - 1], p))
    ensures p in Apply(m, h[|h| - 1]) <==> Alive(h, p)
  {
    ApplyAt(m, h[|h| - 1], p);
  }

  lemma NodeFollowsHistory(m: Nodes, h: seq<Event>, p: string)
    requires h != [] && Applicable(m, h[|h| - 1]) && p in Apply(m, h[|h| - 1])
    requires p in m ==> m[p].stat == StatAt(h[..|h| - 1], p) && m[p].data == DataAt(h[..|h| - 1], p)
    ensures var node := Apply(m, h[|h| - 1])[p]; node.stat == StatAt(h, p) && node.data == DataAt(h, p)
  {
    var e := h[|h| - 1];
    ApplyAt(m, e, p);
    if !e.Changed? { ParentShorter(e.path); }
    hide Apply, Applicable, Parent, IsNodePath, StatAt, DataAt;
    if IsBirth(e, p) {
      BornStat(h, p);
    } else if IsWrite(e, p) {
      WrittenStat(h, p, m[p]);
    } else if IsChildOp(e, p) {
      TouchedStat(h, p, m[p], Apply(m, e)[p].children);
    } else {
      SameStat(h, p);
    }
  }

  lemma BornStat(h: seq<Event>, p: string)
    requires h != [] && IsBirth(h[|h| - 1], p)
    ensures var e := h[|h| - 1]; var node := Fresh(e.data, e.time, e.owner, e.zxid);
      node.stat == StatAt(h, p) && node.data == DataAt(h, p)
  {
    hide Birth, LastWrite, LastChildOp, Writes, ChildOps;
    LatestOf(h, p);
    CountsOf(h, p);
  }

  lemma WrittenStat(h: seq<Event>, p: string, n: Node)
    requires h != [] && IsWrite(h[|h| - 1], p)
    requires n.stat == StatAt(h[..|h| - 1], p)
    ensures var e := h[|h| - 1]; var node := Written(n, e.data, e.time, e.zxid);
      node.stat == StatAt(h, p) && node.data == DataAt(h, p)
  {
    hide Birth, LastWrite, LastChildOp, Writes, ChildOps, Wrap32;
    LatestOf(h, p);
    CountsOf(h, p);
    WrapTwice(Writes(h[..|h| - 1], p), 1);
  }

  lemma TouchedStat(h: seq<Event>, p: string, n: Node, children: set<string>)
    requires h != [] && IsChildOp(h[|h| - 1], p) && !IsBirth(h[|h| - 1], p)
    requires n.stat == StatAt(h[..|h| - 1], p) && n.data == DataAt(h[..|h| - 1], p)
    ensures var node := Touched(n, children, h[|h| - 1].zxid);
      node.stat == StatAt(h, p) && node.data == DataAt(h, p)
  {
    hide Birth, LastWrite, LastChildOp, Writes, ChildOps, Wrap32;
    LatestOf(h, p);
    CountsOf(h, p);
    WrapTwice(ChildOps(h[..|h| - 1], p), 1);
  }

  lemma SameStat(h: seq<Event>, p: string)
    requires h != [] && !IsBirth(h[|h| - 1], p) && !IsWrite(h[|h| - 1], p) && !IsChildOp(h[|h| - 1], p)
    ensures StatAt(h, p) == StatAt(h[..|h| - 1], p) && DataAt(h, p) == DataAt(h[..|h| - 1], p)
  {
    hide Birth, LastWrite, LastChildOp, Writes, ChildOps;
    LatestOf(h, p);
    CountsOf(h, p);
  }

  /** How the last event moves the landmarks of `p`. */
  lemma LatestOf(h: seq<Event>, p: string)
    requires h != []
    ensures var init, e := h[..|h| - 1], h[|h| - 1];
      && Birth(h, p) == (if IsBirth(e, p) then Some(e) else Birth(init, p))
      && LastWrite(h, p) == (if IsBirth(e, p) || IsWrite(e, p) then Some(e) else LastWrite(init, p))
      && LastChildOp(h, p) == (if IsBirth(e, p) || IsChildOp(e, p) then Some(e) else LastChildOp(init, p))
  {
  }

  /** How the last event moves the counts of `p`. */
  lemma CountsOf(h: seq<Event>, p: string)
    requires h != []
    ensures var init, e := h[..|h| - 1], h[|h| - 1];
      && Writes(h, p) == (if IsBirth(e, p) then 0 else Writes(init, p) + if IsWrite(e, p) then 1 else 0)
      && ChildOps(h, p) == (if IsBirth(e, p) then 0 else ChildOps(init, p) + if IsChildOp(e, p) then 1 else 0)
  {
  }

  // ------------------------------------------------- consequences over runs

  /** Between its prefixes of length `i` and `j`, the history neither ends nor restarts the
      lifetime of `p`. */
  ghost predicate SameLife(h: seq<Event>, i: nat, j: nat, p: string) {
    i <= j <= |h| && forall k :: i <= k < j ==> h[k].Changed? || h[k].path != p
  }

  ghost predicate ZxidsOrdered(h: seq<Event>, last: int) {
    && (forall i, j :: 0 <= i < j < |h| ==> h[i].zxid <= h[j].zxid)
    && (forall i :: 0 <= i < |h| ==> 0 <= h[i].zxid <= last)
  }

  /** Over a lifetime the two counters only grow, and czxid, ctime and owner are fixed. */
  lemma {:induction false} CountersGrow(h: seq<Event>, i: nat, j: nat, p: string)
    requires SameLife(h, i, j, p)
    ensures Birth(h[..j], p) == Birth(h[..i], p)
    ensures Writes(h[..j], p) >= Writes(h[..i], p)
    ensures ChildOps(h[..j], p) >= ChildOps(h[..i], p)
    decreases j
  {
    if i < j {
      assert h[..j][..j - 1] == h[..j - 1];
      CountersGrow(h, i, j - 1, p);
    }
  }

  /** Over a lifetime mzxid and pzxid never decrease. */
  lemma {:induction false} ZxidsGrow(h: seq<Event>, i: nat, j: nat, p: string, last: int)
    requires SameLife(h, i, j, p) && ZxidsOrdered(h, last)
    ensures Zxid(LastWrite(h[..j], p)) >= Zxid(LastWrite(h[..i], p))
    ensures Zxid(LastChildOp(h[..j], p)) >= Zxid(LastChildOp(h[..i], p))
    decreases j
  {
    if i < j {
      assert h[..j][..j - 1] == h[..j - 1];
      ZxidsGrow(h, i, j - 1, p, last);
      LatestBounded(h[..j - 1], p, h[j - 1].zxid);
    }
  }

  lemma {:induction false} LatestBounded(h: seq<Event>, p: string, z: int)
    requires 0 <= z && ZxidsOrdered(h, z)
    ensures 0 <= Zxid(Birth(h, p)) <= Zxid(LastWrite(h, p)) <= z
    ensures Zxid(Birth(h, p)) <= Zxid(LastChildOp(h, p)) <= z
  {
    if h != [] {
      var n := |h| - 1;
      LatestBounded(h[..n], p, h[n].zxid);
    }
  }

  /** In a history with ordered zxids every node has czxid <= mzxid <= last and czxid <= pzxid <= last. */
  lemma StatZxidsOrdered(h: seq<Event>, last: int, p: string)
    requires Fold(EMPTY_TREE, h).Some? && p in Fold(EMPTY_TREE, h).value
    requires 0 <= last && ZxidsOrdered(h, last)
    ensures var s := Fold(EMPTY_TREE, h).value[p].stat;
      0 <= s.czxid <= s.mzxid <= last && s.czxid <= s.pzxid <= last
  {
    HistoryDeterminesTree(h, p);
    LatestBounded(h, p, last);
  }

  /** Just before event `i` the counters of `p` were the server's, and the event applied to them. */
  lemma CountersBefore(h: seq<Event>, i: nat, p: string)
    requires Fold(EMPTY_TREE, h).Some? && i < |h|
    ensures var m := Fold(EMPTY_TREE, h[..i]);
      && m.Some? && Applicable(m.value, h[i])
      && (p in m.value ==> && m.value[p].stat.version == Wrap32(Writes(h[..i], p))
                           && m.value[p].stat.cversion == Wrap32(ChildOps(h[..i], p)))
    ensures h[..i + 1][..i] == h[..i]
  {
    FoldPrefix(EMPTY_TREE, h, i);
    HistoryDeterminesTree(h[..i], p);
    assert h[..i + 1][..i] == h[..i];
  }

  /** Within a lifetime and below overflow, at most one write conditioned on a given version applies. */
  lemma VersionsGuardWrites(h: seq<Event>, i: nat, j: nat)
    requires Fold(EMPTY_TREE, h).Some? && i < j < |h|
    requires h[i].Changed? && h[j].Changed? && h[i].path == h[j].path
    requires SameLife(h, i, j, h[i].path)
    requires Writes(h[..j], h[i].path) < 0x8000_0000
    ensures h[i].expected == h[j].expected ==> h[i].expected == -1
  {
    var p := h[i].path;
    CountersBefore(h, i, p);
    CountersBefore(h, j, p);
    assert Writes(h[..i + 1], p) == Writes(h[..i], p) + 1;
    CountersGrow(h, i + 1, j, p);
  }

  lemma CreateCounts(h: seq<Event>, i: nat)
    requires i < |h| && h[i].Created? && IsNodePath(h[i].path)
    ensures ChildOps(h[..i + 1], Parent(h[i].path)) == ChildOps(h[..i], Parent(h[i].path)) + 1
  {
    ParentShorter(h[i].path);
    assert h[..i + 1][..i] == h[..i];
  }

  /** A sequential create's suffix is its parent's count of child operations at that moment. */
  lemma SuffixIsCount(h: seq<Event>, i: nat)
    requires Fold(EMPTY_TREE, h).Some? && i < |h| && h[i].Created? && h[i].base.Some?
    ensures IsNodePath(h[i].path)
    ensures h[i].path == h[i].base.value + SeqSuffix(Wrap32(ChildOps(h[..i], Parent(h[i].path))))
  {
    CountersBefore(h, i, Parent(h[i].path));
  }

  /** Two sequential creates under one parent, in one lifetime of it and below overflow, get
      ten-digit suffixes that increase strictly as strings: with one prefix, the later path sorts
      after the earlier one, and no name is given twice. */
  lemma SequentialNamesIncrease(h: seq<Event>, i: nat, j: nat) returns (s: string, t: string)
    requires Fold(EMPTY_TREE, h).Some? && i < j < |h|
    requires h[i].Created? && h[i].base.Some? && h[j].Created? && h[j].base.Some?
    requires Parent(h[i].path) == Parent(h[j].path) && SameLife(h, i, j, Parent(h[i].path))
    requires ChildOps(h[..j], Parent(h[i].path)) < 0x8000_0000
    ensures h[i].path == h[i].base.value + s && h[j].path == h[j].base.value + t
    ensures |s| == |t| == 10 && AllDigits(s) && AllDigits(t) && LexBefore(s, t)
    ensures h[i].base == h[j].base ==> h[i].path != h[j].path
  {
    var p := Parent(h[i].path);
    var a, b := ChildOps(h[..i], p), ChildOps(h[..j], p);
    SuffixIsCount(h, i);
    SuffixIsCount(h, j);
    CreateCounts(h, i);
    CountersGrow(h, i + 1, j, p);
    s, t := SeqSuffix(a), SeqSuffix(b);
    SeqSuffixOrder(a, b);
    SamePrefix(h[i].base.value, s, t);
  }

  lemma SamePrefix(p: string, s: string, t: string)
    requires LexBefore(s, t)
    ensures p + s != p + t
  {
    assert (p + s)[|p|..] == s && (p + t)[|p|..] == t;
  }

  /** Children are conserved: a node has as many children as child creates exceed child deletes in
      its lifetime, so `cversion` and the child count always have the same parity. For the root this
      needs canonical paths, for every other node nothing. */
  lemma {:induction false} ChildrenConserved(h: seq<Event>, p: string)
    requires Fold(EMPTY_TREE, h).Some? && p in Fold(EMPTY_TREE, h).value
    requires p == ROOT ==> Canonical(h)
    ensures |Fold(EMPTY_TREE, h).value[p].children| == ChildCreates(h, p) - ChildDeletes(h, p)
  {
    if h != [] {
      var n := |h| - 1;
      var e, m := h[n], Fold(EMPTY_TREE, h[..n]).value;
      ApplyAt(m, e, p);
      if !IsBirth(e, p) {
        if p == ROOT { CanonicalPrefix(h); CanonicalKeys(h[..n]); }
        ChildrenConserved(h[..n], p);
        if IsWrite(e, p) {
        } else if IsChildOp(e, p) {
          ReachableTree(h[..n]);
          assert ChildrenExact(m, p);
          ChildNamePresence(m, e, p);
        }
      }
    }
  }

  /** A created name was not among the children; a deleted one was. */
  lemma ChildNamePresence(m: Nodes, e: Event, p: string)
    requires TreeInv(m) && p in m && ChildrenExact(m, p) && Applicable(m, e) && IsChildOp(e, p)
    requires p == ROOT && e.Created? ==> forall q :: q in m || q == e.path ==> !DoubleSlash(q)
    ensures e.Created? ==> Name(e.path) !in m[p].children
    ensures e.Deleted? ==> Name(e.path) in m[p].children
  {
    ParentShorter(e.path);
    if e.Created? && Name(e.path) in m[p].children {
      var q :| q in m.Keys && q != ROOT && Parent(q) == p && Name(q) == Name(e.path);
      PathFixed(e.path, q);
      if p == ROOT { TwinSibling(e.path); }
    }
  }
}
