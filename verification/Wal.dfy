/** The segmented log: an active segment behind a buffer, rotation by size, reopening and reading. */
module Wal {
  import opened Base
  import opened Names
  import opened Record

  /** The log directory: file names and contents. Flushed bytes are in it; buffered ones are not. */
  class Disk {
    var files: map<string, Bytes>

    constructor ()
      ensures files == map[]
    {
      files := map[];
    }
  }

  class SegmentWriter {
    const disk: Disk
    const path: string
    const ck: Checksum
    var buf: Bytes
    var bytesWritten: nat

    constructor (disk: Disk, path: string, ck: Checksum, existingBytes: nat)
      ensures this.disk == disk && this.path == path && this.ck == ck
      ensures buf == [] && bytesWritten == existingBytes
    {
      this.disk, this.path, this.ck := disk, path, ck;
      buf, bytesWritten := [], existingBytes;
    }

    method Append(version: byte, index: nat, term: nat, valueType: byte, payload: Bytes)
      modifies this
      ensures buf == old(buf) + Encoded(ck, Rec(version, index, term, valueType, payload))
      ensures bytesWritten == old(bytesWritten) + |buf| - |old(buf)|
    {
      var before := |buf|;
      buf := Encode(ck, buf, version, index, term, valueType, payload);
      bytesWritten := bytesWritten + (|buf| - before);
    }

    /** Moves the whole buffer to the end of the file. */
    method Flush()
      requires path in disk.files
      modifies this, disk
      ensures buf == [] && bytesWritten == old(bytesWritten)
      ensures disk.files == old(disk.files)[path := old(disk.files)[path] + old(buf)]
    {
      if buf == [] {
        assert disk.files[path] + buf == disk.files[path];
        return;
      }
      disk.files := disk.files[path := disk.files[path] + buf];
      buf := [];
    }
  }

  // ---------------------------------------------- segments of a log

  /** A closed segment: its file is complete. Segments are listed in the order of their keys. */
  datatype Segment = Segment(key: nat, recs: seq<Rec>)

  ghost function Flatten(segs: seq<Segment>): seq<Rec> {
    if segs == [] then [] else Flatten(segs[..|segs| - 1]) + segs[|segs| - 1].recs
  }

  ghost function LastIndex(rs: seq<Rec>): nat { if rs == [] then 0 else rs[|rs| - 1].index }

  ghost predicate Increasing(rs: seq<Rec>) {
    |rs| <= 1 || (Increasing(rs[..|rs| - 1]) && rs[|rs| - 2].index < rs[|rs| - 1].index)
  }

  ghost predicate AtLeast(rs: seq<Rec>, low: nat) { forall i :: 0 <= i < |rs| ==> low <= rs[i].index }

  ghost predicate Below(rs: seq<Rec>, high: nat) { forall i :: 0 <= i < |rs| ==> rs[i].index < high }

  /** Each segment holds increasing indexes from its key up to, excluding, the next segment's key. */
  ghost predicate Chain(segs: seq<Segment>, next: nat) {
    segs != [] ==>
      var last := segs[|segs| - 1];
      && last.key < next && Increasing(last.recs) && AtLeast(last.recs, last.key) && Below(last.recs, next)
      && Chain(segs[..|segs| - 1], last.key)
  }

  /** A well-placed log: closed segments, then the newest one, which starts at most one after the
      last index there is. `last_index` is right whenever the newest segment has a record. */
  ghost predicate Placed(closed: seq<Segment>, top: nat, current: seq<Rec>, lastIndex: nat) {
    && Chain(closed, top) && Increasing(current) && AtLeast(current, top)
    && top <= LastIndex(Flatten(closed) + current) + 1
    && (current != [] ==> lastIndex == LastIndex(current))
  }

  lemma IncreasingSnoc(rs: seq<Rec>, r: Rec)
    requires Increasing(rs) && (rs != [] ==> r.index > LastIndex(rs))
    ensures Increasing(rs + [r])
  {
    assert (rs + [r])[..|rs|] == rs;
  }

  lemma {:induction false} BoundedByLast(rs: seq<Rec>)
    requires Increasing(rs)
    ensures Below(rs, LastIndex(rs) + 1)
  {
    if |rs| > 1 { BoundedByLast(rs[..|rs| - 1]); }
  }

  lemma {:induction false} IncreasingConcat(a: seq<Rec>, b: seq<Rec>, cut: nat)
    requires Increasing(a) && Below(a, cut) && Increasing(b) && AtLeast(b, cut)
    ensures Increasing(a + b)
  {
    if b == [] {
      assert a + b == a;
    } else {
      var init, last := b[..|b| - 1], b[|b| - 1];
      IncreasingConcat(a, init, cut);
      assert a + b == (a + init) + [last];
      IncreasingSnoc(a + init, last);
    }
  }

  /** In a well-placed log indexes increase strictly from the first segment to the last. */
  lemma {:induction false} ChainIncreasing(segs: seq<Segment>, next: nat)
    requires Chain(segs, next)
    ensures Increasing(Flatten(segs)) && Below(Flatten(segs), next)
  {
    if segs != [] {
      var last := segs[|segs| - 1];
      ChainIncreasing(segs[..|segs| - 1], last.key);
      IncreasingConcat(Flatten(segs[..|segs| - 1]), last.recs, last.key);
    }
  }

  /** A record is in the segment its index points to: segment keys cut the log like a ruler. */
  lemma {:induction false} ChainLookup(segs: seq<Segment>, next: nat, i: nat)
    requires Chain(segs, next) && i < |segs|
    ensures segs[i].key < next
    ensures AtLeast(segs[i].recs, segs[i].key)
    ensures Below(segs[i].recs, if i + 1 < |segs| then segs[i + 1].key else next)
    ensures i + 1 < |segs| ==> segs[i].key < segs[i + 1].key
  {
    if i + 1 < |segs| {
      ChainLookup(segs[..|segs| - 1], segs[|segs| - 1].key, i);
    }
  }

  lemma {:induction false} KeysOrdered(segs: seq<Segment>, next: nat, i: nat, j: nat)
    requires Chain(segs, next) && i < j < |segs|
    ensures segs[i].key < segs[j].key < next
  {
    var n := |segs| - 1;
    ChainLookup(segs, next, j);
    if j == n { ChainLookup(segs[..n], segs[n].key, i); } else { KeysOrdered(segs[..n], segs[n].key, i, j); }
  }

  lemma LastOfConcat(a: seq<Rec>, b: seq<Rec>)
    ensures LastIndex(a + b) == if b == [] then LastIndex(a) else LastIndex(b)
  {
    if b == [] { assert a + b == a; }
  }

  lemma PlaceAppend(closed: seq<Segment>, top: nat, current: seq<Rec>, lastIndex: nat, r: Rec)
    requires Placed(closed, top, current, lastIndex) && r.index > LastIndex(Flatten(closed) + current)
    ensures Placed(closed, top, current + [r], r.index)
    ensures Flatten(closed) + (current + [r]) == Flatten(closed) + current + [r]
  {
    hide Chain, Flatten, Increasing;
    assert Flatten(closed) + (current + [r]) == Flatten(closed) + current + [r];
    LastOfConcat(Flatten(closed), current);
    IncreasingSnoc(current, r);
  }

  lemma BufferOneMore(ck: Checksum, closed: seq<Segment>, top: nat, synced: seq<Rec>, pending: seq<Rec>,
                      lastIndex: nat, r: Rec)
    requires Placed(closed, top, synced + pending, lastIndex)
    requires r.index > LastIndex(Flatten(closed) + (synced + pending))
    ensures Placed(closed, top, synced + (pending + [r]), r.index)
    ensures Flatten(closed) + (synced + (pending + [r])) == Flatten(closed) + (synced + pending) + [r]
    ensures EncodeAll(ck, pending + [r]) == EncodeAll(ck, pending) + Encoded(ck, r)
  {
    assert synced + (pending + [r]) == synced + pending + [r];
    PlaceAppend(closed, top, synced + pending, lastIndex, r);
    EncodeAllSnoc(ck, pending, r);
  }

  /** Rotation finds its key above every index and every key there is. */
  lemma PlaceRotate(closed: seq<Segment>, top: nat, current: seq<Rec>, lastIndex: nat)
    requires Placed(closed, top, current, lastIndex) && current != []
    ensures var more := closed + [Segment(top, current)];
      lastIndex + 1 > top && Placed(more, lastIndex + 1, [], lastIndex) && Flatten(more) == Flatten(closed) + current
  {
    var more := closed + [Segment(top, current)];
    assert more[..|closed|] == closed;
    BoundedByLast(current);
    assert Flatten(more) + [] == Flatten(closed) + current;
  }

  // -------------------------------------------------- segments on disk

  /** The map the store keeps of its segments. */
  ghost function SegmentNames(segs: seq<Segment>): map<nat, string> {
    if segs == [] then map[]
    else SegmentNames(segs[..|segs| - 1])[segs[|segs| - 1].key := SegmentName(segs[|segs| - 1].key)]
  }

  /** Each segment's file holds exactly its records. */
  ghost predicate FilesHold(ck: Checksum, files: map<string, Bytes>, segs: seq<Segment>) {
    segs != [] ==>
      var last := segs[|segs| - 1];
      && SegmentName(last.key) in files && files[SegmentName(last.key)] == EncodeAll(ck, last.recs)
      && FilesHold(ck, files, segs[..|segs| - 1])
  }

  /** Every file named like a segment is one of these. */
  ghost predicate NoStrangers(files: map<string, Bytes>, keys: set<nat>) {
    forall name :: name in files && ParseSegmentName(name).Some? ==>
      ParseSegmentName(name).value in keys && name == SegmentName(ParseSegmentName(name).value)
  }

  lemma SnocSegment(ck: Checksum, files: map<string, Bytes>, segs: seq<Segment>, last: Segment)
    ensures SegmentNames(segs + [last]) == SegmentNames(segs)[last.key := SegmentName(last.key)]
    ensures Flatten(segs + [last]) == Flatten(segs) + last.recs
    ensures FilesHold(ck, files, segs + [last]) <==>
            FilesHold(ck, files, segs)
            && SegmentName(last.key) in files && files[SegmentName(last.key)] == EncodeAll(ck, last.recs)
  {
    assert (segs + [last])[..|segs|] == segs;
  }

  /** Writing the file of a later key leaves the earlier segments' files alone. */
  lemma {:induction false} LaterFile(ck: Checksum, files: map<string, Bytes>, segs: seq<Segment>, key: nat, data: Bytes)
    requires FilesHold(ck, files, segs) && Chain(segs, key)
    ensures FilesHold(ck, files[SegmentName(key) := data], segs)
  {
    if segs != [] {
      var last := segs[|segs| - 1];
      if SegmentName(last.key) == SegmentName(key) { SegmentNameInjective(last.key, key); }
      ChainWeaken(segs[..|segs| - 1], last.key, key);
      LaterFile(ck, files, segs[..|segs| - 1], key, data);
    }
  }

  lemma ChainWeaken(segs: seq<Segment>, next: nat, later: nat)
    requires Chain(segs, next) && next <= later
    ensures Chain(segs, later)
  {
  }

  lemma NoNewStrangers(files: map<string, Bytes>, keys: set<nat>, key: nat, data: Bytes)
    requires NoStrangers(files, keys)
    ensures NoStrangers(files[SegmentName(key) := data], keys + {key})
  {
    SegmentNameRoundTrip(key);
  }

  /** The newest file after the buffer was written to it. */
  lemma GrowTop(ck: Checksum, files: map<string, Bytes>, closed: seq<Segment>, top: nat,
                synced: seq<Rec>, pending: seq<Rec>, keys: set<nat>)
    requires FilesHold(ck, files, closed) && Chain(closed, top) && NoStrangers(files, keys) && top in keys
    requires SegmentName(top) in files && files[SegmentName(top)] == EncodeAll(ck, synced)
    ensures var data := files[SegmentName(top)] + EncodeAll(ck, pending);
      && data == EncodeAll(ck, synced + pending)
      && FilesHold(ck, files[SegmentName(top) := data], closed) && NoStrangers(files[SegmentName(top) := data], keys)
    ensures synced + pending + [] == synced + pending
  {
    EncodeAllConcat(ck, synced, pending);
    LaterFile(ck, files, closed, top, EncodeAll(ck, synced + pending));
    NoNewStrangers(files, keys, top, EncodeAll(ck, synced + pending));
    assert keys + {top} == keys;
  }

  lemma NothingEncoded(ck: Checksum)
    ensures EncodeAll(ck, []) == []
  {
  }

  /** The directory and the segment list after a rotation. */
  lemma BeginSegment(ck: Checksum, files: map<string, Bytes>, closed: seq<Segment>, top: nat, synced: seq<Rec>,
                     lastIndex: nat, segments: map<nat, string>)
    requires Placed(closed, top, synced, lastIndex) && EncodeAll(ck, synced) != []
    requires FilesHold(ck, files, closed) && NoStrangers(files, segments.Keys)
    requires SegmentName(top) in files && files[SegmentName(top)] == EncodeAll(ck, synced)
    requires segments == SegmentNames(closed)[top := SegmentName(top)]
    ensures var key, segs := lastIndex + 1, closed + [Segment(top, synced)];
      var name := SegmentName(key);
      && key > top && Placed(segs, key, [], lastIndex) && Flatten(segs) + ([] + []) == Flatten(closed) + (synced + [])
      && FilesHold(ck, files[name := []], segs) && NoStrangers(files[name := []], segments[key := name].Keys)
      && SegmentNames(segs) == segments && EncodeAll(ck, []) == []
  {
    var key, segs := lastIndex + 1, closed + [Segment(top, synced)];
    assert synced + [] == synced;
    PlaceRotate(closed, top, synced, lastIndex);
    SnocSegment(ck, files, closed, Segment(top, synced));
    LaterFile(ck, files, segs, key, []);
    NoNewStrangers(files, segments.Keys, key, []);
    assert segments[key := SegmentName(key)].Keys == segments.Keys + {key};
    var none: seq<Rec> := [];
    assert none + none == none && Flatten(segs) + none == Flatten(segs);
  }

  // ------------------------------------------------------- reading back

  /** Segment files read one after another; the first corrupt one fails the whole read. */
  ghost function ReadBack(ck: Checksum, files: map<string, Bytes>, segs: seq<Segment>)
    : Result<seq<LogRecord>, WalError>
  {
    if segs == [] then Success([])
    else
      var name := SegmentName(segs[|segs| - 1].key);
      match ReadBack(ck, files, segs[..|segs| - 1])
      case Failure(e) => Failure(e)
      case Success(before) => Prepend(before, DecodeAll(ck, if name in files then files[name] else []))
  }

  lemma ReadBackSnoc(ck: Checksum, files: map<string, Bytes>, segs: seq<Segment>, last: Segment)
    ensures ReadBack(ck, files, segs + [last]) ==
            match ReadBack(ck, files, segs)
            case Failure(e) => Failure(e)
            case Success(before) =>
              var name := SegmentName(last.key);
              Prepend(before, DecodeAll(ck, if name in files then files[name] else []))
  {
    assert (segs + [last])[..|segs|] == segs;
  }

  lemma FitConcat(a: seq<Rec>, b: seq<Rec>)
    ensures AllFit(a + b) <==> AllFit(a) && AllFit(b)
    ensures LogicalAll(a + b) == LogicalAll(a) + LogicalAll(b)
  {
    forall i | 0 <= i < |a| ensures a[i] == (a + b)[i] { }
    forall i | 0 <= i < |b| ensures b[i] == (a + b)[|a| + i] { }
  }

  /** Whole files read back as the log, segment after segment. */
  lemma {:induction false} ReadBackWhole(ck: Checksum, files: map<string, Bytes>, segs: seq<Segment>)
    requires FilesHold(ck, files, segs) && AllFit(Flatten(segs))
    ensures ReadBack(ck, files, segs) == Success(LogicalAll(Flatten(segs)))
  {
    if segs == [] {
      assert LogicalAll([]) == [];
    } else {
      var init, last := segs[..|segs| - 1], segs[|segs| - 1];
      FitConcat(Flatten(init), last.recs);
      ReadBackWhole(ck, files, init);
      DecodeAllEncoded(ck, last.recs, []);
      assert EncodeAll(ck, last.recs) + [] == EncodeAll(ck, last.recs);
    }
  }

  /** A directory as a server leaves it behind: whole closed segments, then the newest with its
      records and perhaps the beginning of one more. */
  ghost predicate LeftBehind(ck: Checksum, files: map<string, Bytes>,
                             closed: seq<Segment>, top: nat, synced: seq<Rec>, torn: Bytes)
  {
    && Chain(closed, top) && Increasing(synced) && AtLeast(synced, top)
    && top <= LastIndex(Flatten(closed) + synced) + 1 && top < 0x1_0000_0000_0000_0000
    && FilesHold(ck, files, closed) && NoStrangers(files, SegmentNames(closed).Keys + {top})
    && SegmentName(top) in files && files[SegmentName(top)] == EncodeAll(ck, synced) + torn
  }

  /** A running store with an empty buffer has exactly that on disk, with nothing torn. */
  lemma StoreLeavesBehind(wal: WalStore)
    requires wal.Valid() && wal.pending == [] && wal.top < 0x1_0000_0000_0000_0000
    ensures LeftBehind(wal.ck, wal.disk.files, wal.closed, wal.top, wal.synced, [])
    ensures wal.All() == Flatten(wal.closed) + wal.synced
  {
    hide Chain, FilesHold, NoStrangers, Increasing, EncodeAll, SegmentName, SegmentNames, Flatten;
    assert wal.synced + wal.pending == wal.synced;
    assert EncodeAll(wal.ck, wal.synced) + [] == EncodeAll(wal.ck, wal.synced);
    assert wal.segments.Keys == SegmentNames(wal.closed).Keys + {wal.top};
  }

  /** Reading such a directory yields exactly the whole records, in the order they were appended. */
  lemma ReadLeftBehind(ck: Checksum, files: map<string, Bytes>,
                       closed: seq<Segment>, top: nat, synced: seq<Rec>, torn: Bytes)
    requires LeftBehind(ck, files, closed, top, synced, torn)
    requires AllFit(Flatten(closed) + synced) && Decode(ck, torn) == Incomplete
    ensures ReadBack(ck, files, closed + [Segment(top, synced)]) == Success(LogicalAll(Flatten(closed) + synced))
  {
    FitConcat(Flatten(closed), synced);
    ReadBackWhole(ck, files, closed);
    DecodeAllEncoded(ck, synced, torn);
    ReadBackSnoc(ck, files, closed, Segment(top, synced));
  }

  /** What a crash leaves of a server that had `pending` in its buffer: all that was flushed, and any
      byte prefix of the rest. The records that survive whole are a prefix of the pending ones. */
  lemma CrashLeavesBehind(ck: Checksum, files: map<string, Bytes>,
                          closed: seq<Segment>, top: nat, synced: seq<Rec>, pending: seq<Rec>, kept: Bytes)
    returns (k: nat, torn: Bytes)
    requires LeftBehind(ck, files, closed, top, synced, []) && AllFit(pending) && kept <= EncodeAll(ck, pending)
    requires Increasing(synced + pending) && AtLeast(synced + pending, top)
    ensures k <= |pending| && kept == EncodeAll(ck, pending[..k]) + torn && Decode(ck, torn) == Incomplete
    ensures var after := files[SegmentName(top) := files[SegmentName(top)] + kept];
      LeftBehind(ck, after, closed, top, synced + pending[..k], torn)
    ensures k == |pending| <==> kept == EncodeAll(ck, pending)
  {
    var name := SegmentName(top);
    k := Whole(ck, pending, |kept|);
    var some := pending[..k];
    CrashPrefix(ck, pending, kept);
    torn := kept[|EncodeAll(ck, some)|..];
    SplitAfter(EncodeAll(ck, some), kept);
    CrashedFile(ck, files[name], synced, some, torn);
    LaterFile(ck, files, closed, top, files[name] + kept);
    NoNewStrangers(files, SegmentNames(closed).Keys + {top}, top, files[name] + kept);
    assert SegmentNames(closed).Keys + {top} + {top} == SegmentNames(closed).Keys + {top};
    PrefixPlaced(Flatten(closed), synced, pending, k, top);
  }

  lemma CrashedFile(ck: Checksum, data: Bytes, synced: seq<Rec>, some: seq<Rec>, torn: Bytes)
    requires data == EncodeAll(ck, synced) + []
    ensures data + (EncodeAll(ck, some) + torn) == EncodeAll(ck, synced + some) + torn
  {
    EncodeAllConcat(ck, synced, some);
    assert data == EncodeAll(ck, synced);
    Regroup(data, EncodeAll(ck, some), torn);
  }

  lemma {:induction false} IncreasingPrefix(rs: seq<Rec>, k: nat)
    requires Increasing(rs) && k <= |rs|
    ensures Increasing(rs[..k])
  {
    if k < |rs| {
      IncreasingPrefix(rs[..|rs| - 1], k);
      assert rs[..|rs| - 1][..k] == rs[..k];
    } else {
      assert rs[..k] == rs;
    }
  }

  lemma KeepSome(synced: seq<Rec>, pending: seq<Rec>, k: nat)
    requires k <= |pending|
    ensures (synced + pending)[..|synced| + k] == synced + pending[..k]
  {
  }

  lemma PrefixPlaced(before: seq<Rec>, synced: seq<Rec>, pending: seq<Rec>, k: nat, top: nat)
    requires Increasing(synced + pending) && AtLeast(synced + pending, top) && k <= |pending|
    requires top <= LastIndex(before + synced) + 1
    ensures Increasing(synced + pending[..k]) && AtLeast(synced + pending[..k], top)
    ensures top <= LastIndex(before + (synced + pending[..k])) + 1
  {
    var some := synced + pending[..k];
    KeepSome(synced, pending, k);
    IncreasingPrefix(synced + pending, |synced| + k);
    assert AtLeast(some, top);
    LastOfConcat(before, some);
    if k == 0 { assert some == synced; } else { assert top <= some[|some| - 1].index; }
  }

  lemma {:induction false} HeldFiles(ck: Checksum, files: map<string, Bytes>, segs: seq<Segment>, next: nat)
    requires FilesHold(ck, files, segs) && Chain(segs, next)
    ensures forall k :: k in SegmentNames(segs) ==>
              k < next && SegmentNames(segs)[k] == SegmentName(k) && SegmentName(k) in files
  {
    if segs != [] { HeldFiles(ck, files, segs[..|segs| - 1], segs[|segs| - 1].key); }
  }

  /** The directory scan finds exactly the segments, and the newest has the greatest key. */
  lemma ScannedAll(ck: Checksum, files: map<string, Bytes>, segments: map<nat, string>,
                   closed: seq<Segment>, top: nat, synced: seq<Rec>, torn: Bytes)
    requires forall k :: k in segments ==> segments[k] in files && ParseSegmentName(segments[k]) == Some(k)
    requires forall name :: name in files && ParseSegmentName(name).Some? ==> ParseSegmentName(name).value in segments
    requires LeftBehind(ck, files, closed, top, synced, torn)
    ensures segments == SegmentNames(closed)[top := SegmentName(top)] && forall k :: k in segments ==> k <= top
  {
    hide ParseSegmentName, SegmentName, EncodeAll;
    var expected := SegmentNames(closed)[top := SegmentName(top)];
    HeldFiles(ck, files, closed, top);
    forall k | k in expected ensures k in segments { SegmentNameRoundTrip(k); }
    forall k | k in segments ensures k in expected && segments[k] == expected[k] {
      assert ParseSegmentName(segments[k]) == Some(k);
    }
  }

  ghost function KeysFrom(segs: seq<Segment>, i: nat): set<nat> { set j | i <= j < |segs| :: segs[j].key }

  lemma {:induction false} NamesByKey(segs: seq<Segment>, next: nat)
    requires Chain(segs, next)
    ensures SegmentNames(segs).Keys == KeysFrom(segs, 0)
    ensures forall j :: 0 <= j < |segs| ==> SegmentNames(segs)[segs[j].key] == SegmentName(segs[j].key)
  {
    if segs != [] {
      var n := |segs| - 1;
      NamesByKey(segs[..n], segs[n].key);
      assert KeysFrom(segs, 0) == KeysFrom(segs[..n], 0) + {segs[n].key} by {
        forall j | 0 <= j < |segs| ensures segs[j].key in KeysFrom(segs[..n], 0) + {segs[n].key} {
          if j < n { assert segs[..n][j] == segs[j]; }
        }
        forall j | 0 <= j < n ensures segs[..n][j].key in KeysFrom(segs, 0) { assert segs[..n][j] == segs[j]; }
      }
    }
  }

  lemma NothingRead(ck: Checksum, files: map<string, Bytes>, segs: seq<Segment>)
    ensures ReadBack(ck, files, segs[..0]) == Success([])
  {
  }

  lemma KeysLeft(segs: seq<Segment>, i: nat)
    ensures i < |segs| ==> KeysFrom(segs, i) != {}
  {
    if i < |segs| { assert segs[i].key in KeysFrom(segs, i); }
  }

  lemma ReadBackNext(ck: Checksum, files: map<string, Bytes>, segs: seq<Segment>, i: nat,
                     more: Result<seq<LogRecord>, WalError>)
    requires i < |segs| && ReadBack(ck, files, segs[..i]).Success?
    requires SegmentName(segs[i].key) in files && more == DecodeAll(ck, files[SegmentName(segs[i].key)])
    ensures ReadBack(ck, files, segs[..i + 1]) == Prepend(ReadBack(ck, files, segs[..i]).value, more)
    ensures more.Failure? ==> ReadBack(ck, files, segs) == Failure(more.error)
  {
    assert segs[..i + 1] == segs[..i] + [segs[i]];
    ReadBackSnoc(ck, files, segs[..i], segs[i]);
    if more.Failure? { ReadBackFails(ck, files, segs, i + 1); }
  }

  lemma Reopened(ck: Checksum, synced: seq<Rec>)
    ensures synced + [] == synced && EncodeAll(ck, []) == [] && EncodeAll(ck, synced) + [] == EncodeAll(ck, synced)
  {
  }

  /** Among the segments still unread, the next one has the least key. */
  lemma LeastIsNext(segs: seq<Segment>, next: nat, i: nat)
    requires Chain(segs, next) && KeysFrom(segs, i) != {}
    ensures i < |segs| && segs[i].key in KeysFrom(segs, i)
    ensures forall k :: k in KeysFrom(segs, i) ==> segs[i].key <= k
    ensures KeysFrom(segs, i + 1) == KeysFrom(segs, i) - {segs[i].key}
  {
    var some :| some in KeysFrom(segs, i);
    assert i < |segs|;
    forall j | i < j < |segs| ensures segs[i].key < segs[j].key { KeysOrdered(segs, next, i, j); }
    assert KeysFrom(segs, i) == KeysFrom(segs, i + 1) + {segs[i].key};
  }

  lemma {:induction false} ReadBackFails(ck: Checksum, files: map<string, Bytes>, segs: seq<Segment>, i: nat)
    requires i <= |segs| && ReadBack(ck, files, segs[..i]).Failure?
    ensures ReadBack(ck, files, segs) == ReadBack(ck, files, segs[..i])
    decreases |segs|
  {
    if i < |segs| {
      assert segs[..|segs| - 1][..i] == segs[..i];
      ReadBackFails(ck, files, segs[..|segs| - 1], i);
    } else {
      assert segs[..i] == segs;
    }
  }

  lemma ReadyToRead(ck: Checksum, files: map<string, Bytes>,
                    closed: seq<Segment>, top: nat, synced: seq<Rec>, torn: Bytes) returns (next: nat)
    requires LeftBehind(ck, files, closed, top, synced, torn)
    ensures var segs := closed + [Segment(top, synced)];
      && Chain(segs, next) && SegmentNames(segs) == SegmentNames(closed)[top := SegmentName(top)]
      && forall k :: k in SegmentNames(segs) ==> SegmentNames(segs)[k] in files
  {
    var segs := closed + [Segment(top, synced)];
    next := LastIndex(synced) + top + 1;
    assert segs[..|closed|] == closed;
    SnocSegment(ck, files, closed, Segment(top, synced));
    HeldFiles(ck, files, closed, top);
    BoundedByLast(synced);
  }

  /** The last of these segments each reached the limit, and had not before the flush that closed it. */
  ghost predicate Cut(ck: Checksum, limit: nat, closed: seq<Segment>, cuts: seq<nat>) {
    |cuts| <= |closed| &&
    (cuts != [] ==>
      var seg, cut := closed[|closed| - 1], cuts[|cuts| - 1];
         && cut <= |seg.recs| && |EncodeAll(ck, seg.recs[..cut])| < limit <= |EncodeAll(ck, seg.recs)|
         && Cut(ck, limit, closed[..|closed| - 1], cuts[..|cuts| - 1]))
  }

  lemma CutMore(ck: Checksum, limit: nat, closed: seq<Segment>, cuts: seq<nat>, seg: Segment, cut: nat)
    requires Cut(ck, limit, closed, cuts) && cut <= |seg.recs|
    requires |EncodeAll(ck, seg.recs[..cut])| < limit <= |EncodeAll(ck, seg.recs)|
    ensures Cut(ck, limit, closed + [seg], cuts + [cut])
  {
    hide EncodeAll;
    assert (closed + [seg])[..|closed|] == closed && (cuts + [cut])[..|cuts|] == cuts;
  }

  lemma TwoMore(closed: seq<Segment>, a: Segment, b: Segment)
    ensures closed + [a] + [b] == closed + [a, b]
  {
  }

  lemma SyncedPart(synced: seq<Rec>, pending: seq<Rec>)
    ensures (synced + pending)[..|synced|] == synced
  {
  }

  lemma LastOfTop(closed: seq<Segment>, top: nat, recs: seq<Rec>, lastIndex: nat)
    requires Placed(closed, top, recs, lastIndex) && recs != []
    ensures lastIndex == LastIndex(recs)
  {
  }

  // ---------------------------------------------------------- the store

  class WalStore {
    const disk: Disk
    const ck: Checksum
    const maxSegmentBytes: nat
    var segments: map<nat, string>
    var writer: SegmentWriter
    var lastIndex: nat

    /** The closed segments; the key of the newest one; its records on disk; its records in the buffer. */
    ghost var closed: seq<Segment>
    ghost var top: nat
    ghost var synced: seq<Rec>
    ghost var pending: seq<Rec>

    /** For each segment closed since the store was opened, how many records it had before its last flush. */
    ghost var cuts: seq<nat>

    /** Everything appended, in order. */
    ghost function All(): seq<Rec>
      reads this
    {
      Flatten(closed) + (synced + pending)
    }

    ghost function OnDisk(): seq<Segment>
      reads this
    {
      closed + [Segment(top, synced)]
    }

    /** The newest file is below the size limit. */
    ghost predicate Slim()
      reads this
    {
      |EncodeAll(ck, synced)| < maxSegmentBytes
    }

    /** And each file closed since the store was opened has reached the limit, with its last flush. */
    ghost predicate Compact()
      reads this
    {
      Slim() && Cut(ck, maxSegmentBytes, closed, cuts)
    }

    ghost predicate Shape()
      reads this
    {
      && maxSegmentBytes > 0 && Placed(closed, top, synced + pending, lastIndex)
      && segments == SegmentNames(closed)[top := SegmentName(top)]
    }

    ghost predicate Backed()
      reads this, disk, writer
    {
      && FilesHold(ck, disk.files, closed) && NoStrangers(disk.files, segments.Keys)
      && SegmentName(top) in disk.files && disk.files[SegmentName(top)] == EncodeAll(ck, synced)
      && writer.disk == disk && writer.ck == ck && writer.path == SegmentName(top)
      && writer.buf == EncodeAll(ck, pending)
      && writer.bytesWritten == |EncodeAll(ck, synced)| + |writer.buf|
    }

    ghost predicate Valid()
      reads this, disk, writer
    {
      Shape() && Backed()
    }

    constructor (disk: Disk, ck: Checksum, maxSegmentBytes: nat, segments: map<nat, string>, writer: SegmentWriter,
                 lastIndex: nat, ghost closed: seq<Segment>, ghost top: nat, ghost synced: seq<Rec>)
      ensures this.disk == disk && this.ck == ck && this.maxSegmentBytes == maxSegmentBytes
      ensures this.segments == segments && this.writer == writer && this.lastIndex == lastIndex
      ensures this.closed == closed && this.top == top && this.synced == synced && this.pending == []
      ensures this.cuts == []
    {
      this.disk, this.ck, this.maxSegmentBytes := disk, ck, maxSegmentBytes;
      this.segments, this.writer, this.lastIndex := segments, writer, lastIndex;
      this.closed, this.top, this.synced, this.pending, this.cuts := closed, top, synced, [], [];
    }

    /** Opens a directory: finds the segments by their names, and the last index by reading the newest
        one. An empty directory gets its first segment, number 1. */
    static method Open(disk: Disk, ck: Checksum, maxSegmentBytes: nat,
                       ghost closed: seq<Segment>, ghost top: nat, ghost synced: seq<Rec>, ghost torn: Bytes)
      returns (r: Result<WalStore, WalError>)
      requires maxSegmentBytes > 0
      requires LeftBehind(ck, disk.files, closed, top, synced, torn)
               || (NoStrangers(disk.files, {}) && closed == [] && top == 1 && synced == [] && torn == [])
      modifies disk
      ensures r.Success? ==>
        && fresh(r.value) && fresh(r.value.writer) && r.value.disk == disk && r.value.ck == ck
        && r.value.closed == closed && r.value.top == top && r.value.synced == synced && r.value.pending == []
        && r.value.cuts == [] && r.value.maxSegmentBytes == maxSegmentBytes
      ensures AllFit(synced) && Decode(ck, torn) == Incomplete ==>
        r.Success? && r.value.Shape() && (torn == [] ==> r.value.Valid())
      ensures LeftBehind(ck, disk.files, closed, top, synced, torn)
      ensures old(LeftBehind(ck, disk.files, closed, top, synced, torn)) ==> disk.files == old(disk.files)
    {
      var segments := ScanDirectory(disk);
      if segments == map[] {
        assert !LeftBehind(ck, disk.files, closed, top, synced, torn) by { SegmentNameRoundTrip(top); }
        var store := OpenFresh(disk, ck, maxSegmentBytes);
        return Success(store);
      }
      ScannedAll(ck, disk.files, segments, closed, top, synced, torn);
      r := OpenExisting(disk, ck, maxSegmentBytes, segments, closed, top, synced, torn);
    }

    static method OpenExisting(disk: Disk, ck: Checksum, maxSegmentBytes: nat, segments: map<nat, string>,
                               ghost closed: seq<Segment>, ghost top: nat, ghost synced: seq<Rec>, ghost torn: Bytes)
      returns (r: Result<WalStore, WalError>)
      requires maxSegmentBytes > 0 && LeftBehind(ck, disk.files, closed, top, synced, torn)
      requires segments == SegmentNames(closed)[top := SegmentName(top)] && forall k :: k in segments ==> k <= top
      ensures r.Failure? <==> DecodeAll(ck, disk.files[SegmentName(top)]).Failure?
      ensures r.Success? ==>
        && fresh(r.value) && fresh(r.value.writer) && r.value.disk == disk && r.value.ck == ck
        && r.value.closed == closed && r.value.top == top && r.value.synced == synced && r.value.pending == []
        && r.value.cuts == [] && r.value.maxSegmentBytes == maxSegmentBytes
      ensures AllFit(synced) && Decode(ck, torn) == Incomplete ==>
        r.Success? && r.value.Shape() && (torn == [] ==> r.value.Backed())
    {
      hide Chain, FilesHold, NoStrangers, SegmentNames, SegmentName, Flatten, Increasing, AtLeast, EncodeAll;
      hide Decode, DecodeAll, AllFit;
      assert top in segments;
      var last :| last in segments && forall k :: k in segments ==> k <= last;
      assert last == top && segments[last] == SegmentName(top);
      var data := disk.files[segments[last]];
      if AllFit(synced) && Decode(ck, torn) == Incomplete { DecodeAllEncoded(ck, synced, torn); }
      var records := DecodeFile(ck, data);
      if records.Failure? { return Failure(records.error); }
      var lastIndex := 0;
      if |records.value| > 0 {
        lastIndex := records.value[|records.value| - 1].index;
      }
      var writer := new SegmentWriter(disk, segments[last], ck, |data|);
      var store := new WalStore(disk, ck, maxSegmentBytes, segments, writer, lastIndex, closed, top, synced);
      Reopened(ck, synced);
      assert segments.Keys == SegmentNames(closed).Keys + {top};
      return Success(store);
    }

    static method OpenFresh(disk: Disk, ck: Checksum, maxSegmentBytes: nat) returns (store: WalStore)
      requires maxSegmentBytes > 0 && NoStrangers(disk.files, {})
      modifies disk
      ensures fresh(store) && fresh(store.writer) && store.disk == disk && store.ck == ck && store.Valid()
      ensures store.closed == [] && store.top == 1 && store.synced == [] && store.pending == [] && store.Compact()
      ensures store.cuts == [] && store.maxSegmentBytes == maxSegmentBytes
      ensures LeftBehind(ck, disk.files, [], 1, [], [])
    {
      var path := SegmentName(1);
      NoNewStrangers(disk.files, {}, 1, []);
      disk.files := disk.files[path := []];
      var writer := new SegmentWriter(disk, path, ck, 0);
      ghost var none: seq<Rec> := [];
      assert none + none == none;
      store := new WalStore(disk, ck, maxSegmentBytes, map[1 := path], writer, 0, [], 1, []);
    }

    static method ScanDirectory(disk: Disk) returns (segments: map<nat, string>)
      ensures forall k :: k in segments ==> segments[k] in disk.files && ParseSegmentName(segments[k]) == Some(k)
      ensures forall name :: name in disk.files && ParseSegmentName(name).Some? ==>
                ParseSegmentName(name).value in segments
    {
      segments := map[];
      var names := disk.files.Keys;
      while names != {}
        invariant names <= disk.files.Keys
        invariant forall k :: k in segments ==> segments[k] in disk.files && ParseSegmentName(segments[k]) == Some(k)
        invariant forall name :: name in disk.files && name !in names && ParseSegmentName(name).Some? ==>
                    ParseSegmentName(name).value in segments
        decreases names
      {
        var name :| name in names;
        var index := ParseSegmentName(name);
        if index.Some? {
          segments := segments[index.value := name];
        }
        names := names - {name};
      }
    }

    /** Reads back every record on disk, segments in the order of their keys. */
    method Replay(ghost segs: seq<Segment>, ghost next: nat) returns (r: Result<seq<LogRecord>, WalError>)
      requires Chain(segs, next) && segments == SegmentNames(segs)
      requires forall k :: k in segments ==> segments[k] in disk.files
      ensures r == ReadBack(ck, disk.files, segs)
    {
      hide Chain, ReadBack, SegmentNames, DecodeAll;
      var records := [];
      var keys := segments.Keys;
      ghost var i := 0;
      NothingRead(ck, disk.files, segs);
      NamesByKey(segs, next);
      while keys != {}
        invariant i <= |segs| && keys == KeysFrom(segs, i)
        invariant ReadBack(ck, disk.files, segs[..i]) == Success(records)
        decreases keys
      {
        LeastIsNext(segs, next, i);
        var k :| k in keys && forall j :: j in keys ==> k <= j;
        var more := DecodeFile(ck, disk.files[segments[k]]);
        ReadBackNext(ck, disk.files, segs, i, more);
        if more.Failure? { return Failure(more.error); }
        records := records + more.value;
        keys := keys - {k};
        i := i + 1;
      }
      KeysLeft(segs, i);
      assert segs[..i] == segs;
      return Success(records);
    }

    /** Reads a directory left behind: exactly the whole records, in order. */
    method ReadAll(ghost torn: Bytes) returns (r: Result<seq<LogRecord>, WalError>)
      requires Shape() && pending == [] && LeftBehind(ck, disk.files, closed, top, synced, torn)
      requires AllFit(All()) && Decode(ck, torn) == Incomplete
      ensures r == Success(LogicalAll(All()))
    {
      hide LeftBehind, Placed, FilesHold, NoStrangers, Chain, ReadBack;
      assert synced + pending == synced;
      ghost var next := ReadyToRead(ck, disk.files, closed, top, synced, torn);
      ReadLeftBehind(ck, disk.files, closed, top, synced, torn);
      r := Replay(OnDisk(), next);
    }

    /** Opens the log and reads it back: the whole records of a directory, and a store ready to append
        when nothing is torn. */
    static method OpenAndRead(disk: Disk, ck: Checksum, maxSegmentBytes: nat,
                              ghost closed: seq<Segment>, ghost top: nat, ghost synced: seq<Rec>, ghost torn: Bytes)
      returns (wal: WalStore, records: seq<LogRecord>)
      requires maxSegmentBytes > 0
      requires LeftBehind(ck, disk.files, closed, top, synced, torn)
               || (NoStrangers(disk.files, {}) && closed == [] && top == 1 && synced == [] && torn == [])
      requires AllFit(Flatten(closed) + synced) && Decode(ck, torn) == Incomplete
      modifies disk
      ensures fresh(wal) && fresh(wal.writer) && wal.disk == disk && wal.ck == ck
      ensures wal.cuts == [] && wal.synced == synced && wal.maxSegmentBytes == maxSegmentBytes
      ensures wal.pending == [] && wal.All() == Flatten(closed) + synced && (torn == [] ==> wal.Valid())
      ensures records == LogicalAll(Flatten(closed) + synced)
    {
      FitConcat(Flatten(closed), synced);
      assert synced + [] == synced;
      var result := Open(disk, ck, maxSegmentBytes, closed, top, synced, torn);
      wal := result.value;
      var read := wal.ReadAll(torn);
      records := read.value;
    }

    /** Adds a record to the buffer. Indexes only grow. */
    method Append(version: byte, index: nat, term: nat, valueType: byte, payload: Bytes)
      requires Valid() && index > LastIndex(All())
      modifies this, writer
      ensures Valid() && writer == old(writer) && OnDisk() == old(OnDisk()) && cuts == old(cuts)
      ensures Slim() == old(Slim()) && Compact() == old(Compact())
      ensures var r := Rec(version, index, term, valueType, payload);
        All() == old(All()) + [r] && pending == old(pending) + [r]
    {
      hide Placed, FilesHold, NoStrangers, SegmentName, SegmentNames, EncodeAll, Encoded, Cut, Flatten;
      ghost var r := Rec(version, index, term, valueType, payload);
      BufferOneMore(ck, closed, top, synced, pending, lastIndex, r);
      writer.Append(version, index, term, valueType, payload);
      lastIndex := index;
      pending := pending + [r];
    }

    /** Makes the buffer durable; nothing is lost, nothing stays behind. Below the size limit the records
        join the newest segment; at the limit that segment is closed with them, and one begins that is
        named by the next index. */
    method Flush()
      requires Valid()
      modifies this, writer, disk
      ensures Valid() && (writer == old(writer) || fresh(writer))
      ensures All() == old(All()) && pending == []
      ensures var recs := old(synced + pending);
        if |EncodeAll(ck, recs)| < maxSegmentBytes
        then OnDisk() == old(closed) + [Segment(old(top), recs)] && cuts == old(cuts)
        else && OnDisk() == old(closed) + [Segment(old(top), recs), Segment(LastIndex(recs) + 1, [])]
             && cuts == old(cuts) + [|old(synced)|]
      ensures Slim() && (old(Compact()) ==> Compact())
    {
      hide Placed, FilesHold, NoStrangers, SegmentNames, SegmentName, Cut, Chain, EncodeAll, Flatten;
      ghost var cut, recs, was := |synced|, synced + pending, closed;
      NothingEncoded(ck);
      if recs != [] { LastOfTop(closed, top, recs, lastIndex); }
      SyncedPart(synced, pending);
      WriteBuffer();
      if writer.bytesWritten >= maxSegmentBytes {
        if old(Compact()) { CutMore(ck, maxSegmentBytes, closed, cuts, Segment(top, synced), cut); }
        Rotate();
        cuts := cuts + [cut];
        TwoMore(was, Segment(old(top), recs), Segment(top, []));
      }
    }

    method WriteBuffer()
      requires Valid()
      modifies this`synced, this`pending, writer, disk
      ensures Valid() && synced == old(synced + pending) && pending == [] && All() == old(All())
      ensures writer.bytesWritten == |EncodeAll(ck, synced)|
    {
      GrowTop(ck, disk.files, closed, top, synced, pending, segments.Keys);
      writer.Flush();
      synced, pending := synced + pending, [];
    }

    /** The new segment's key is above every key there is: an empty file is created, none is truncated. */
    method Rotate()
      requires Valid() && pending == [] && writer.bytesWritten > 0
      modifies this, disk
      ensures Valid() && fresh(writer) && cuts == old(cuts)
      ensures All() == old(All()) && pending == [] && synced == [] && closed == old(OnDisk())
      ensures top == old(lastIndex) + 1
      ensures top > old(top) && segments == old(segments)[top := SegmentName(top)]
      ensures OnDisk() == old(OnDisk()) + [Segment(top, [])]
    {
      hide Placed, FilesHold, NoStrangers, ParseSegmentName, SegmentName, SegmentNames, Flatten, EncodeAll;
      NothingEncoded(ck);
      var newFirstIndex := lastIndex + 1;
      assert synced + pending == synced;
      BeginSegment(ck, disk.files, closed, top, synced, lastIndex, segments);
      var path := SegmentName(newFirstIndex);
      disk.files := disk.files[path := []];
      segments := segments[newFirstIndex := path];
      writer := new SegmentWriter(disk, path, ck, 0);
      closed, top, synced := OnDisk(), newFirstIndex, [];
      assert synced + pending == [];
    }
  }
}
