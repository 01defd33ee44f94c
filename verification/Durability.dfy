/** From bytes on disk back to the live state: what a crash in the middle of a step leaves behind. */
module Durability {
  import opened Base
  import opened Names
  import opened Store
  import opened Requests
  import opened LivePath
  import opened Recovery
  import opened Runs
  import opened Record
  import opened Wal
  import opened Server

  lemma {:induction false} RecordsConcat(codec: Codec, a: seq<Entry>, b: seq<Entry>)
    ensures Records(codec, a + b) == Records(codec, a) + Records(codec, b)
  {
    if b == [] {
      assert a + b == a;
    } else {
      var init, last := b[..|b| - 1], b[|b| - 1];
      RecordsConcat(codec, a, init);
      assert a + b == (a + init) + [last];
      RecordsSnoc(codec, a + init, last);
    }
  }

  /** The log of every run is what start-up asks of one. */
  lemma StartableLog(acts: seq<Action>)
    requires Legal(acts)
    ensures var log := Run(acts).log; Gapless(log, |log|) && GenuineLog(log) && Run(acts).image.lastZxid == |log|
  {
    hide Legal, Run, GenuineLog;
    EveryRun(acts);
    LastIsLength(Run(acts).log, Run(acts).image.lastZxid);
  }

  /** The record of the step in progress carries the next index. */
  lemma NextRecord(codec: Codec, acts: seq<Action>, step: Step)
    requires Legal(acts + [Do(step)])
    ensures var log, more := Run(acts).log, Logged(Run(acts).image, step);
      && LastIndex(Records(codec, log)) == |log| && |more| <= 1
      && (more != [] ==> Records(codec, more) == [RecordOf(codec, more[0])] && more[0].index == |log| + 1)
  {
    hide Legal, Run, Live, Genuine, Sound, Gapless, GenuineLog, LastIndex, Records, RecordOf;
    RunSnoc(acts, Do(step));
    var log, more := Run(acts).log, Logged(Run(acts).image, step);
    EveryRun(acts);
    StartableLog(acts);
    StepSound(Run(acts).image, step);
    LastRecord(codec, log, |log|);
    if more != [] { OneRecord(codec, more); }
  }

  lemma OneRecord(codec: Codec, log: seq<Entry>)
    requires |log| == 1
    ensures Records(codec, log) == [RecordOf(codec, log[0])]
  {
    assert [] + [log[0]] == log;
    RecordsSnoc(codec, [], log[0]);
  }

  lemma AppendKeepsOrder(closed: seq<Segment>, top: nat, synced: seq<Rec>, pending: seq<Rec>)
    requires Increasing(synced) && AtLeast(synced, top) && top <= LastIndex(Flatten(closed) + synced) + 1
    requires |pending| <= 1 && (pending != [] ==> pending[0].index > LastIndex(Flatten(closed) + synced))
    ensures Increasing(synced + pending) && AtLeast(synced + pending, top)
  {
    hide Increasing, Flatten;
    if pending == [] {
      assert synced + pending == synced;
    } else {
      assert pending == [pending[0]];
      LastOfConcat(Flatten(closed), synced);
      IncreasingSnoc(synced, pending[0]);
    }
  }

  /** The run that the log belongs to, with or without the step in progress. */
  ghost function SurvivingRun(acts: seq<Action>, step: Step, whole: bool): seq<Action> {
    if whole then acts + [Do(step)] else acts
  }

  ghost function Pending(codec: Codec, acts: seq<Action>, step: Step): seq<Rec> {
    Records(codec, Logged(Run(acts).image, step))
  }

  /** Crash durability down to the bytes. A run has answered every step of `acts` and is in the middle
      of `step`; the crash keeps all flushed bytes and `kept`, any byte prefix of the record being
      written. Then reading the directory yields exactly the log of the run with or without that step,
      with it just when the whole record was kept. If the run is guarded, replaying that log gives that
      run's state: no answered step is lost, and none is half applied. */
  lemma CrashRecovery(codec: Codec, ck: Checksum, acts: seq<Action>, step: Step, files: map<string, Bytes>,
                      closed: seq<Segment>, top: nat, synced: seq<Rec>, kept: Bytes)
    returns (k: nat, torn: Bytes)
    requires Legal(acts + [Do(step)]) && LeftBehind(ck, files, closed, top, synced, [])
    requires Flatten(closed) + synced == Records(codec, Run(acts).log)
    requires AllFit(Records(codec, Run(acts + [Do(step)]).log)) && kept <= EncodeAll(ck, Pending(codec, acts, step))
    ensures var pending := Pending(codec, acts, step);
      var after := files[SegmentName(top) := files[SegmentName(top)] + kept];
      var survivor := Run(SurvivingRun(acts, step, kept == EncodeAll(ck, pending)));
      && k <= |pending| && kept == EncodeAll(ck, pending[..k]) + torn
      && LeftBehind(ck, after, closed, top, synced + pending[..k], torn) && Decode(ck, torn) == Incomplete
      && Flatten(closed) + (synced + pending[..k]) == Records(codec, survivor.log)
      && AllFit(Records(codec, survivor.log))
      && ReadBack(ck, after, closed + [Segment(top, synced + pending[..k])])
         == Success(LogicalAll(Records(codec, survivor.log)))
      && (Guarded(acts + [Do(step)]) ==> ReplayLog(EMPTY_IMAGE, survivor.log) == Some(survivor.image))
  {
    hide Legal, Guarded, Exec, Genuine, Live, ReplayLog, Encoded, Decode, EncodeAll, SegmentName;
    hide FilesHold, NoStrangers, Chain, ReadBack, AllFit, Records, Fits;
    var log, pending := Run(acts).log, Pending(codec, acts, step);
    InProgress(codec, ck, acts, step, files, closed, top, synced);
    k, torn := CrashLeavesBehind(ck, files, closed, top, synced, pending, kept);
    Surviving(codec, acts, step, closed, synced, k);
    FitPrefix(pending, k);
    FitConcat(Records(codec, log), pending[..k]);
    var after := files[SegmentName(top) := files[SegmentName(top)] + kept];
    ReadLeftBehind(ck, after, closed, top, synced + pending[..k], torn);
    if Guarded(acts + [Do(step)]) { BothReplay(acts, step); }
  }

  lemma BothReplay(acts: seq<Action>, step: Step)
    requires Guarded(acts + [Do(step)])
    ensures Faithful(acts) && Faithful(acts + [Do(step)])
    ensures Certain(EMPTY_IMAGE, Run(acts).log) && Certain(EMPTY_IMAGE, Run(acts + [Do(step)]).log)
  {
    hide Run, Guarded, Genuine, Guard, ReplayLog, Certain;
    RunSnoc(acts, Do(step));
    ReplayEqualsLive(acts);
    ReplayEqualsLive(acts + [Do(step)]);
  }

  /** The records on disk and the one in progress are in order, and fit. */
  lemma InProgress(codec: Codec, ck: Checksum, acts: seq<Action>, step: Step, files: map<string, Bytes>,
                   closed: seq<Segment>, top: nat, synced: seq<Rec>)
    requires Legal(acts + [Do(step)]) && LeftBehind(ck, files, closed, top, synced, [])
    requires Flatten(closed) + synced == Records(codec, Run(acts).log)
    requires AllFit(Records(codec, Run(acts + [Do(step)]).log))
    ensures var pending := Pending(codec, acts, step);
      && |pending| == |Logged(Run(acts).image, step)| <= 1
      && Increasing(synced + pending) && AtLeast(synced + pending, top)
      && AllFit(Records(codec, Run(acts).log)) && AllFit(pending)
  {
    hide Legal, Run, Live, Genuine, Chain, FilesHold, NoStrangers, SegmentName, AllFit, Records, Increasing, Flatten;
    NextRecord(codec, acts, step);
    AppendKeepsOrder(closed, top, synced, Pending(codec, acts, step));
    RunSnoc(acts, Do(step));
    DoneLog(Run(acts), step);
    RecordsConcat(codec, Run(acts).log, Logged(Run(acts).image, step));
    FitConcat(Records(codec, Run(acts).log), Pending(codec, acts, step));
  }

  lemma DoneLog(s: RunState, step: Step)
    ensures Exec(s, Do(step)).log == s.log + Logged(s.image, step)
  {
  }

  lemma Surviving(codec: Codec, acts: seq<Action>, step: Step, closed: seq<Segment>, synced: seq<Rec>, k: nat)
    requires Flatten(closed) + synced == Records(codec, Run(acts).log)
    requires k <= |Logged(Run(acts).image, step)| <= 1
    ensures var pending := Pending(codec, acts, step);
      && Flatten(closed) + (synced + pending[..k])
         == Records(codec, Run(SurvivingRun(acts, step, k == |pending|)).log)
      && Flatten(closed) + (synced + pending[..k]) == Records(codec, Run(acts).log) + pending[..k]
  {
    hide Run, Live, Records, Flatten, Legal, Guarded;
    var pending := Pending(codec, acts, step);
    RunSnoc(acts, Do(step));
    DoneLog(Run(acts), step);
    RecordsConcat(codec, Run(acts).log, Logged(Run(acts).image, step));
    Assoc(Flatten(closed), synced, pending[..k]);
    if k == |pending| {
      assert pending[..k] == pending;
    } else {
      assert pending[..k] == [];
      assert Records(codec, Run(acts).log) + [] == Records(codec, Run(acts).log);
    }
  }

  lemma Assoc(a: seq<Rec>, b: seq<Rec>, c: seq<Rec>)
    ensures a + (b + c) == a + b + c
  {
  }

  /** A server that stopped cleanly leaves its log on disk, and after a guarded run it restarts exactly
      where it was. */
  lemma CleanRestart(codec: Codec, ck: Checksum, acts: seq<Action>, files: map<string, Bytes>,
                     closed: seq<Segment>, top: nat, synced: seq<Rec>)
    requires LeftBehind(ck, files, closed, top, synced, [])
    requires Flatten(closed) + synced == Records(codec, Run(acts).log) && AllFit(Records(codec, Run(acts).log))
    ensures ReadBack(ck, files, closed + [Segment(top, synced)]) == Success(LogicalAll(Records(codec, Run(acts).log)))
    ensures Guarded(acts) ==> Faithful(acts) && Run(acts + [Restart]) == Run(acts)
  {
    hide LeftBehind, Run, Guarded, ReplayLog, ReadBack, Records, AllFit, Flatten;
    NothingIsIncomplete(ck);
    ReadLeftBehind(ck, files, closed, top, synced, []);
    RunSnoc(acts, Restart);
    if Guarded(acts) { ReplayEqualsLive(acts); }
  }

  lemma NothingIsIncomplete(ck: Checksum)
    ensures Decode(ck, []) == Incomplete
  {
  }

  lemma NothingTorn(a: Bytes, torn: Bytes, kept: Bytes)
    requires kept == a + torn && (kept == [] || kept == a)
    ensures torn == []
  {
    assert |kept| == |a| + |torn|;
  }

  /** What the crash leaves is what start-up expects, for the log of the surviving run. */
  lemma CrashLeavesStartable(codec: Codec, ck: Checksum, acts: seq<Action>, step: Step, files: map<string, Bytes>,
                             closed: seq<Segment>, top: nat, synced: seq<Rec>, kept: Bytes)
    returns (current: seq<Rec>, torn: Bytes)
    requires Legal(acts + [Do(step)]) && LeftBehind(ck, files, closed, top, synced, [])
    requires Flatten(closed) + synced == Records(codec, Run(acts).log)
    requires AllFit(Records(codec, Run(acts + [Do(step)]).log)) && Decodable(codec, Run(acts + [Do(step)]).log)
    requires kept <= EncodeAll(ck, Pending(codec, acts, step))
    ensures var record := EncodeAll(ck, Pending(codec, acts, step));
      var log := Run(SurvivingRun(acts, step, kept == record)).log;
      && LeftBehind(ck, files[SegmentName(top) := files[SegmentName(top)] + kept], closed, top, current, torn)
      && Decode(ck, torn) == Incomplete && Records(codec, log) == Flatten(closed) + current
      && Gapless(log, |log|) && GenuineLog(log) && Decodable(codec, log) && AllFit(Flatten(closed) + current)
      && (kept == [] || kept == record ==> torn == [])
  {
    hide LeftBehind, Decode, EncodeAll, Records, Flatten, ReplayLog, Live, GenuineLog, Gapless, Run, Legal;
    hide AllFit, ReadBack, Genuine, Guarded;
    var pending := Pending(codec, acts, step);
    var k: nat;
    RunSnoc(acts, Do(step));
    DoneLog(Run(acts), step);
    StartableLog(acts);
    StartableLog(acts + [Do(step)]);
    DecodablePrefix(codec, Run(acts).log, Logged(Run(acts).image, step));
    k, torn := CrashRecovery(codec, ck, acts, step, files, closed, top, synced, kept);
    current := synced + pending[..k];
    SameRecords(codec, acts, step, closed, current, k, kept == EncodeAll(ck, pending));
    if kept == [] || kept == EncodeAll(ck, pending) {
      if k == |pending| { assert pending[..k] == pending; }
      NothingTorn(EncodeAll(ck, pending[..k]), torn, kept);
    }
  }

  /** How many records are on disk tells which run survived. */
  lemma SameRecords(codec: Codec, acts: seq<Action>, step: Step, closed: seq<Segment>, current: seq<Rec>,
                    k: nat, whole: bool)
    requires k <= |Pending(codec, acts, step)|
    requires Flatten(closed) + current == Records(codec, Run(SurvivingRun(acts, step, whole)).log)
    requires |Flatten(closed) + current| == |Run(acts).log| + k
    ensures whole ==> k == |Pending(codec, acts, step)|
  {
    hide Run, Live, Flatten, Legal, Guarded;
    RunSnoc(acts, Do(step));
    DoneLog(Run(acts), step);
  }

  lemma DecodablePrefix(codec: Codec, log: seq<Entry>, more: seq<Entry>)
    requires Decodable(codec, log + more)
    ensures Decodable(codec, log)
  {
    forall i | 0 <= i < |log| ensures log[i] == (log + more)[i] { }
  }

  /** From a running server through a crash in the middle of a step to the next `KeeperServer::new`. A
      server that starts is in the state that the log of the run, with or without that step, replays
      to; it is ready to serve unless a part of the record, but not the whole, was kept. After a guarded
      run the start succeeds, and the state is that of the run with or without the step. */
  method CrashAndStart(server: KeeperServer, ghost acts: seq<Action>, ghost step: Step, ghost kept: Bytes, disk: Disk)
    returns (r: Result<Option<KeeperServer>, WalError>)
    requires Legal(acts + [Do(step)])
    requires server.Valid() && server.View() == Run(acts).image && server.log == Run(acts).log
    requires server.wal.top < 0x1_0000_0000_0000_0000
    requires Decodable(server.codec, Run(acts + [Do(step)]).log)
    requires AllFit(Records(server.codec, Run(acts + [Do(step)]).log))
    requires kept <= EncodeAll(server.wal.ck, Pending(server.codec, acts, step))
    requires disk.files == server.wal.disk.files[SegmentName(server.wal.top) :=
                                                   server.wal.disk.files[SegmentName(server.wal.top)] + kept]
    modifies disk
    ensures var record := EncodeAll(server.wal.ck, Pending(server.codec, acts, step));
      var survivor := Run(SurvivingRun(acts, step, kept == record));
      && r.Success?
      && (r.value.Some? ==>
            && r.value.value.log == survivor.log && ReplayLog(EMPTY_IMAGE, survivor.log) == Some(r.value.value.View())
            && r.value.value.Watching() == {} && r.value.value.Deadlines() == map[] && r.value.value.wal.disk == disk
            && fresh(r.value.value) && fresh(r.value.value.storage.Repr())
            && fresh(r.value.value.wal) && fresh(r.value.value.wal.writer)
            && (kept == [] || kept == record ==> r.value.value.Valid()))
      && (Guarded(acts + [Do(step)]) ==> r.value.Some? && r.value.value.View() == survivor.image)
  {
    hide LeftBehind, Records, Run, Guarded, Legal, ReplayLog, SurvivingRun, Decodable, Pending, Gapless;
    hide GenuineLog, AllFit, EncodeAll, Decode, Certain, Flatten, WalStore.Valid;
    StoreLeavesBehind(server.wal);
    var ck, codec := server.wal.ck, server.codec;
    ghost var wal := server.wal;
    ghost var survivor := SurvivingRun(acts, step, kept == EncodeAll(ck, Pending(codec, acts, step)));
    ghost var current, torn :=
      CrashLeavesStartable(codec, ck, acts, step, wal.disk.files, wal.closed, wal.top, wal.synced, kept);
    if Guarded(acts + [Do(step)]) { SurvivorReplays(acts, step, kept == EncodeAll(ck, Pending(codec, acts, step))); }
    r := Start(disk, ck, codec, Run(survivor).log, wal.closed, wal.top, current, torn);
  }

  lemma SurvivorReplays(acts: seq<Action>, step: Step, whole: bool)
    requires Guarded(acts + [Do(step)])
    ensures Faithful(SurvivingRun(acts, step, whole)) && Certain(EMPTY_IMAGE, Run(SurvivingRun(acts, step, whole)).log)
  {
    BothReplay(acts, step);
  }
}
