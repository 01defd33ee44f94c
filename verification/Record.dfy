/** One framed log record: checksum, header and payload, little endian. */
module Record {
  import opened Base

  const CHECKSUM_SIZE := 16
  const VERSION_OFFSET := CHECKSUM_SIZE
  const INDEX_OFFSET := VERSION_OFFSET + 1
  const TERM_OFFSET := INDEX_OFFSET + 8
  const VALUE_TYPE_OFFSET := TERM_OFFSET + 8
  const PAYLOAD_LEN_OFFSET := VALUE_TYPE_OFFSET + 1
  const SIZE := CHECKSUM_SIZE + 1 + 8 + 8 + 1 + 4

  type Digest = d: Bytes | |d| == CHECKSUM_SIZE witness seq(CHECKSUM_SIZE, _ => 0)

  /** The 128-bit hash, as its little-endian bytes. Nothing is assumed of it but that it is a function. */
  type Checksum = Bytes -> Digest

  datatype Rec = Rec(version: byte, index: nat, term: nat, valueType: byte, payload: Bytes)

  /** What `decode` hands back of a record. */
  datatype LogRecord = LogRecord(index: nat, term: nat, payload: Bytes)

  datatype WalError = ChecksumMismatch

  function Meta(r: Rec): Bytes {
    [r.version] + ToLE(r.index, 8) + ToLE(r.term, 8) + [r.valueType] + ToLE(|r.payload|, 4)
  }

  function Encoded(ck: Checksum, r: Rec): (bs: Bytes)
    ensures |bs| == SIZE + |r.payload|
  {
    ck(Meta(r) + r.payload) + Meta(r) + r.payload
  }

  /** Appends one record: space for the checksum first, patched once the rest is written. */
  method Encode(ck: Checksum, buf: Bytes, version: byte, index: nat, term: nat, valueType: byte, payload: Bytes)
    returns (out: Bytes)
    ensures out == buf + Encoded(ck, Rec(version, index, term, valueType, payload))
  {
    var start := |buf|;
    out := buf + ToLE(0, CHECKSUM_SIZE);
    var checksumStart := |out|;
    out := out + [version];
    out := out + ToLE(index, 8);
    out := out + ToLE(term, 8);
    out := out + [valueType];
    out := out + ToLE(|payload|, 4);
    out := out + payload;
    hide ToLE;
    Framed(buf + ToLE(0, CHECKSUM_SIZE), Rec(version, index, term, valueType, payload), out);
    var checksum := ck(out[checksumStart..]);
    Patched(buf, ToLE(0, CHECKSUM_SIZE), out[checksumStart..], checksum, out);
    out := out[..start] + checksum + out[start + CHECKSUM_SIZE..];
    Regroup(checksum, Meta(Rec(version, index, term, valueType, payload)), payload);
  }

  /** What has been written behind the start of a record is its header and payload. */
  lemma Framed(start: Bytes, r: Rec, out: Bytes)
    requires out == start + [r.version] + ToLE(r.index, 8) + ToLE(r.term, 8) + [r.valueType]
                    + ToLE(|r.payload|, 4) + r.payload
    ensures out == start + (Meta(r) + r.payload) && out[|start|..] == Meta(r) + r.payload
  {
    hide ToLE;
    var a, b := [r.version], ToLE(r.index, 8);
    var c, d, e := ToLE(r.term, 8), [r.valueType], ToLE(|r.payload|, 4);
    Regroup(start, a, b);
    Regroup(start, a + b, c);
    Regroup(start, a + b + c, d);
    Regroup(start, a + b + c + d, e);
    Regroup(start, a + b + c + d + e, r.payload);
    BehindStart(start, Meta(r) + r.payload);
  }

  lemma BehindStart(start: Bytes, body: Bytes)
    ensures (start + body)[|start|..] == body
  {
  }

  lemma Patched(buf: Bytes, space: Bytes, body: Bytes, checksum: Bytes, out: Bytes)
    requires out == buf + space + body
    ensures out[..|buf|] == buf && out[|buf| + |space|..] == body
    ensures buf + checksum + body == buf + (checksum + body)
  {
  }

  datatype Decoded = Incomplete | Corrupt | Complete(record: LogRecord, rest: Bytes)

  function Decode(ck: Checksum, buf: Bytes): (d: Decoded)
    ensures d.Complete? ==> |d.rest| + SIZE + |d.record.payload| == |buf|
  {
    if |buf| < SIZE then Incomplete
    else
      var payloadLen := FromLE(buf[PAYLOAD_LEN_OFFSET..PAYLOAD_LEN_OFFSET + 4]);
      var recordSize := SIZE + payloadLen;
      if |buf| < recordSize then Incomplete
      else if buf[..CHECKSUM_SIZE] != ck(buf[CHECKSUM_SIZE..recordSize]) then Corrupt
      else
        var index := FromLE(buf[INDEX_OFFSET..INDEX_OFFSET + 8]);
        var term := FromLE(buf[TERM_OFFSET..TERM_OFFSET + 8]);
        Complete(LogRecord(index, term, buf[SIZE..recordSize]), buf[recordSize..])
  }

  /** The record fits its fields: two u64 and a payload whose length is a u32. */
  predicate Fits(r: Rec) {
    r.index < 0x1_0000_0000_0000_0000 && r.term < 0x1_0000_0000_0000_0000 && |r.payload| < 0x1_0000_0000
  }

  function Logical(r: Rec): LogRecord { LogRecord(r.index, r.term, r.payload) }

  lemma EncodedFields(ck: Checksum, r: Rec, more: Bytes)
    ensures var bs := Encoded(ck, r) + more;
      && bs[..CHECKSUM_SIZE] == ck(Meta(r) + r.payload)
      && bs[INDEX_OFFSET..INDEX_OFFSET + 8] == ToLE(r.index, 8)
      && bs[TERM_OFFSET..TERM_OFFSET + 8] == ToLE(r.term, 8)
      && bs[PAYLOAD_LEN_OFFSET..PAYLOAD_LEN_OFFSET + 4] == ToLE(|r.payload|, 4)
      && bs[CHECKSUM_SIZE..SIZE + |r.payload|] == Meta(r) + r.payload
      && bs[SIZE..SIZE + |r.payload|] == r.payload
      && bs[SIZE + |r.payload|..] == more
  {
    var bs := Encoded(ck, r) + more;
    var head := ck(Meta(r) + r.payload) + Meta(r);
    assert bs[..SIZE] == head;
    assert bs[INDEX_OFFSET..INDEX_OFFSET + 8] == head[INDEX_OFFSET..INDEX_OFFSET + 8];
    assert bs[TERM_OFFSET..TERM_OFFSET + 8] == head[TERM_OFFSET..TERM_OFFSET + 8];
    assert bs[PAYLOAD_LEN_OFFSET..PAYLOAD_LEN_OFFSET + 4] == head[PAYLOAD_LEN_OFFSET..PAYLOAD_LEN_OFFSET + 4];
  }

  /** Where each field of a record is; the checksum covers all that follows it. */
  lemma RecordLayout(ck: Checksum, r: Rec)
    ensures var bs := Encoded(ck, r);
      && |bs| == 38 + |r.payload| && bs[..16] == ck(bs[16..]) && bs[16] == r.version
      && bs[17..25] == ToLE(r.index, 8) && bs[25..33] == ToLE(r.term, 8) && bs[33] == r.valueType
      && bs[34..38] == ToLE(|r.payload|, 4) && bs[38..] == r.payload
  {
    var bs := Encoded(ck, r);
    EncodedFields(ck, r, []);
    assert bs + [] == bs && bs[16..] == bs[16..38 + |r.payload|] && bs[38..] == bs[38..38 + |r.payload|];
    assert bs[16] == Meta(r)[0] && bs[33] == Meta(r)[17];
  }

  /** Decoding gives back the record and leaves the rest of the buffer, exactly when the record fits
      its fields. */
  lemma DecodeEncoded(ck: Checksum, r: Rec, more: Bytes)
    ensures Decode(ck, Encoded(ck, r) + more) == Complete(Logical(r), more) <==> Fits(r)
  {
    EncodedFields(ck, r, more);
    LERoundTrip(r.index, 8);
    LERoundTrip(r.term, 8);
    LERoundTrip(|r.payload|, 4);
    Widths();
  }

  /** Any proper prefix of a record reads as incomplete, never as a record and never as corruption. */
  lemma TornRecord(ck: Checksum, r: Rec, torn: Bytes)
    requires Fits(r) && torn < Encoded(ck, r)
    ensures Decode(ck, torn) == Incomplete
  {
    if |torn| >= SIZE {
      var bs := Encoded(ck, r);
      EncodedFields(ck, r, []);
      assert bs + [] == bs;
      assert torn[PAYLOAD_LEN_OFFSET..PAYLOAD_LEN_OFFSET + 4] == bs[PAYLOAD_LEN_OFFSET..PAYLOAD_LEN_OFFSET + 4];
      LERoundTrip(|r.payload|, 4);
      Widths();
    }
  }

  // ---------------------------------------------------- a file of records

  function EncodeAll(ck: Checksum, rs: seq<Rec>): Bytes {
    if rs == [] then [] else Encoded(ck, rs[0]) + EncodeAll(ck, rs[1..])
  }

  function LogicalAll(rs: seq<Rec>): (ls: seq<LogRecord>)
    ensures |ls| == |rs| && forall i :: 0 <= i < |rs| ==> ls[i] == Logical(rs[i])
  {
    seq(|rs|, i requires 0 <= i < |rs| => Logical(rs[i]))
  }

  ghost predicate AllFit(rs: seq<Rec>) { forall i :: 0 <= i < |rs| ==> Fits(rs[i]) }

  /** The decode loop over one file: it stops at the first incomplete record and fails on corruption. */
  function DecodeAll(ck: Checksum, buf: Bytes): Result<seq<LogRecord>, WalError>
    decreases |buf|
  {
    match Decode(ck, buf)
    case Incomplete => Success([])
    case Corrupt => Failure(ChecksumMismatch)
    case Complete(record, rest) =>
      match DecodeAll(ck, rest)
      case Failure(e) => Failure(e)
      case Success(records) => Success([record] + records)
  }

  lemma {:induction false} EncodeAllConcat(ck: Checksum, a: seq<Rec>, b: seq<Rec>)
    ensures EncodeAll(ck, a + b) == EncodeAll(ck, a) + EncodeAll(ck, b)
  {
    if a == [] {
      assert a + b == b;
    } else {
      assert (a + b)[1..] == a[1..] + b;
      EncodeAllConcat(ck, a[1..], b);
    }
  }

  lemma EncodeAllSnoc(ck: Checksum, a: seq<Rec>, r: Rec)
    ensures EncodeAll(ck, a + [r]) == EncodeAll(ck, a) + Encoded(ck, r)
  {
    EncodeAllConcat(ck, a, [r]);
    assert [r][1..] == [];
  }

  lemma {:induction false} EncodeAllLength(ck: Checksum, rs: seq<Rec>)
    ensures |EncodeAll(ck, rs)| >= SIZE * |rs|
  {
    if rs != [] { EncodeAllLength(ck, rs[1..]); }
  }

  lemma LogicalFirst(rs: seq<Rec>)
    ensures rs != [] ==> LogicalAll(rs) == [Logical(rs[0])] + LogicalAll(rs[1..])
  {
  }

  /** A file of whole records followed by an incomplete one yields exactly the whole records. */
  lemma {:induction false} DecodeAllEncoded(ck: Checksum, rs: seq<Rec>, torn: Bytes)
    requires AllFit(rs) && Decode(ck, torn) == Incomplete
    ensures DecodeAll(ck, EncodeAll(ck, rs) + torn) == Success(LogicalAll(rs))
  {
    hide Encoded, Decode, Fits, Logical;
    if rs == [] {
      assert [] + torn == torn;
    } else {
      Regroup(Encoded(ck, rs[0]), EncodeAll(ck, rs[1..]), torn);
      DecodeEncoded(ck, rs[0], EncodeAll(ck, rs[1..]) + torn);
      DecodeAllEncoded(ck, rs[1..], torn);
      LogicalFirst(rs);
    }
  }

  /** How many whole records a byte prefix holds. */
  function Whole(ck: Checksum, rs: seq<Rec>, kept: nat): (k: nat)
    ensures k <= |rs|
  {
    if rs == [] || kept < |Encoded(ck, rs[0])| then 0
    else 1 + Whole(ck, rs[1..], kept - |Encoded(ck, rs[0])|)
  }

  /** After a crash that keeps any byte prefix of the unflushed records, the decode loop yields the
      flushed records and then exactly those unflushed ones that survived whole, in order. */
  lemma {:induction false} CrashPrefix(ck: Checksum, pending: seq<Rec>, kept: Bytes)
    requires AllFit(pending) && kept <= EncodeAll(ck, pending)
    ensures var k := Whole(ck, pending, |kept|);
      && EncodeAll(ck, pending[..k]) <= kept
      && Decode(ck, kept[|EncodeAll(ck, pending[..k])|..]) == Incomplete
      && (k == |pending| <==> kept == EncodeAll(ck, pending))
  {
    hide Encoded, Decode, Fits;
    if pending == [] {
      NothingPending(ck, pending, kept);
    } else {
      var first := Encoded(ck, pending[0]);
      if |kept| < |first| {
        Shorter(kept, first, EncodeAll(ck, pending[1..]));
        TornRecord(ck, pending[0], kept);
        assert pending[..0] == [] && kept[0..] == kept;
      } else {
        var rest := kept[|first|..];
        PastFirst(kept, first, EncodeAll(ck, pending[1..]));
        CrashPrefix(ck, pending[1..], rest);
        var k := Whole(ck, pending[1..], |rest|);
        assert pending[..k + 1][1..] == pending[1..][..k];
        BehindBoth(first, EncodeAll(ck, pending[1..][..k]), kept);
      }
    }
  }

  lemma NothingPending(ck: Checksum, pending: seq<Rec>, kept: Bytes)
    requires pending == [] && kept <= EncodeAll(ck, pending)
    ensures pending[..0] == [] && kept == [] && Decode(ck, kept[|EncodeAll(ck, pending[..0])|..]) == Incomplete
  {
  }

  lemma Shorter(kept: Bytes, first: Bytes, more: Bytes)
    requires kept <= first + more && |kept| < |first|
    ensures kept < first
  {
    assert kept == (first + more)[..|kept|];
  }

  lemma PastFirst(kept: Bytes, first: Bytes, more: Bytes)
    requires kept <= first + more && |kept| >= |first|
    ensures kept == first + kept[|first|..] && kept[|first|..] <= more
    ensures kept == first + more <==> kept[|first|..] == more
  {
    var rest := kept[|first|..];
    assert kept == (first + more)[..|kept|];
    assert rest == more[..|rest|];
  }

  lemma BehindBoth(first: Bytes, some: Bytes, kept: Bytes)
    requires first <= kept && some <= kept[|first|..]
    ensures first + some <= kept && kept[|first + some|..] == kept[|first|..][|some|..]
  {
  }

  lemma Regroup(a: Bytes, b: Bytes, c: Bytes)
    ensures a + (b + c) == (a + b) + c
  {
  }

  lemma SplitAfter(head: Bytes, whole: Bytes)
    requires head <= whole
    ensures whole == head + whole[|head|..]
  {
  }

  lemma DecodeTwoParts(ck: Checksum, a: seq<Rec>, b: seq<Rec>, torn: Bytes)
    requires AllFit(a) && AllFit(b) && Decode(ck, torn) == Incomplete
    ensures DecodeAll(ck, EncodeAll(ck, a) + (EncodeAll(ck, b) + torn)) == Success(LogicalAll(a + b))
  {
    EncodeAllConcat(ck, a, b);
    Regroup(EncodeAll(ck, a), EncodeAll(ck, b), torn);
    DecodeAllEncoded(ck, a + b, torn);
  }

  lemma CrashRecords(ck: Checksum, flushed: seq<Rec>, pending: seq<Rec>, kept: Bytes)
    requires AllFit(flushed) && AllFit(pending) && kept <= EncodeAll(ck, pending)
    ensures DecodeAll(ck, EncodeAll(ck, flushed) + kept)
            == Success(LogicalAll(flushed + pending[..Whole(ck, pending, |kept|)]))
  {
    var some := pending[..Whole(ck, pending, |kept|)];
    CrashPrefix(ck, pending, kept);
    var head := EncodeAll(ck, some);
    SplitAfter(head, kept);
    FitPrefix(pending, Whole(ck, pending, |kept|));
    DecodeTwoParts(ck, flushed, some, kept[|head|..]);
  }

  lemma FitPrefix(rs: seq<Rec>, k: nat)
    requires AllFit(rs) && k <= |rs|
    ensures AllFit(rs[..k])
  {
  }

  /** A torn tail swallows what is appended after it: as long as the later records do not make up the
      missing bytes, of the record if its header is whole and of a header if not, they are never read
      again, although they were flushed and acknowledged. */
  lemma TornTailSwallows(ck: Checksum, whole: seq<Rec>, cut: Rec, kept: nat, later: seq<Rec>)
    requires AllFit(whole) && Fits(cut) && kept < |Encoded(ck, cut)|
    requires kept + |EncodeAll(ck, later)| < if kept < SIZE then SIZE else |Encoded(ck, cut)|
    ensures DecodeAll(ck, EncodeAll(ck, whole) + Encoded(ck, cut)[..kept] + EncodeAll(ck, later))
            == Success(LogicalAll(whole))
  {
    var tail := Encoded(ck, cut)[..kept] + EncodeAll(ck, later);
    if kept >= SIZE { ShortTail(ck, cut, kept, EncodeAll(ck, later)); }
    DecodeAllEncoded(ck, whole, tail);
    Regroup(EncodeAll(ck, whole), Encoded(ck, cut)[..kept], EncodeAll(ck, later));
  }

  /** Once the later bytes fill the gap behind a whole header, they are taken for the missing payload.
      Unless the checksums of the two payloads agree, that reads as corruption, and the whole log is
      refused at the next start. */
  lemma TornTailCorrupts(ck: Checksum, whole: seq<Rec>, cut: Rec, kept: nat, later: Bytes)
    requires AllFit(whole) && Fits(cut) && SIZE <= kept < |Encoded(ck, cut)| <= kept + |later|
    ensures var tail := Encoded(ck, cut)[..kept] + later;
      var mixed := cut.payload[..kept - SIZE] + later[..|Encoded(ck, cut)| - kept];
      && (Decode(ck, tail) == Corrupt <==> ck(Meta(cut) + mixed) != ck(Meta(cut) + cut.payload))
      && (Decode(ck, tail) == Corrupt ==> DecodeAll(ck, EncodeAll(ck, whole) + tail) == Failure(ChecksumMismatch))
  {
    FilledTail(ck, cut, kept, later);
    var tail := Encoded(ck, cut)[..kept] + later;
    if Decode(ck, tail) == Corrupt { DecodeAllCorrupt(ck, whole, tail); }
  }

  lemma FilledTail(ck: Checksum, cut: Rec, kept: nat, later: Bytes)
    requires Fits(cut) && SIZE <= kept < |Encoded(ck, cut)| <= kept + |later|
    ensures var tail := Encoded(ck, cut)[..kept] + later;
      var mixed := cut.payload[..kept - SIZE] + later[..|Encoded(ck, cut)| - kept];
      Decode(ck, tail) == Corrupt <==> ck(Meta(cut) + mixed) != ck(Meta(cut) + cut.payload)
  {
    hide ToLE, FromLE;
    var bs, n := Encoded(ck, cut), |Encoded(ck, cut)|;
    var tail := bs[..kept] + later;
    EncodedFields(ck, cut, []);
    assert bs + [] == bs;
    Window(bs, kept, later, PAYLOAD_LEN_OFFSET, PAYLOAD_LEN_OFFSET + 4);
    Window(bs, kept, later, 0, CHECKSUM_SIZE);
    assert tail[0..CHECKSUM_SIZE] == tail[..CHECKSUM_SIZE] && bs[0..CHECKSUM_SIZE] == bs[..CHECKSUM_SIZE];
    LERoundTrip(|cut.payload|, 4);
    Widths();
    MixedBody(ck(Meta(cut) + cut.payload), Meta(cut), cut.payload, kept, later);
    hide Encoded, Meta;
  }

  lemma MixedBody(digest: Digest, meta: Bytes, payload: Bytes, kept: nat, later: Bytes)
    requires |meta| == SIZE - CHECKSUM_SIZE && SIZE <= kept < SIZE + |payload| <= kept + |later|
    ensures ((digest + meta + payload)[..kept] + later)[CHECKSUM_SIZE..SIZE + |payload|]
            == meta + (payload[..kept - SIZE] + later[..SIZE + |payload| - kept])
  {
  }

  lemma {:induction false} DecodeAllCorrupt(ck: Checksum, rs: seq<Rec>, tail: Bytes)
    requires AllFit(rs) && Decode(ck, tail) == Corrupt
    ensures DecodeAll(ck, EncodeAll(ck, rs) + tail) == Failure(ChecksumMismatch)
  {
    hide Encoded, Decode, Fits, Logical;
    if rs == [] {
      assert [] + tail == tail;
    } else {
      Regroup(Encoded(ck, rs[0]), EncodeAll(ck, rs[1..]), tail);
      DecodeEncoded(ck, rs[0], EncodeAll(ck, rs[1..]) + tail);
      DecodeAllCorrupt(ck, rs[1..], tail);
    }
  }

  lemma Window(bs: Bytes, kept: nat, more: Bytes, i: nat, j: nat)
    requires i <= j <= kept <= |bs|
    ensures (bs[..kept] + more)[i..j] == bs[i..j]
  {
  }

  /** As long as the bytes that follow do not make up the missing ones, a cut record stays incomplete. */
  lemma ShortTail(ck: Checksum, cut: Rec, kept: nat, later: Bytes)
    requires Fits(cut) && SIZE <= kept && kept + |later| < |Encoded(ck, cut)|
    ensures Decode(ck, Encoded(ck, cut)[..kept] + later) == Incomplete
  {
    hide Encoded, Meta;
    var bs := Encoded(ck, cut);
    EncodedFields(ck, cut, []);
    assert bs + [] == bs;
    Window(bs, kept, later, PAYLOAD_LEN_OFFSET, PAYLOAD_LEN_OFFSET + 4);
    LERoundTrip(|cut.payload|, 4);
    Widths();
  }

  /** `decode`: on success the caller's buffer advances past the record, otherwise it stays. */
  method DecodeRecord(ck: Checksum, buf: Bytes) returns (r: Result<Option<LogRecord>, WalError>, rest: Bytes)
    ensures match Decode(ck, buf)
            case Incomplete => r == Success(None) && rest == buf
            case Corrupt => r == Failure(ChecksumMismatch) && rest == buf
            case Complete(record, more) => r == Success(Some(record)) && rest == more
  {
    rest := buf;
    if |buf| < SIZE { return Success(None), rest; }
    var payloadLen := FromLE(buf[PAYLOAD_LEN_OFFSET..PAYLOAD_LEN_OFFSET + 4]);
    var recordSize := SIZE + payloadLen;
    if |buf| < recordSize { return Success(None), rest; }
    var stored := buf[..CHECKSUM_SIZE];
    var computed := ck(buf[CHECKSUM_SIZE..recordSize]);
    if stored != computed { return Failure(ChecksumMismatch), rest; }
    var index := FromLE(buf[INDEX_OFFSET..INDEX_OFFSET + 8]);
    var term := FromLE(buf[TERM_OFFSET..TERM_OFFSET + 8]);
    var payload := buf[SIZE..recordSize];
    rest := buf[recordSize..];
    return Success(Some(LogRecord(index, term, payload))), rest;
  }

  function Prepend(records: seq<LogRecord>, r: Result<seq<LogRecord>, WalError>): Result<seq<LogRecord>, WalError> {
    match r
    case Failure(e) => Failure(e)
    case Success(more) => Success(records + more)
  }

  lemma PrependTwice(records: seq<LogRecord>, record: LogRecord, r: Result<seq<LogRecord>, WalError>)
    ensures Prepend(records, Prepend([record], r)) == Prepend(records + [record], r)
  {
    if r.Success? { assert records + ([record] + r.value) == records + [record] + r.value; }
  }

  /** The decode loop of one file, as `replay` and `open` run it. */
  method DecodeFile(ck: Checksum, data: Bytes) returns (r: Result<seq<LogRecord>, WalError>)
    ensures r == DecodeAll(ck, data)
  {
    var buf := data;
    var records := [];
    assert Prepend([], DecodeAll(ck, data)) == DecodeAll(ck, data) by {
      if DecodeAll(ck, data).Success? { assert [] + DecodeAll(ck, data).value == DecodeAll(ck, data).value; }
    }
    while true
      invariant DecodeAll(ck, data) == Prepend(records, DecodeAll(ck, buf))
      decreases |buf|
    {
      var next, rest := DecodeRecord(ck, buf);
      if next.Failure? { return Failure(next.error); }
      if next.value.None? {
        assert records + [] == records;
        return Success(records);
      }
      PrependTwice(records, next.value.value, DecodeAll(ck, rest));
      records := records + [next.value.value];
      buf := rest;
    }
  }
}
