/** The wire form of `multi`: a stream of nine-byte headers and bodies ended by a sentinel. */
module Wire {
  import opened Base
  import opened Tree
  import opened Requests

  /** Parsing ends in a panic (a read past the end of the frame), in None, or in a value and the rest
      of the buffer. */
  datatype Parse<+T> = Panic | Reject | Parsed(value: T, rest: Bytes) {
    predicate IsFailure() { !Parsed? }

    function PropagateFailure<U>(): Parse<U>
      requires IsFailure()
    {
      if Panic? then Parse<U>.Panic else Parse<U>.Reject
    }

    function Extract(): (T, Bytes)
      requires !IsFailure()
    {
      (value, rest)
    }
  }

  /** UTF-8 validity of a path; nothing is assumed of it but that it is a predicate. */
  type Utf8 = Bytes -> bool

  // -------------------------------------------------------------- cursors

  function GetI32(buf: Bytes): (p: Parse<int>)
    ensures !p.Reject?
    ensures p.Parsed? ==> |p.rest| + 4 == |buf| && IsI32(p.value)
  {
    if |buf| < 4 then Panic else Parsed(I32From(buf[..4]), buf[4..])
  }

  /** A length, cast to `usize` (a negative one becomes enormous), and that many bytes. */
  function GetBytes(buf: Bytes): (p: Parse<Bytes>)
    ensures !p.Reject?
    ensures p.Parsed? ==> |p.rest| + 4 <= |buf|
  {
    var (n, rest) :- GetI32(buf);
    if n < 0 || n > |rest| then Panic else Parsed(rest[..n], rest[n..])
  }

  function GetPath(utf8: Utf8, buf: Bytes): (p: Parse<Bytes>)
    ensures p.Parsed? ==> |p.rest| + 4 <= |buf|
  {
    var (path, rest) :- GetBytes(buf);
    if utf8(path) then Parsed(path, rest) else Reject
  }

  /** One entry of an access control list: permissions, scheme, id. */
  function SkipAcl(buf: Bytes): (p: Parse<()>)
    ensures !p.Reject? && (p.Parsed? ==> |p.rest| <= |buf|)
  {
    var (_, a) :- GetI32(buf);
    var (_, b) :- GetBytes(a);
    var (_, c) :- GetBytes(b);
    Parsed((), c)
  }

  /** The access control list is read and dropped. A negative count reads as none. */
  function SkipAcls(count: int, buf: Bytes): (p: Parse<()>)
    ensures !p.Reject?
    ensures p.Parsed? ==> |p.rest| <= |buf|
    decreases if count < 0 then 0 else count
  {
    if count <= 0 then Parsed((), buf)
    else
      var (_, rest) :- SkipAcl(buf);
      SkipAcls(count - 1, rest)
  }

  // ------------------------------------------------------------- requests

  datatype Header = Header(opType: int, done: bool, err: int)

  const HEADER_SIZE := 4 + 1 + 4

  /** None for a short header or a `done` byte other than 0 and 1; never a panic. */
  function ParseHeader(buf: Bytes): (p: Parse<Header>)
    ensures !p.Panic?
    ensures p.Parsed? ==> |p.rest| + HEADER_SIZE == |buf|
  {
    if |buf| < HEADER_SIZE then Reject
    else if buf[4] != 0 && buf[4] != 1 then Reject
    else Parsed(Header(I32From(buf[..4]), buf[4] == 1, I32From(buf[5..9])), buf[9..])
  }

  function ParseCreate(utf8: Utf8, buf: Bytes): (p: Parse<MultiOp<Bytes>>)
    ensures p.Parsed? ==> |p.rest| <= |buf|
  {
    var (path, a) :- GetPath(utf8, buf);
    var (data, b) :- GetBytes(a);
    var (aclCount, c) :- GetI32(b);
    var (_, d) :- SkipAcls(aclCount, c);
    var (flags, rest) :- GetI32(d);
    Parsed(CreateOp(path, data, flags), rest)
  }

  function ParseSet(utf8: Utf8, buf: Bytes): (p: Parse<MultiOp<Bytes>>)
    ensures p.Parsed? ==> |p.rest| <= |buf|
  {
    var (path, a) :- GetPath(utf8, buf);
    var (data, b) :- GetBytes(a);
    var (version, rest) :- GetI32(b);
    Parsed(SetOp(path, data, version), rest)
  }

  function ParseDelete(utf8: Utf8, buf: Bytes): (p: Parse<MultiOp<Bytes>>)
    ensures p.Parsed? ==> |p.rest| <= |buf|
  {
    var (path, a) :- GetPath(utf8, buf);
    var (version, rest) :- GetI32(a);
    Parsed(DeleteOp(path, version), rest)
  }

  /** The one sub-request that checks its lengths first. */
  function ParseCheck(utf8: Utf8, buf: Bytes): (p: Parse<MultiOp<Bytes>>)
    ensures !p.Panic?
    ensures p.Parsed? ==> |p.rest| <= |buf|
  {
    if |buf| < 4 then Reject
    else
      var n, a := I32From(buf[..4]), buf[4..];
      if n < 0 || |a| < n + 4 || !utf8(a[..n]) then Reject
      else Parsed(CheckOp(a[..n], I32From(a[n..n + 4])), a[n + 4..])
  }

  function ParseOp(utf8: Utf8, opType: int, buf: Bytes): (p: Parse<MultiOp<Bytes>>)
    ensures p.Parsed? ==> |p.rest| <= |buf|
  {
    match opType
    case 1 => ParseCreate(utf8, buf)
    case 5 => ParseSet(utf8, buf)
    case 2 => ParseDelete(utf8, buf)
    case 13 => ParseCheck(utf8, buf)
    case _ => Reject
  }

  function ParseOps(utf8: Utf8, buf: Bytes): Parse<seq<MultiOp<Bytes>>>
    decreases |buf|
  {
    var (header, a) :- ParseHeader(buf);
    if header.done then
      if header.opType == -1 && header.err == -1 then Parsed([], a) else Reject
    else if header.err != -1 then Reject
    else
      var (op, b) :- ParseOp(utf8, header.opType, a);
      var (ops, rest) :- ParseOps(utf8, b);
      Parsed([op] + ops, rest)
  }

  /** Every operation costs at least a header, and so does the end of the request. */
  lemma {:induction false} HeadersConsumed(utf8: Utf8, buf: Bytes)
    ensures ParseOps(utf8, buf).Parsed? ==>
      |ParseOps(utf8, buf).rest| + HEADER_SIZE * (|ParseOps(utf8, buf).value| + 1) <= |buf|
    decreases |buf|
  {
    var h := ParseHeader(buf);
    if h.Parsed? && !h.value.done {
      var op := ParseOp(utf8, h.value.opType, h.rest);
      if op.Parsed? { HeadersConsumed(utf8, op.rest); }
    }
  }

  /** The list is skipped entry by entry; a short one panics. */
  method SkipAclList(count: int, buf: Bytes) returns (p: Parse<()>)
    ensures p == SkipAcls(count, buf)
  {
    hide SkipAcl;
    var cursor, left := buf, count;
    while left > 0
      invariant SkipAcls(count, buf) == SkipAcls(left, cursor)
      decreases left
    {
      var entry := SkipAcl(cursor);
      if !entry.Parsed? { return Panic; }
      cursor, left := entry.rest, left - 1;
    }
    return Parsed((), cursor);
  }

  method CreateFromBytes(utf8: Utf8, buf: Bytes) returns (p: Parse<MultiOp<Bytes>>)
    ensures p == ParseCreate(utf8, buf)
  {
    var path := GetPath(utf8, buf);
    if path.Panic? { return Panic; }
    if path.Reject? { return Reject; }
    var data := GetBytes(path.rest);
    if !data.Parsed? { return Panic; }
    var aclCount := GetI32(data.rest);
    if !aclCount.Parsed? { return Panic; }
    var acls := SkipAclList(aclCount.value, aclCount.rest);
    if !acls.Parsed? { return Panic; }
    var flags := GetI32(acls.rest);
    if !flags.Parsed? { return Panic; }
    return Parsed(CreateOp(path.value, data.value, flags.value), flags.rest);
  }

  function Followed(ops: seq<MultiOp<Bytes>>, p: Parse<seq<MultiOp<Bytes>>>): Parse<seq<MultiOp<Bytes>>> {
    match p
    case Parsed(more, rest) => Parsed(ops + more, rest)
    case Panic => Panic
    case Reject => Reject
  }

  lemma FollowedTwice(ops: seq<MultiOp<Bytes>>, op: MultiOp<Bytes>, p: Parse<seq<MultiOp<Bytes>>>)
    ensures Followed(ops, Followed([op], p)) == Followed(ops + [op], p)
  {
    if p.Parsed? { assert ops + ([op] + p.value) == ops + [op] + p.value; }
  }

  /** One round of the request loop. */
  lemma OneRound(utf8: Utf8, buf: Bytes)
    ensures var h := ParseHeader(buf);
      ParseOps(utf8, buf) ==
      if !h.Parsed? then Reject
      else if h.value.done then
        if h.value.opType == -1 && h.value.err == -1 then Parsed([], h.rest) else Reject
      else if h.value.err != -1 then Reject
      else
        match ParseOp(utf8, h.value.opType, h.rest)
        case Panic => Panic
        case Reject => Reject
        case Parsed(op, rest) => Followed([op], ParseOps(utf8, rest))
  {
    hide ParseOp;
  }

  /** The request loop. Every round consumes at least a header, so it ends; unless it succeeds the
      caller's buffer is untouched. */
  method MultiRequestFromBytes(utf8: Utf8, buf: Bytes) returns (r: Parse<seq<MultiOp<Bytes>>>, left: Bytes)
    ensures r == ParseOps(utf8, buf)
    ensures left == if r.Parsed? then r.rest else buf
  {
    hide ParseOps, ParseHeader, ParseCreate, ParseSet, ParseDelete, ParseCheck;
    var cursor := buf;
    var ops := [];
    assert Followed([], ParseOps(utf8, buf)) == ParseOps(utf8, buf) by {
      if ParseOps(utf8, buf).Parsed? { assert [] + ParseOps(utf8, buf).value == ParseOps(utf8, buf).value; }
    }
    while true
      invariant ParseOps(utf8, buf) == Followed(ops, ParseOps(utf8, cursor))
      decreases |cursor|
    {
      OneRound(utf8, cursor);
      var header := ParseHeader(cursor);
      if !header.Parsed? { return Reject, buf; }
      if header.value.done {
        if header.value.opType != -1 || header.value.err != -1 { return Reject, buf; }
        assert ops + [] == ops;
        return Parsed(ops, header.rest), header.rest;
      }
      if header.value.err != -1 { return Reject, buf; }
      var op;
      if header.value.opType == 1 {
        op := CreateFromBytes(utf8, header.rest);
      } else {
        op := ParseOp(utf8, header.value.opType, header.rest);
      }
      if op.Panic? { return Panic, buf; }
      if op.Reject? { return Reject, buf; }
      FollowedTwice(ops, op.value, ParseOps(utf8, op.rest));
      ops := ops + [op.value];
      cursor := op.rest;
    }
  }

  // ------------------------------------------- what a client sends

  datatype Acl = Acl(perms: int, scheme: Bytes, id: Bytes)

  /** An operation as sent: a create carries an access control list. */
  datatype Sent = Sent(op: MultiOp<Bytes>, acls: seq<Acl>)

  predicate IsLength(n: nat) { n < 0x8000_0000 }

  predicate FitsWire(utf8: Utf8, s: Sent) {
    && IsLength(|s.op.path|) && utf8(s.op.path)
    && match s.op
       case CreateOp(_, data, flags) =>
         && IsLength(|data|) && IsI32(flags) && IsLength(|s.acls|)
         && forall i :: 0 <= i < |s.acls| ==>
              IsI32(s.acls[i].perms) && IsLength(|s.acls[i].scheme|) && IsLength(|s.acls[i].id|)
       case SetOp(_, data, version) => IsLength(|data|) && IsI32(version)
       case DeleteOp(_, version) => IsI32(version)
       case CheckOp(_, version) => IsI32(version)
  }

  function Sized(bs: Bytes): Bytes
    requires IsLength(|bs|)
  {
    I32Bytes(|bs|) + bs
  }

  function HeaderBytes(h: Header): Bytes
    requires IsI32(h.opType) && IsI32(h.err)
  {
    I32Bytes(h.opType) + [if h.done then 1 else 0] + I32Bytes(h.err)
  }

  function AclBytes(acls: seq<Acl>): Bytes
    requires forall i :: 0 <= i < |acls| ==>
      IsI32(acls[i].perms) && IsLength(|acls[i].scheme|) && IsLength(|acls[i].id|)
  {
    if acls == [] then []
    else I32Bytes(acls[0].perms) + (Sized(acls[0].scheme) + (Sized(acls[0].id) + AclBytes(acls[1..])))
  }

  function OpType(op: MultiOp<Bytes>): int {
    match op
    case CreateOp(_, _, _) => 1
    case SetOp(_, _, _) => 5
    case DeleteOp(_, _) => 2
    case CheckOp(_, _) => 13
  }

  function OpBytes(utf8: Utf8, s: Sent): Bytes
    requires FitsWire(utf8, s)
  {
    match s.op
    case CreateOp(path, data, flags) =>
      Sized(path) + (Sized(data) + (I32Bytes(|s.acls|) + (AclBytes(s.acls) + I32Bytes(flags))))
    case SetOp(path, data, version) => Sized(path) + (Sized(data) + I32Bytes(version))
    case DeleteOp(path, version) => Sized(path) + I32Bytes(version)
    case CheckOp(path, version) => Sized(path) + I32Bytes(version)
  }

  const SENTINEL := Header(-1, true, -1)

  function RequestBytes(utf8: Utf8, sent: seq<Sent>): Bytes
    requires forall i :: 0 <= i < |sent| ==> FitsWire(utf8, sent[i])
  {
    if sent == [] then HeaderBytes(SENTINEL)
    else HeaderBytes(Header(OpType(sent[0].op), false, -1)) + (OpBytes(utf8, sent[0]) + RequestBytes(utf8, sent[1..]))
  }

  function Ops(sent: seq<Sent>): seq<MultiOp<Bytes>> {
    if sent == [] then [] else [sent[0].op] + Ops(sent[1..])
  }

  lemma TakeI32(n: int, more: Bytes)
    requires IsI32(n)
    ensures GetI32(I32Bytes(n) + more) == Parsed(n, more)
  {
    I32RoundTrip(n);
    assert (I32Bytes(n) + more)[..4] == I32Bytes(n);
  }

  lemma TakeBytes(bs: Bytes, more: Bytes)
    requires IsLength(|bs|)
    ensures GetBytes(Sized(bs) + more) == Parsed(bs, more)
  {
    assert Sized(bs) + more == I32Bytes(|bs|) + (bs + more);
    TakeI32(|bs|, bs + more);
    assert (bs + more)[..|bs|] == bs;
  }

  lemma TakeHeader(h: Header, more: Bytes)
    requires IsI32(h.opType) && IsI32(h.err)
    ensures ParseHeader(HeaderBytes(h) + more) == Parsed(h, more)
  {
    var buf := HeaderBytes(h) + more;
    I32RoundTrip(h.opType);
    I32RoundTrip(h.err);
    assert buf[..4] == I32Bytes(h.opType) && buf[5..9] == I32Bytes(h.err) && buf[9..] == more;
  }

  lemma {:induction false} TakeAcls(acls: seq<Acl>, more: Bytes)
    requires forall i :: 0 <= i < |acls| ==>
      IsI32(acls[i].perms) && IsLength(|acls[i].scheme|) && IsLength(|acls[i].id|)
    ensures SkipAcls(|acls|, AclBytes(acls) + more) == Parsed((), more)
  {
    if acls == [] {
      assert [] + more == more;
    } else {
      var c := AclBytes(acls[1..]) + more;
      var b := Sized(acls[0].id) + c;
      var a := Sized(acls[0].scheme) + b;
      var tail := AclBytes(acls[1..]);
      Assoc(Sized(acls[0].id), tail, more);
      Assoc(Sized(acls[0].scheme), Sized(acls[0].id) + tail, more);
      Assoc(I32Bytes(acls[0].perms), Sized(acls[0].scheme) + (Sized(acls[0].id) + tail), more);
      TakeI32(acls[0].perms, a);
      TakeBytes(acls[0].scheme, b);
      TakeBytes(acls[0].id, c);
      TakeAcls(acls[1..], more);
    }
  }

  lemma Assoc(a: Bytes, b: Bytes, c: Bytes)
    ensures (a + b) + c == a + (b + c)
  {
  }

  lemma TakeCreate(utf8: Utf8, s: Sent, more: Bytes)
    requires FitsWire(utf8, s) && s.op.CreateOp?
    ensures ParseCreate(utf8, OpBytes(utf8, s) + more) == Parsed(s.op, more)
  {
    var CreateOp(path, data, flags) := s.op;
    var d := I32Bytes(flags) + more;
    var c := AclBytes(s.acls) + d;
    var b := I32Bytes(|s.acls|) + c;
    var a := Sized(data) + b;
    Assoc(AclBytes(s.acls), I32Bytes(flags), more);
    Assoc(I32Bytes(|s.acls|), AclBytes(s.acls) + I32Bytes(flags), more);
    Assoc(Sized(data), I32Bytes(|s.acls|) + (AclBytes(s.acls) + I32Bytes(flags)), more);
    Assoc(Sized(path), Sized(data) + (I32Bytes(|s.acls|) + (AclBytes(s.acls) + I32Bytes(flags))), more);
    TakeBytes(path, a);
    TakeBytes(data, b);
    TakeI32(|s.acls|, c);
    TakeAcls(s.acls, d);
    TakeI32(flags, more);
  }

  lemma TakeSet(utf8: Utf8, s: Sent, more: Bytes)
    requires FitsWire(utf8, s) && s.op.SetOp?
    ensures ParseSet(utf8, OpBytes(utf8, s) + more) == Parsed(s.op, more)
  {
    var SetOp(path, data, version) := s.op;
    Assoc(Sized(data), I32Bytes(version), more);
    Assoc(Sized(path), Sized(data) + I32Bytes(version), more);
    TakeBytes(path, Sized(data) + (I32Bytes(version) + more));
    TakeBytes(data, I32Bytes(version) + more);
    TakeI32(version, more);
  }

  lemma TakeDelete(utf8: Utf8, s: Sent, more: Bytes)
    requires FitsWire(utf8, s) && s.op.DeleteOp?
    ensures ParseDelete(utf8, OpBytes(utf8, s) + more) == Parsed(s.op, more)
  {
    Assoc(Sized(s.op.path), I32Bytes(s.op.version), more);
    TakeBytes(s.op.path, I32Bytes(s.op.version) + more);
    TakeI32(s.op.version, more);
  }

  lemma TakeCheck(utf8: Utf8, s: Sent, more: Bytes)
    requires FitsWire(utf8, s) && s.op.CheckOp?
    ensures ParseCheck(utf8, OpBytes(utf8, s) + more) == Parsed(s.op, more)
  {
    var path, version := s.op.path, s.op.version;
    var a := path + (I32Bytes(version) + more);
    assert OpBytes(utf8, s) + more == I32Bytes(|path|) + a;
    I32RoundTrip(|path|);
    I32RoundTrip(version);
    var buf := I32Bytes(|path|) + a;
    assert buf[..4] == I32Bytes(|path|) && buf[4..] == a;
    assert a[..|path|] == path && a[|path|..|path| + 4] == I32Bytes(version) && a[|path| + 4..] == more;
  }

  lemma TakeOp(utf8: Utf8, s: Sent, more: Bytes)
    requires FitsWire(utf8, s)
    ensures ParseOp(utf8, OpType(s.op), OpBytes(utf8, s) + more) == Parsed(s.op, more)
  {
    match s.op
    case CreateOp(_, _, _) => TakeCreate(utf8, s, more);
    case SetOp(_, _, _) => TakeSet(utf8, s, more);
    case DeleteOp(_, _) => TakeDelete(utf8, s, more);
    case CheckOp(_, _) => TakeCheck(utf8, s, more);
  }

  /** Any list of operations survives the wire, access control lists dropped, and the parser stops
      exactly at the end of the request whatever follows it. */
  lemma {:induction false} RequestRoundTrip(utf8: Utf8, sent: seq<Sent>, more: Bytes)
    requires forall i :: 0 <= i < |sent| ==> FitsWire(utf8, sent[i])
    ensures ParseOps(utf8, RequestBytes(utf8, sent) + more) == Parsed(Ops(sent), more)
  {
    if sent == [] {
      TakeHeader(SENTINEL, more);
    } else {
      var h := Header(OpType(sent[0].op), false, -1);
      var b := RequestBytes(utf8, sent[1..]) + more;
      Assoc(OpBytes(utf8, sent[0]), RequestBytes(utf8, sent[1..]), more);
      Assoc(HeaderBytes(h), OpBytes(utf8, sent[0]) + RequestBytes(utf8, sent[1..]), more);
      TakeHeader(h, OpBytes(utf8, sent[0]) + b);
      TakeOp(utf8, sent[0], b);
      RequestRoundTrip(utf8, sent[1..], more);
    }
  }

  /** What ends or refuses a request at its next header: only a full sentinel ends it; a done byte that is
      no boolean, an error field other than -1, and an unknown operation are refused. */
  lemma HeadersDecide(utf8: Utf8, h: Header, more: Bytes)
    requires IsI32(h.opType) && IsI32(h.err)
    ensures var p := ParseOps(utf8, HeaderBytes(h) + more);
      && (h.done ==> p == if h.opType == -1 && h.err == -1 then Parsed([], more) else Reject)
      && (!h.done && (h.err != -1 || h.opType !in {1, 2, 5, 13}) ==> p == Reject)
    ensures forall odd: byte :: 1 < odd ==>
              ParseOps(utf8, I32Bytes(h.opType) + [odd] + I32Bytes(h.err) + more) == Reject
    ensures |more| < HEADER_SIZE ==> ParseOps(utf8, more) == Reject
  {
    TakeHeader(h, more);
    hide ParseCreate, ParseSet, ParseDelete, ParseCheck, I32Bytes, I32From;
  }

  // ------------------------------------------------------------ responses

  predicate StatFits(s: Stat) {
    && IsI64(s.czxid) && IsI64(s.mzxid) && IsI64(s.ctime) && IsI64(s.mtime)
    && IsI32(s.version) && IsI32(s.cversion) && IsI32(s.aversion) && IsI64(s.ephemeralOwner) && IsI64(s.pzxid)
  }

  const STAT_SIZE := 68

  function StatBytes(s: Stat, dataLength: int, numChildren: int): (bs: Bytes)
    requires StatFits(s) && IsI32(dataLength) && IsI32(numChildren)
    ensures |bs| == STAT_SIZE
  {
    I64Bytes(s.czxid) + I64Bytes(s.mzxid) + I64Bytes(s.ctime) + I64Bytes(s.mtime)
    + I32Bytes(s.version) + I32Bytes(s.cversion) + I32Bytes(s.aversion) + I64Bytes(s.ephemeralOwner)
    + I32Bytes(dataLength) + I32Bytes(numChildren) + I64Bytes(s.pzxid)
  }

  predicate ResponseFits(r: MultiOpResponse<Bytes>) {
    match r
    case CreateDone(path) => IsLength(|path|)
    case SetDone(stat, dataLength, numChildren) => StatFits(stat) && IsI32(dataLength) && IsI32(numChildren)
    case DeleteDone => true
    case CheckDone => true
    case Error(_) => true
  }

  /** The header and the body of an encoded response. */
  function ResponseHeader(r: MultiOpResponse<Bytes>): (h: Header)
    ensures IsI32(h.opType) && IsI32(h.err) && !h.done
  {
    match r
    case CreateDone(_) => Header(1, false, 0)
    case SetDone(_, _, _) => Header(5, false, 0)
    case DeleteDone => Header(2, false, 0)
    case CheckDone => Header(13, false, 0)
    case Error(code) => Header(-1, false, Code(code))
  }

  function ResponseBody(r: MultiOpResponse<Bytes>): Bytes
    requires ResponseFits(r)
  {
    match r
    case CreateDone(path) => Sized(path)
    case SetDone(stat, dataLength, numChildren) => StatBytes(stat, dataLength, numChildren)
    case DeleteDone => []
    case CheckDone => []
    case Error(code) => I32Bytes(Code(code))
  }

  function ResponseBytes(r: MultiOpResponse<Bytes>): Bytes
    requires ResponseFits(r)
  {
    HeaderBytes(ResponseHeader(r)) + ResponseBody(r)
  }

  function ResponsesBytes(rs: seq<MultiOpResponse<Bytes>>): Bytes
    requires forall i :: 0 <= i < |rs| ==> ResponseFits(rs[i])
  {
    if rs == [] then HeaderBytes(SENTINEL) else ResponseBytes(rs[0]) + ResponsesBytes(rs[1..])
  }

  method EncodeInto(buf: Bytes, r: MultiOpResponse<Bytes>) returns (out: Bytes)
    requires ResponseFits(r)
    ensures out == buf + ResponseBytes(r)
  {
    match r
    case CreateDone(path) =>
      out := buf + HeaderBytes(Header(1, false, 0));
      out := out + I32Bytes(|path|);
      out := out + path;
    case SetDone(stat, dataLength, numChildren) =>
      out := buf + HeaderBytes(Header(5, false, 0));
      out := out + StatBytes(stat, dataLength, numChildren);
    case DeleteDone =>
      out := buf + HeaderBytes(Header(2, false, 0));
      assert out + [] == out;
    case CheckDone =>
      out := buf + HeaderBytes(Header(13, false, 0));
      assert out + [] == out;
    case Error(code) =>
      out := buf + HeaderBytes(Header(-1, false, Code(code)));
      out := out + I32Bytes(Code(code));
  }

  lemma ResponsesFrom(rs: seq<MultiOpResponse<Bytes>>, i: nat)
    requires i < |rs| && forall j :: 0 <= j < |rs| ==> ResponseFits(rs[j])
    ensures ResponsesBytes(rs[i..]) == ResponseBytes(rs[i]) + ResponsesBytes(rs[i + 1..])
  {
    assert rs[i..][1..] == rs[i + 1..];
  }

  lemma ResponsesEnd(rs: seq<MultiOpResponse<Bytes>>)
    ensures ResponsesBytes(rs[|rs|..]) == HeaderBytes(SENTINEL)
  {
  }

  /** The response loop: one entry an operation, then the footer. */
  method MultiResponseToBytes(rs: seq<MultiOpResponse<Bytes>>) returns (buf: Bytes)
    requires forall i :: 0 <= i < |rs| ==> ResponseFits(rs[i])
    ensures buf == ResponsesBytes(rs)
  {
    hide ResponseBytes, ResponsesBytes, HeaderBytes, ResponseFits;
    buf := [];
    assert rs[0..] == rs;
    for i := 0 to |rs|
      invariant buf + ResponsesBytes(rs[i..]) == ResponsesBytes(rs)
    {
      ResponsesFrom(rs, i);
      Assoc(buf, ResponseBytes(rs[i]), ResponsesBytes(rs[i + 1..]));
      buf := EncodeInto(buf, rs[i]);
    }
    ResponsesEnd(rs);
    buf := buf + HeaderBytes(SENTINEL);
  }

  // A reference reader of responses, as a client would write one.

  function CodeOf(n: int): Option<ErrorCode> {
    match n
    case 0 => Some(Ok)
    case -1 => Some(SystemError)
    case -2 => Some(RuntimeInconsistency)
    case -8 => Some(BadArguments)
    case -101 => Some(NoNode)
    case -103 => Some(BadVersion)
    case -108 => Some(NoChildrenForEphemerals)
    case -110 => Some(NodeExists)
    case -111 => Some(NotEmpty)
    case _ => None
  }

  function ReadStat(b: Bytes): (Stat, int, int)
    requires |b| == STAT_SIZE
  {
    (Stat(I64From(b[0..8]), I64From(b[8..16]), I64From(b[16..24]), I64From(b[24..32]),
          I32From(b[32..36]), I32From(b[36..40]), I32From(b[40..44]), I64From(b[44..52]), I64From(b[60..68])),
     I32From(b[52..56]), I32From(b[56..60]))
  }

  function ReadResponse(h: Header, buf: Bytes): (p: Parse<MultiOpResponse<Bytes>>)
    ensures p.Parsed? ==> |p.rest| <= |buf|
  {
    if h.opType == -1 then
      var (n, rest) :- GetI32(buf);
      if n == h.err && CodeOf(n).Some? then Parsed(Error(CodeOf(n).value), rest) else Reject
    else if h.err != 0 then Reject
    else
      match h.opType
      case 1 => var (path, rest) :- GetBytes(buf); Parsed(CreateDone(path), rest)
      case 5 =>
        if |buf| < STAT_SIZE then Reject
        else
          var (stat, dataLength, numChildren) := ReadStat(buf[..STAT_SIZE]);
          Parsed(SetDone(stat, dataLength, numChildren), buf[STAT_SIZE..])
      case 2 => Parsed(DeleteDone, buf)
      case 13 => Parsed(CheckDone, buf)
      case _ => Reject
  }

  function ReadResponses(buf: Bytes): Parse<seq<MultiOpResponse<Bytes>>>
    decreases |buf|
  {
    var (h, a) :- ParseHeader(buf);
    if h.done then Parsed([], a)
    else
      var (r, b) :- ReadResponse(h, a);
      var (rs, rest) :- ReadResponses(b);
      Parsed([r] + rs, rest)
  }

  lemma StatRoundTrip(s: Stat, dataLength: int, numChildren: int)
    requires StatFits(s) && IsI32(dataLength) && IsI32(numChildren)
    ensures ReadStat(StatBytes(s, dataLength, numChildren)) == (s, dataLength, numChildren)
  {
    hide I32Bytes, I32From, I64Bytes, I64From;
    var b := StatBytes(s, dataLength, numChildren);
    I64RoundTrip(s.czxid);
    I64RoundTrip(s.mzxid);
    I64RoundTrip(s.ctime);
    I64RoundTrip(s.mtime);
    I32RoundTrip(s.version);
    I32RoundTrip(s.cversion);
    I32RoundTrip(s.aversion);
    I64RoundTrip(s.ephemeralOwner);
    I32RoundTrip(dataLength);
    I32RoundTrip(numChildren);
    I64RoundTrip(s.pzxid);
    assert b[0..8] == I64Bytes(s.czxid) && b[8..16] == I64Bytes(s.mzxid);
    assert b[16..24] == I64Bytes(s.ctime) && b[24..32] == I64Bytes(s.mtime);
    assert b[32..36] == I32Bytes(s.version) && b[36..40] == I32Bytes(s.cversion) && b[40..44] == I32Bytes(s.aversion);
    assert b[44..52] == I64Bytes(s.ephemeralOwner) && b[52..56] == I32Bytes(dataLength);
    assert b[56..60] == I32Bytes(numChildren) && b[60..68] == I64Bytes(s.pzxid);
  }

  lemma CodeRoundTrip(code: ErrorCode)
    ensures CodeOf(Code(code)) == Some(code) && IsI32(Code(code))
  {
  }

  lemma ReadBody(r: MultiOpResponse<Bytes>, more: Bytes)
    requires ResponseFits(r)
    ensures ReadResponse(ResponseHeader(r), ResponseBody(r) + more) == Parsed(r, more)
  {
    match r
    case CreateDone(path) => TakeBytes(path, more);
    case SetDone(stat, dataLength, numChildren) =>
      var b := StatBytes(stat, dataLength, numChildren);
      StatRoundTrip(stat, dataLength, numChildren);
      assert (b + more)[..STAT_SIZE] == b && (b + more)[STAT_SIZE..] == more;
    case DeleteDone => assert [] + more == more;
    case CheckDone => assert [] + more == more;
    case Error(code) =>
      CodeRoundTrip(code);
      TakeI32(Code(code), more);
  }

  lemma TakeResponse(r: MultiOpResponse<Bytes>, more: Bytes)
    requires ResponseFits(r)
    ensures ParseHeader(ResponseBytes(r) + more) == Parsed(ResponseHeader(r), ResponseBody(r) + more)
  {
    var h, b := HeaderBytes(ResponseHeader(r)), ResponseBody(r);
    Assoc(h, b, more);
    TakeHeader(ResponseHeader(r), b + more);
  }

  /** Every list of responses can be read back, whatever follows it. */
  lemma {:induction false} ResponsesRoundTrip(rs: seq<MultiOpResponse<Bytes>>, more: Bytes)
    requires forall i :: 0 <= i < |rs| ==> ResponseFits(rs[i])
    ensures ReadResponses(ResponsesBytes(rs) + more) == Parsed(rs, more)
  {
    hide ReadResponse, ResponseBytes, ResponseBody, ResponseHeader, HeaderBytes, ParseHeader, ResponseFits;
    if rs == [] {
      TakeHeader(SENTINEL, more);
    } else {
      Assoc(ResponseBytes(rs[0]), ResponsesBytes(rs[1..]), more);
      TakeResponse(rs[0], ResponsesBytes(rs[1..]) + more);
      ReadBody(rs[0], ResponsesBytes(rs[1..]) + more);
      ResponsesRoundTrip(rs[1..], more);
      assert rs == [rs[0]] + rs[1..];
    }
  }

  /** The response encoding is prefix-free, so it is unambiguous. */
  lemma ResponsesPrefixFree(rs: seq<MultiOpResponse<Bytes>>, ts: seq<MultiOpResponse<Bytes>>, a: Bytes, b: Bytes)
    requires forall i :: 0 <= i < |rs| ==> ResponseFits(rs[i])
    requires forall i :: 0 <= i < |ts| ==> ResponseFits(ts[i])
    requires ResponsesBytes(rs) + a == ResponsesBytes(ts) + b
    ensures rs == ts && a == b
  {
    ResponsesRoundTrip(rs, a);
    ResponsesRoundTrip(ts, b);
  }
}
