/** Requests, replies and the records the server logs. `P` is the type of a path: text inside the
    server, bytes on the wire. */
module Requests {
  import opened Base
  import opened Tree
  import opened Watches

  datatype ErrorCode =
    | Ok
    | SystemError
    | RuntimeInconsistency
    | BadArguments
    | NoNode
    | BadVersion
    | NoChildrenForEphemerals
    | NodeExists
    | NotEmpty

  function Code(e: ErrorCode): int {
    match e
    case Ok => 0
    case SystemError => -1
    case RuntimeInconsistency => -2
    case BadArguments => -8
    case NoNode => -101
    case BadVersion => -103
    case NoChildrenForEphemerals => -108
    case NodeExists => -110
    case NotEmpty => -111
  }

  datatype MultiOp<P> =
    | CreateOp(path: P, data: Bytes, flags: int)
    | SetOp(path: P, data: Bytes, version: int)
    | DeleteOp(path: P, version: int)
    | CheckOp(path: P, version: int)

  datatype MultiOpResponse<P> =
    | CreateDone(path: P)
    | SetDone(stat: Stat, dataLength: int, numChildren: int)
    | DeleteDone
    | CheckDone
    | Error(code: ErrorCode)

  datatype Request =
    | Create(path: string, data: Bytes, flags: int)
    | SetData(path: string, data: Bytes, version: int)
    | Remove(path: string, version: int)
    | Multi(ops: seq<MultiOp<string>>)
    | Close
    | Read(path: string, watch: Option<WatchType>)
    | Heartbeat

  datatype Body =
    | NoBody
    | PathBody(path: string)
    | StatBody(stat: Stat, dataLength: int, numChildren: int)
    | MultiBody(responses: seq<MultiOpResponse<string>>)

  datatype Reply = Reply(zxid: int, err: ErrorCode, body: Body)

  datatype MultiWalOp =
    | MCreate(path: string, data: Bytes, flags: int)
    | MSet(path: string, data: Bytes)
    | MDelete(path: string)

  datatype WalOp =
    | WCreate(path: string, data: Bytes, timestamp: int, flags: int, sessionId: int)
    | WSet(path: string, data: Bytes, timestamp: int)
    | WDelete(path: string)
    | WCreateSession(sessionId: int, timeoutMs: int)
    | WCloseSession(sessionId: int)
    | WMulti(operations: seq<MultiWalOp>, timestamp: int, sessionId: int)

  /** One thing that happens to the server: a handshake, an expiry found by the background task, or
      a request of a session handled at time `now`. `order` is the order in which the hash set lists
      the session's paths, should the step close the session. */
  datatype Step =
    | CreateSession(timeoutMs: int)
    | Expire(sessionId: int, order: seq<string>)
    | Ask(sessionId: int, now: int, request: Request, order: seq<string>)
}
