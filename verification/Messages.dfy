/** The protocol messages. The wire code carries floats as eight opaque bytes, the server computes
    with them; `F` is whichever view is wanted. */
module Messages {

  datatype Option<+T> = None | Some(value: T)

  const TWO_TO_THE_31: int := 0x8000_0000
  const TWO_TO_THE_32: int := 0x1_0000_0000
  const TWO_TO_THE_63: int := 0x8000_0000_0000_0000
  const TWO_TO_THE_64: int := 0x1_0000_0000_0000_0000

  type byte = x: int | 0 <= x < 256
  type uint32 = x: int | 0 <= x < TWO_TO_THE_32
  type uint64 = x: int | 0 <= x < TWO_TO_THE_64
  type int32 = x: int | -TWO_TO_THE_31 <= x < TWO_TO_THE_31
  type int64 = x: int | -TWO_TO_THE_63 <= x < TWO_TO_THE_63

  /** A byte slice: its length fits a signed 64-bit integer. */
  type Buffer = s: seq<byte> | |s| < TWO_TO_THE_63

  datatype Timestamp = Timestamp(seconds: int64, nanos: int32)

  datatype ReqPerSecEntry<F> = ReqPerSecEntry(rps: F, time: Option<Timestamp>)

  datatype ReqPerSec<F> = ReqPerSec(reqCount: uint32, histories: seq<ReqPerSecEntry<F>>)

  datatype TokenBucketLimiter<F> = TokenBucketLimiter(
    rate: F,
    burst: uint32,
    tokenCount: F,
    fillPeriod: int64,
    lastFilled: Option<Timestamp>,
    nextFill: Option<Timestamp>)

  /** The oneof: its wrapper may be present and hold no message. */
  datatype Limiter<F> = NoLimiter | TokenBucket(message: Option<TokenBucketLimiter<F>>)

  const LIMITER_NULL: int32 := 0
  const LIMITER_TOKEN_BUCKET: int32 := 1

  datatype Resource<F> = Resource(
    name: seq<byte>,
    nodeId: uint32,
    limiterType: int32,
    rps: Option<ReqPerSec<F>>,
    lastUpdated: Option<Timestamp>,
    limiter: Limiter<F>)

  const PUT_RESOURCE: int32 := 0
  const REMOVE_RESOURCE: int32 := 1
  const UPDATE_RESOURCE_NODE_ID: int32 := 2

  datatype Entry<F> = Entry(
    id: seq<byte>,
    action: int32,
    srcNodeId: uint32,
    resource: Option<Resource<F>>)

  datatype EntrySnapshot<F> = EntrySnapshot(entries: seq<Entry<F>>)

  datatype CmdHeader = CmdHeader(cmd: seq<byte>)

  datatype CmdError = CmdError(code: int32, msg: seq<byte>)
}
