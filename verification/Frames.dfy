/** Framing on the TCP connection: requests and responses as length-prefixed frames, and the loop that
    takes pipelined requests from the inbound buffer. */
module Frames {
  import opened Arithmetic
  import opened Messages
  import opened Varints
  import opened Wire
  import opened Codec
  import opened Marshal

  const REQUEST_MAGIC := 0x1015
  const SUCCESS_MAGIC := 0x1016
  const ERROR_MAGIC := 0x1017

  const REQUEST_HEADER_SIZE := 8
  const RESPONSE_HEADER_SIZE := 6
  const MAX_RESPONSE_DATA := 4096
  const HEADER_LENGTH_SIZE := 2

  datatype Command = Command(cmd: seq<byte>, body: seq<byte>)

  // ---------- little-endian words ----------

  /** Writing a number into too few bytes cuts its upper part off. */
  lemma {:induction false} LittleEndianTruncates(v: nat, n: nat)
    ensures FromLittleEndian(LittleEndian(v, n)) == v % Pow256(n)
    decreases n
  {
    if n != 0 {
      var q, p := v / 256, Pow256(n - 1);
      LittleEndianTruncates(q, n - 1);
      assert LittleEndian(v, n)[1..] == LittleEndian(q, n - 1);
      SplitRemainder(v, q, p);
    }
  }

  lemma SplitRemainder(v: nat, q: nat, p: int)
    requires 0 < p && q == v / 256
    ensures v % (256 * p) == v % 256 + 256 * (q % p)
  {
    var k := q / p;
    assert q == k * p + q % p;
    assert 256 * (k * p) == k * (256 * p);
    DivisionIs(v, k, 256 * p, v % 256 + 256 * (q % p));
  }

  // ---------- requests ----------

  function Header(cmd: seq<byte>): seq<byte> {
    EncodeCmdHeader(CmdHeader(cmd))
  }

  function RequestHead(total: nat, header: nat): (s: seq<byte>)
    ensures |s| == REQUEST_HEADER_SIZE
  {
    LittleEndian(REQUEST_MAGIC, 2) + LittleEndian(total, 4) + LittleEndian(header, 2)
  }

  /** The bytes of a request. The lengths are written into 32 and 16 bits, whatever they are. */
  function RequestFrame(c: Command): seq<byte> {
    RequestHead(|Header(c.cmd)| + |c.body|, |Header(c.cmd)|) + Header(c.cmd) + c.body
  }

  method EncodeCmdReq(c: Command) returns (frame: array<byte>)
    ensures fresh(frame) && frame[..] == RequestFrame(c)
  {
    var headerArray := MarshalCmdHeader(CmdHeader(c.cmd));
    var headerMsg := headerArray[..];
    var total := |headerMsg| + |c.body|;
    frame := new byte[REQUEST_HEADER_SIZE + total](_ => 0);
    PutRequestHead(frame, total, |headerMsg|);
    CopyMessages(frame, headerMsg, c.body);
  }

  method CopyMessages(frame: array<byte>, header: seq<byte>, body: seq<byte>)
    requires frame.Length == REQUEST_HEADER_SIZE + |header| + |body|
    modifies frame
    ensures frame[..] == old(frame[..8]) + header + body
  {
    ghost var head := frame[..8];
    CopyBytes(frame, REQUEST_HEADER_SIZE, header);
    assert frame[..8] == head;
    Join(frame[..], head, header);
    CopyBytes(frame, REQUEST_HEADER_SIZE + |header|, body);
    assert frame[..8 + |header|] == head + header;
    Join(frame[..], head + header, body);
    assert frame[..] == frame[..8 + |header| + |body|];
  }

  lemma Join(s: seq<byte>, head: seq<byte>, part: seq<byte>)
    requires |head| + |part| <= |s| && s[..|head|] == head && s[|head|..|head| + |part|] == part
    ensures s[..|head| + |part|] == head + part
  {}

  method PutRequestHead(frame: array<byte>, total: nat, header: nat)
    requires REQUEST_HEADER_SIZE <= frame.Length
    modifies frame
    ensures frame[..8] == RequestHead(total, header)
  {
    PutLittleEndian(frame, 0, REQUEST_MAGIC, 2);
    var magic := frame[0..2];
    PutLittleEndian(frame, 2, total, 4);
    assert frame[0..2] == magic;
    var length := frame[2..6];
    PutLittleEndian(frame, 6, header, 2);
    assert frame[0..2] == magic && frame[2..6] == length;
    assert frame[..8] == frame[0..2] + frame[2..6] + frame[6..8];
  }

  /** A request that cannot be taken apart: the loop goes on with a missing header. `HeaderTooLong` is
      a header longer than the frame that holds it. */
  datatype Decoded = Request(header: CmdHeader, body: seq<byte>) | Failed | HeaderTooLong

  /** What the head of a request says: total and header length, or nothing. */
  function ReadRequestHead(buf: seq<byte>): Option<(nat, nat)>
    requires |buf| == REQUEST_HEADER_SIZE
  {
    if buf[..2] != LittleEndian(REQUEST_MAGIC, 2) then None
    else
      var total := FromLittleEndian(buf[2..6]);
      var header := FromLittleEndian(buf[6..8]);
      if total < HEADER_LENGTH_SIZE || header < 1 then None else Some((total, header))
  }

  /** The parts of a request once its bytes are there. */
  function Split(data: seq<byte>, header: nat): Decoded
    requires header < TWO_TO_THE_63
  {
    if |data| < header then HeaderTooLong
    else
      var r := UnmarshalCmdHeader(EMPTY_CMD_HEADER, data[..header]);
      if r.Ok? then Request(r.value, data[header..]) else Failed
  }

  /** The decoded request and the bytes left in the buffer. A read of more bytes than there are takes none. */
  function DecodeRequest(inbound: seq<byte>): (Decoded, seq<byte>) {
    if |inbound| < REQUEST_HEADER_SIZE then (Failed, inbound)
    else
      var head := ReadRequestHead(inbound[..REQUEST_HEADER_SIZE]);
      var rest := inbound[REQUEST_HEADER_SIZE..];
      if head.None? || |rest| < head.value.0 then (Failed, rest)
      else
        HeaderLengthFits(inbound[..REQUEST_HEADER_SIZE]);
        (Split(rest[..head.value.0], head.value.1), rest[head.value.0..])
  }

  lemma HeaderLengthFits(buf: seq<byte>)
    requires |buf| == REQUEST_HEADER_SIZE && ReadRequestHead(buf).Some?
    ensures 1 <= ReadRequestHead(buf).value.1 < 0x1_0000
  {
    FromLittleEndianBound(buf[6..8]);
    Pow256Values();
  }

  class Conn {
    var inbound: seq<byte>

    constructor (bytes: seq<byte>)
      ensures inbound == bytes
    {
      inbound := bytes;
    }

    method Next(n: nat) returns (buf: seq<byte>)
      modifies this
      ensures if n <= |old(inbound)| then buf == old(inbound)[..n] && inbound == old(inbound)[n..]
              else buf == [] && inbound == old(inbound)
    {
      if |inbound| < n {
        return [];
      }
      buf := inbound[..n];
      inbound := inbound[n..];
    }
  }

  method DecodeCmdReq(conn: Conn) returns (r: Decoded)
    modifies conn
    ensures (r, conn.inbound) == DecodeRequest(old(conn.inbound))
  {
    var buf := conn.Next(REQUEST_HEADER_SIZE);
    if |buf| < REQUEST_HEADER_SIZE {
      return Failed;
    }
    if buf[..2] != LittleEndian(REQUEST_MAGIC, 2) {
      return Failed;
    }
    var total := FromLittleEndian(buf[2..6]);
    if total < HEADER_LENGTH_SIZE {
      return Failed;
    }
    var header := FromLittleEndian(buf[6..8]);
    if header < 1 {
      return Failed;
    }
    HeaderLengthFits(buf);
    var data := conn.Next(total);
    if |data| < total {
      return Failed;
    }
    if total < header {
      return HeaderTooLong;
    }
    var cmdHeader := Unmarshal(CmdHeaderKinds, MergeCmdHeader, EMPTY_CMD_HEADER, data[..header]);
    if !cmdHeader.Ok? {
      return Failed;
    }
    return Request(cmdHeader.value, data[header..]);
  }

  // ---------- the layout of a request ----------

  /** Magic number, length of what follows the head, and length of the header, low bytes first. */
  lemma RequestLayout(c: Command)
    ensures var f, h := RequestFrame(c), |Header(c.cmd)|;
            var n := h + |c.body|;
            && |f| == 8 + n && f[..2] == [0x15, 0x10] && f[8..] == Header(c.cmd) + c.body
            && f[2..6] == [n % 256, n / 0x100 % 256, n / 0x1_0000 % 256, n / 0x100_0000 % 256]
            && f[6..8] == [h % 256, h / 0x100 % 256]
  {
    hide RequestFrame, Header, RequestHead;
    var h, f := |Header(c.cmd)|, RequestFrame(c);
    LayoutParts(c);
    HeadLayout(h + |c.body|, h);
    assert f[..2] == f[..8][..2] && f[2..6] == f[..8][2..6] && f[6..8] == f[..8][6..8];
  }

  lemma LayoutParts(c: Command)
    ensures var f, h := RequestFrame(c), |Header(c.cmd)|;
            |f| == 8 + h + |c.body| && f[..8] == RequestHead(h + |c.body|, h) && f[8..] == Header(c.cmd) + c.body
  {
    hide Header, RequestHead;
  }

  lemma HeadLayout(n: nat, h: nat)
    ensures var head := RequestHead(n, h);
            && head[..2] == [0x15, 0x10]
            && head[2..6] == [n % 256, n / 0x100 % 256, n / 0x1_0000 % 256, n / 0x100_0000 % 256]
            && head[6..8] == [h % 256, h / 0x100 % 256]
  {
    var head := RequestHead(n, h);
    assert head[..2] == LittleEndian(REQUEST_MAGIC, 2);
    assert head[2..6] == LittleEndian(n, 4) && head[6..8] == LittleEndian(h, 2);
    TwoBytes(REQUEST_MAGIC);
    TwoBytes(h);
    FourBytes(n);
  }

  lemma TwoBytes(v: nat)
    ensures LittleEndian(v, 2) == [v % 256, v / 0x100 % 256]
  {
    LittleEndianDigit(v, 2, 0);
    LittleEndianDigit(v, 2, 1);
    SmallPowers();
  }

  lemma FourBytes(v: nat)
    ensures LittleEndian(v, 4) == [v % 256, v / 0x100 % 256, v / 0x1_0000 % 256, v / 0x100_0000 % 256]
  {
    LittleEndianDigit(v, 4, 0);
    LittleEndianDigit(v, 4, 1);
    LittleEndianDigit(v, 4, 2);
    LittleEndianDigit(v, 4, 3);
    SmallPowers();
    hide LittleEndian;
  }

  lemma SmallPowers()
    ensures Pow256(0) == 1 && Pow256(1) == 256 && Pow256(2) == 0x1_0000 && Pow256(3) == 0x100_0000
  {
    assert Pow256(1) == 256 * Pow256(0);
    assert Pow256(2) == 256 * Pow256(1);
  }

  /** Exactly which buffers begin with a request that can be taken, what is taken, and what is left of the
      others. */
  lemma RequestTakenIff(inbound: seq<byte>)
    ensures 8 <= |inbound| ==> FromLittleEndian(inbound[6..8]) < 0x1_0000
    ensures var (r, rest) := DecodeRequest(inbound);
            && (r.Request? <==>
                  && 8 <= |inbound| && inbound[..2] == [0x15, 0x10]
                  && var (total, header) := (FromLittleEndian(inbound[2..6]), FromLittleEndian(inbound[6..8]));
                     && 2 <= total && 1 <= header <= total <= |inbound| - 8
                     && UnmarshalCmdHeader(EMPTY_CMD_HEADER, inbound[8..8 + header]).Ok?)
            && (r.Request? ==>
                  var (total, header) := (FromLittleEndian(inbound[2..6]), FromLittleEndian(inbound[6..8]));
                  && Ok(r.header) == UnmarshalCmdHeader(EMPTY_CMD_HEADER, inbound[8..8 + header])
                  && r.body == inbound[8 + header..8 + total] && rest == inbound[8 + total..])
            && (!r.Request? ==>
                  rest == if |inbound| < 8 then inbound
                          else
                            var (total, header) := (FromLittleEndian(inbound[2..6]), FromLittleEndian(inbound[6..8]));
                            if inbound[..2] == [0x15, 0x10] && 2 <= total <= |inbound| - 8 && 1 <= header
                            then inbound[8 + total..] else inbound[8..])
  {
    hide UnmarshalCmdHeader, FromLittleEndian;
    TwoBytes(REQUEST_MAGIC);
    if 8 <= |inbound| {
      var buf, rest := inbound[..8], inbound[8..];
      assert buf[..2] == inbound[..2] && buf[2..6] == inbound[2..6] && buf[6..8] == inbound[6..8];
      FromLittleEndianBound(inbound[6..8]);
      Pow256Values();
      var total, header := FromLittleEndian(inbound[2..6]), FromLittleEndian(inbound[6..8]);
      if total <= |rest| {
        assert rest[total..] == inbound[8 + total..];
      }
      if header <= total <= |rest| {
        assert rest[..total][..header] == inbound[8..8 + header];
        assert rest[..total][header..] == inbound[8 + header..8 + total];
      }
    }
  }

  // ---------- request round trip ----------

  /** A command that fits its frame: it has a name and its lengths fit their fields. */
  predicate Fits(c: Command) {
    && c.cmd != []
    && |Header(c.cmd)| < 0x1_0000
    && |Header(c.cmd)| + |c.body| < TWO_TO_THE_32
  }

  lemma HeadOfFrame(total: nat, header: nat)
    ensures var head := ReadRequestHead(RequestHead(total, header));
            var (t, h) := (total % TWO_TO_THE_32, header % 0x1_0000);
            head == if t < HEADER_LENGTH_SIZE || h < 1 then None else Some((t, h))
  {
    var buf := RequestHead(total, header);
    assert buf[..2] == LittleEndian(REQUEST_MAGIC, 2);
    assert buf[2..6] == LittleEndian(total, 4);
    assert buf[6..8] == LittleEndian(header, 2);
    LittleEndianTruncates(total, 4);
    LittleEndianTruncates(header, 2);
    Pow256Values();
  }

  /** A frame at the front of the buffer is decoded to its command, and what follows it is left alone,
      exactly if the command fits. */
  lemma RequestRoundTripIffFits(c: Command, rest: seq<byte>)
    ensures DecodeRequest(RequestFrame(c) + rest) == (Request(CmdHeader(c.cmd), c.body), rest) <==> Fits(c)
  {
    if Fits(c) {
      FittingFrame(c, rest);
    } else {
      UnfittingFrame(c, rest);
    }
  }

  lemma FittingFrame(c: Command, rest: seq<byte>)
    requires Fits(c)
    ensures DecodeRequest(RequestFrame(c) + rest) == (Request(CmdHeader(c.cmd), c.body), rest)
  {
    hide Split, ReadRequestHead, RequestHead, RequestFrame, Header, Fits;
    var h, total := Header(c.cmd), |Header(c.cmd)| + |c.body|;
    FrameParts(c, rest);
    HeadOfFrame(total, |h|);
    FittingHead(c);
    TakeApart(h + c.body, rest);
    FittingSplit(c);
  }

  lemma TakeApart(s: seq<byte>, t: seq<byte>)
    ensures (s + t)[..|s|] == s && (s + t)[|s|..] == t
  {}

  lemma FrameParts(c: Command, rest: seq<byte>)
    ensures var inbound := RequestFrame(c) + rest;
            && |inbound| == 8 + |Header(c.cmd)| + |c.body| + |rest|
            && inbound[..8] == RequestHead(|Header(c.cmd)| + |c.body|, |Header(c.cmd)|)
            && inbound[8..] == Header(c.cmd) + c.body + rest
  {
    hide RequestHead, Header;
  }

  lemma FittingHead(c: Command)
    requires Fits(c)
    ensures var h := |Header(c.cmd)|;
            h % 0x1_0000 == h && (h + |c.body|) % TWO_TO_THE_32 == h + |c.body| && 2 <= h
  {
    var h := |Header(c.cmd)|;
    DivisionIs(h, 0, 0x1_0000, h);
    DivisionIs(h + |c.body|, 0, TWO_TO_THE_32, h + |c.body|);
  }

  lemma FittingSplit(c: Command)
    requires Fits(c)
    ensures Split(Header(c.cmd) + c.body, |Header(c.cmd)|) == Request(CmdHeader(c.cmd), c.body)
  {
    var h := Header(c.cmd);
    assert (h + c.body)[..|h|] == h && (h + c.body)[|h|..] == c.body;
    CmdHeaderRoundTrip(CmdHeader(c.cmd));
  }

  /** A length that does not fit its field leaves too much in the buffer or in the body. */
  lemma UnfittingFrame(c: Command, rest: seq<byte>)
    requires !Fits(c)
    ensures DecodeRequest(RequestFrame(c) + rest) != (Request(CmdHeader(c.cmd), c.body), rest)
  {
    hide Split, ReadRequestHead, RequestHead, RequestFrame, Header;
    var h, total := |Header(c.cmd)|, |Header(c.cmd)| + |c.body|;
    FrameParts(c, rest);
    HeadOfFrame(total, h);
    CutLengths(total, h);
    if c.cmd == [] {
      NoHeader();
    } else if total < TWO_TO_THE_32 {
      SplitBody((RequestFrame(c) + rest)[8..][..total], h % 0x1_0000);
    }
  }

  lemma NoHeader()
    ensures Header([]) == []
  {}

  /** A length that does not fit shrinks. */
  lemma CutLengths(total: nat, header: nat)
    ensures total % TWO_TO_THE_32 == total <==> total < TWO_TO_THE_32
    ensures total % TWO_TO_THE_32 <= total
    ensures 0x1_0000 <= header ==> header % 0x1_0000 < header
  {
    if total < TWO_TO_THE_32 {
      DivisionIs(total, 0, TWO_TO_THE_32, total);
    }
  }

  lemma SplitBody(data: seq<byte>, header: nat)
    requires header < TWO_TO_THE_63
    ensures var r := Split(data, header);
            r.Request? ==> |r.body| == |data| - header
  {
    hide UnmarshalCmdHeader;
  }

  // ---------- responses ----------

  /** The head says success or error; other numbers are never written and leave it blank. */
  function ResponseMagic(magic: nat): (s: seq<byte>)
    ensures |s| == 2
  {
    if magic == SUCCESS_MAGIC || magic == ERROR_MAGIC then LittleEndian(magic, 2) else [0, 0]
  }

  function ResponseFrame(magic: nat, payload: seq<byte>): seq<byte> {
    ResponseMagic(magic) + LittleEndian(|payload|, 4) + payload
  }

  /** The two slices handed to the vectored write. */
  method EncodeCmdResp(magic: nat, payload: seq<byte>) returns (slices: seq<seq<byte>>)
    ensures |slices| == 2 && slices[0] + slices[1] == ResponseFrame(magic, payload)
  {
    hide LittleEndian;
    var header := new byte[RESPONSE_HEADER_SIZE](_ => 0);
    if magic == SUCCESS_MAGIC || magic == ERROR_MAGIC {
      PutLittleEndian(header, 0, magic, 2);
    }
    assert header[..2] == header[0..2] == ResponseMagic(magic);
    PutLittleEndian(header, 2, |payload|, 4);
    assert header[..] == header[..2] + header[2..6];
    slices := [header[..], payload];
  }

  datatype Reply = Payload(bytes: seq<byte>) | Remote(error: CmdError) | Broken

  function ReadPayload(magic: seq<byte>, payload: seq<byte>): Reply
    requires |payload| < TWO_TO_THE_63
  {
    if magic == LittleEndian(SUCCESS_MAGIC, 2) then Payload(payload)
    else
      var r := UnmarshalCmdError(EMPTY_CMD_ERROR, payload);
      if r.Ok? then Remote(r.value) else Broken
  }

  /** The response at the front of a stream and what follows it; reads get what they ask for, or what is there. */
  function DecodeResponse(stream: seq<byte>): (Reply, seq<byte>) {
    if |stream| < RESPONSE_HEADER_SIZE then (Broken, [])
    else
      var (magic, rest) := (stream[..2], stream[RESPONSE_HEADER_SIZE..]);
      var length := FromLittleEndian(stream[2..6]);
      if magic != LittleEndian(SUCCESS_MAGIC, 2) && magic != LittleEndian(ERROR_MAGIC, 2) then (Broken, rest)
      else if MAX_RESPONSE_DATA < length then (Broken, rest)
      else if |rest| < length then (Broken, [])
      else (ReadPayload(magic, rest[..length]), rest[length..])
  }

  class Stream {
    var bytes: seq<byte>

    constructor (bytes: seq<byte>)
      ensures this.bytes == bytes
    {
      this.bytes := bytes;
    }

    method Read(n: nat) returns (buf: seq<byte>)
      modifies this
      ensures if n <= |old(bytes)| then buf == old(bytes)[..n] && bytes == old(bytes)[n..]
              else buf == old(bytes) && bytes == []
    {
      if |bytes| < n {
        buf := bytes;
        bytes := [];
      } else {
        buf := bytes[..n];
        bytes := bytes[n..];
      }
    }
  }

  method DecodeCmdResp(conn: Stream) returns (r: Reply)
    modifies conn
    ensures (r, conn.bytes) == DecodeResponse(old(conn.bytes))
  {
    var header := conn.Read(RESPONSE_HEADER_SIZE);
    if |header| < RESPONSE_HEADER_SIZE {
      return Broken;
    }
    var magic := header[..2];
    assert magic == old(conn.bytes)[..2] && header[2..6] == old(conn.bytes)[2..6];
    if magic != LittleEndian(SUCCESS_MAGIC, 2) && magic != LittleEndian(ERROR_MAGIC, 2) {
      return Broken;
    }
    var length := FromLittleEndian(header[2..6]);
    if MAX_RESPONSE_DATA < length {
      return Broken;
    }
    var payload := conn.Read(length);
    if |payload| < length {
      return Broken;
    }
    if magic == LittleEndian(ERROR_MAGIC, 2) {
      var error := Unmarshal(CmdErrorKinds, MergeCmdError, EMPTY_CMD_ERROR, payload);
      MagicsDiffer();
      return if error.Ok? then Remote(error.value) else Broken;
    }
    return Payload(payload);
  }

  lemma MagicsDiffer()
    ensures LittleEndian(SUCCESS_MAGIC, 2) != LittleEndian(ERROR_MAGIC, 2)
    ensures LittleEndian(SUCCESS_MAGIC, 2) != [0, 0] && LittleEndian(ERROR_MAGIC, 2) != [0, 0]
  {
    assert LittleEndian(SUCCESS_MAGIC, 2)[0] == 0x16 && LittleEndian(ERROR_MAGIC, 2)[0] == 0x17;
  }

  lemma ResponseParts(magic: nat, payload: seq<byte>, rest: seq<byte>)
    ensures var stream := ResponseFrame(magic, payload) + rest;
            && stream[..2] == ResponseMagic(magic) && FromLittleEndian(stream[2..6]) == |payload| % TWO_TO_THE_32
            && stream[6..] == payload + rest
  {
    var stream := ResponseFrame(magic, payload) + rest;
    assert stream[2..6] == LittleEndian(|payload|, 4);
    LittleEndianTruncates(|payload|, 4);
    Pow256Values();
  }

  /** Magic number and length, low bytes first, and the payload. */
  lemma ResponseLayout(payload: seq<byte>)
    ensures var n := |payload|;
            var size := [n % 256, n / 0x100 % 256, n / 0x1_0000 % 256, n / 0x100_0000 % 256];
            && ResponseFrame(SUCCESS_MAGIC, payload) == [0x16, 0x10] + size + payload
            && ResponseFrame(ERROR_MAGIC, payload) == [0x17, 0x10] + size + payload
  {
    TwoBytes(SUCCESS_MAGIC);
    TwoBytes(ERROR_MAGIC);
    FourBytes(|payload|);
    hide LittleEndian;
  }

  /** A successful response comes back exactly if it has at most 4096 bytes. */
  lemma ResponseRoundTripIffShort(payload: seq<byte>, rest: seq<byte>)
    ensures DecodeResponse(ResponseFrame(SUCCESS_MAGIC, payload) + rest) == (Payload(payload), rest)
            <==> |payload| <= 4096
  {
    ResponseParts(SUCCESS_MAGIC, payload, rest);
    if |payload| < TWO_TO_THE_32 {
      DivisionIs(|payload|, 0, TWO_TO_THE_32, |payload|);
      if |payload| <= MAX_RESPONSE_DATA {
        assert (payload + rest)[..|payload|] == payload && (payload + rest)[|payload|..] == rest;
      }
    }
    hide ResponseFrame, LittleEndian;
  }

  /** So does an error, code and message. */
  lemma ErrorRoundTripIffShort(e: CmdError, rest: seq<byte>)
    ensures DecodeResponse(ResponseFrame(ERROR_MAGIC, EncodeCmdError(e)) + rest) == (Remote(e), rest)
            <==> |EncodeCmdError(e)| <= 4096
  {
    var payload := EncodeCmdError(e);
    ResponseParts(ERROR_MAGIC, payload, rest);
    MagicsDiffer();
    if |payload| < TWO_TO_THE_32 {
      DivisionIs(|payload|, 0, TWO_TO_THE_32, |payload|);
      if |payload| <= MAX_RESPONSE_DATA {
        CmdErrorRoundTrip(e);
        assert (payload + rest)[..|payload|] == payload && (payload + rest)[|payload|..] == rest;
      }
    }
    hide ResponseFrame, LittleEndian, EncodeCmdError, UnmarshalCmdError;
  }

  /** A response of any other kind cannot be read. */
  lemma OtherResponsesBreak(magic: nat, payload: seq<byte>, rest: seq<byte>)
    requires magic != SUCCESS_MAGIC && magic != ERROR_MAGIC
    ensures DecodeResponse(ResponseFrame(magic, payload) + rest).0 == Broken
  {
    ResponseParts(magic, payload, rest);
    MagicsDiffer();
  }

  // ---------- pipelined requests ----------

  /** What the dispatcher makes of a command. */
  datatype Response = Message(bytes: seq<byte>) | Refused(msg: seq<byte>) | Missing

  /** The bytes of a text in plain letters. */
  function Ascii(s: string): seq<byte>
    requires forall i :: 0 <= i < |s| ==> s[i] < 128 as char
  {
    seq(|s|, i requires 0 <= i < |s| => s[i] as int)
  }

  const EMPTY_RESPONSE: seq<byte> := Ascii("Empty response message")

  /** The frame of a response; errors travel as text, without their code. */
  function FrameOf(r: Response): seq<byte> {
    match r
    case Message(bytes) => ResponseFrame(SUCCESS_MAGIC, bytes)
    case Refused(msg) => ResponseFrame(ERROR_MAGIC, EncodeCmdError(CmdError(0, msg)))
    case Missing => ResponseFrame(ERROR_MAGIC, EncodeCmdError(CmdError(0, EMPTY_RESPONSE)))
  }

  /** Everything dispatched, whether the buffer was drained, and what is left in it. The loop stops
      for good at a request it cannot take apart. */
  datatype Traffic = Traffic(commands: seq<Command>, drained: bool, rest: seq<byte>)

  function Consume(inbound: seq<byte>): Traffic
    decreases |inbound|
  {
    if inbound == [] then Traffic([], true, [])
    else
      var (r, rest) := DecodeRequest(inbound);
      if !r.Request? then Traffic([], false, rest)
      else
        var later := Consume(rest);
        Traffic([Command(r.header.cmd, r.body)] + later.commands, later.drained, later.rest)
  }

  /** The answers to commands, each depending on all that came before. */
  function Answers(disp: seq<Command> -> Response, before: seq<Command>, commands: seq<Command>): seq<byte>
    decreases |commands|
  {
    if commands == [] then []
    else
      var now := before + [commands[0]];
      FrameOf(disp(now)) + Answers(disp, now, commands[1..])
  }

  // ---------- what the caller reads back ----------

  /** What a caller should read for a response. */
  function ReplyTo(r: Response): Reply {
    match r
    case Message(bytes) => Payload(bytes)
    case Refused(msg) => Remote(CmdError(0, msg))
    case Missing => Remote(CmdError(0, Ascii("Empty response message")))
  }

  /** A message of up to 4096 bytes, or an error text of up to 4093. */
  predicate Short(r: Response) {
    match r
    case Message(bytes) => |bytes| <= 4096
    case Refused(msg) => |msg| <= 4093
    case Missing => true
  }

  lemma ErrorSize(msg: seq<byte>)
    ensures |EncodeCmdError(CmdError(0, msg))| <= 4096 <==> |msg| <= 4093
    ensures |EncodeCmdError(CmdError(0, msg))| <= 2 + 2 * |msg|
  {
    var n := |msg|;
    assert VarintChunk(1, AsUint64(0)) == [];
    VarintAtMost(n);
    if 128 <= n < 16384 {
      assert EncodeVarint(n) == [n % 128 + 128] + EncodeVarint(n / 128);
    }
  }

  lemma {:induction false} VarintAtMost(v: nat)
    ensures |EncodeVarint(v)| <= v + 1
    decreases v
  {
    if 128 <= v {
      VarintAtMost(v / 128);
    }
  }

  /** A short response is read back as it was meant, and no byte behind it is touched. */
  lemma FrameReceived(r: Response, rest: seq<byte>)
    requires Short(r)
    ensures DecodeResponse(FrameOf(r) + rest) == (ReplyTo(r), rest)
  {
    hide DecodeResponse, ResponseFrame, EncodeCmdError;
    match r
    case Message(bytes) =>
      ResponseRoundTripIffShort(bytes, rest);
    case Refused(msg) =>
      ErrorSize(msg);
      ErrorRoundTripIffShort(CmdError(0, msg), rest);
    case Missing =>
      var msg := Ascii("Empty response message");
      assert |msg| == 22;
      ErrorSize(msg);
      ErrorRoundTripIffShort(CmdError(0, msg), rest);
  }

  /** What is parsed is no longer than what it is parsed from. */
  lemma {:induction false} MsgWithin(m: CmdError, data: Buffer, i: nat)
    requires i <= |data| && |m.msg| <= |data|
    ensures var r := Parse(CmdErrorKinds, MergeCmdError, m, data, i);
            r.Ok? ==> |r.value.msg| <= |data|
    decreases |data| - i
  {
    if i < |data| {
      var field := ReadField(CmdErrorKinds, data, i);
      if field.Ok? {
        var (f, next) := field.value;
        hide ReadField;
        var merged := MergeField(MergeCmdError, m, f);
        PayloadWithin(data, i);
        if merged.Ok? {
          MsgWithin(merged.value, data, next);
        }
      }
    }
  }

  lemma PayloadWithin(data: Buffer, i: nat)
    ensures var r := ReadField(CmdErrorKinds, data, i);
            r.Ok? && r.value.0.payload.Bytes? ==> |r.value.0.payload.b| <= |data|
  {}

  /** A longer one is not: it is refused, or, where its length does not fit 32 bits, read in part. */
  lemma LongNotReceived(r: Response, rest: seq<byte>)
    requires !Short(r)
    ensures DecodeResponse(FrameOf(r) + rest).0 != ReplyTo(r)
  {
    hide ResponseFrame, EncodeCmdError, LittleEndian, FromLittleEndian, UnmarshalCmdError;
    match r
    case Message(bytes) =>
      ResponseParts(SUCCESS_MAGIC, bytes, rest);
      CutLengths(|bytes|, 0);
    case Refused(msg) =>
      var payload := EncodeCmdError(CmdError(0, msg));
      ErrorSize(msg);
      ResponseParts(ERROR_MAGIC, payload, rest);
      CutLengths(|payload|, 0);
      MagicsDiffer();
      var length := |payload| % TWO_TO_THE_32;
      if length <= 4096 && length <= |payload + rest| {
        ParsedWithin((payload + rest)[..length]);
      }
  }

  lemma ParsedWithin(data: Buffer)
    ensures var r := UnmarshalCmdError(EMPTY_CMD_ERROR, data);
            r.Ok? ==> |r.value.msg| <= |data|
  {
    MsgWithin(EMPTY_CMD_ERROR, data, 0);
  }

  /** The first replies read off a stream, one after the other. */
  function Received(stream: seq<byte>, n: nat): seq<Reply>
    decreases n
  {
    if n == 0 then []
    else
      var (reply, rest) := DecodeResponse(stream);
      [reply] + Received(rest, n - 1)
  }

  /** The replies that the commands should get, each depending on all that came before. */
  function Replies(disp: seq<Command> -> Response, before: seq<Command>, commands: seq<Command>): seq<Reply>
    decreases |commands|
  {
    if commands == [] then []
    else
      var now := before + [commands[0]];
      [ReplyTo(disp(now))] + Replies(disp, now, commands[1..])
  }

  predicate AllShort(disp: seq<Command> -> Response, before: seq<Command>, commands: seq<Command>)
    decreases |commands|
  {
    commands == [] ||
    (var now := before + [commands[0]]; Short(disp(now)) && AllShort(disp, now, commands[1..]))
  }

  /** Exactly when a caller that reads one response after the other gets for each command its own, in order:
      when none of them is too long. */
  lemma {:induction false} AnswersReceivedIffShort(disp: seq<Command> -> Response, before: seq<Command>,
                                                   commands: seq<Command>, rest: seq<byte>)
    ensures Received(Answers(disp, before, commands) + rest, |commands|) == Replies(disp, before, commands)
            <==> AllShort(disp, before, commands)
    decreases |commands|
  {
    hide DecodeResponse, FrameOf, ReplyTo, Short;
    if commands != [] {
      var now := before + [commands[0]];
      var later := Answers(disp, now, commands[1..]) + rest;
      Associative(FrameOf(disp(now)), Answers(disp, now, commands[1..]), rest);
      if Short(disp(now)) {
        FrameReceived(disp(now), later);
        AnswersReceivedIffShort(disp, now, commands[1..], rest);
        SameHead(ReplyTo(disp(now)), Received(later, |commands| - 1), Replies(disp, now, commands[1..]));
      } else {
        LongNotReceived(disp(now), later);
        var stream := Answers(disp, before, commands) + rest;
        assert Received(stream, |commands|)[0] == DecodeResponse(stream).0;
      }
    }
  }

  lemma SameHead<T>(x: T, xs: seq<T>, ys: seq<T>)
    ensures [x] + xs == [x] + ys <==> xs == ys
  {
    assert ([x] + xs)[1..] == xs && ([x] + ys)[1..] == ys;
  }

  class EventHandler {
    var apiCmdCount: nat
    var dispatched: seq<Command>
    var written: seq<byte>

    constructor ()
      ensures apiCmdCount == 0 && dispatched == [] && written == []
    {
      apiCmdCount, dispatched, written := 0, [], [];
    }

    method Process(disp: seq<Command> -> Response, c: Command) returns (slices: seq<seq<byte>>)
      modifies this
      ensures dispatched == old(dispatched) + [c] && apiCmdCount == old(apiCmdCount) && written == old(written)
      ensures |slices| == 2 && slices[0] + slices[1] == FrameOf(disp(dispatched))
    {
      dispatched := dispatched + [c];
      var magic := SUCCESS_MAGIC;
      var resp: seq<byte>;
      var answer := disp(dispatched);
      match answer {
        case Message(bytes) =>
          resp := bytes;
        case Refused(msg) =>
          magic := ERROR_MAGIC;
          resp := EncodeCmdError(CmdError(0, msg));
        case Missing =>
          magic := ERROR_MAGIC;
          resp := EncodeCmdError(CmdError(0, EMPTY_RESPONSE));
      }
      slices := EncodeCmdResp(magic, resp);
    }

    /** A request that cannot be taken apart is still counted, then its missing header is used. */
    method OnTraffic(conn: Conn, disp: seq<Command> -> Response) returns (drained: bool)
      modifies this, conn
      ensures var traffic := Consume(old(conn.inbound));
              && drained == traffic.drained && conn.inbound == traffic.rest
              && dispatched == old(dispatched) + traffic.commands
              && written == old(written) + Answers(disp, old(dispatched), traffic.commands)
              && apiCmdCount == old(apiCmdCount) + |traffic.commands| + (if drained then 0 else 1)
    {
      ghost var done: seq<Command> := [];
      ghost var all := Consume(conn.inbound);
      NothingDone(disp, dispatched, all);
      hide Consume, Answers, DecodeRequest, FrameOf, After;
      while conn.inbound != []
        invariant all == After(done, Consume(conn.inbound))
        invariant dispatched == old(dispatched) + done
        invariant written == old(written) + Answers(disp, old(dispatched), done)
        invariant apiCmdCount == old(apiCmdCount) + |done|
        decreases |conn.inbound|
      {
        ghost var inbound := conn.inbound;
        var r := DecodeCmdReq(conn);
        OneDone(inbound, done);
        apiCmdCount := apiCmdCount + 1;
        if !r.Request? {
          return false;
        }
        var c := Command(r.header.cmd, r.body);
        var slices := Process(disp, c);
        Associative(written, slices[0], slices[1]);
        written := written + slices[0] + slices[1];
        Associative(old(dispatched), done, [c]);
        AnswersSnoc(disp, old(dispatched), done, c);
        Associative(old(written), Answers(disp, old(dispatched), done), FrameOf(disp(dispatched)));
        done := done + [c];
      }
      NothingLeft(done);
      return true;
    }
  }

  function After(done: seq<Command>, later: Traffic): Traffic {
    Traffic(done + later.commands, later.drained, later.rest)
  }

  lemma NothingDone(disp: seq<Command> -> Response, before: seq<Command>, all: Traffic)
    ensures Answers(disp, before, []) == [] && After([], all) == all
  {}

  lemma NothingLeft(done: seq<Command>)
    ensures After(done, Consume([])) == Traffic(done, true, [])
  {}

  lemma OneDone(inbound: seq<byte>, done: seq<Command>)
    requires inbound != []
    ensures var (r, rest) := DecodeRequest(inbound);
            && (r.Request? ==> |rest| < |inbound|)
            && After(done, Consume(inbound))
               == if r.Request? then After(done + [Command(r.header.cmd, r.body)], Consume(rest))
                  else Traffic(done, false, rest)
  {
    var (r, rest) := DecodeRequest(inbound);
    RequestTakes(inbound);
    hide DecodeRequest;
    if r.Request? {
      var c := Command(r.header.cmd, r.body);
      Associative(done, [c], Consume(rest).commands);
    } else {
      assert done + [] == done;
    }
  }

  lemma RequestTakes(inbound: seq<byte>)
    ensures DecodeRequest(inbound).0.Request? ==> |DecodeRequest(inbound).1| < |inbound|
  {
    hide Split, ReadRequestHead;
  }

  lemma SnocParts<T>(before: seq<T>, xs: seq<T>, x: T)
    requires xs != []
    ensures (xs + [x])[0] == xs[0] && (xs + [x])[1..] == xs[1..] + [x]
    ensures before + [xs[0]] + xs[1..] + [x] == before + xs + [x]
  {
    assert [xs[0]] + xs[1..] == xs;
  }

  lemma Associative<T>(xs: seq<T>, ys: seq<T>, zs: seq<T>)
    ensures xs + ys + zs == xs + (ys + zs)
  {}

  lemma AnswersEmpty(disp: seq<Command> -> Response, before: seq<Command>)
    ensures Answers(disp, before, []) == []
  {}

  lemma AnswersOne(disp: seq<Command> -> Response, before: seq<Command>, c: Command)
    ensures Answers(disp, before, [c]) == FrameOf(disp(before + [c]))
  {
    hide FrameOf;
    assert [c][1..] == [];
  }

  lemma AnswersFirst(disp: seq<Command> -> Response, before: seq<Command>, commands: seq<Command>)
    requires commands != []
    ensures var now := before + [commands[0]];
            Answers(disp, before, commands) == FrameOf(disp(now)) + Answers(disp, now, commands[1..])
  {
    hide FrameOf;
  }

  lemma {:induction false} AnswersSnoc(disp: seq<Command> -> Response, before: seq<Command>, commands: seq<Command>,
                                       c: Command)
    ensures Answers(disp, before, commands + [c])
            == Answers(disp, before, commands) + FrameOf(disp(before + commands + [c]))
    decreases |commands|
  {
    hide Answers, FrameOf;
    if commands == [] {
      AnswersEmpty(disp, before);
      AnswersOne(disp, before, c);
      assert commands + [c] == [c] && before + commands == before;
    } else {
      var now, later := before + [commands[0]], commands[1..];
      SnocParts(before, commands, c);
      AnswersFirst(disp, before, commands);
      AnswersFirst(disp, before, commands + [c]);
      AnswersSnoc(disp, now, later, c);
      Associative(FrameOf(disp(now)), Answers(disp, now, later), FrameOf(disp(before + commands + [c])));
    }
  }

  function Pipelined(commands: seq<Command>): seq<byte> {
    if commands == [] then [] else RequestFrame(commands[0]) + Pipelined(commands[1..])
  }

  /** Whatever follows them, pipelined commands that fit their frames are taken first and in order. */
  lemma {:induction false} CommandsTakenInOrder(commands: seq<Command>, tail: seq<byte>)
    requires forall c :: c in commands ==> Fits(c)
    ensures var later := Consume(tail);
            Consume(Pipelined(commands) + tail) == Traffic(commands + later.commands, later.drained, later.rest)
    decreases |commands|
  {
    if commands == [] {
      assert Pipelined(commands) + tail == tail;
      assert commands + Consume(tail).commands == Consume(tail).commands;
    } else {
      var rest := Pipelined(commands[1..]) + tail;
      FirstFrame(commands, tail);
      FittingFrame(commands[0], rest);
      ConsumeStep(Pipelined(commands) + tail, commands[0], rest);
      hide RequestFrame, DecodeRequest, Consume, Pipelined, Fits;
      CommandsTakenInOrder(commands[1..], tail);
      Associative([commands[0]], commands[1..], Consume(tail).commands);
      assert [commands[0]] + commands[1..] == commands;
    }
  }

  lemma FirstFrame(commands: seq<Command>, tail: seq<byte>)
    requires commands != []
    ensures Pipelined(commands) + tail == RequestFrame(commands[0]) + (Pipelined(commands[1..]) + tail)
    ensures Pipelined(commands) + tail != []
  {
    Associative(RequestFrame(commands[0]), Pipelined(commands[1..]), tail);
    hide RequestHead;
  }

  lemma ConsumeStep(inbound: seq<byte>, c: Command, rest: seq<byte>)
    requires inbound != [] && DecodeRequest(inbound) == (Request(CmdHeader(c.cmd), c.body), rest)
    ensures var later := Consume(rest);
            Consume(inbound) == Traffic([c] + later.commands, later.drained, later.rest)
  {
    hide DecodeRequest;
  }

  /** Exactly the pipelined commands are dispatched, in order, and the buffer is drained. */
  lemma PipelineDrains(commands: seq<Command>)
    requires forall c :: c in commands ==> Fits(c)
    ensures Consume(Pipelined(commands)) == Traffic(commands, true, [])
  {
    CommandsTakenInOrder(commands, []);
    assert Pipelined(commands) + [] == Pipelined(commands);
    assert commands + [] == commands;
  }

  /** The whole way: a caller that pipelines commands that fit reads from what the loop writes the response to
      each of them, in order, exactly if none is too long. */
  lemma PipelineAnsweredIffShort(disp: seq<Command> -> Response, before: seq<Command>, commands: seq<Command>,
                                 rest: seq<byte>)
    requires forall c :: c in commands ==> Fits(c)
    ensures var written := Answers(disp, before, Consume(Pipelined(commands)).commands);
            Received(written + rest, |commands|) == Replies(disp, before, commands)
            <==> AllShort(disp, before, commands)
  {
    hide Consume, Pipelined, Fits, Answers, Received, Replies, AllShort;
    PipelineDrains(commands);
    AnswersReceivedIffShort(disp, before, commands, rest);
  }

  /** A frame that has not arrived completely cannot be taken apart, and is lost. */
  lemma PartialFrameFails(c: Command, n: nat)
    requires Fits(c) && 0 < n < |RequestFrame(c)|
    ensures DecodeRequest(RequestFrame(c)[..n]).0 == Failed
  {
    hide Split, ReadRequestHead, RequestHead, RequestFrame, Header, Fits;
    var h, part := Header(c.cmd), RequestFrame(c)[..n];
    FrameParts(c, []);
    assert RequestFrame(c) + [] == RequestFrame(c);
    if REQUEST_HEADER_SIZE <= n {
      assert part[..8] == RequestFrame(c)[..8];
      HeadOfFrame(|h| + |c.body|, |h|);
      FittingHead(c);
    }
  }

  /** So the loop survives a read exactly if the read ends between two frames. */
  lemma DrainsIffWhole(commands: seq<Command>, last: Command, n: nat)
    requires (forall c :: c in commands ==> Fits(c)) && Fits(last) && n < |RequestFrame(last)|
    ensures Consume(Pipelined(commands) + RequestFrame(last)[..n]).commands == commands
    ensures Consume(Pipelined(commands) + RequestFrame(last)[..n]).drained <==> n == 0
  {
    var part := RequestFrame(last)[..n];
    if 0 < n {
      PartialFrameFails(last, n);
    }
    CommandsTakenInOrder(commands, part);
    assert commands + [] == commands;
  }
}
