/** Encoding and merging of the protocol messages: which bytes the marshallers produce, how the
    parsers merge a field, and the round trip through every level of nesting. Floats are their
    eight bytes. */
module Codec {
  import opened Messages
  import opened Varints
  import opened Wire

  /** The bits of an IEEE 754 double. */
  type Float64 = uint64

  const NEGATIVE_ZERO: Float64 := TWO_TO_THE_63

  /** Both zeros compare equal to zero, so a negative zero is left out like a positive one. */
  predicate IsZero(w: Float64) {
    w == 0 || w == NEGATIVE_ZERO
  }

  // ---------- one field ----------

  function VarintChunk(num: nat, v: uint64): seq<byte>
    requires num < 16
  {
    if v == 0 then [] else [num * 8] + EncodeVarint(v)
  }

  function Fixed64Chunk(num: nat, w: Float64): seq<byte>
    requires num < 16
  {
    if IsZero(w) then [] else [num * 8 + 1] + LittleEndian(w, 8)
  }

  function DelimitedChunk(num: nat, e: seq<byte>): (chunk: seq<byte>)
    requires num < 16
    ensures |e| < |chunk|
  {
    [num * 8 + 2] + EncodeVarint(|e|) + e
  }

  function BytesChunk(num: nat, b: seq<byte>): seq<byte>
    requires num < 16
  {
    if b == [] then [] else DelimitedChunk(num, b)
  }

  lemma ReadTagByte(num: nat, wireType: nat, data: Buffer)
    requires 0 < num < 16 && wireType < 8 && wireType != 4
    requires 0 < |data| && data[0] == num * 8 + wireType
    ensures ReadTag(data, 0) == Ok((Tag(num, wireType), 1))
  {}

  lemma ReadVarintChunk(kinds: int32 -> Kind, num: nat, v: uint64)
    requires 0 < num < 16 && v != 0 && |VarintChunk(num, v)| < TWO_TO_THE_63 && kinds(num) == VarintField
    ensures ReadField(kinds, VarintChunk(num, v), 0) == Ok((Field(num, VarintValue(v)), |VarintChunk(num, v)|))
  {
    hide ReadTag, EncodeVarint, DecodeVarint;
    var chunk: Buffer := VarintChunk(num, v);
    ReadTagByte(num, 0, chunk);
    assert chunk[1..] == EncodeVarint(v);
    VarintRoundTrip(v, chunk, 1);
    assert AsUint64(v) == v;
  }

  lemma ReadFixed64Chunk(kinds: int32 -> Kind, num: nat, w: Float64)
    requires 0 < num < 16 && !IsZero(w) && kinds(num) == Fixed64Field
    ensures |Fixed64Chunk(num, w)| == 9
    ensures ReadField(kinds, Fixed64Chunk(num, w), 0) == Ok((Field(num, Fixed64Value(w)), 9))
  {
    var chunk: Buffer := Fixed64Chunk(num, w);
    ReadTagByte(num, 1, chunk);
    assert chunk[1..9] == LittleEndian(w, 8);
    Pow256Values();
    LittleEndianRoundTrip(w, 8);
  }

  lemma ReadDelimitedChunk(kinds: int32 -> Kind, num: nat, e: seq<byte>)
    requires 0 < num < 16 && |DelimitedChunk(num, e)| < TWO_TO_THE_63 && kinds(num) == DelimitedField
    ensures |e| < TWO_TO_THE_63
    ensures ReadField(kinds, DelimitedChunk(num, e), 0) == Ok((Field(num, Bytes(e)), |DelimitedChunk(num, e)|))
  {
    var chunk: Buffer := DelimitedChunk(num, e);
    ReadTagByte(num, 2, chunk);
    var head := [num * 8 + 2] + EncodeVarint(|e|);
    assert EncodeVarint(|e|) <= chunk[1..] by {
      assert chunk[1..] == EncodeVarint(|e|) + e;
    }
    VarintRoundTrip(|e|, chunk, 1);
    ReadBody(head, e, chunk);
    assert ReadPayload(DelimitedField, chunk, 0, 1, 2) == ReadDelimited(chunk, 1);
  }

  lemma ReadBody(head: seq<byte>, e: seq<byte>, chunk: Buffer)
    requires chunk == head + e && DecodeVarint(chunk, 1, 0) == Ok((|e|, |head|))
    ensures ReadDelimited(chunk, 1) == Ok((Bytes(e), |chunk|))
  {
    hide DecodeVarint;
    assert chunk[|head|..|head| + |e|] == e;
    assert AsInt64(|e|) == |e|;
  }

  /** Parsing a buffer that holds one field is merging that field. */
  lemma ParseOne<M>(kinds: int32 -> Kind, merge: Merge<M>, m: M, chunk: Buffer, f: Field)
    requires ReadField(kinds, chunk, 0) == Ok((f, |chunk|)) && !f.payload.Skipped?
    ensures Parse(kinds, merge, m, chunk, 0) == merge(m, f)
  {
    var merged := merge(m, f);
    if merged.Ok? {
      assert Parse(kinds, merge, merged.value, chunk, |chunk|) == Ok(merged.value);
    }
  }

  lemma ParseNothing<M>(kinds: int32 -> Kind, merge: Merge<M>, m: M)
    ensures Parse(kinds, merge, m, [], 0) == Ok(m)
  {}

  /** One more field behind what has been parsed. */
  lemma Extend<M>(kinds: int32 -> Kind, merge: Merge<M>, m0: M, a: seq<byte>, m1: M, b: seq<byte>, m2: M)
    requires |a + b| < TWO_TO_THE_63
    requires Parse(kinds, merge, m0, a, 0) == Ok(m1)
    requires Parse(kinds, merge, m1, b, 0) == Ok(m2)
    ensures Parse(kinds, merge, m0, a + b, 0) == Ok(m2)
  {
    ParseConcat(kinds, merge, m0, a, b);
  }

  lemma VarintStep<M>(kinds: int32 -> Kind, merge: Merge<M>, m: M, num: nat, v: uint64, m': M)
    requires 0 < num < 16 && kinds(num) == VarintField && |VarintChunk(num, v)| < TWO_TO_THE_63
    requires if v == 0 then m' == m else merge(m, Field(num, VarintValue(v))) == Ok(m')
    ensures Parse(kinds, merge, m, VarintChunk(num, v), 0) == Ok(m')
  {
    if v != 0 {
      ReadVarintChunk(kinds, num, v);
      ParseOne(kinds, merge, m, VarintChunk(num, v), Field(num, VarintValue(v)));
    }
  }

  lemma Fixed64Step<M>(kinds: int32 -> Kind, merge: Merge<M>, m: M, num: nat, w: Float64, m': M)
    requires 0 < num < 16 && kinds(num) == Fixed64Field
    requires if IsZero(w) then m' == m else merge(m, Field(num, Fixed64Value(w))) == Ok(m')
    ensures |Fixed64Chunk(num, w)| <= 9 && Parse(kinds, merge, m, Fixed64Chunk(num, w), 0) == Ok(m')
  {
    if !IsZero(w) {
      ReadFixed64Chunk(kinds, num, w);
      ParseOne(kinds, merge, m, Fixed64Chunk(num, w), Field(num, Fixed64Value(w)));
    }
  }

  lemma DelimitedStep<M>(kinds: int32 -> Kind, merge: Merge<M>, m: M, num: nat, e: seq<byte>, m': M)
    requires 0 < num < 16 && kinds(num) == DelimitedField && |DelimitedChunk(num, e)| < TWO_TO_THE_63
    requires |e| < TWO_TO_THE_63 && merge(m, Field(num, Bytes(e))) == Ok(m')
    ensures Parse(kinds, merge, m, DelimitedChunk(num, e), 0) == Ok(m')
  {
    ReadDelimitedChunk(kinds, num, e);
    ParseOne(kinds, merge, m, DelimitedChunk(num, e), Field(num, Bytes(e)));
  }

  lemma AppendVarint<M>(kinds: int32 -> Kind, merge: Merge<M>, m0: M, a: seq<byte>, m: M, num: nat, v: uint64, m': M)
    requires 0 < num < 16 && |a + VarintChunk(num, v)| < TWO_TO_THE_63
    requires Parse(kinds, merge, m0, a, 0) == Ok(m)
    requires kinds(num) == VarintField
    requires if v == 0 then m' == m else merge(m, Field(num, VarintValue(v))) == Ok(m')
    ensures Parse(kinds, merge, m0, a + VarintChunk(num, v), 0) == Ok(m')
  {
    VarintStep(kinds, merge, m, num, v, m');
    Extend(kinds, merge, m0, a, m, VarintChunk(num, v), m');
  }

  lemma AppendFixed64<M>(kinds: int32 -> Kind, merge: Merge<M>, m0: M, a: seq<byte>, m: M, num: nat, w: Float64, m': M)
    requires 0 < num < 16 && |a + Fixed64Chunk(num, w)| < TWO_TO_THE_63
    requires Parse(kinds, merge, m0, a, 0) == Ok(m)
    requires kinds(num) == Fixed64Field
    requires if IsZero(w) then m' == m else merge(m, Field(num, Fixed64Value(w))) == Ok(m')
    ensures Parse(kinds, merge, m0, a + Fixed64Chunk(num, w), 0) == Ok(m')
  {
    Fixed64Step(kinds, merge, m, num, w, m');
    Extend(kinds, merge, m0, a, m, Fixed64Chunk(num, w), m');
  }

  lemma AppendDelimited<M>(kinds: int32 -> Kind, merge: Merge<M>, m0: M, a: seq<byte>, m: M, num: nat, e: seq<byte>,
                           m': M)
    requires 0 < num < 16 && |a + DelimitedChunk(num, e)| < TWO_TO_THE_63
    requires Parse(kinds, merge, m0, a, 0) == Ok(m)
    requires kinds(num) == DelimitedField
    requires |e| < TWO_TO_THE_63 && merge(m, Field(num, Bytes(e))) == Ok(m')
    ensures Parse(kinds, merge, m0, a + DelimitedChunk(num, e), 0) == Ok(m')
  {
    DelimitedStep(kinds, merge, m, num, e, m');
    Extend(kinds, merge, m0, a, m, DelimitedChunk(num, e), m');
  }

  lemma AppendBytes<M>(kinds: int32 -> Kind, merge: Merge<M>, m0: M, a: seq<byte>, m: M, num: nat, b: seq<byte>, m': M)
    requires 0 < num < 16 && |a + BytesChunk(num, b)| < TWO_TO_THE_63
    requires Parse(kinds, merge, m0, a, 0) == Ok(m)
    requires kinds(num) == DelimitedField
    requires if b == [] then m' == m else |b| < TWO_TO_THE_63 && merge(m, Field(num, Bytes(b))) == Ok(m')
    ensures Parse(kinds, merge, m0, a + BytesChunk(num, b), 0) == Ok(m')
  {
    hide Parse;
    if b == [] {
      assert a + [] == a;
    } else {
      AppendDelimited(kinds, merge, m0, a, m, num, b, m');
    }
  }

  // ---------- Timestamp ----------

  const EMPTY_TIMESTAMP := Timestamp(0, 0)

  function TimestampKinds(num: int32): Kind {
    if num == 1 || num == 2 then VarintField else UnknownField
  }

  function MergeTimestamp(m: Timestamp, f: Field): Result<Timestamp> {
    match f
    case Field(1, VarintValue(v)) => Ok(m.(seconds := AsInt64(v)))
    case Field(2, VarintValue(v)) => Ok(m.(nanos := AsInt32(v)))
    case _ => Ok(m)
  }

  function UnmarshalTimestamp(m: Timestamp, data: Buffer): Result<Timestamp> {
    Parse(TimestampKinds, MergeTimestamp, m, data, 0)
  }

  function EncodeTimestamp(m: Timestamp): seq<byte> {
    VarintChunk(1, AsUint64(m.seconds)) + VarintChunk(2, AsUint64(m.nanos))
  }

  /** A field that is zero is not written and leaves what was there. */
  function OverlayTimestamp(t0: Timestamp, t: Timestamp): Timestamp {
    Timestamp(if t.seconds == 0 then t0.seconds else t.seconds, if t.nanos == 0 then t0.nanos else t.nanos)
  }

  /** A timestamp parsed into another one overlays it. */
  lemma TimestampOverlays(t0: Timestamp, m: Timestamp)
    requires |EncodeTimestamp(m)| < TWO_TO_THE_63
    ensures UnmarshalTimestamp(t0, EncodeTimestamp(m)) == Ok(OverlayTimestamp(t0, m))
  {
    hide Parse, VarintChunk, AsInt64, AsInt32;
    var a, b := VarintChunk(1, AsUint64(m.seconds)), VarintChunk(2, AsUint64(m.nanos));
    var m1 := t0.(seconds := if m.seconds == 0 then t0.seconds else m.seconds);
    ConversionsInvert(m.seconds);
    ConversionsInvert(m.nanos);
    VarintStep(TimestampKinds, MergeTimestamp, t0, 1, AsUint64(m.seconds), m1);
    VarintStep(TimestampKinds, MergeTimestamp, m1, 2, AsUint64(m.nanos), OverlayTimestamp(t0, m));
    Extend(TimestampKinds, MergeTimestamp, t0, a, m1, b, OverlayTimestamp(t0, m));
  }

  lemma TimestampRoundTrip(m: Timestamp)
    requires |EncodeTimestamp(m)| < TWO_TO_THE_63
    ensures UnmarshalTimestamp(EMPTY_TIMESTAMP, EncodeTimestamp(m)) == Ok(m)
  {
    TimestampOverlays(EMPTY_TIMESTAMP, m);
  }

  /** An optional submessage of type Timestamp: parsed into what is there, or into a fresh one. */
  function MergeTimestampInto(t: Option<Timestamp>, b: Buffer): Result<Option<Timestamp>> {
    var merged :- UnmarshalTimestamp(OrEmpty(t), b);
    Ok(Some(merged))
  }

  function OrEmpty(t: Option<Timestamp>): Timestamp {
    if t.None? then EMPTY_TIMESTAMP else t.value
  }

  function OverlayTime(t0: Option<Timestamp>, t: Option<Timestamp>): Option<Timestamp> {
    if t.None? then t0 else Some(OverlayTimestamp(OrEmpty(t0), t.value))
  }

  function TimestampChunk(num: nat, t: Option<Timestamp>): seq<byte>
    requires num < 16
  {
    if t.None? then [] else DelimitedChunk(num, EncodeTimestamp(t.value))
  }

  /** A timestamp behind what has been parsed, onto what is there in its place. */
  lemma AppendTimestampOnto<M>(kinds: int32 -> Kind, merge: Merge<M>, m0: M, a: seq<byte>, m: M, num: nat,
                               t0: Option<Timestamp>, t: Option<Timestamp>, m': M)
    requires 0 < num < 16 && |a + TimestampChunk(num, t)| < TWO_TO_THE_63
    requires Parse(kinds, merge, m0, a, 0) == Ok(m)
    requires kinds(num) == DelimitedField
    requires if t.None? then m' == m
             else forall b: Buffer :: MergeTimestampInto(t0, b) == Ok(OverlayTime(t0, t)) ==>
                    merge(m, Field(num, Bytes(b))) == Ok(m')
    ensures Parse(kinds, merge, m0, a + TimestampChunk(num, t), 0) == Ok(m')
  {
    hide Parse;
    if t.None? {
      assert a + [] == a;
    } else {
      TimestampOverlays(OrEmpty(t0), t.value);
      assert MergeTimestampInto(t0, EncodeTimestamp(t.value)) == Ok(OverlayTime(t0, t));
      AppendDelimited(kinds, merge, m0, a, m, num, EncodeTimestamp(t.value), m');
    }
  }

  lemma AppendTimestamp<M>(kinds: int32 -> Kind, merge: Merge<M>, m0: M, a: seq<byte>, m: M, num: nat,
                           t: Option<Timestamp>, m': M)
    requires 0 < num < 16 && |a + TimestampChunk(num, t)| < TWO_TO_THE_63
    requires Parse(kinds, merge, m0, a, 0) == Ok(m)
    requires kinds(num) == DelimitedField
    requires if t.None? then m' == m
             else forall b: Buffer :: MergeTimestampInto(None, b) == Ok(t) ==> merge(m, Field(num, Bytes(b))) == Ok(m')
    ensures Parse(kinds, merge, m0, a + TimestampChunk(num, t), 0) == Ok(m')
  {
    hide Parse;
    assert OverlayTime(None, t) == t;
    AppendTimestampOnto(kinds, merge, m0, a, m, num, None, t, m');
  }

  // ---------- ReqPerSecEntry ----------

  const EMPTY_REQ_PER_SEC_ENTRY: ReqPerSecEntry<Float64> := ReqPerSecEntry(0, None)

  function ReqPerSecEntryKinds(num: int32): Kind {
    if num == 1 then Fixed64Field else if num == 2 then DelimitedField else UnknownField
  }

  function MergeReqPerSecEntry(m: ReqPerSecEntry<Float64>, f: Field): Result<ReqPerSecEntry<Float64>> {
    match f
    case Field(1, Fixed64Value(w)) => Ok(m.(rps := w))
    case Field(2, Bytes(b)) =>
      var t :- MergeTimestampInto(m.time, b);
      Ok(m.(time := t))
    case _ => Ok(m)
  }

  function UnmarshalReqPerSecEntry(m: ReqPerSecEntry<Float64>, data: Buffer): Result<ReqPerSecEntry<Float64>> {
    Parse(ReqPerSecEntryKinds, MergeReqPerSecEntry, m, data, 0)
  }

  function EncodeReqPerSecEntry(m: ReqPerSecEntry<Float64>): seq<byte> {
    Fixed64Chunk(1, m.rps) + TimestampChunk(2, m.time)
  }

  /** What a float reads back as. */
  function NormalFloat(w: Float64): Float64 {
    if w == NEGATIVE_ZERO then 0 else w
  }

  function NormalReqPerSecEntry(m: ReqPerSecEntry<Float64>): ReqPerSecEntry<Float64> {
    m.(rps := NormalFloat(m.rps))
  }

  lemma ReqPerSecEntryRoundTrip(m: ReqPerSecEntry<Float64>)
    requires |EncodeReqPerSecEntry(m)| < TWO_TO_THE_63
    ensures UnmarshalReqPerSecEntry(EMPTY_REQ_PER_SEC_ENTRY, EncodeReqPerSecEntry(m)) == Ok(NormalReqPerSecEntry(m))
  {
    var m1: ReqPerSecEntry<Float64> := ReqPerSecEntry(NormalFloat(m.rps), None);
    Fixed64Step(ReqPerSecEntryKinds, MergeReqPerSecEntry, EMPTY_REQ_PER_SEC_ENTRY, 1, m.rps, m1);
    AppendTimestamp(ReqPerSecEntryKinds, MergeReqPerSecEntry, EMPTY_REQ_PER_SEC_ENTRY, Fixed64Chunk(1, m.rps), m1,
                    2, m.time, NormalReqPerSecEntry(m));
  }

  // ---------- ReqPerSec ----------

  const EMPTY_REQ_PER_SEC: ReqPerSec<Float64> := ReqPerSec(0, [])

  function ReqPerSecKinds(num: int32): Kind {
    if num == 1 then VarintField else if num == 2 then DelimitedField else UnknownField
  }

  function MergeReqPerSec(m: ReqPerSec<Float64>, f: Field): Result<ReqPerSec<Float64>> {
    match f
    case Field(1, VarintValue(v)) => Ok(m.(reqCount := AsUint32(v)))
    case Field(2, Bytes(b)) =>
      var e :- UnmarshalReqPerSecEntry(EMPTY_REQ_PER_SEC_ENTRY, b);
      Ok(m.(histories := m.histories + [e]))
    case _ => Ok(m)
  }

  function UnmarshalReqPerSec(m: ReqPerSec<Float64>, data: Buffer): Result<ReqPerSec<Float64>> {
    Parse(ReqPerSecKinds, MergeReqPerSec, m, data, 0)
  }

  function EncodeHistories(hs: seq<ReqPerSecEntry<Float64>>): seq<byte> {
    if hs == [] then [] else DelimitedChunk(2, EncodeReqPerSecEntry(hs[0])) + EncodeHistories(hs[1..])
  }

  function EncodeReqPerSec(m: ReqPerSec<Float64>): seq<byte> {
    VarintChunk(1, m.reqCount) + EncodeHistories(m.histories)
  }

  function NormalHistories(hs: seq<ReqPerSecEntry<Float64>>): seq<ReqPerSecEntry<Float64>> {
    if hs == [] then [] else [NormalReqPerSecEntry(hs[0])] + NormalHistories(hs[1..])
  }

  function NormalReqPerSec(m: ReqPerSec<Float64>): ReqPerSec<Float64> {
    m.(histories := NormalHistories(m.histories))
  }

  lemma {:induction false} HistoriesStep(m: ReqPerSec<Float64>, hs: seq<ReqPerSecEntry<Float64>>)
    requires |EncodeHistories(hs)| < TWO_TO_THE_63
    ensures UnmarshalReqPerSec(m, EncodeHistories(hs)) == Ok(m.(histories := m.histories + NormalHistories(hs)))
    decreases |hs|
  {
    if hs == [] {
      assert m.histories + [] == m.histories;
    } else {
      var chunk, m1 := HistoryStep(m, hs);
      HistoriesStep(m1, hs[1..]);
      HistoriesCons(m, chunk, NormalReqPerSecEntry(hs[0]), EncodeHistories(hs[1..]), NormalHistories(hs[1..]));
    }
  }

  lemma HistoriesCons(m: ReqPerSec<Float64>, chunk: seq<byte>, h: ReqPerSecEntry<Float64>,
                      bytes: seq<byte>, rest: seq<ReqPerSecEntry<Float64>>)
    requires |chunk + bytes| < TWO_TO_THE_63
    requires UnmarshalReqPerSec(m, chunk) == Ok(m.(histories := m.histories + [h]))
    requires UnmarshalReqPerSec(m.(histories := m.histories + [h]), bytes)
             == Ok(m.(histories := m.histories + [h] + rest))
    ensures UnmarshalReqPerSec(m, chunk + bytes) == Ok(m.(histories := m.histories + ([h] + rest)))
  {
    hide Parse;
    assert m.histories + [h] + rest == m.histories + ([h] + rest);
    Extend(ReqPerSecKinds, MergeReqPerSec, m, chunk, m.(histories := m.histories + [h]), bytes,
           m.(histories := m.histories + [h] + rest));
  }

  lemma HistoryStep(m: ReqPerSec<Float64>, hs: seq<ReqPerSecEntry<Float64>>)
    returns (chunk: seq<byte>, m': ReqPerSec<Float64>)
    requires hs != [] && |EncodeHistories(hs)| < TWO_TO_THE_63
    ensures EncodeHistories(hs) == chunk + EncodeHistories(hs[1..])
    ensures m' == m.(histories := m.histories + [NormalReqPerSecEntry(hs[0])])
    ensures UnmarshalReqPerSec(m, chunk) == Ok(m')
  {
    var e := EncodeReqPerSecEntry(hs[0]);
    chunk := DelimitedChunk(2, e);
    m' := m.(histories := m.histories + [NormalReqPerSecEntry(hs[0])]);
    ReqPerSecEntryRoundTrip(hs[0]);
    DelimitedStep(ReqPerSecKinds, MergeReqPerSec, m, 2, e, m');
  }

  lemma ReqPerSecRoundTrip(m: ReqPerSec<Float64>)
    requires |EncodeReqPerSec(m)| < TWO_TO_THE_63
    ensures UnmarshalReqPerSec(EMPTY_REQ_PER_SEC, EncodeReqPerSec(m)) == Ok(NormalReqPerSec(m))
  {
    hide Parse, VarintChunk, EncodeHistories, NormalHistories;
    var m1: ReqPerSec<Float64> := ReqPerSec(m.reqCount, []);
    VarintStep(ReqPerSecKinds, MergeReqPerSec, EMPTY_REQ_PER_SEC, 1, m.reqCount, m1);
    HistoriesStep(m1, m.histories);
    assert [] + NormalHistories(m.histories) == NormalHistories(m.histories);
    Extend(ReqPerSecKinds, MergeReqPerSec, EMPTY_REQ_PER_SEC, VarintChunk(1, m.reqCount), m1,
           EncodeHistories(m.histories), NormalReqPerSec(m));
  }

  // ---------- TokenBucketLimiter ----------

  const EMPTY_TOKEN_BUCKET: TokenBucketLimiter<Float64> := TokenBucketLimiter(0, 0, 0, 0, None, None)

  function TokenBucketKinds(num: int32): Kind {
    if num == 1 || num == 3 then Fixed64Field
    else if num == 2 || num == 4 then VarintField
    else if num == 5 || num == 6 then DelimitedField
    else UnknownField
  }

  function MergeTokenBucket(m: TokenBucketLimiter<Float64>, f: Field): Result<TokenBucketLimiter<Float64>> {
    match f
    case Field(1, Fixed64Value(w)) => Ok(m.(rate := w))
    case Field(2, VarintValue(v)) => Ok(m.(burst := AsUint32(v)))
    case Field(3, Fixed64Value(w)) => Ok(m.(tokenCount := w))
    case Field(4, VarintValue(v)) => Ok(m.(fillPeriod := AsInt64(v)))
    case Field(5, Bytes(b)) =>
      var t :- MergeTimestampInto(m.lastFilled, b);
      Ok(m.(lastFilled := t))
    case Field(6, Bytes(b)) =>
      var t :- MergeTimestampInto(m.nextFill, b);
      Ok(m.(nextFill := t))
    case _ => Ok(m)
  }

  function UnmarshalTokenBucket(m: TokenBucketLimiter<Float64>, data: Buffer): Result<TokenBucketLimiter<Float64>> {
    Parse(TokenBucketKinds, MergeTokenBucket, m, data, 0)
  }

  function EncodeTokenBucket(m: TokenBucketLimiter<Float64>): seq<byte> {
    EncodeTokenBucketCounts(m) + TimestampChunk(5, m.lastFilled) + TimestampChunk(6, m.nextFill)
  }

  /** The first four fields. */
  function EncodeTokenBucketCounts(m: TokenBucketLimiter<Float64>): seq<byte> {
    EncodeTokenBucketLimits(m) + Fixed64Chunk(3, m.tokenCount) + VarintChunk(4, AsUint64(m.fillPeriod))
  }

  /** The first two fields. */
  function EncodeTokenBucketLimits(m: TokenBucketLimiter<Float64>): seq<byte> {
    Fixed64Chunk(1, m.rate) + VarintChunk(2, m.burst)
  }

  function NormalTokenBucket(m: TokenBucketLimiter<Float64>): TokenBucketLimiter<Float64> {
    m.(rate := NormalFloat(m.rate), tokenCount := NormalFloat(m.tokenCount))
  }

  /** What a bucket parsed into another one leaves: fields that are not written stay. */
  function OverlayTokenBucket(m0: TokenBucketLimiter<Float64>, m: TokenBucketLimiter<Float64>)
    : TokenBucketLimiter<Float64>
  {
    TokenBucketLimiter(
      OverlayFloat(m0.rate, m.rate),
      if m.burst == 0 then m0.burst else m.burst,
      OverlayFloat(m0.tokenCount, m.tokenCount),
      if m.fillPeriod == 0 then m0.fillPeriod else m.fillPeriod,
      OverlayTime(m0.lastFilled, m.lastFilled),
      OverlayTime(m0.nextFill, m.nextFill))
  }

  function OverlayFloat(w0: Float64, w: Float64): Float64 {
    if IsZero(w) then w0 else w
  }

  lemma TokenBucketLimitsOverlay(m0: TokenBucketLimiter<Float64>, m: TokenBucketLimiter<Float64>)
    requires |EncodeTokenBucketLimits(m)| < TWO_TO_THE_63
    ensures UnmarshalTokenBucket(m0, EncodeTokenBucketLimits(m))
            == Ok(m0.(rate := OverlayFloat(m0.rate, m.rate), burst := if m.burst == 0 then m0.burst else m.burst))
  {
    hide Parse;
    var k, g := TokenBucketKinds, MergeTokenBucket;
    var m1 := m0.(rate := OverlayFloat(m0.rate, m.rate));
    Fixed64Step(k, g, m0, 1, m.rate, m1);
    AppendVarint(k, g, m0, Fixed64Chunk(1, m.rate), m1, 2, m.burst,
                 m1.(burst := if m.burst == 0 then m0.burst else m.burst));
  }

  lemma TokenBucketCountsOverlay(m0: TokenBucketLimiter<Float64>, m: TokenBucketLimiter<Float64>)
    requires |EncodeTokenBucketCounts(m)| < TWO_TO_THE_63
    ensures UnmarshalTokenBucket(m0, EncodeTokenBucketCounts(m))
            == Ok(OverlayTokenBucket(m0, m).(lastFilled := m0.lastFilled, nextFill := m0.nextFill))
  {
    hide Parse, VarintChunk, Fixed64Chunk, EncodeTokenBucketLimits, AsInt64;
    var k, g := TokenBucketKinds, MergeTokenBucket;
    var all := OverlayTokenBucket(m0, m);
    var m2 := m0.(rate := all.rate, burst := all.burst);
    var m3 := m2.(tokenCount := all.tokenCount);
    var a2 := EncodeTokenBucketLimits(m);
    TokenBucketLimitsOverlay(m0, m);
    ConversionsInvert(m.fillPeriod);
    AppendFixed64(k, g, m0, a2, m2, 3, m.tokenCount, m3);
    AppendVarint(k, g, m0, a2 + Fixed64Chunk(3, m.tokenCount), m3, 4, AsUint64(m.fillPeriod),
                 m3.(fillPeriod := all.fillPeriod));
  }

  /** A bucket parsed into another one overlays it. */
  lemma TokenBucketOverlays(m0: TokenBucketLimiter<Float64>, m: TokenBucketLimiter<Float64>)
    requires |EncodeTokenBucket(m)| < TWO_TO_THE_63
    ensures UnmarshalTokenBucket(m0, EncodeTokenBucket(m)) == Ok(OverlayTokenBucket(m0, m))
  {
    hide Parse;
    var k, g := TokenBucketKinds, MergeTokenBucket;
    var m6 := OverlayTokenBucket(m0, m);
    var m4 := m6.(lastFilled := m0.lastFilled, nextFill := m0.nextFill);
    var m5 := m4.(lastFilled := m6.lastFilled);
    var a4 := EncodeTokenBucketCounts(m);
    TokenBucketCountsOverlay(m0, m);
    AppendTimestampOnto(k, g, m0, a4, m4, 5, m0.lastFilled, m.lastFilled, m5);
    AppendTimestampOnto(k, g, m0, a4 + TimestampChunk(5, m.lastFilled), m5, 6, m0.nextFill, m.nextFill, m6);
  }

  lemma TokenBucketRoundTrip(m: TokenBucketLimiter<Float64>)
    requires |EncodeTokenBucket(m)| < TWO_TO_THE_63
    ensures UnmarshalTokenBucket(EMPTY_TOKEN_BUCKET, EncodeTokenBucket(m)) == Ok(NormalTokenBucket(m))
  {
    hide UnmarshalTokenBucket, EncodeTokenBucket, OverlayTokenBucket, NormalTokenBucket;
    TokenBucketOverlays(EMPTY_TOKEN_BUCKET, m);
    OverlayOfNothing(m);
  }

  lemma OverlayOfNothing(m: TokenBucketLimiter<Float64>)
    ensures OverlayTokenBucket(EMPTY_TOKEN_BUCKET, m) == NormalTokenBucket(m)
  {}

  // ---------- Resource ----------

  const EMPTY_RESOURCE: Resource<Float64> := Resource([], 0, 0, None, None, NoLimiter)

  function ResourceKinds(num: int32): Kind {
    if num == 2 || num == 3 then VarintField
    else if num == 1 || num == 4 || num == 5 || num == 6 then DelimitedField
    else UnknownField
  }

  /** A repeated rps or last_updated is merged into the one before; a repeated limiter replaces it. */
  function MergeResource(m: Resource<Float64>, f: Field): Result<Resource<Float64>> {
    match f
    case Field(1, Bytes(b)) => Ok(m.(name := b))
    case Field(2, VarintValue(v)) => Ok(m.(nodeId := AsUint32(v)))
    case Field(3, VarintValue(v)) => Ok(m.(limiterType := AsInt32(v)))
    case Field(4, Bytes(b)) =>
      var rps :- UnmarshalReqPerSec(if m.rps.None? then EMPTY_REQ_PER_SEC else m.rps.value, b);
      Ok(m.(rps := Some(rps)))
    case Field(5, Bytes(b)) =>
      var t :- MergeTimestampInto(m.lastUpdated, b);
      Ok(m.(lastUpdated := t))
    case Field(6, Bytes(b)) =>
      var bucket :- UnmarshalTokenBucket(EMPTY_TOKEN_BUCKET, b);
      Ok(m.(limiter := TokenBucket(Some(bucket))))
    case _ => Ok(m)
  }

  function UnmarshalResource(m: Resource<Float64>, data: Buffer): Result<Resource<Float64>> {
    Parse(ResourceKinds, MergeResource, m, data, 0)
  }

  function ReqPerSecChunk(num: nat, rps: Option<ReqPerSec<Float64>>): seq<byte>
    requires num < 16
  {
    if rps.None? then [] else DelimitedChunk(num, EncodeReqPerSec(rps.value))
  }

  /** An empty wrapper writes nothing. */
  function LimiterChunk(num: nat, limiter: Limiter<Float64>): seq<byte>
    requires num < 16
  {
    match limiter
    case TokenBucket(Some(bucket)) => DelimitedChunk(num, EncodeTokenBucket(bucket))
    case _ => []
  }

  function EncodeResource(m: Resource<Float64>): seq<byte> {
    EncodeResourceScalars(m) + ReqPerSecChunk(4, m.rps) + TimestampChunk(5, m.lastUpdated) + LimiterChunk(6, m.limiter)
  }

  /** The first three fields. */
  function EncodeResourceScalars(m: Resource<Float64>): seq<byte> {
    BytesChunk(1, m.name) + VarintChunk(2, m.nodeId) + VarintChunk(3, AsUint64(m.limiterType))
  }

  function NormalLimiter(limiter: Limiter<Float64>): Limiter<Float64> {
    match limiter
    case TokenBucket(Some(bucket)) => TokenBucket(Some(NormalTokenBucket(bucket)))
    case _ => NoLimiter
  }

  function NormalResource(m: Resource<Float64>): Resource<Float64> {
    m.(rps := if m.rps.None? then None else Some(NormalReqPerSec(m.rps.value)),
       limiter := NormalLimiter(m.limiter))
  }

  lemma ResourceScalarsRoundTrip(m: Resource<Float64>)
    requires |EncodeResourceScalars(m)| < TWO_TO_THE_63
    ensures UnmarshalResource(EMPTY_RESOURCE, EncodeResourceScalars(m))
            == Ok(EMPTY_RESOURCE.(name := m.name, nodeId := m.nodeId, limiterType := m.limiterType))
  {
    hide Parse;
    var k, g, m0 := ResourceKinds, MergeResource, EMPTY_RESOURCE;
    var m1 := m0.(name := m.name);
    var m2 := m1.(nodeId := m.nodeId);
    var a1 := [] + BytesChunk(1, m.name);
    assert a1 == BytesChunk(1, m.name);
    ConversionsInvert(m.limiterType);
    ParseNothing(k, g, m0);
    AppendBytes(k, g, m0, [], m0, 1, m.name, m1);
    AppendVarint(k, g, m0, a1, m1, 2, m.nodeId, m2);
    AppendVarint(k, g, m0, a1 + VarintChunk(2, m.nodeId), m2, 3, AsUint64(m.limiterType),
                 m2.(limiterType := m.limiterType));
  }

  lemma ResourceStatsRoundTrip(m: Resource<Float64>)
    requires |EncodeResourceScalars(m) + ReqPerSecChunk(4, m.rps)| < TWO_TO_THE_63
    ensures UnmarshalResource(EMPTY_RESOURCE, EncodeResourceScalars(m) + ReqPerSecChunk(4, m.rps))
            == Ok(NormalResource(m).(lastUpdated := None, limiter := NoLimiter))
  {
    hide Parse;
    var k, g, m0 := ResourceKinds, MergeResource, EMPTY_RESOURCE;
    var m3 := m0.(name := m.name, nodeId := m.nodeId, limiterType := m.limiterType);
    var a3 := EncodeResourceScalars(m);
    ResourceScalarsRoundTrip(m);
    if m.rps.None? {
      assert a3 + [] == a3;
    } else {
      ReqPerSecRoundTrip(m.rps.value);
      AppendDelimited(k, g, m0, a3, m3, 4, EncodeReqPerSec(m.rps.value), m3.(rps := NormalResource(m).rps));
    }
  }

  lemma ResourceRoundTrip(m: Resource<Float64>)
    requires |EncodeResource(m)| < TWO_TO_THE_63
    ensures UnmarshalResource(EMPTY_RESOURCE, EncodeResource(m)) == Ok(NormalResource(m))
  {
    hide Parse, EncodeResourceScalars, ReqPerSecChunk, TimestampChunk, EncodeTokenBucket, UnmarshalTokenBucket;
    var k, g, m0 := ResourceKinds, MergeResource, EMPTY_RESOURCE;
    var m4 := NormalResource(m).(lastUpdated := None, limiter := NoLimiter);
    var m5 := NormalResource(m).(limiter := NoLimiter);
    var a4 := EncodeResourceScalars(m) + ReqPerSecChunk(4, m.rps);
    var a5 := a4 + TimestampChunk(5, m.lastUpdated);
    ResourceStatsRoundTrip(m);
    AppendTimestamp(k, g, m0, a4, m4, 5, m.lastUpdated, m5);
    match m.limiter
    case TokenBucket(Some(bucket)) =>
      TokenBucketRoundTrip(bucket);
      AppendDelimited(k, g, m0, a5, m5, 6, EncodeTokenBucket(bucket), NormalResource(m));
    case _ =>
      assert a5 + [] == a5;
  }

  // ---------- Entry ----------

  const EMPTY_ENTRY: Entry<Float64> := Entry([], 0, 0, None)

  function EntryKinds(num: int32): Kind {
    if num == 2 || num == 3 then VarintField
    else if num == 1 || num == 4 then DelimitedField
    else UnknownField
  }

  function MergeEntry(m: Entry<Float64>, f: Field): Result<Entry<Float64>> {
    match f
    case Field(1, Bytes(b)) => Ok(m.(id := b))
    case Field(2, VarintValue(v)) => Ok(m.(action := AsInt32(v)))
    case Field(3, VarintValue(v)) => Ok(m.(srcNodeId := AsUint32(v)))
    case Field(4, Bytes(b)) =>
      var r :- UnmarshalResource(if m.resource.None? then EMPTY_RESOURCE else m.resource.value, b);
      Ok(m.(resource := Some(r)))
    case _ => Ok(m)
  }

  function UnmarshalEntry(m: Entry<Float64>, data: Buffer): Result<Entry<Float64>> {
    Parse(EntryKinds, MergeEntry, m, data, 0)
  }

  function ResourceChunk(num: nat, resource: Option<Resource<Float64>>): seq<byte>
    requires num < 16
  {
    if resource.None? then [] else DelimitedChunk(num, EncodeResource(resource.value))
  }

  function EncodeEntry(m: Entry<Float64>): seq<byte> {
    EncodeEntryScalars(m) + ResourceChunk(4, m.resource)
  }

  /** The first three fields. */
  function EncodeEntryScalars(m: Entry<Float64>): seq<byte> {
    BytesChunk(1, m.id) + VarintChunk(2, AsUint64(m.action)) + VarintChunk(3, m.srcNodeId)
  }

  function NormalEntry(m: Entry<Float64>): Entry<Float64> {
    m.(resource := if m.resource.None? then None else Some(NormalResource(m.resource.value)))
  }

  lemma EntryScalarsRoundTrip(m: Entry<Float64>)
    requires |EncodeEntryScalars(m)| < TWO_TO_THE_63
    ensures UnmarshalEntry(EMPTY_ENTRY, EncodeEntryScalars(m)) == Ok(m.(resource := None))
  {
    hide Parse;
    var k, g, m0 := EntryKinds, MergeEntry, EMPTY_ENTRY;
    var m1 := m0.(id := m.id);
    var m2 := m1.(action := m.action);
    var a1 := [] + BytesChunk(1, m.id);
    assert a1 == BytesChunk(1, m.id);
    ConversionsInvert(m.action);
    ParseNothing(k, g, m0);
    AppendBytes(k, g, m0, [], m0, 1, m.id, m1);
    AppendVarint(k, g, m0, a1, m1, 2, AsUint64(m.action), m2);
    AppendVarint(k, g, m0, a1 + VarintChunk(2, AsUint64(m.action)), m2, 3, m.srcNodeId, m.(resource := None));
  }

  lemma EntryRoundTrip(m: Entry<Float64>)
    requires |EncodeEntry(m)| < TWO_TO_THE_63
    ensures UnmarshalEntry(EMPTY_ENTRY, EncodeEntry(m)) == Ok(NormalEntry(m))
  {
    hide Parse;
    var a3 := EncodeEntryScalars(m);
    EntryScalarsRoundTrip(m);
    if m.resource.None? {
      assert a3 + [] == a3;
    } else {
      ResourceRoundTrip(m.resource.value);
      AppendDelimited(EntryKinds, MergeEntry, EMPTY_ENTRY, a3, m.(resource := None), 4,
                      EncodeResource(m.resource.value), NormalEntry(m));
    }
  }

  // ---------- the numbers of the fields ----------

  /** A number, a word and a run of bytes, each behind its tag. */
  function Numbered(tag: byte, v: uint64): Buffer {
    VarintShort(v);
    [tag] + EncodeVarint(v)
  }

  function Worded(tag: byte, w: Float64): Buffer {
    [tag] + LittleEndian(w, 8)
  }

  function Measured(tag: byte, b: seq<byte>): Buffer
    requires |b| + 11 < TWO_TO_THE_63
  {
    VarintShort(|b|);
    [tag] + EncodeVarint(|b|) + b
  }

  lemma ParseNumbered<M>(kinds: int32 -> Kind, merge: Merge<M>, m: M, num: nat, v: uint64, m': M)
    requires 0 < num < 16 && kinds(num) == VarintField && v != 0 && merge(m, Field(num, VarintValue(v))) == Ok(m')
    ensures Parse(kinds, merge, m, Numbered(num * 8, v), 0) == Ok(m')
  {
    hide Parse;
    VarintShort(v);
    VarintStep(kinds, merge, m, num, v, m');
  }

  lemma ParseWorded<M>(kinds: int32 -> Kind, merge: Merge<M>, m: M, num: nat, w: Float64, m': M)
    requires 0 < num < 16 && kinds(num) == Fixed64Field && !IsZero(w)
    requires merge(m, Field(num, Fixed64Value(w))) == Ok(m')
    ensures Parse(kinds, merge, m, Worded(num * 8 + 1, w), 0) == Ok(m')
  {
    hide Parse;
    Fixed64Step(kinds, merge, m, num, w, m');
  }

  lemma ParseMeasured<M>(kinds: int32 -> Kind, merge: Merge<M>, m: M, num: nat, b: seq<byte>, m': M)
    requires 0 < num < 16 && kinds(num) == DelimitedField && |b| + 11 < TWO_TO_THE_63
    requires merge(m, Field(num, Bytes(b))) == Ok(m')
    ensures Parse(kinds, merge, m, Measured(num * 8 + 2, b), 0) == Ok(m')
  {
    hide Parse;
    VarintShort(|b|);
    DelimitedStep(kinds, merge, m, num, b, m');
  }

  /** The tags of the fields of a token bucket, and what a field sets. */
  lemma TokenBucketFields(m: TokenBucketLimiter<Float64>, w: Float64, v: uint64, b: Buffer, t: Timestamp)
    requires !IsZero(w) && v != 0 && |b| + 11 < TWO_TO_THE_63
    ensures UnmarshalTokenBucket(m, Worded(0x09, w)) == Ok(m.(rate := w))
    ensures UnmarshalTokenBucket(m, Numbered(0x10, v)) == Ok(m.(burst := AsUint32(v)))
    ensures UnmarshalTokenBucket(m, Worded(0x19, w)) == Ok(m.(tokenCount := w))
    ensures UnmarshalTokenBucket(m, Numbered(0x20, v)) == Ok(m.(fillPeriod := AsInt64(v)))
    ensures UnmarshalTimestamp(OrEmpty(m.lastFilled), b) == Ok(t) ==>
              UnmarshalTokenBucket(m, Measured(0x2A, b)) == Ok(m.(lastFilled := Some(t)))
    ensures UnmarshalTimestamp(OrEmpty(m.nextFill), b) == Ok(t) ==>
              UnmarshalTokenBucket(m, Measured(0x32, b)) == Ok(m.(nextFill := Some(t)))
  {
    hide Parse, Numbered, Worded, Measured, AsUint32, AsInt64;
    var k, g := TokenBucketKinds, MergeTokenBucket;
    ParseWorded(k, g, m, 1, w, m.(rate := w));
    ParseNumbered(k, g, m, 2, v, m.(burst := AsUint32(v)));
    ParseWorded(k, g, m, 3, w, m.(tokenCount := w));
    ParseNumbered(k, g, m, 4, v, m.(fillPeriod := AsInt64(v)));
    if UnmarshalTimestamp(OrEmpty(m.lastFilled), b) == Ok(t) {
      ParseMeasured(k, g, m, 5, b, m.(lastFilled := Some(t)));
    }
    if UnmarshalTimestamp(OrEmpty(m.nextFill), b) == Ok(t) {
      ParseMeasured(k, g, m, 6, b, m.(nextFill := Some(t)));
    }
  }

  /** The tags of a resource; its limiter is parsed afresh, its statistics and its time into what is there. */
  lemma ResourceFields(m: Resource<Float64>, v: uint64, b: Buffer, rps: ReqPerSec<Float64>, t: Timestamp,
                       bucket: TokenBucketLimiter<Float64>)
    requires v != 0 && |b| + 11 < TWO_TO_THE_63
    ensures UnmarshalResource(m, Measured(0x0A, b)) == Ok(m.(name := b))
    ensures UnmarshalResource(m, Numbered(0x10, v)) == Ok(m.(nodeId := AsUint32(v)))
    ensures UnmarshalResource(m, Numbered(0x18, v)) == Ok(m.(limiterType := AsInt32(v)))
    ensures UnmarshalReqPerSec(if m.rps.None? then EMPTY_REQ_PER_SEC else m.rps.value, b) == Ok(rps) ==>
              UnmarshalResource(m, Measured(0x22, b)) == Ok(m.(rps := Some(rps)))
    ensures UnmarshalTimestamp(OrEmpty(m.lastUpdated), b) == Ok(t) ==>
              UnmarshalResource(m, Measured(0x2A, b)) == Ok(m.(lastUpdated := Some(t)))
    ensures UnmarshalTokenBucket(EMPTY_TOKEN_BUCKET, b) == Ok(bucket) ==>
              UnmarshalResource(m, Measured(0x32, b)) == Ok(m.(limiter := TokenBucket(Some(bucket))))
  {
    hide Parse, Numbered, Measured, AsUint32, AsInt32, UnmarshalReqPerSec, UnmarshalTokenBucket;
    var k, g := ResourceKinds, MergeResource;
    ParseMeasured(k, g, m, 1, b, m.(name := b));
    ParseNumbered(k, g, m, 2, v, m.(nodeId := AsUint32(v)));
    ParseNumbered(k, g, m, 3, v, m.(limiterType := AsInt32(v)));
    if UnmarshalReqPerSec(if m.rps.None? then EMPTY_REQ_PER_SEC else m.rps.value, b) == Ok(rps) {
      ParseMeasured(k, g, m, 4, b, m.(rps := Some(rps)));
    }
    if UnmarshalTimestamp(OrEmpty(m.lastUpdated), b) == Ok(t) {
      ParseMeasured(k, g, m, 5, b, m.(lastUpdated := Some(t)));
    }
    if UnmarshalTokenBucket(EMPTY_TOKEN_BUCKET, b) == Ok(bucket) {
      ParseMeasured(k, g, m, 6, b, m.(limiter := TokenBucket(Some(bucket))));
    }
  }

  /** The tags of a log entry, and of a snapshot of entries. */
  lemma EntryFields(m: Entry<Float64>, s: EntrySnapshot<Float64>, v: uint64, b: Buffer, r: Resource<Float64>,
                    e: Entry<Float64>)
    requires v != 0 && |b| + 11 < TWO_TO_THE_63
    ensures UnmarshalEntry(m, Measured(0x0A, b)) == Ok(m.(id := b))
    ensures UnmarshalEntry(m, Numbered(0x10, v)) == Ok(m.(action := AsInt32(v)))
    ensures UnmarshalEntry(m, Numbered(0x18, v)) == Ok(m.(srcNodeId := AsUint32(v)))
    ensures UnmarshalResource(if m.resource.None? then EMPTY_RESOURCE else m.resource.value, b) == Ok(r) ==>
              UnmarshalEntry(m, Measured(0x22, b)) == Ok(m.(resource := Some(r)))
    ensures UnmarshalEntry(EMPTY_ENTRY, b) == Ok(e) ==>
              UnmarshalSnapshot(s, Measured(0x0A, b)) == Ok(EntrySnapshot(s.entries + [e]))
  {
    hide Parse, Numbered, Measured, AsUint32, AsInt32, UnmarshalResource;
    var k, g := EntryKinds, MergeEntry;
    ParseMeasured(k, g, m, 1, b, m.(id := b));
    ParseNumbered(k, g, m, 2, v, m.(action := AsInt32(v)));
    ParseNumbered(k, g, m, 3, v, m.(srcNodeId := AsUint32(v)));
    if UnmarshalResource(if m.resource.None? then EMPTY_RESOURCE else m.resource.value, b) == Ok(r) {
      ParseMeasured(k, g, m, 4, b, m.(resource := Some(r)));
    }
    if UnmarshalEntry(EMPTY_ENTRY, b) == Ok(e) {
      ParseMeasured(SnapshotKinds, MergeSnapshot, s, 1, b, EntrySnapshot(s.entries + [e]));
    }
  }

  /** The tags of the statistics and of a timestamp. */
  lemma StatisticsFields(m: ReqPerSec<Float64>, h: ReqPerSecEntry<Float64>, t: Timestamp, w: Float64, v: uint64,
                         b: Buffer, e: ReqPerSecEntry<Float64>, t': Timestamp)
    requires !IsZero(w) && v != 0 && |b| + 11 < TWO_TO_THE_63
    ensures UnmarshalReqPerSec(m, Numbered(0x08, v)) == Ok(m.(reqCount := AsUint32(v)))
    ensures UnmarshalReqPerSecEntry(EMPTY_REQ_PER_SEC_ENTRY, b) == Ok(e) ==>
              UnmarshalReqPerSec(m, Measured(0x12, b)) == Ok(m.(histories := m.histories + [e]))
    ensures UnmarshalReqPerSecEntry(h, Worded(0x09, w)) == Ok(h.(rps := w))
    ensures UnmarshalTimestamp(OrEmpty(h.time), b) == Ok(t') ==>
              UnmarshalReqPerSecEntry(h, Measured(0x12, b)) == Ok(h.(time := Some(t')))
    ensures UnmarshalTimestamp(t, Numbered(0x08, v)) == Ok(t.(seconds := AsInt64(v)))
    ensures UnmarshalTimestamp(t, Numbered(0x10, v)) == Ok(t.(nanos := AsInt32(v)))
  {
    hide Parse, Numbered, Worded, Measured, AsUint32, AsInt32, AsInt64;
    ParseNumbered(ReqPerSecKinds, MergeReqPerSec, m, 1, v, m.(reqCount := AsUint32(v)));
    if UnmarshalReqPerSecEntry(EMPTY_REQ_PER_SEC_ENTRY, b) == Ok(e) {
      ParseMeasured(ReqPerSecKinds, MergeReqPerSec, m, 2, b, m.(histories := m.histories + [e]));
    }
    ParseWorded(ReqPerSecEntryKinds, MergeReqPerSecEntry, h, 1, w, h.(rps := w));
    if UnmarshalTimestamp(OrEmpty(h.time), b) == Ok(t') {
      ParseMeasured(ReqPerSecEntryKinds, MergeReqPerSecEntry, h, 2, b, h.(time := Some(t')));
    }
    ParseNumbered(TimestampKinds, MergeTimestamp, t, 1, v, t.(seconds := AsInt64(v)));
    ParseNumbered(TimestampKinds, MergeTimestamp, t, 2, v, t.(nanos := AsInt32(v)));
  }

  // ---------- the bytes of a message ----------

  /** Fields stand in the order of their numbers, and what is zero, empty or missing is not written. */
  function Unless(absent: bool, s: seq<byte>): seq<byte> {
    if absent then [] else s
  }

  lemma TimestampBytes(m: Timestamp)
    ensures EncodeTimestamp(m) == Unless(m.seconds == 0, Numbered(0x08, AsUint64(m.seconds)))
                                  + Unless(m.nanos == 0, Numbered(0x10, AsUint64(m.nanos)))
  {}

  /** A message of a size that a slice holds, behind its tag. */
  function Nested(tag: byte, e: seq<byte>): seq<byte> {
    [tag] + EncodeVarint(|e|) + e
  }

  function NestedTime(tag: byte, t: Option<Timestamp>): seq<byte> {
    if t.None? then [] else Nested(tag, EncodeTimestamp(t.value))
  }

  lemma StatisticsBytes(m: ReqPerSec<Float64>, e: ReqPerSecEntry<Float64>)
    ensures EncodeReqPerSec(m) == Unless(m.reqCount == 0, Numbered(0x08, m.reqCount)) + EncodeHistories(m.histories)
    ensures m.histories != [] ==>
              EncodeHistories(m.histories)
              == Nested(0x12, EncodeReqPerSecEntry(m.histories[0])) + EncodeHistories(m.histories[1..])
    ensures EncodeReqPerSecEntry(e) == Unless(IsZero(e.rps), Worded(0x09, e.rps)) + NestedTime(0x12, e.time)
  {}

  lemma TokenBucketBytes(m: TokenBucketLimiter<Float64>)
    ensures EncodeTokenBucket(m)
            == Unless(IsZero(m.rate), Worded(0x09, m.rate)) + Unless(m.burst == 0, Numbered(0x10, m.burst))
               + Unless(IsZero(m.tokenCount), Worded(0x19, m.tokenCount))
               + Unless(m.fillPeriod == 0, Numbered(0x20, AsUint64(m.fillPeriod)))
               + NestedTime(0x2A, m.lastFilled) + NestedTime(0x32, m.nextFill)
  {
    hide EncodeTimestamp, EncodeVarint, LittleEndian, AsUint64, VarintChunk, TimestampChunk, Fixed64Chunk;
    ChunkBytes(2, [], m.burst, None);
    ChunkBytes(4, [], AsUint64(m.fillPeriod), None);
    ChunkBytes(5, [], 0, m.lastFilled);
    ChunkBytes(6, [], 0, m.nextFill);
    WordBytes(1, m.rate);
    WordBytes(3, m.tokenCount);
    NumbersOfZero(m.fillPeriod);
  }

  lemma WordBytes(num: nat, w: Float64)
    requires num < 16
    ensures Fixed64Chunk(num, w) == Unless(IsZero(w), Worded(num * 8 + 1, w))
  {}

  lemma ResourceBytes(m: Resource<Float64>)
    ensures EncodeResource(m)
            == Unless(m.name == [], Nested(0x0A, m.name)) + Unless(m.nodeId == 0, Numbered(0x10, m.nodeId))
               + Unless(m.limiterType == 0, Numbered(0x18, AsUint64(m.limiterType)))
               + (if m.rps.None? then [] else Nested(0x22, EncodeReqPerSec(m.rps.value)))
               + NestedTime(0x2A, m.lastUpdated)
               + (if m.limiter.NoLimiter? || m.limiter.message.None? then []
                  else Nested(0x32, EncodeTokenBucket(m.limiter.message.value)))
  {
    hide EncodeTimestamp, EncodeVarint, EncodeTokenBucket, EncodeReqPerSec, AsUint64, BytesChunk, VarintChunk,
      TimestampChunk;
    ChunkBytes(1, m.name, 0, None);
    ChunkBytes(2, [], m.nodeId, None);
    ChunkBytes(3, [], AsUint64(m.limiterType), None);
    ChunkBytes(5, [], 0, m.lastUpdated);
    NumbersOfZero(m.limiterType);
  }

  lemma ChunkBytes(num: nat, b: seq<byte>, v: uint64, t: Option<Timestamp>)
    requires num < 16
    ensures BytesChunk(num, b) == Unless(b == [], Nested(num * 8 + 2, b))
    ensures VarintChunk(num, v) == Unless(v == 0, Numbered(num * 8, v))
    ensures TimestampChunk(num, t) == NestedTime(num * 8 + 2, t)
  {}

  lemma NumbersOfZero(x: int64)
    ensures AsUint64(x) == 0 <==> x == 0
  {}

  lemma EntryBytes(m: Entry<Float64>, es: seq<Entry<Float64>>)
    ensures EncodeEntry(m)
            == Unless(m.id == [], Nested(0x0A, m.id)) + Unless(m.action == 0, Numbered(0x10, AsUint64(m.action)))
               + Unless(m.srcNodeId == 0, Numbered(0x18, m.srcNodeId))
               + (if m.resource.None? then [] else Nested(0x22, EncodeResource(m.resource.value)))
    ensures es != [] ==>
              EncodeSnapshot(EntrySnapshot(es))
              == Nested(0x0A, EncodeEntry(es[0])) + EncodeSnapshot(EntrySnapshot(es[1..]))
  {
    hide EncodeVarint, EncodeResource;
  }

  // ---------- the oneof, twice ----------

  /** A limiter that occurs again replaces the one before, whatever both of them hold. */
  lemma LimiterReplaced(m: Resource<Float64>, a: seq<byte>, b: seq<byte>,
                        first: TokenBucketLimiter<Float64>, second: TokenBucketLimiter<Float64>)
    requires |DelimitedChunk(6, a) + DelimitedChunk(6, b)| < TWO_TO_THE_63
    requires |a| < TWO_TO_THE_63 && UnmarshalTokenBucket(EMPTY_TOKEN_BUCKET, a) == Ok(first)
    requires |b| < TWO_TO_THE_63 && UnmarshalTokenBucket(EMPTY_TOKEN_BUCKET, b) == Ok(second)
    ensures UnmarshalResource(m, DelimitedChunk(6, a) + DelimitedChunk(6, b))
            == Ok(m.(limiter := TokenBucket(Some(second))))
  {
    hide Parse;
    var k, g, m1 := ResourceKinds, MergeResource, m.(limiter := TokenBucket(Some(first)));
    DelimitedStep(k, g, m, 6, a, m1);
    DelimitedStep(k, g, m1, 6, b, m.(limiter := TokenBucket(Some(second))));
    Extend(k, g, m, DelimitedChunk(6, a), m1, DelimitedChunk(6, b), m.(limiter := TokenBucket(Some(second))));
  }

  /** Every field the second bucket does not write is empty in the first. */
  predicate Renews(first: TokenBucketLimiter<Float64>, second: TokenBucketLimiter<Float64>) {
    && (IsZero(second.rate) ==> first.rate == 0)
    && (second.burst == 0 ==> first.burst == 0)
    && (IsZero(second.tokenCount) ==> first.tokenCount == 0)
    && (second.fillPeriod == 0 ==> first.fillPeriod == 0)
    && RenewsTime(first.lastFilled, second.lastFilled)
    && RenewsTime(first.nextFill, second.nextFill)
  }

  predicate RenewsTime(first: Option<Timestamp>, second: Option<Timestamp>) {
    if second.None? then first.None?
    else
      && (second.value.seconds == 0 ==> OrEmpty(first).seconds == 0)
      && (second.value.nanos == 0 ==> OrEmpty(first).nanos == 0)
  }

  /** The specification would have the second limiter merged into the first. Replacing it comes to the same
      exactly if the second leaves nothing of the first. */
  lemma ReplacingIsMergingIff(first: TokenBucketLimiter<Float64>, second: TokenBucketLimiter<Float64>)
    requires |EncodeTokenBucket(second)| < TWO_TO_THE_63
    ensures UnmarshalTokenBucket(first, EncodeTokenBucket(second))
            == UnmarshalTokenBucket(EMPTY_TOKEN_BUCKET, EncodeTokenBucket(second))
            <==> Renews(first, second)
  {
    hide UnmarshalTokenBucket, EncodeTokenBucket;
    TokenBucketOverlays(first, second);
    TokenBucketOverlays(EMPTY_TOKEN_BUCKET, second);
  }

  // ---------- EntrySnapshot ----------

  const EMPTY_SNAPSHOT: EntrySnapshot<Float64> := EntrySnapshot([])

  function SnapshotKinds(num: int32): Kind {
    if num == 1 then DelimitedField else UnknownField
  }

  function MergeSnapshot(m: EntrySnapshot<Float64>, f: Field): Result<EntrySnapshot<Float64>> {
    match f
    case Field(1, Bytes(b)) =>
      var e :- UnmarshalEntry(EMPTY_ENTRY, b);
      Ok(m.(entries := m.entries + [e]))
    case _ => Ok(m)
  }

  function UnmarshalSnapshot(m: EntrySnapshot<Float64>, data: Buffer): Result<EntrySnapshot<Float64>> {
    Parse(SnapshotKinds, MergeSnapshot, m, data, 0)
  }

  function EncodeEntries(es: seq<Entry<Float64>>): seq<byte> {
    if es == [] then [] else DelimitedChunk(1, EncodeEntry(es[0])) + EncodeEntries(es[1..])
  }

  function EncodeSnapshot(m: EntrySnapshot<Float64>): seq<byte> {
    EncodeEntries(m.entries)
  }

  function NormalEntries(es: seq<Entry<Float64>>): seq<Entry<Float64>> {
    if es == [] then [] else [NormalEntry(es[0])] + NormalEntries(es[1..])
  }

  function NormalSnapshot(m: EntrySnapshot<Float64>): EntrySnapshot<Float64> {
    EntrySnapshot(NormalEntries(m.entries))
  }

  lemma {:induction false} EntriesStep(m: EntrySnapshot<Float64>, es: seq<Entry<Float64>>)
    requires |EncodeEntries(es)| < TWO_TO_THE_63
    ensures UnmarshalSnapshot(m, EncodeEntries(es)) == Ok(EntrySnapshot(m.entries + NormalEntries(es)))
    decreases |es|
  {
    if es == [] {
      assert m.entries + [] == m.entries;
    } else {
      var chunk, m1 := EntryStep(m, es);
      EntriesStep(m1, es[1..]);
      EntriesCons(m, chunk, NormalEntry(es[0]), EncodeEntries(es[1..]), NormalEntries(es[1..]));
    }
  }

  lemma EntryStep(m: EntrySnapshot<Float64>, es: seq<Entry<Float64>>)
    returns (chunk: seq<byte>, m': EntrySnapshot<Float64>)
    requires es != [] && |EncodeEntries(es)| < TWO_TO_THE_63
    ensures EncodeEntries(es) == chunk + EncodeEntries(es[1..])
    ensures m' == EntrySnapshot(m.entries + [NormalEntry(es[0])])
    ensures UnmarshalSnapshot(m, chunk) == Ok(m')
  {
    hide Parse;
    var e := EncodeEntry(es[0]);
    chunk := DelimitedChunk(1, e);
    m' := EntrySnapshot(m.entries + [NormalEntry(es[0])]);
    EntryRoundTrip(es[0]);
    DelimitedStep(SnapshotKinds, MergeSnapshot, m, 1, e, m');
  }

  lemma EntriesCons(m: EntrySnapshot<Float64>, chunk: seq<byte>, e: Entry<Float64>,
                    bytes: seq<byte>, rest: seq<Entry<Float64>>)
    requires |chunk + bytes| < TWO_TO_THE_63
    requires UnmarshalSnapshot(m, chunk) == Ok(EntrySnapshot(m.entries + [e]))
    requires UnmarshalSnapshot(EntrySnapshot(m.entries + [e]), bytes) == Ok(EntrySnapshot(m.entries + [e] + rest))
    ensures UnmarshalSnapshot(m, chunk + bytes) == Ok(EntrySnapshot(m.entries + ([e] + rest)))
  {
    hide Parse;
    assert m.entries + [e] + rest == m.entries + ([e] + rest);
    Extend(SnapshotKinds, MergeSnapshot, m, chunk, EntrySnapshot(m.entries + [e]), bytes,
           EntrySnapshot(m.entries + [e] + rest));
  }

  // ---------- what survives the wire ----------

  predicate CanonicalReqPerSec(m: ReqPerSec<Float64>) {
    forall h :: h in m.histories ==> h.rps != NEGATIVE_ZERO
  }

  predicate CanonicalLimiter(limiter: Limiter<Float64>) {
    match limiter
    case NoLimiter => true
    case TokenBucket(None) => false
    case TokenBucket(Some(b)) => b.rate != NEGATIVE_ZERO && b.tokenCount != NEGATIVE_ZERO
  }

  predicate CanonicalEntry(m: Entry<Float64>) {
    m.resource.Some? ==>
      && (m.resource.value.rps.Some? ==> CanonicalReqPerSec(m.resource.value.rps.value))
      && CanonicalLimiter(m.resource.value.limiter)
  }

  lemma {:induction false} NormalHistoriesIffCanonical(hs: seq<ReqPerSecEntry<Float64>>)
    ensures NormalHistories(hs) == hs <==> forall h :: h in hs ==> h.rps != NEGATIVE_ZERO
  {
    if hs != [] {
      NormalHistoriesIffCanonical(hs[1..]);
      assert hs == [hs[0]] + hs[1..];
      var n := NormalHistories(hs);
      assert n[0] == NormalReqPerSecEntry(hs[0]) && n[1..] == NormalHistories(hs[1..]);
      if NormalHistories(hs) == hs {
        assert n[1..] == hs[1..];
      }
    }
  }

  lemma NormalEntryIffCanonical(m: Entry<Float64>)
    ensures NormalEntry(m) == m <==> CanonicalEntry(m)
  {
    if m.resource.Some? && m.resource.value.rps.Some? {
      NormalHistoriesIffCanonical(m.resource.value.rps.value.histories);
    }
  }

  lemma {:induction false} NormalEntriesIffCanonical(es: seq<Entry<Float64>>)
    ensures NormalEntries(es) == es <==> forall e :: e in es ==> CanonicalEntry(e)
  {
    if es != [] {
      NormalEntriesIffCanonical(es[1..]);
      NormalEntryIffCanonical(es[0]);
      assert es == [es[0]] + es[1..];
      var n := NormalEntries(es);
      assert n[0] == NormalEntry(es[0]) && n[1..] == NormalEntries(es[1..]);
      if n == es {
        assert n[1..] == es[1..];
      }
    }
  }

  /** The nested round trip. Every snapshot whose encoding fits a slice is read back, through four
      levels of length-prefixed messages, with negative zeros turned positive and empty oneof
      wrappers dropped; so it is read back unchanged exactly if it holds neither. Enums need not be
      non-negative: they travel sign-extended and are cut to 32 bits again. */
  lemma SnapshotRoundTrip(m: EntrySnapshot<Float64>)
    requires |EncodeSnapshot(m)| < TWO_TO_THE_63
    ensures UnmarshalSnapshot(EMPTY_SNAPSHOT, EncodeSnapshot(m)) == Ok(NormalSnapshot(m))
    ensures UnmarshalSnapshot(EMPTY_SNAPSHOT, EncodeSnapshot(m)) == Ok(m)
            <==> forall e :: e in m.entries ==> CanonicalEntry(e)
  {
    hide Parse;
    EntriesStep(EMPTY_SNAPSHOT, m.entries);
    assert [] + NormalEntries(m.entries) == NormalEntries(m.entries);
    NormalEntriesIffCanonical(m.entries);
  }

  // ---------- CmdHeader and CmdError ----------

  const EMPTY_CMD_HEADER := CmdHeader([])

  function CmdHeaderKinds(num: int32): Kind {
    if num == 1 then DelimitedField else UnknownField
  }

  function MergeCmdHeader(m: CmdHeader, f: Field): Result<CmdHeader> {
    match f
    case Field(1, Bytes(b)) => Ok(CmdHeader(b))
    case _ => Ok(m)
  }

  function UnmarshalCmdHeader(m: CmdHeader, data: Buffer): Result<CmdHeader> {
    Parse(CmdHeaderKinds, MergeCmdHeader, m, data, 0)
  }

  function EncodeCmdHeader(m: CmdHeader): seq<byte> {
    BytesChunk(1, m.cmd)
  }

  lemma CmdHeaderRoundTrip(m: CmdHeader)
    requires |EncodeCmdHeader(m)| < TWO_TO_THE_63
    ensures UnmarshalCmdHeader(EMPTY_CMD_HEADER, EncodeCmdHeader(m)) == Ok(m)
  {
    ParseNothing(CmdHeaderKinds, MergeCmdHeader, EMPTY_CMD_HEADER);
    assert [] + BytesChunk(1, m.cmd) == BytesChunk(1, m.cmd);
    AppendBytes(CmdHeaderKinds, MergeCmdHeader, EMPTY_CMD_HEADER, [], EMPTY_CMD_HEADER, 1, m.cmd, m);
  }

  const EMPTY_CMD_ERROR := CmdError(0, [])

  function CmdErrorKinds(num: int32): Kind {
    if num == 1 then VarintField else if num == 2 then DelimitedField else UnknownField
  }

  function MergeCmdError(m: CmdError, f: Field): Result<CmdError> {
    match f
    case Field(1, VarintValue(v)) => Ok(m.(code := AsInt32(v)))
    case Field(2, Bytes(b)) => Ok(m.(msg := b))
    case _ => Ok(m)
  }

  function UnmarshalCmdError(m: CmdError, data: Buffer): Result<CmdError> {
    Parse(CmdErrorKinds, MergeCmdError, m, data, 0)
  }

  function EncodeCmdError(m: CmdError): seq<byte> {
    VarintChunk(1, AsUint64(m.code)) + BytesChunk(2, m.msg)
  }

  lemma CmdErrorRoundTrip(m: CmdError)
    requires |EncodeCmdError(m)| < TWO_TO_THE_63
    ensures UnmarshalCmdError(EMPTY_CMD_ERROR, EncodeCmdError(m)) == Ok(m)
  {
    hide Parse;
    ConversionsInvert(m.code);
    VarintStep(CmdErrorKinds, MergeCmdError, EMPTY_CMD_ERROR, 1, AsUint64(m.code), CmdError(m.code, []));
    AppendBytes(CmdErrorKinds, MergeCmdError, EMPTY_CMD_ERROR, VarintChunk(1, AsUint64(m.code)),
                CmdError(m.code, []), 2, m.msg, m);
  }

  lemma CommandBytes(h: CmdHeader, e: CmdError)
    ensures EncodeCmdHeader(h) == Unless(h.cmd == [], Nested(0x0A, h.cmd))
    ensures EncodeCmdError(e)
            == Unless(e.code == 0, Numbered(0x08, AsUint64(e.code))) + Unless(e.msg == [], Nested(0x12, e.msg))
  {
    hide EncodeVarint;
  }

  /** The tags of a command's header and of an error. */
  lemma CommandFields(h: CmdHeader, e: CmdError, v: uint64, b: Buffer)
    requires v != 0 && |b| + 11 < TWO_TO_THE_63
    ensures UnmarshalCmdHeader(h, Measured(0x0A, b)) == Ok(CmdHeader(b))
    ensures UnmarshalCmdError(e, Numbered(0x08, v)) == Ok(e.(code := AsInt32(v)))
    ensures UnmarshalCmdError(e, Measured(0x12, b)) == Ok(e.(msg := b))
  {
    hide Parse, Numbered, Measured, AsInt32;
    ParseMeasured(CmdHeaderKinds, MergeCmdHeader, h, 1, b, CmdHeader(b));
    ParseNumbered(CmdErrorKinds, MergeCmdError, e, 1, v, e.(code := AsInt32(v)));
    ParseMeasured(CmdErrorKinds, MergeCmdError, e, 2, b, e.(msg := b));
  }
}
