/** The marshallers: the exact size of a message is computed first, then its fields are written
    backwards from the end of the buffer, submessages before their lengths. */
module Marshal {
  import opened Messages
  import opened Varints
  import opened Wire
  import opened Codec

  // ---------- sizes ----------

  function VarintSize(v: uint64): nat {
    if v == 0 then 0 else 1 + Sov(v)
  }

  function Fixed64Size(w: Float64): nat {
    if IsZero(w) then 0 else 9
  }

  function DelimitedSize(l: nat): nat {
    1 + l + Sov(l)
  }

  function SizeTimestamp(m: Timestamp): nat {
    VarintSize(AsUint64(m.seconds)) + VarintSize(AsUint64(m.nanos))
  }

  function SizeOptionalTimestamp(t: Option<Timestamp>): nat {
    if t.None? then 0 else DelimitedSize(SizeTimestamp(t.value))
  }

  function SizeReqPerSecEntry(m: ReqPerSecEntry<Float64>): nat {
    Fixed64Size(m.rps) + SizeOptionalTimestamp(m.time)
  }

  function SizeHistories(hs: seq<ReqPerSecEntry<Float64>>): nat {
    if hs == [] then 0 else DelimitedSize(SizeReqPerSecEntry(hs[0])) + SizeHistories(hs[1..])
  }

  function SizeReqPerSec(m: ReqPerSec<Float64>): nat {
    VarintSize(m.reqCount) + SizeHistories(m.histories)
  }

  function SizeTokenBucket(m: TokenBucketLimiter<Float64>): nat {
    Fixed64Size(m.rate) + VarintSize(m.burst) + Fixed64Size(m.tokenCount) + VarintSize(AsUint64(m.fillPeriod))
    + SizeOptionalTimestamp(m.lastFilled) + SizeOptionalTimestamp(m.nextFill)
  }

  function SizeLimiter(limiter: Limiter<Float64>): nat {
    match limiter
    case TokenBucket(Some(bucket)) => DelimitedSize(SizeTokenBucket(bucket))
    case _ => 0
  }

  function BytesSize(b: seq<byte>): nat {
    if b == [] then 0 else DelimitedSize(|b|)
  }

  function SizeResource(m: Resource<Float64>): nat {
    BytesSize(m.name) + VarintSize(m.nodeId) + VarintSize(AsUint64(m.limiterType))
    + (if m.rps.None? then 0 else DelimitedSize(SizeReqPerSec(m.rps.value)))
    + SizeOptionalTimestamp(m.lastUpdated) + SizeLimiter(m.limiter)
  }

  function SizeEntry(m: Entry<Float64>): nat {
    BytesSize(m.id) + VarintSize(AsUint64(m.action)) + VarintSize(m.srcNodeId)
    + (if m.resource.None? then 0 else DelimitedSize(SizeResource(m.resource.value)))
  }

  function SizeEntries(es: seq<Entry<Float64>>): nat {
    if es == [] then 0 else DelimitedSize(SizeEntry(es[0])) + SizeEntries(es[1..])
  }

  function SizeSnapshot(m: EntrySnapshot<Float64>): nat {
    SizeEntries(m.entries)
  }

  lemma ChunkSizes(num: nat, v: uint64, w: Float64, b: seq<byte>)
    requires num < 16
    ensures VarintSize(v) == |VarintChunk(num, v)|
    ensures Fixed64Size(w) == |Fixed64Chunk(num, w)|
    ensures DelimitedSize(|b|) == |DelimitedChunk(num, b)|
    ensures BytesSize(b) == |BytesChunk(num, b)|
  {
    SovIsVarintLength(v);
    SovIsVarintLength(|b|);
  }

  lemma TimestampSize(m: Timestamp)
    ensures SizeTimestamp(m) == |EncodeTimestamp(m)|
  {
    ChunkSizes(1, AsUint64(m.seconds), 0, []);
    ChunkSizes(2, AsUint64(m.nanos), 0, []);
  }

  lemma OptionalTimestampSize(num: nat, t: Option<Timestamp>)
    requires num < 16
    ensures SizeOptionalTimestamp(t) == |TimestampChunk(num, t)|
  {
    if t.Some? {
      TimestampSize(t.value);
      ChunkSizes(num, 0, 0, EncodeTimestamp(t.value));
    }
  }

  lemma ReqPerSecEntrySize(m: ReqPerSecEntry<Float64>)
    ensures SizeReqPerSecEntry(m) == |EncodeReqPerSecEntry(m)|
  {
    ChunkSizes(1, 0, m.rps, []);
    OptionalTimestampSize(2, m.time);
  }

  lemma {:induction false} HistoriesSize(hs: seq<ReqPerSecEntry<Float64>>)
    ensures SizeHistories(hs) == |EncodeHistories(hs)|
  {
    if hs != [] {
      ReqPerSecEntrySize(hs[0]);
      ChunkSizes(2, 0, 0, EncodeReqPerSecEntry(hs[0]));
      HistoriesSize(hs[1..]);
    }
  }

  lemma ReqPerSecSize(m: ReqPerSec<Float64>)
    ensures SizeReqPerSec(m) == |EncodeReqPerSec(m)|
  {
    ChunkSizes(1, m.reqCount, 0, []);
    HistoriesSize(m.histories);
  }

  lemma TokenBucketSize(m: TokenBucketLimiter<Float64>)
    ensures SizeTokenBucket(m) == |EncodeTokenBucket(m)|
  {
    ChunkSizes(1, 0, m.rate, []);
    ChunkSizes(2, m.burst, 0, []);
    ChunkSizes(3, 0, m.tokenCount, []);
    ChunkSizes(4, AsUint64(m.fillPeriod), 0, []);
    OptionalTimestampSize(5, m.lastFilled);
    OptionalTimestampSize(6, m.nextFill);
  }

  lemma LimiterSize(num: nat, limiter: Limiter<Float64>)
    requires num < 16
    ensures SizeLimiter(limiter) == |LimiterChunk(num, limiter)|
  {
    if limiter.TokenBucket? && limiter.message.Some? {
      TokenBucketSize(limiter.message.value);
      ChunkSizes(num, 0, 0, EncodeTokenBucket(limiter.message.value));
    }
  }

  lemma ResourceSize(m: Resource<Float64>)
    ensures SizeResource(m) == |EncodeResource(m)|
  {
    ChunkSizes(1, 0, 0, m.name);
    ChunkSizes(2, m.nodeId, 0, []);
    ChunkSizes(3, AsUint64(m.limiterType), 0, []);
    if m.rps.Some? {
      ReqPerSecSize(m.rps.value);
      ChunkSizes(4, 0, 0, EncodeReqPerSec(m.rps.value));
    }
    OptionalTimestampSize(5, m.lastUpdated);
    LimiterSize(6, m.limiter);
  }

  lemma EntrySize(m: Entry<Float64>)
    ensures SizeEntry(m) == |EncodeEntry(m)|
  {
    ChunkSizes(1, 0, 0, m.id);
    ChunkSizes(2, AsUint64(m.action), 0, []);
    ChunkSizes(3, m.srcNodeId, 0, []);
    if m.resource.Some? {
      ResourceSize(m.resource.value);
      ChunkSizes(4, 0, 0, EncodeResource(m.resource.value));
    }
  }

  lemma {:induction false} EntriesSize(es: seq<Entry<Float64>>)
    ensures SizeEntries(es) == |EncodeEntries(es)|
  {
    if es != [] {
      EntrySize(es[0]);
      ChunkSizes(1, 0, 0, EncodeEntry(es[0]));
      EntriesSize(es[1..]);
    }
  }

  /** Size() is the exact length of what the marshaller writes. */
  lemma SnapshotSize(m: EntrySnapshot<Float64>)
    ensures SizeSnapshot(m) == |EncodeSnapshot(m)|
  {
    EntriesSize(m.entries);
  }

  // ---------- writing backwards ----------

  /** `chunk` has been written right in front of position `i`, and nothing else has changed. */
  ghost predicate Wrote(before: seq<byte>, after: seq<byte>, i: nat, chunk: seq<byte>) {
    |chunk| <= i <= |before| && after == before[..i - |chunk|] + chunk + before[i..]
  }

  /** What is written later stands in front. */
  lemma WroteTwice(s0: seq<byte>, s1: seq<byte>, s2: seq<byte>, i: nat, c1: seq<byte>, c2: seq<byte>)
    requires Wrote(s0, s1, i, c1) && |c2| + |c1| <= i
    requires Wrote(s1, s2, i - |c1|, c2)
    ensures Wrote(s0, s2, i, c2 + c1)
  {
    var j := i - |c1|;
    assert s1[j..] == c1 + s0[i..];
    assert s1[..j - |c2|] == s0[..j - |c2|];
    assert s2 == s0[..j - |c2|] + c2 + (c1 + s0[i..]);
    assert s2 == s0[..j - |c2|] + (c2 + c1) + s0[i..];
  }

  lemma WroteWindow(before: seq<byte>, after: seq<byte>, j: nat, i: nat, chunk: seq<byte>)
    requires j + |chunk| == i <= |before| == |after| && after[j..i] == chunk
    requires forall k :: 0 <= k < |before| && (k < j || i <= k) ==> after[k] == before[k]
    ensures Wrote(before, after, i, chunk)
  {
    assert after[..j] == before[..j];
    assert after[i..] == before[i..];
    assert after == after[..j] + after[j..i] + after[i..];
  }

  lemma WroteNothing(s: seq<byte>, i: nat)
    requires i <= |s|
    ensures Wrote(s, s, i, [])
  {
    assert s == s[..i] + [] + s[i..];
  }

  method PutTag(dAtA: array<byte>, i: nat, tag: byte) returns (j: nat)
    requires 1 <= i <= dAtA.Length
    modifies dAtA
    ensures j == i - 1 && Wrote(old(dAtA[..]), dAtA[..], i, [tag])
  {
    j := i - 1;
    dAtA[j] := tag;
    WroteWindow(old(dAtA[..]), dAtA[..], j, i, [tag]);
  }

  method PutVarint(dAtA: array<byte>, i: nat, v: nat) returns (j: nat)
    requires |EncodeVarint(v)| <= i <= dAtA.Length
    modifies dAtA
    ensures j == i - |EncodeVarint(v)| && Wrote(old(dAtA[..]), dAtA[..], i, EncodeVarint(v))
  {
    j := EncodeVarintAt(dAtA, i, v);
    WroteWindow(old(dAtA[..]), dAtA[..], j, i, EncodeVarint(v));
  }

  method PutVarintField(dAtA: array<byte>, i: nat, num: nat, v: uint64) returns (j: nat)
    requires num < 16 && |VarintChunk(num, v)| <= i <= dAtA.Length
    modifies dAtA
    ensures j == i - |VarintChunk(num, v)| && Wrote(old(dAtA[..]), dAtA[..], i, VarintChunk(num, v))
  {
    hide Wrote;
    j := i;
    WroteNothing(dAtA[..], i);
    if v != 0 {
      ghost var s0 := dAtA[..];
      j := PutVarint(dAtA, j, v);
      ghost var s1 := dAtA[..];
      j := PutTag(dAtA, j, num * 8);
      WroteTwice(s0, s1, dAtA[..], i, EncodeVarint(v), [num * 8]);
    }
  }

  method PutFixed64Field(dAtA: array<byte>, i: nat, num: nat, w: Float64) returns (j: nat)
    requires num < 16 && |Fixed64Chunk(num, w)| <= i <= dAtA.Length
    modifies dAtA
    ensures j == i - |Fixed64Chunk(num, w)| && Wrote(old(dAtA[..]), dAtA[..], i, Fixed64Chunk(num, w))
  {
    hide Wrote;
    j := i;
    WroteNothing(dAtA[..], i);
    if !IsZero(w) {
      ghost var s0 := dAtA[..];
      j := j - 8;
      PutLittleEndian(dAtA, j, w, 8);
      ghost var s1 := dAtA[..];
      WroteWindow(s0, s1, j, i, LittleEndian(w, 8));
      j := PutTag(dAtA, j, num * 8 + 1);
      WroteTwice(s0, s1, dAtA[..], i, LittleEndian(w, 8), [num * 8 + 1]);
    }
  }

  /** The length and the tag in front of a payload of `size` bytes. */
  method PutHeader(dAtA: array<byte>, i: nat, num: nat, size: nat) returns (j: nat)
    requires num < 16 && 1 + |EncodeVarint(size)| <= i <= dAtA.Length
    modifies dAtA
    ensures j == i - 1 - |EncodeVarint(size)|
    ensures Wrote(old(dAtA[..]), dAtA[..], i, [num * 8 + 2] + EncodeVarint(size))
  {
    hide Wrote;
    ghost var s0 := dAtA[..];
    j := PutVarint(dAtA, i, size);
    ghost var s1 := dAtA[..];
    j := PutTag(dAtA, j, num * 8 + 2);
    WroteTwice(s0, s1, dAtA[..], i, EncodeVarint(size), [num * 8 + 2]);
  }

  /** A payload that has just been written becomes a field. */
  method CloseField(dAtA: array<byte>, i: nat, top: nat, num: nat, ghost before: seq<byte>, ghost payload: seq<byte>)
    returns (j: nat)
    requires num < 16 && |DelimitedChunk(num, payload)| <= top <= dAtA.Length == |before|
    requires i == top - |payload| && Wrote(before, dAtA[..], top, payload)
    modifies dAtA
    ensures j == top - |DelimitedChunk(num, payload)|
    ensures Wrote(before, dAtA[..], top, DelimitedChunk(num, payload))
  {
    hide Wrote;
    ghost var s1 := dAtA[..];
    j := PutHeader(dAtA, i, num, top - i);
    WroteTwice(before, s1, dAtA[..], top, payload, [num * 8 + 2] + EncodeVarint(|payload|));
  }

  method PutBytesField(dAtA: array<byte>, i: nat, num: nat, b: seq<byte>) returns (j: nat)
    requires num < 16 && |BytesChunk(num, b)| <= i <= dAtA.Length
    modifies dAtA
    ensures j == i - |BytesChunk(num, b)| && Wrote(old(dAtA[..]), dAtA[..], i, BytesChunk(num, b))
  {
    hide Wrote;
    j := i;
    WroteNothing(dAtA[..], i);
    if b != [] {
      ghost var s0 := dAtA[..];
      j := j - |b|;
      CopyBytes(dAtA, j, b);
      WroteWindow(s0, dAtA[..], j, i, b);
      j := CloseField(dAtA, j, i, num, s0, b);
    }
  }

  method CopyBytes(dAtA: array<byte>, offset: nat, b: seq<byte>)
    requires offset + |b| <= dAtA.Length
    modifies dAtA
    ensures dAtA[offset..offset + |b|] == b
    ensures Untouched(dAtA, offset, offset + |b|)
  {
    for k := 0 to |b|
      invariant dAtA[offset..offset + k] == b[..k]
      invariant Untouched(dAtA, offset, offset + |b|)
    {
      dAtA[offset + k] := b[k];
      assert b[..k + 1] == b[..k] + [b[k]];
    }
  }

  method MarshalTimestamp(m: Timestamp, dAtA: array<byte>, i: nat) returns (j: nat)
    requires |EncodeTimestamp(m)| <= i <= dAtA.Length
    modifies dAtA
    ensures j == i - |EncodeTimestamp(m)| && Wrote(old(dAtA[..]), dAtA[..], i, EncodeTimestamp(m))
  {
    hide Wrote;
    ghost var s0 := dAtA[..];
    j := PutVarintField(dAtA, i, 2, AsUint64(m.nanos));
    ghost var s1 := dAtA[..];
    j := PutVarintField(dAtA, j, 1, AsUint64(m.seconds));
    WroteTwice(s0, s1, dAtA[..], i, VarintChunk(2, AsUint64(m.nanos)), VarintChunk(1, AsUint64(m.seconds)));
    assert VarintChunk(1, AsUint64(m.seconds)) + VarintChunk(2, AsUint64(m.nanos)) == EncodeTimestamp(m);
  }

  method PutTimestampField(dAtA: array<byte>, i: nat, num: nat, t: Option<Timestamp>) returns (j: nat)
    requires num < 16 && |TimestampChunk(num, t)| <= i <= dAtA.Length
    modifies dAtA
    ensures j == i - |TimestampChunk(num, t)| && Wrote(old(dAtA[..]), dAtA[..], i, TimestampChunk(num, t))
  {
    hide Wrote;
    j := i;
    WroteNothing(dAtA[..], i);
    if t.Some? {
      ghost var s0 := dAtA[..];
      j := MarshalTimestamp(t.value, dAtA, j);
      j := CloseField(dAtA, j, i, num, s0, EncodeTimestamp(t.value));
    }
  }

  method MarshalReqPerSecEntry(m: ReqPerSecEntry<Float64>, dAtA: array<byte>, i: nat) returns (j: nat)
    requires |EncodeReqPerSecEntry(m)| <= i <= dAtA.Length
    modifies dAtA
    ensures j == i - |EncodeReqPerSecEntry(m)| && Wrote(old(dAtA[..]), dAtA[..], i, EncodeReqPerSecEntry(m))
  {
    hide Wrote, Fixed64Chunk, TimestampChunk;
    ghost var s0 := dAtA[..];
    j := PutTimestampField(dAtA, i, 2, m.time);
    ghost var s1 := dAtA[..];
    j := PutFixed64Field(dAtA, j, 1, m.rps);
    WroteTwice(s0, s1, dAtA[..], i, TimestampChunk(2, m.time), Fixed64Chunk(1, m.rps));
    assert Fixed64Chunk(1, m.rps) + TimestampChunk(2, m.time) == EncodeReqPerSecEntry(m);
  }

  /** Repeated fields are written from the last to the first. */
  method MarshalReqPerSec(m: ReqPerSec<Float64>, dAtA: array<byte>, i: nat) returns (j: nat)
    requires |EncodeReqPerSec(m)| <= i <= dAtA.Length
    modifies dAtA
    ensures j == i - |EncodeReqPerSec(m)| && Wrote(old(dAtA[..]), dAtA[..], i, EncodeReqPerSec(m))
  {
    hide Wrote, EncodeHistories, VarintChunk;
    ghost var s0 := dAtA[..];
    assert |EncodeReqPerSec(m)| == |VarintChunk(1, m.reqCount)| + |EncodeHistories(m.histories)|;
    j := MarshalHistories(m.histories, dAtA, i);
    ghost var s1 := dAtA[..];
    j := PutVarintField(dAtA, j, 1, m.reqCount);
    WroteTwice(s0, s1, dAtA[..], i, EncodeHistories(m.histories), VarintChunk(1, m.reqCount));
  }

  method MarshalHistories(hs: seq<ReqPerSecEntry<Float64>>, dAtA: array<byte>, i: nat) returns (j: nat)
    requires |EncodeHistories(hs)| <= i <= dAtA.Length
    modifies dAtA
    ensures j == i - |EncodeHistories(hs)| && Wrote(old(dAtA[..]), dAtA[..], i, EncodeHistories(hs))
  {
    hide Wrote, EncodeReqPerSecEntry, DelimitedChunk;
    j := i;
    WroteNothing(dAtA[..], i);
    var iNdEx := |hs|;
    assert hs[iNdEx..] == [];
    while 0 < iNdEx
      invariant 0 <= iNdEx <= |hs|
      invariant |EncodeHistories(hs[iNdEx..])| <= |EncodeHistories(hs)| && j == i - |EncodeHistories(hs[iNdEx..])|
      invariant Wrote(old(dAtA[..]), dAtA[..], i, EncodeHistories(hs[iNdEx..]))
    {
      iNdEx := iNdEx - 1;
      HistoriesSplit(hs, iNdEx);
      ghost var s1 := dAtA[..];
      var top := j;
      j := MarshalReqPerSecEntry(hs[iNdEx], dAtA, j);
      j := CloseField(dAtA, j, top, 2, s1, EncodeReqPerSecEntry(hs[iNdEx]));
      WroteTwice(old(dAtA[..]), s1, dAtA[..], i, EncodeHistories(hs[iNdEx + 1..]),
                 DelimitedChunk(2, EncodeReqPerSecEntry(hs[iNdEx])));
    }
    assert hs[0..] == hs;
  }

  lemma {:induction false} HistoriesAppend(xs: seq<ReqPerSecEntry<Float64>>, ys: seq<ReqPerSecEntry<Float64>>)
    ensures EncodeHistories(xs + ys) == EncodeHistories(xs) + EncodeHistories(ys)
  {
    if xs == [] {
      assert xs + ys == ys;
    } else {
      assert (xs + ys)[1..] == xs[1..] + ys;
      HistoriesAppend(xs[1..], ys);
    }
  }

  lemma HistoriesSplit(hs: seq<ReqPerSecEntry<Float64>>, k: nat)
    requires k < |hs|
    ensures EncodeHistories(hs[k..]) == DelimitedChunk(2, EncodeReqPerSecEntry(hs[k])) + EncodeHistories(hs[k + 1..])
    ensures |EncodeHistories(hs[k..])| <= |EncodeHistories(hs)|
  {
    assert hs[k..][1..] == hs[k + 1..];
    assert hs == hs[..k] + hs[k..];
    HistoriesAppend(hs[..k], hs[k..]);
  }

  method MarshalTokenBucket(m: TokenBucketLimiter<Float64>, dAtA: array<byte>, i: nat) returns (j: nat)
    requires |EncodeTokenBucket(m)| <= i <= dAtA.Length
    modifies dAtA
    ensures j == i - |EncodeTokenBucket(m)| && Wrote(old(dAtA[..]), dAtA[..], i, EncodeTokenBucket(m))
  {
    hide Wrote, TimestampChunk, EncodeTokenBucketCounts;
    ghost var s0 := dAtA[..];
    j := PutTimestampField(dAtA, i, 6, m.nextFill);
    ghost var s1 := dAtA[..];
    j := PutTimestampField(dAtA, j, 5, m.lastFilled);
    WroteTwice(s0, s1, dAtA[..], i, TimestampChunk(6, m.nextFill), TimestampChunk(5, m.lastFilled));
    ghost var s2 := dAtA[..];
    j := MarshalTokenBucketCounts(m, dAtA, j);
    WroteTwice(s0, s2, dAtA[..], i, TimestampChunk(5, m.lastFilled) + TimestampChunk(6, m.nextFill),
               EncodeTokenBucketCounts(m));
    assert EncodeTokenBucketCounts(m) + (TimestampChunk(5, m.lastFilled) + TimestampChunk(6, m.nextFill))
        == EncodeTokenBucket(m);
  }

  method MarshalTokenBucketCounts(m: TokenBucketLimiter<Float64>, dAtA: array<byte>, i: nat) returns (j: nat)
    requires |EncodeTokenBucketCounts(m)| <= i <= dAtA.Length
    modifies dAtA
    ensures j == i - |EncodeTokenBucketCounts(m)| && Wrote(old(dAtA[..]), dAtA[..], i, EncodeTokenBucketCounts(m))
  {
    hide Wrote, VarintChunk, Fixed64Chunk, EncodeTokenBucketLimits;
    ghost var s0 := dAtA[..];
    j := PutVarintField(dAtA, i, 4, AsUint64(m.fillPeriod));
    ghost var s1 := dAtA[..];
    j := PutFixed64Field(dAtA, j, 3, m.tokenCount);
    WroteTwice(s0, s1, dAtA[..], i, VarintChunk(4, AsUint64(m.fillPeriod)), Fixed64Chunk(3, m.tokenCount));
    ghost var s2 := dAtA[..];
    j := MarshalTokenBucketLimits(m, dAtA, j);
    WroteTwice(s0, s2, dAtA[..], i, Fixed64Chunk(3, m.tokenCount) + VarintChunk(4, AsUint64(m.fillPeriod)),
               EncodeTokenBucketLimits(m));
    assert EncodeTokenBucketLimits(m) + (Fixed64Chunk(3, m.tokenCount) + VarintChunk(4, AsUint64(m.fillPeriod)))
        == EncodeTokenBucketCounts(m);
  }

  method MarshalTokenBucketLimits(m: TokenBucketLimiter<Float64>, dAtA: array<byte>, i: nat) returns (j: nat)
    requires |EncodeTokenBucketLimits(m)| <= i <= dAtA.Length
    modifies dAtA
    ensures j == i - |EncodeTokenBucketLimits(m)| && Wrote(old(dAtA[..]), dAtA[..], i, EncodeTokenBucketLimits(m))
  {
    hide Wrote, Fixed64Chunk, VarintChunk;
    ghost var s0 := dAtA[..];
    j := PutVarintField(dAtA, i, 2, m.burst);
    ghost var s1 := dAtA[..];
    j := PutFixed64Field(dAtA, j, 1, m.rate);
    WroteTwice(s0, s1, dAtA[..], i, VarintChunk(2, m.burst), Fixed64Chunk(1, m.rate));
    assert Fixed64Chunk(1, m.rate) + VarintChunk(2, m.burst) == EncodeTokenBucketLimits(m);
  }

  /** The oneof is given its place first, from its size, and then fills it up. */
  method PutLimiterField(dAtA: array<byte>, i: nat, num: nat, limiter: Limiter<Float64>) returns (j: nat)
    requires num < 16 && |LimiterChunk(num, limiter)| <= i <= dAtA.Length
    modifies dAtA
    ensures j == i - |LimiterChunk(num, limiter)| && Wrote(old(dAtA[..]), dAtA[..], i, LimiterChunk(num, limiter))
  {
    hide Wrote;
    LimiterSize(num, limiter);
    j := i;
    WroteNothing(dAtA[..], i);
    if limiter.TokenBucket? {
      var size := SizeLimiter(limiter);
      j := j - size;
      var start := MarshalLimiter(dAtA, j + size, num, limiter);
      assert start == j;
    }
  }

  method MarshalLimiter(dAtA: array<byte>, i: nat, num: nat, limiter: Limiter<Float64>) returns (j: nat)
    requires num < 16 && limiter.TokenBucket? && |LimiterChunk(num, limiter)| <= i <= dAtA.Length
    modifies dAtA
    ensures j == i - |LimiterChunk(num, limiter)| && Wrote(old(dAtA[..]), dAtA[..], i, LimiterChunk(num, limiter))
  {
    hide Wrote;
    j := i;
    WroteNothing(dAtA[..], i);
    if limiter.message.Some? {
      ghost var s0 := dAtA[..];
      j := MarshalTokenBucket(limiter.message.value, dAtA, j);
      j := CloseField(dAtA, j, i, num, s0, EncodeTokenBucket(limiter.message.value));
    }
  }

  method PutReqPerSecField(dAtA: array<byte>, i: nat, num: nat, rps: Option<ReqPerSec<Float64>>) returns (j: nat)
    requires num < 16 && |ReqPerSecChunk(num, rps)| <= i <= dAtA.Length
    modifies dAtA
    ensures j == i - |ReqPerSecChunk(num, rps)| && Wrote(old(dAtA[..]), dAtA[..], i, ReqPerSecChunk(num, rps))
  {
    hide Wrote;
    j := i;
    WroteNothing(dAtA[..], i);
    if rps.Some? {
      ghost var s0 := dAtA[..];
      j := MarshalReqPerSec(rps.value, dAtA, j);
      j := CloseField(dAtA, j, i, num, s0, EncodeReqPerSec(rps.value));
    }
  }

  method MarshalResource(m: Resource<Float64>, dAtA: array<byte>, i: nat) returns (j: nat)
    requires |EncodeResource(m)| <= i <= dAtA.Length
    modifies dAtA
    ensures j == i - |EncodeResource(m)| && Wrote(old(dAtA[..]), dAtA[..], i, EncodeResource(m))
  {
    hide Wrote, LimiterChunk, TimestampChunk, ReqPerSecChunk, EncodeResourceScalars;
    ghost var s0 := dAtA[..];
    j := PutLimiterField(dAtA, i, 6, m.limiter);
    ghost var s1 := dAtA[..];
    j := PutTimestampField(dAtA, j, 5, m.lastUpdated);
    WroteTwice(s0, s1, dAtA[..], i, LimiterChunk(6, m.limiter), TimestampChunk(5, m.lastUpdated));
    ghost var s2 := dAtA[..];
    j := PutReqPerSecField(dAtA, j, 4, m.rps);
    WroteTwice(s0, s2, dAtA[..], i, TimestampChunk(5, m.lastUpdated) + LimiterChunk(6, m.limiter),
               ReqPerSecChunk(4, m.rps));
    ghost var s3 := dAtA[..];
    j := MarshalResourceScalars(m, dAtA, j);
    WroteTwice(s0, s3, dAtA[..], i,
               ReqPerSecChunk(4, m.rps) + (TimestampChunk(5, m.lastUpdated) + LimiterChunk(6, m.limiter)),
               EncodeResourceScalars(m));
    ResourceParts(m);
  }

  lemma ResourceParts(m: Resource<Float64>)
    ensures EncodeResourceScalars(m)
            + (ReqPerSecChunk(4, m.rps) + (TimestampChunk(5, m.lastUpdated) + LimiterChunk(6, m.limiter)))
            == EncodeResource(m)
  {
    hide LimiterChunk, TimestampChunk, ReqPerSecChunk, EncodeResourceScalars;
  }

  method MarshalResourceScalars(m: Resource<Float64>, dAtA: array<byte>, i: nat) returns (j: nat)
    requires |EncodeResourceScalars(m)| <= i <= dAtA.Length
    modifies dAtA
    ensures j == i - |EncodeResourceScalars(m)| && Wrote(old(dAtA[..]), dAtA[..], i, EncodeResourceScalars(m))
  {
    hide Wrote, VarintChunk, BytesChunk;
    ghost var s0 := dAtA[..];
    j := PutVarintField(dAtA, i, 3, AsUint64(m.limiterType));
    ghost var s1 := dAtA[..];
    j := PutVarintField(dAtA, j, 2, m.nodeId);
    WroteTwice(s0, s1, dAtA[..], i, VarintChunk(3, AsUint64(m.limiterType)), VarintChunk(2, m.nodeId));
    ghost var s2 := dAtA[..];
    j := PutBytesField(dAtA, j, 1, m.name);
    WroteTwice(s0, s2, dAtA[..], i, VarintChunk(2, m.nodeId) + VarintChunk(3, AsUint64(m.limiterType)),
               BytesChunk(1, m.name));
    assert BytesChunk(1, m.name) + (VarintChunk(2, m.nodeId) + VarintChunk(3, AsUint64(m.limiterType)))
        == EncodeResourceScalars(m);
  }

  method PutResourceField(dAtA: array<byte>, i: nat, num: nat, resource: Option<Resource<Float64>>) returns (j: nat)
    requires num < 16 && |ResourceChunk(num, resource)| <= i <= dAtA.Length
    modifies dAtA
    ensures j == i - |ResourceChunk(num, resource)| && Wrote(old(dAtA[..]), dAtA[..], i, ResourceChunk(num, resource))
  {
    hide Wrote;
    j := i;
    WroteNothing(dAtA[..], i);
    if resource.Some? {
      ghost var s0 := dAtA[..];
      j := MarshalResource(resource.value, dAtA, j);
      j := CloseField(dAtA, j, i, num, s0, EncodeResource(resource.value));
    }
  }

  method MarshalEntry(m: Entry<Float64>, dAtA: array<byte>, i: nat) returns (j: nat)
    requires |EncodeEntry(m)| <= i <= dAtA.Length
    modifies dAtA
    ensures j == i - |EncodeEntry(m)| && Wrote(old(dAtA[..]), dAtA[..], i, EncodeEntry(m))
  {
    hide Wrote, ResourceChunk, EncodeEntryScalars;
    ghost var s0 := dAtA[..];
    j := PutResourceField(dAtA, i, 4, m.resource);
    ghost var s1 := dAtA[..];
    j := MarshalEntryScalars(m, dAtA, j);
    WroteTwice(s0, s1, dAtA[..], i, ResourceChunk(4, m.resource), EncodeEntryScalars(m));
    assert EncodeEntryScalars(m) + ResourceChunk(4, m.resource) == EncodeEntry(m);
  }

  method MarshalEntryScalars(m: Entry<Float64>, dAtA: array<byte>, i: nat) returns (j: nat)
    requires |EncodeEntryScalars(m)| <= i <= dAtA.Length
    modifies dAtA
    ensures j == i - |EncodeEntryScalars(m)| && Wrote(old(dAtA[..]), dAtA[..], i, EncodeEntryScalars(m))
  {
    hide Wrote, VarintChunk, BytesChunk;
    ghost var s0 := dAtA[..];
    j := PutVarintField(dAtA, i, 3, m.srcNodeId);
    ghost var s1 := dAtA[..];
    j := PutVarintField(dAtA, j, 2, AsUint64(m.action));
    WroteTwice(s0, s1, dAtA[..], i, VarintChunk(3, m.srcNodeId), VarintChunk(2, AsUint64(m.action)));
    ghost var s2 := dAtA[..];
    j := PutBytesField(dAtA, j, 1, m.id);
    WroteTwice(s0, s2, dAtA[..], i, VarintChunk(2, AsUint64(m.action)) + VarintChunk(3, m.srcNodeId),
               BytesChunk(1, m.id));
    assert BytesChunk(1, m.id) + (VarintChunk(2, AsUint64(m.action)) + VarintChunk(3, m.srcNodeId))
        == EncodeEntryScalars(m);
  }

  method MarshalEntries(es: seq<Entry<Float64>>, dAtA: array<byte>, i: nat) returns (j: nat)
    requires |EncodeEntries(es)| <= i <= dAtA.Length
    modifies dAtA
    ensures j == i - |EncodeEntries(es)| && Wrote(old(dAtA[..]), dAtA[..], i, EncodeEntries(es))
  {
    hide Wrote, EncodeEntry, DelimitedChunk;
    j := i;
    WroteNothing(dAtA[..], i);
    var iNdEx := |es|;
    assert es[iNdEx..] == [];
    while 0 < iNdEx
      invariant 0 <= iNdEx <= |es|
      invariant |EncodeEntries(es[iNdEx..])| <= |EncodeEntries(es)| && j == i - |EncodeEntries(es[iNdEx..])|
      invariant Wrote(old(dAtA[..]), dAtA[..], i, EncodeEntries(es[iNdEx..]))
    {
      iNdEx := iNdEx - 1;
      EntriesSplit(es, iNdEx);
      ghost var s1 := dAtA[..];
      var top := j;
      j := MarshalEntry(es[iNdEx], dAtA, j);
      j := CloseField(dAtA, j, top, 1, s1, EncodeEntry(es[iNdEx]));
      WroteTwice(old(dAtA[..]), s1, dAtA[..], i, EncodeEntries(es[iNdEx + 1..]),
                 DelimitedChunk(1, EncodeEntry(es[iNdEx])));
    }
    assert es[0..] == es;
  }

  lemma {:induction false} EntriesAppend(xs: seq<Entry<Float64>>, ys: seq<Entry<Float64>>)
    ensures EncodeEntries(xs + ys) == EncodeEntries(xs) + EncodeEntries(ys)
  {
    if xs == [] {
      assert xs + ys == ys;
    } else {
      assert (xs + ys)[1..] == xs[1..] + ys;
      EntriesAppend(xs[1..], ys);
    }
  }

  lemma EntriesSplit(es: seq<Entry<Float64>>, k: nat)
    requires k < |es|
    ensures EncodeEntries(es[k..]) == DelimitedChunk(1, EncodeEntry(es[k])) + EncodeEntries(es[k + 1..])
    ensures |EncodeEntries(es[k..])| <= |EncodeEntries(es)|
  {
    assert es[k..][1..] == es[k + 1..];
    assert es == es[..k] + es[k..];
    EntriesAppend(es[..k], es[k..]);
  }

  // ---------- whole messages ----------

  /** A buffer of the exact size has been filled from its end to its beginning. */
  lemma WroteAll(before: seq<byte>, after: seq<byte>, chunk: seq<byte>)
    requires |chunk| == |before| && Wrote(before, after, |before|, chunk)
    ensures after == chunk
  {
    assert before[..0] + chunk + before[|before|..] == chunk;
  }

  method MarshalSnapshot(m: EntrySnapshot<Float64>) returns (dAtA: array<byte>)
    ensures fresh(dAtA) && dAtA.Length == SizeSnapshot(m)
    ensures dAtA[..] == EncodeSnapshot(m)
  {
    SnapshotSize(m);
    var size := SizeSnapshot(m);
    dAtA := new byte[size](_ => 0);
    ghost var s0 := dAtA[..];
    var j := MarshalEntries(m.entries, dAtA, size);
    WroteAll(s0, dAtA[..], EncodeSnapshot(m));
  }

  method MarshalEntryMessage(m: Entry<Float64>) returns (dAtA: array<byte>)
    ensures fresh(dAtA) && dAtA.Length == SizeEntry(m)
    ensures dAtA[..] == EncodeEntry(m)
  {
    EntrySize(m);
    var size := SizeEntry(m);
    dAtA := new byte[size](_ => 0);
    ghost var s0 := dAtA[..];
    var j := MarshalEntry(m, dAtA, size);
    WroteAll(s0, dAtA[..], EncodeEntry(m));
  }

  method MarshalCmdHeader(m: CmdHeader) returns (dAtA: array<byte>)
    ensures fresh(dAtA) && dAtA[..] == EncodeCmdHeader(m)
  {
    ChunkSizes(1, 0, 0, m.cmd);
    var size := BytesSize(m.cmd);
    dAtA := new byte[size](_ => 0);
    ghost var s0 := dAtA[..];
    var j := PutBytesField(dAtA, size, 1, m.cmd);
    WroteAll(s0, dAtA[..], EncodeCmdHeader(m));
  }

  /** From message to bytes and back with the real loops: a snapshot comes back as it was, unless it
      holds a negative zero or an empty oneof wrapper. */
  method WriteAndRead(m: EntrySnapshot<Float64>) returns (r: Result<EntrySnapshot<Float64>>)
    requires SizeSnapshot(m) < TWO_TO_THE_63
    ensures r == Ok(NormalSnapshot(m))
    ensures r == Ok(m) <==> forall e :: e in m.entries ==> CanonicalEntry(e)
  {
    SnapshotSize(m);
    SnapshotRoundTrip(m);
    var dAtA := MarshalSnapshot(m);
    r := Unmarshal(SnapshotKinds, MergeSnapshot, EMPTY_SNAPSHOT, dAtA[..]);
  }
}
