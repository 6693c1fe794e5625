/** A snapshot on its way through the bytes: the server's numbers are written as eight-byte words,
    marshalled, unmarshalled, read back and restored. */
module Snapshots {
  import opened Messages
  import opened ManagerState
  import Codec

  type Float64 = Codec.Float64

  /** How the machine writes a number as a word and reads it back. */
  datatype FloatView = FloatView(bits: real -> Float64, value: Float64 -> real)

  /** The number has a word of its own. */
  predicate Exact(v: FloatView, x: real) {
    v.value(v.bits(x)) == x
  }

  /** The numbers of every stored limiter have. */
  predicate AllExact(v: FloatView, store: map<Name, Stored>) {
    forall k :: k in store ==> Exact(v, store[k].bucket.rate) && Exact(v, store[k].bucket.tokenCount)
  }

  predicate Written(v: FloatView, x: real) {
    v.bits(x) != Codec.NEGATIVE_ZERO
  }

  /** A real zero is written as the positive one. */
  ghost predicate OneZero(v: FloatView) {
    forall x :: Written(v, x)
  }

  // ---------- messages with other floats in them ----------

  function MapHistories<A, B>(f: A -> B, hs: seq<ReqPerSecEntry<A>>): seq<ReqPerSecEntry<B>> {
    seq(|hs|, i requires 0 <= i < |hs| => ReqPerSecEntry(f(hs[i].rps), hs[i].time))
  }

  function MapRps<A, B>(f: A -> B, m: Option<ReqPerSec<A>>): Option<ReqPerSec<B>> {
    if m.None? then None else Some(ReqPerSec(m.value.reqCount, MapHistories(f, m.value.histories)))
  }

  function MapBucket<A, B>(f: A -> B, m: TokenBucketLimiter<A>): TokenBucketLimiter<B> {
    TokenBucketLimiter(f(m.rate), m.burst, f(m.tokenCount), m.fillPeriod, m.lastFilled, m.nextFill)
  }

  function MapLimiter<A, B>(f: A -> B, m: Limiter<A>): Limiter<B> {
    match m
    case NoLimiter => NoLimiter
    case TokenBucket(None) => TokenBucket(None)
    case TokenBucket(Some(b)) => TokenBucket(Some(MapBucket(f, b)))
  }

  function MapResource<A, B>(f: A -> B, m: Resource<A>): Resource<B> {
    Resource(m.name, m.nodeId, m.limiterType, MapRps(f, m.rps), m.lastUpdated, MapLimiter(f, m.limiter))
  }

  function MapEntry<A, B>(f: A -> B, m: Entry<A>): Entry<B> {
    Entry(m.id, m.action, m.srcNodeId, if m.resource.None? then None else Some(MapResource(f, m.resource.value)))
  }

  function MapEntries<A, B>(f: A -> B, es: seq<Entry<A>>): seq<Entry<B>> {
    seq(|es|, i requires 0 <= i < |es| => MapEntry(f, es[i]))
  }

  // ---------- what is written and what is made of it ----------

  function SnapshotBytes(v: FloatView, entries: seq<LogEntry>): seq<byte> {
    Codec.EncodeSnapshot(EntrySnapshot(MapEntries(v.bits, entries)))
  }

  /** Restoring from bytes: a snapshot that cannot be decoded changes nothing. */
  function RestoreBytes(v: FloatView, s: State, data: Buffer): (State, RestoreOutcome) {
    var r := Codec.UnmarshalSnapshot(Codec.EMPTY_SNAPSHOT, data);
    if r.Ok? then RestoreAll(s, MapEntries(v.value, r.value.entries)) else (s, Undecodable)
  }

  function EntryBytes(v: FloatView, e: LogEntry): seq<byte> {
    Codec.EncodeEntry(MapEntry(v.bits, e))
  }

  /** Applying bytes: an entry that cannot be decoded is ignored. */
  function ApplyBytes(v: FloatView, s: State, data: Buffer): (State, Outcome) {
    var r := Codec.UnmarshalEntry(Codec.EMPTY_ENTRY, data);
    if r.Ok? then Apply(s, MapEntry(v.value, r.value)) else (s, Ignored)
  }

  // ---------- there and back ----------

  lemma HistoriesCanonical(v: FloatView, m: ReqPerSec<real>)
    requires OneZero(v)
    ensures Codec.CanonicalReqPerSec(MapRps(v.bits, Some(m)).value)
  {
    var hs := MapHistories(v.bits, m.histories);
    forall h | h in hs
      ensures h.rps != Codec.NEGATIVE_ZERO
    {
      var i :| 0 <= i < |hs| && hs[i] == h;
      assert Written(v, m.histories[i].rps);
    }
  }

  /** What the server writes survives the wire as it is. */
  lemma WrittenEntryIsCanonical(v: FloatView, e: LogEntry, name: Name, r: Stored)
    requires OneZero(v) && SnapshotEntry(e, name, r)
    ensures Codec.CanonicalEntry(MapEntry(v.bits, e))
  {
    HistoriesCanonical(v, e.resource.value.rps.value);
    assert Written(v, r.bucket.rate) && Written(v, r.bucket.tokenCount);
  }

  lemma EntryThereAndBack(v: FloatView, e: LogEntry, name: Name, r: Stored)
    requires SnapshotEntry(e, name, r) && Exact(v, r.bucket.rate) && Exact(v, r.bucket.tokenCount)
    ensures SnapshotEntry(MapEntry(v.value, MapEntry(v.bits, e)), name, r)
  {
    hide MapHistories, Representable;
    var m, m' := e.resource.value, MapEntry(v.value, MapEntry(v.bits, e)).resource.value;
    assert m'.limiter == m.limiter;
  }

  /** The whole way: taking a snapshot in any order, writing it, reading it and restoring it into a
      fresh manager gives the same names, nodes, limiter states and update times, and an exact index. */
  lemma SnapshotThroughBytes(v: FloatView, store: map<Name, Stored>, order: seq<Name>, entries: seq<LogEntry>)
    requires OneZero(v) && SnapshotOf(store, order, entries)
    requires AllExact(v, store)
    requires |SnapshotBytes(v, entries)| < TWO_TO_THE_63
    ensures var (s, outcome) := RestoreBytes(v, EMPTY, SnapshotBytes(v, entries));
            outcome == Restored && s.store == store && IndexExact(s)
  {
    var m := EntrySnapshot(MapEntries(v.bits, entries));
    EntriesCanonical(v, store, order, entries);
    Codec.SnapshotRoundTrip(m);
    EntriesThereAndBack(v, store, order, entries);
    SnapshotRestores(store, order, MapEntries(v.value, m.entries));
  }

  lemma AnySnapshotThroughBytes(v: FloatView, store: map<Name, Stored>, entries: seq<LogEntry>)
    requires OneZero(v) && IsSnapshotOf(store, entries)
    requires AllExact(v, store)
    requires |SnapshotBytes(v, entries)| < TWO_TO_THE_63
    ensures var (s, outcome) := RestoreBytes(v, EMPTY, SnapshotBytes(v, entries));
            outcome == Restored && s.store == store && IndexExact(s)
  {
    var order :| SnapshotOf(store, order, entries);
    SnapshotThroughBytes(v, store, order, entries);
  }

  lemma EntriesCanonical(v: FloatView, store: map<Name, Stored>, order: seq<Name>, entries: seq<LogEntry>)
    requires OneZero(v) && SnapshotOf(store, order, entries)
    ensures forall e :: e in MapEntries(v.bits, entries) ==> Codec.CanonicalEntry(e)
  {
    hide SnapshotEntry, Codec.CanonicalEntry, MapEntry;
    forall e | e in MapEntries(v.bits, entries)
      ensures Codec.CanonicalEntry(e)
    {
      var i :| 0 <= i < |entries| && MapEntries(v.bits, entries)[i] == e;
      WrittenEntryIsCanonical(v, entries[i], order[i], store[order[i]]);
    }
  }

  lemma EntriesThereAndBack(v: FloatView, store: map<Name, Stored>, order: seq<Name>, entries: seq<LogEntry>)
    requires SnapshotOf(store, order, entries)
    requires AllExact(v, store)
    ensures SnapshotOf(store, order, MapEntries(v.value, MapEntries(v.bits, entries)))
  {
    hide SnapshotEntry, MapEntry;
    var back := MapEntries(v.value, MapEntries(v.bits, entries));
    forall i | 0 <= i < |order|
      ensures order[i] in store && SnapshotEntry(back[i], order[i], store[order[i]])
    {
      EntryThereAndBack(v, entries[i], order[i], store[order[i]]);
    }
  }

  // ---------- a log entry through the bytes ----------

  /** The limiter of an entry, if it has one, is a whole token bucket with exact numbers. */
  predicate Sendable(v: FloatView, e: LogEntry) {
    e.resource.Some? && e.resource.value.limiter.TokenBucket? ==>
      var m := e.resource.value.limiter.message;
      m.Some? && Exact(v, m.value.rate) && Exact(v, m.value.tokenCount)
  }

  lemma SentEntryIsCanonical(v: FloatView, e: LogEntry)
    requires OneZero(v) && Sendable(v, e)
    ensures Codec.CanonicalEntry(MapEntry(v.bits, e))
  {
    if e.resource.Some? && e.resource.value.rps.Some? {
      HistoriesCanonical(v, e.resource.value.rps.value);
    }
    if e.resource.Some? && e.resource.value.limiter.TokenBucket? {
      var m := e.resource.value.limiter.message.value;
      assert Written(v, m.rate) && Written(v, m.tokenCount);
    }
  }

  /** What a node applies from the bytes of an entry is what the sender meant. */
  lemma EntryThroughBytes(v: FloatView, s: State, e: LogEntry)
    requires OneZero(v) && Sendable(v, e) && |EntryBytes(v, e)| < TWO_TO_THE_63
    ensures ApplyBytes(v, s, EntryBytes(v, e)) == Apply(s, e)
  {
    var m := MapEntry(v.bits, e);
    SentEntryIsCanonical(v, e);
    Codec.NormalEntryIffCanonical(m);
    Codec.EntryRoundTrip(m);
    AppliedAlike(v, s, e);
    hide Apply, MapEntry, OneZero, Sendable, Codec.CanonicalEntry, Codec.UnmarshalEntry;
  }

  /** Apply does not look at the request statistics, the only numbers that may have changed. */
  lemma AppliedAlike(v: FloatView, s: State, e: LogEntry)
    requires Sendable(v, e)
    ensures Apply(s, MapEntry(v.value, MapEntry(v.bits, e))) == Apply(s, e)
  {
    if e.resource.Some? {
      var m, m' := e.resource.value, MapEntry(v.value, MapEntry(v.bits, e)).resource.value;
      assert m'.limiter == m.limiter;
      assert FromPB(m') == FromPB(m);
    }
  }
}
