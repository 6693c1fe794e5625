/** What the replicated resource manager computes: applying a log entry, restoring a snapshot, moving
    the resources of a node away. The state is the primary store and, per node, the names indexed. */
module ManagerState {
  import opened Messages
  import opened Timestamps
  import TokenBuckets

  type Name = seq<byte>
  type NodeId = uint32
  type Bucket = TokenBuckets.Bucket
  type LogEntry = Entry<real>
  type ResourcePB = Resource<real>

  datatype Stored = Stored(nodeId: NodeId, bucket: Bucket, lastUpdated: int)

  datatype State = State(store: map<Name, Stored>, index: map<NodeId, set<Name>>)

  const EMPTY := State(map[], map[])

  /** Names listed under a node. */
  function Listed(s: State, node: NodeId): set<Name> {
    if node in s.index then s.index[node] else {}
  }

  // ---------- resources and messages ----------

  datatype Build = Built(r: Stored) | InvalidLimiter | UnknownLimiterType | NilDereference

  /** A resource from its message. A missing rps, like an empty limiter wrapper, is dereferenced. */
  function FromPB(m: ResourcePB): Build {
    if m.limiter.NoLimiter? then InvalidLimiter
    else if m.limiterType != LIMITER_TOKEN_BUCKET then UnknownLimiterType
    else if m.limiter.message.None? || m.rps.None? then NilDereference
    else Built(Stored(m.nodeId, BucketFromPB(m.limiter.message.value), TimestampToTime(m.lastUpdated)))
  }

  function BucketFromPB(m: TokenBucketLimiter<real>): Bucket {
    TokenBuckets.Bucket(m.rate, m.burst, m.tokenCount, m.fillPeriod, TimestampToTime(m.lastFilled),
                        TimestampToTime(m.nextFill))
  }

  /** The counters fit their machine types and the times can be written as timestamps. */
  predicate Representable(r: Stored) {
    && r.bucket.burst < TWO_TO_THE_32
    && -TWO_TO_THE_63 <= r.bucket.fillPeriod < TWO_TO_THE_63
    && InRange(r.bucket.lastFilled) && InRange(r.bucket.nextFill) && InRange(r.lastUpdated)
  }

  function BucketToPB(b: Bucket): TokenBucketLimiter<real>
    requires Representable(Stored(0, b, 0))
  {
    TokenBucketLimiter(b.rate, b.burst, b.tokenCount, b.fillPeriod,
                       Some(TimeToTimestamp(b.lastFilled)), Some(TimeToTimestamp(b.nextFill)))
  }

  function ToPB(name: Name, r: Stored, rps: ReqPerSec<real>): ResourcePB
    requires Representable(r)
  {
    Resource(name, r.nodeId, LIMITER_TOKEN_BUCKET, Some(rps), Some(TimeToTimestamp(r.lastUpdated)),
             TokenBucket(Some(BucketToPB(r.bucket))))
  }

  /** The message of a resource builds the same resource. It is labelled as a token bucket and holds the
      bucket's own numbers and times. */
  lemma ResourceMessageRoundTrip(name: Name, r: Stored, rps: ReqPerSec<real>)
    requires Representable(r)
    ensures FromPB(ToPB(name, r, rps)) == Built(r)
    ensures var m := ToPB(name, r, rps);
            && m.name == name && m.nodeId == r.nodeId && m.limiterType == 1 && m.rps == Some(rps)
            && TimestampToTime(m.lastUpdated) == r.lastUpdated
            && m.limiter.TokenBucket? && m.limiter.message.Some?
    ensures var (m, b) := (ToPB(name, r, rps).limiter.message.value, r.bucket);
            && m.rate == b.rate && m.burst == b.burst && m.tokenCount == b.tokenCount && m.fillPeriod == b.fillPeriod
            && TimestampToTime(m.lastFilled) == b.lastFilled && TimestampToTime(m.nextFill) == b.nextFill
  {
    TimeRoundTrip(r.lastUpdated);
    TimeRoundTrip(r.bucket.lastFilled);
    TimeRoundTrip(r.bucket.nextFill);
  }

  /** Exactly from which messages a resource is built: those of a token bucket that has its message and its
      statistics. */
  lemma BuiltIff(m: ResourcePB)
    ensures FromPB(m).Built? <==>
              m.limiterType == 1 && m.limiter.TokenBucket? && m.limiter.message.Some? && m.rps.Some?
    ensures FromPB(m).Built? ==>
              var (r, b) := (FromPB(m).r, m.limiter.message.value);
              && r.nodeId == m.nodeId && r.lastUpdated == TimestampToTime(m.lastUpdated)
              && r.bucket == TokenBuckets.Bucket(b.rate, b.burst, b.tokenCount, b.fillPeriod,
                                                 TimestampToTime(b.lastFilled), TimestampToTime(b.nextFill))
  {}

  // ---------- applying an entry ----------

  function Put(s: State, name: Name, r: Stored): State {
    State(s.store[name := r], s.index[r.nodeId := Listed(s, r.nodeId) + {name}])
  }

  function Remove(s: State, name: Name): State {
    if name !in s.store then s
    else
      var node := s.store[name].nodeId;
      State(s.store - {name}, if node in s.index then s.index[node := s.index[node] - {name}] else s.index)
  }

  /** The source index is looked up only after the node id has been overwritten, so it is the index
      of the destination that gets the name and loses it again. */
  function Move(s: State, name: Name, dst: NodeId): State {
    if name !in s.store || s.store[name].nodeId == dst then s
    else
      State(s.store[name := s.store[name].(nodeId := dst)],
            if dst in s.index then s.index[dst := s.index[dst] - {name}] else s.index)
  }

  datatype Outcome = Done | Ignored | Panicked

  function Apply(s: State, e: LogEntry): (State, Outcome) {
    if |e.id| != 16 then (s, Ignored)
    else if e.resource.None? then (s, Panicked)
    else
      var m := e.resource.value;
      if e.action == PUT_RESOURCE then
        match FromPB(m)
        case Built(r) => (Put(s, m.name, r), Done)
        case NilDereference => (s, Panicked)
        case _ => (s, Ignored)
      else if e.action == REMOVE_RESOURCE then (Remove(s, m.name), Done)
      else if e.action == UPDATE_RESOURCE_NODE_ID then (Move(s, m.name, m.nodeId), Done)
      else (s, Done)
  }

  /** Exactly when applying an entry brings the node down: the entry has no resource, or puts one whose
      token bucket or statistics are missing. */
  lemma ApplyPanicsIff(s: State, e: LogEntry)
    ensures Apply(s, e).1 == Panicked <==>
              && |e.id| == 16
              && (e.resource.None?
                  || var m := e.resource.value;
                     && e.action == PUT_RESOURCE && m.limiter.TokenBucket? && m.limiterType == LIMITER_TOKEN_BUCKET
                     && (m.limiter.message.None? || m.rps.None?))
  {}

  /** Exactly which entries are ignored: those with an id of another length, and those that put a resource whose
      limiter is not a token bucket. They, and those that bring the node down, change nothing. */
  lemma ApplyIgnoresIff(s: State, e: LogEntry)
    ensures Apply(s, e).1 == Ignored <==>
              || |e.id| != 16
              || (e.resource.Some? && e.action == 0
                  && (e.resource.value.limiter.NoLimiter? || e.resource.value.limiterType != 1))
    ensures Apply(s, e).1 != Done ==> Apply(s, e).0 == s
  {}

  /** What an entry does to the store, by the number of its action: 0 stores the resource, 1 removes the name, 2
      changes the node of a stored one, anything else nothing; and no entry touches another name than its own. */
  lemma EntryTouchesItsName(s: State, e: LogEntry)
    requires |e.id| == 16 && e.resource.Some?
    ensures var (m, s') := (e.resource.value, Apply(s, e).0);
            && (forall k :: k != m.name ==>
                  (k in s'.store <==> k in s.store) && (k in s.store ==> s'.store[k] == s.store[k]))
            && (e.action == 0 && FromPB(m).Built? ==> m.name in s'.store && s'.store[m.name] == FromPB(m).r)
            && (e.action == 1 ==> m.name !in s'.store)
            && (e.action == 2 ==>
                  && (m.name in s'.store <==> m.name in s.store)
                  && (m.name in s.store ==> s'.store[m.name] == s.store[m.name].(nodeId := m.nodeId)))
            && (e.action !in {0, 1, 2} || (e.action == 0 && !FromPB(m).Built?) ==> s' == s)
  {
    hide FromPB;
  }

  function Replay(s: State, log: seq<LogEntry>): State
    decreases |log|
  {
    if log == [] then s else Replay(Apply(s, log[0]).0, log[1..])
  }

  lemma {:induction false} ReplayConcat(s: State, xs: seq<LogEntry>, ys: seq<LogEntry>)
    ensures Replay(s, xs + ys) == Replay(Replay(s, xs), ys)
    decreases |xs|
  {
    if xs == [] {
      assert xs + ys == ys;
    } else {
      assert (xs + ys)[1..] == xs[1..] + ys;
      ReplayConcat(Apply(s, xs[0]).0, xs[1..], ys);
    }
  }

  // ---------- the primary store is a plain map ----------

  /** The log read as operations on a map from names to resources. */
  datatype Op = Set(name: Name, r: Stored) | Delete(name: Name) | SetNode(name: Name, node: NodeId) | Nothing

  function OpOf(e: LogEntry): Op {
    if |e.id| != 16 || e.resource.None? then Nothing
    else
      var m := e.resource.value;
      if e.action == PUT_RESOURCE && FromPB(m).Built? then Set(m.name, FromPB(m).r)
      else if e.action == REMOVE_RESOURCE then Delete(m.name)
      else if e.action == UPDATE_RESOURCE_NODE_ID then SetNode(m.name, m.nodeId)
      else Nothing
  }

  function Perform(m: map<Name, Stored>, op: Op): map<Name, Stored> {
    match op
    case Set(k, r) => m[k := r]
    case Delete(k) => m - {k}
    case SetNode(k, node) => if k in m then m[k := m[k].(nodeId := node)] else m
    case Nothing => m
  }

  function PerformAll(m: map<Name, Stored>, log: seq<LogEntry>): map<Name, Stored>
    decreases |log|
  {
    if log == [] then m else PerformAll(Perform(m, OpOf(log[0])), log[1..])
  }

  lemma ApplyIsPerform(s: State, e: LogEntry)
    ensures Apply(s, e).0.store == Perform(s.store, OpOf(e))
  {
    var op := OpOf(e);
    if op.Delete? && op.name !in s.store {
      assert s.store - {op.name} == s.store;
    }
    if op.SetNode? && op.name in s.store && s.store[op.name].nodeId == op.node {
      assert s.store[op.name := s.store[op.name]] == s.store;
    }
  }

  /** After any log the primary store is the fold of the map operations: the index has no say in it. */
  lemma {:induction false} StoreIsMapFold(s: State, log: seq<LogEntry>)
    ensures Replay(s, log).store == PerformAll(s.store, log)
    decreases |log|
  {
    if log != [] {
      ApplyIsPerform(s, log[0]);
      StoreIsMapFold(Apply(s, log[0]).0, log[1..]);
    }
  }

  // ---------- the index ----------

  ghost predicate IndexComplete(s: State) {
    forall k :: k in s.store ==> k in Listed(s, s.store[k].nodeId)
  }

  /** Listed under a node exactly if stored with that node. */
  ghost predicate IndexExact(s: State) {
    forall node: NodeId, k :: k in Listed(s, node) <==> k in s.store && s.store[k].nodeId == node
  }

  /** Which names are listed where after each operation: only the name itself is listed anew, by a put under its
      node, or taken off, by a removal under its node and by an update under the node it is moved to. */
  lemma ListedAfter(s: State, name: Name, r: Stored, dst: NodeId, node: NodeId, k: Name)
    ensures k in Listed(Put(s, name, r), node) <==> k in Listed(s, node) || (k == name && node == r.nodeId)
    ensures k in Listed(Remove(s, name), node)
            <==> k in Listed(s, node) && !(k == name && name in s.store && node == s.store[name].nodeId)
    ensures k in Listed(Move(s, name, dst), node)
            <==> && k in Listed(s, node)
                 && !(k == name && name in s.store && s.store[name].nodeId != dst && node == dst)
  {}

  predicate PutOrRemove(e: LogEntry) {
    e.action == PUT_RESOURCE || e.action == REMOVE_RESOURCE
  }

  lemma ApplyKeepsIndexComplete(s: State, e: LogEntry)
    requires IndexComplete(s) && PutOrRemove(e)
    ensures IndexComplete(Apply(s, e).0)
  {}

  /** After any log of Put and Remove entries every stored resource is listed under its own node. */
  lemma {:induction false} PutRemoveLogKeepsIndexComplete(s: State, log: seq<LogEntry>)
    requires IndexComplete(s) && forall e :: e in log ==> PutOrRemove(e)
    ensures IndexComplete(Replay(s, log))
    decreases |log|
  {
    if log != [] {
      ApplyKeepsIndexComplete(s, log[0]);
      PutRemoveLogKeepsIndexComplete(Apply(s, log[0]).0, log[1..]);
    }
  }

  /** Exactly when an update keeps the index complete: when it changes nothing. */
  lemma UpdateKeepsIndexCompleteIffIdle(s: State, name: Name, dst: NodeId)
    requires IndexComplete(s)
    ensures IndexComplete(Move(s, name, dst)) <==> name !in s.store || s.store[name].nodeId == dst
  {
    if name in s.store && s.store[name].nodeId != dst {
      var s' := Move(s, name, dst);
      if dst in s.index {
        assert name !in Listed(s', s'.store[name].nodeId);
      } else {
        assert Listed(s', dst) == {};
      }
    }
  }

  /** Exactly when a put keeps an exact index exact: when it does not move the name to another node, whose
      old entry it would leave behind. */
  lemma PutKeepsIndexExactIffInPlace(s: State, name: Name, r: Stored)
    requires IndexExact(s)
    ensures IndexExact(Put(s, name, r)) <==> name !in s.store || s.store[name].nodeId == r.nodeId
  {
    var s' := Put(s, name, r);
    if name in s.store && s.store[name].nodeId != r.nodeId {
      var node := s.store[name].nodeId;
      assert name in Listed(s, node);
      StaleEntry(s', node, name);
    } else {
      forall node: NodeId, k
        ensures k in Listed(s', node) <==> k in s'.store && s'.store[k].nodeId == node
      {
        assert k in Listed(s, node) <==> k in s.store && s.store[k].nodeId == node;
      }
    }
  }

  lemma RemoveKeepsIndexExact(s: State, name: Name)
    requires IndexExact(s)
    ensures IndexExact(Remove(s, name))
  {
    var s' := Remove(s, name);
    forall node: NodeId, k
      ensures k in Listed(s', node) <==> k in s'.store && s'.store[k].nodeId == node
    {
      assert k in Listed(s, node) <==> k in s.store && s.store[k].nodeId == node;
    }
  }

  /** An update keeps an exact index exact exactly if it changes nothing. */
  lemma UpdateKeepsIndexExactIffIdle(s: State, name: Name, dst: NodeId)
    requires IndexExact(s)
    ensures IndexExact(Move(s, name, dst)) <==> name !in s.store || s.store[name].nodeId == dst
  {
    if name in s.store && s.store[name].nodeId != dst {
      var node := s.store[name].nodeId;
      assert name in Listed(s, node);
      StaleEntry(Move(s, name, dst), node, name);
    }
  }

  lemma StaleEntry(s: State, node: NodeId, name: Name)
    requires name in Listed(s, node) && (name in s.store ==> s.store[name].nodeId != node)
    ensures !IndexExact(s)
  {}

  // ---------- snapshots ----------

  datatype RestoreOutcome = Restored | EmptyResource | LimiterError | RestorePanicked | Undecodable

  function RestoreEntry(s: State, e: LogEntry): (State, RestoreOutcome) {
    if e.resource.None? then (s, EmptyResource)
    else
      match FromPB(e.resource.value)
      case Built(r) => (Put(s, e.resource.value.name, r), Restored)
      case NilDereference => (s, RestorePanicked)
      case _ => (s, LimiterError)
  }

  /** What a bad entry ends a restore with; it changes nothing. */
  lemma BadEntry(s: State, e: LogEntry)
    ensures e.resource.Some? && FromPB(e.resource.value).Built? ==>
              RestoreEntry(s, e) == (Put(s, e.resource.value.name, FromPB(e.resource.value).r), Restored)
    ensures e.resource.None? ==> RestoreEntry(s, e) == (s, EmptyResource)
    ensures e.resource.Some? && !FromPB(e.resource.value).Built? ==>
              var m := e.resource.value;
              RestoreEntry(s, e) == (s, if m.limiter.NoLimiter? || m.limiterType != 1 then LimiterError
                                        else RestorePanicked)
  {}

  /** Entries are put one after the other; the first bad one ends the restore half-way. */
  function RestoreAll(s: State, entries: seq<LogEntry>): (State, RestoreOutcome) {
    if entries == [] then (s, Restored)
    else
      var (s', outcome) := RestoreAll(s, entries[..|entries| - 1]);
      if outcome != Restored then (s', outcome) else RestoreEntry(s', entries[|entries| - 1])
  }

  lemma RestoreNothing(s: State, entries: seq<LogEntry>)
    ensures RestoreAll(s, entries[..0]) == (s, Restored)
  {}

  lemma RestoreOne(s: State, entries: seq<LogEntry>, i: nat)
    requires i < |entries| && RestoreAll(s, entries[..i]).1 == Restored
    ensures RestoreAll(s, entries[..i + 1]) == RestoreEntry(RestoreAll(s, entries[..i]).0, entries[i])
  {
    assert entries[..i + 1][..i] == entries[..i];
  }

  /** A restore gets through exactly if a resource can be built from every entry. */
  lemma {:induction false} RestoresIffAllBuilt(s: State, entries: seq<LogEntry>)
    ensures RestoreAll(s, entries).1 == Restored
            <==> forall e :: e in entries ==> e.resource.Some? && FromPB(e.resource.value).Built?
    decreases |entries|
  {
    hide FromPB, Put;
    if entries != [] {
      var before, last := entries[..|entries| - 1], entries[|entries| - 1];
      RestoresIffAllBuilt(s, before);
      assert entries == before + [last];
    }
  }

  /** What a failed restore leaves behind is final. */
  lemma {:induction false} RestoreStops(s: State, entries: seq<LogEntry>, i: nat)
    requires i <= |entries| && RestoreAll(s, entries[..i]).1 != Restored
    ensures RestoreAll(s, entries) == RestoreAll(s, entries[..i])
    decreases |entries|
  {
    if i == |entries| {
      assert entries[..i] == entries;
    } else {
      assert entries[..|entries| - 1][..i] == entries[..i];
      RestoreStops(s, entries[..|entries| - 1], i);
    }
  }

  /** A snapshot entry of a resource; its id, sender and request statistics are free. */
  ghost predicate SnapshotEntry(e: LogEntry, name: Name, r: Stored) {
    && Representable(r) && e.action == PUT_RESOURCE
    && e.resource.Some? && e.resource.value.rps.Some?
    && e.resource.value == ToPB(name, r, e.resource.value.rps.value)
  }

  /** One entry for each name of the order, which lists every stored name once. */
  ghost predicate SnapshotOf(store: map<Name, Stored>, order: seq<Name>, entries: seq<LogEntry>) {
    && |entries| == |order|
    && (forall i, j :: 0 <= i < j < |order| ==> order[i] != order[j])
    && (forall i :: 0 <= i < |order| ==> order[i] in store)
    && (forall k :: k in store ==> k in order)
    && (forall i :: 0 <= i < |order| ==> order[i] in store && SnapshotEntry(entries[i], order[i], store[order[i]]))
  }

  /** A snapshot of a store, taken in some order. */
  ghost predicate IsSnapshotOf(store: map<Name, Stored>, entries: seq<LogEntry>) {
    exists order :: SnapshotOf(store, order, entries)
  }

  function Restrict(store: map<Name, Stored>, names: seq<Name>): map<Name, Stored> {
    map k | k in store && k in names :: store[k]
  }

  lemma {:induction false} RestorePrefix(store: map<Name, Stored>, order: seq<Name>, entries: seq<LogEntry>, n: nat)
    requires SnapshotOf(store, order, entries) && n <= |order|
    ensures var (s, outcome) := RestoreAll(EMPTY, entries[..n]);
            outcome == Restored && s.store == Restrict(store, order[..n]) && IndexExact(s)
    decreases n
  {
    if n != 0 {
      RestorePrefix(store, order, entries, n - 1);
      assert entries[..n][..n - 1] == entries[..n - 1];
      var s := RestoreAll(EMPTY, entries[..n - 1]).0;
      RestoreOneMore(store, order, entries, n, s);
    }
  }

  lemma RestoreOneMore(store: map<Name, Stored>, order: seq<Name>, entries: seq<LogEntry>, n: nat, s: State)
    requires SnapshotOf(store, order, entries) && 0 < n <= |order|
    requires s.store == Restrict(store, order[..n - 1]) && IndexExact(s)
    ensures var (s', outcome) := RestoreEntry(s, entries[n - 1]);
            outcome == Restored && s'.store == Restrict(store, order[..n]) && IndexExact(s')
  {
    hide IndexExact, Representable, Restrict, ToPB, FromPB;
    var name := order[n - 1];
    assert SnapshotEntry(entries[n - 1], name, store[name]);
    ResourceMessageRoundTrip(name, store[name], entries[n - 1].resource.value.rps.value);
    RestrictOneMore(store, order, n);
    PutKeepsIndexExactIffInPlace(s, name, store[name]);
  }

  lemma RestrictOneMore(store: map<Name, Stored>, order: seq<Name>, n: nat)
    requires 0 < n <= |order| && order[n - 1] in store
    requires forall i, j :: 0 <= i < j < |order| ==> order[i] != order[j]
    ensures order[n - 1] !in Restrict(store, order[..n - 1])
    ensures Restrict(store, order[..n]) == Restrict(store, order[..n - 1])[order[n - 1] := store[order[n - 1]]]
  {
    assert order[..n] == order[..n - 1] + [order[n - 1]];
  }

  /** Restoring a snapshot into a fresh manager, whatever the iteration order was, gives the same
      store, and an index that agrees with it even if that of the original did not. */
  lemma SnapshotRestores(store: map<Name, Stored>, order: seq<Name>, entries: seq<LogEntry>)
    requires SnapshotOf(store, order, entries)
    ensures var (s, outcome) := RestoreAll(EMPTY, entries);
            outcome == Restored && s.store == store && IndexExact(s)
  {
    RestorePrefix(store, order, entries, |order|);
    assert entries[..|order|] == entries && order[..|order|] == order;
    assert Restrict(store, order) == store;
  }

  // ---------- replicas ----------

  /** What a replica sees: log entries, the same on all, and requests it serves itself. */
  datatype Event = Logged(e: LogEntry) | Served(name: Name, t: int, n: nat)

  function Serve(store: map<Name, Stored>, name: Name, t: int, n: nat): map<Name, Stored> {
    if name in store
    then store[name := store[name].(bucket := TokenBuckets.AllowAt(store[name].bucket, t, n).0)]
    else store
  }

  function Happen(s: State, event: Event): State {
    match event
    case Logged(e) => Apply(s, e).0
    case Served(name, t, n) => s.(store := Serve(s.store, name, t, n))
  }

  function Live(s: State, events: seq<Event>): State
    decreases |events|
  {
    if events == [] then s else Live(Happen(s, events[0]), events[1..])
  }

  lemma {:induction false} LiveConcat(s: State, xs: seq<Event>, ys: seq<Event>)
    ensures Live(s, xs + ys) == Live(Live(s, xs), ys)
    decreases |xs|
  {
    if xs == [] {
      assert xs + ys == ys;
    } else {
      assert (xs + ys)[1..] == xs[1..] + ys;
      LiveConcat(Happen(s, xs[0]), xs[1..], ys);
    }
  }

  lemma HappenStoreOnly(s: State, t: State, event: Event)
    requires s.store == t.store
    ensures Happen(s, event).store == Happen(t, event).store
  {
    if event.Logged? {
      ApplyIsPerform(s, event.e);
      ApplyIsPerform(t, event.e);
    }
  }

  /** The store lives on by itself: the index never flows back into it. */
  lemma {:induction false} LiveStoreOnly(s: State, t: State, events: seq<Event>)
    requires s.store == t.store
    ensures Live(s, events).store == Live(t, events).store
    decreases |events|
  {
    if events != [] {
      HappenStoreOnly(s, t, events[0]);
      LiveStoreOnly(Happen(s, events[0]), Happen(t, events[0]), events[1..]);
    }
  }

  /** Snapshot plus suffix equals full history, log entries and served requests: names, node ids,
      limiter states and update times agree. */
  lemma SnapshotPlusSuffix(events: seq<Event>, cut: nat, order: seq<Name>, entries: seq<LogEntry>)
    requires cut <= |events| && SnapshotOf(Live(EMPTY, events[..cut]).store, order, entries)
    ensures Live(RestoreAll(EMPTY, entries).0, events[cut..]).store == Live(EMPTY, events).store
  {
    var s := Live(EMPTY, events[..cut]);
    SnapshotRestores(s.store, order, entries);
    LiveStoreOnly(RestoreAll(EMPTY, entries).0, s, events[cut..]);
    LiveConcat(EMPTY, events[..cut], events[cut..]);
    assert events[..cut] + events[cut..] == events;
  }

  function LogOf(events: seq<Event>): seq<LogEntry> {
    if events == [] then []
    else (if events[0].Logged? then [events[0].e] else []) + LogOf(events[1..])
  }

  /** The parts of a resource that requests do not change. */
  datatype Config = Config(nodeId: NodeId, rate: real, burst: nat, fillPeriod: int, lastUpdated: int)

  function ConfigOf(r: Stored): Config {
    Config(r.nodeId, r.bucket.rate, r.bucket.burst, r.bucket.fillPeriod, r.lastUpdated)
  }

  ghost predicate SameConfig(s: map<Name, Stored>, t: map<Name, Stored>) {
    s.Keys == t.Keys && forall k :: k in s ==> ConfigOf(s[k]) == ConfigOf(t[k])
  }

  lemma PerformKeepsSameConfig(s: map<Name, Stored>, t: map<Name, Stored>, op: Op)
    requires SameConfig(s, t)
    ensures SameConfig(Perform(s, op), Perform(t, op))
  {}

  lemma ServeKeepsConfig(s: map<Name, Stored>, name: Name, t: int, n: nat)
    ensures SameConfig(Serve(s, name, t, n), s)
  {
    if name in s {
      TokenBuckets.StepKeepsWellFormed(s[name].bucket, TokenBuckets.Call.Allow(t, n));
    }
  }

  lemma {:induction false} LiveFollowsLog(s: State, t: map<Name, Stored>, events: seq<Event>)
    requires SameConfig(s.store, t)
    ensures SameConfig(Live(s, events).store, PerformAll(t, LogOf(events)))
    decreases |events|
  {
    if events != [] {
      match events[0]
      case Logged(e) =>
        ApplyIsPerform(s, e);
        PerformKeepsSameConfig(s.store, t, OpOf(e));
        var log := LogOf(events);
        assert log[0] == e && log[1..] == LogOf(events[1..]);
        LiveFollowsLog(Apply(s, e).0, Perform(t, OpOf(e)), events[1..]);
      case Served(name, u, n) =>
        ServeKeepsConfig(s.store, name, u, n);
        assert LogOf(events) == LogOf(events[1..]);
        LiveFollowsLog(s.(store := Serve(s.store, name, u, n)), t, events[1..]);
    }
  }

  /** Replicas that apply the same log agree on names, nodes, rates, bursts, fill periods and update
      times, whatever requests each has served in between. */
  lemma ReplicasAgree(xs: seq<Event>, ys: seq<Event>)
    requires LogOf(xs) == LogOf(ys)
    ensures SameConfig(Live(EMPTY, xs).store, Live(EMPTY, ys).store)
  {
    LiveFollowsLog(EMPTY, map[], xs);
    LiveFollowsLog(EMPTY, map[], ys);
  }

  // ---------- evacuation ----------

  predicate UpdateTo(e: LogEntry, name: Name, dst: NodeId) {
    && |e.id| == 16 && e.action == UPDATE_RESOURCE_NODE_ID
    && e.resource.Some? && e.resource.value.name == name && e.resource.value.nodeId == dst
  }

  /** One update for each name listed under the node. */
  ghost predicate EvacuationOf(s: State, src: NodeId, dst: NodeId, order: seq<Name>, entries: seq<LogEntry>) {
    && |entries| == |order|
    && (forall k :: k in order <==> k in Listed(s, src))
    && (forall i :: 0 <= i < |order| ==> UpdateTo(entries[i], order[i], dst))
  }

  function MoveNames(store: map<Name, Stored>, names: seq<Name>, dst: NodeId): map<Name, Stored> {
    map k | k in store :: if k in names then store[k].(nodeId := dst) else store[k]
  }

  lemma {:induction false} UpdatesMoveNames(s: State, dst: NodeId, order: seq<Name>, entries: seq<LogEntry>)
    requires |entries| == |order|
    requires forall i :: 0 <= i < |order| ==> UpdateTo(entries[i], order[i], dst)
    ensures Replay(s, entries).store == MoveNames(s.store, order, dst)
    decreases |order|
  {
    if order == [] {
      assert MoveNames(s.store, order, dst) == s.store;
    } else {
      var s' := Apply(s, entries[0]).0;
      assert UpdateTo(entries[0], order[0], dst);
      ApplyIsPerform(s, entries[0]);
      forall i | 0 <= i < |order[1..]|
        ensures UpdateTo(entries[1..][i], order[1..][i], dst)
      {
        assert UpdateTo(entries[i + 1], order[i + 1], dst);
      }
      UpdatesMoveNames(s', dst, order[1..], entries[1..]);
      assert order == [order[0]] + order[1..];
      assert MoveNames(s'.store, order[1..], dst) == MoveNames(s.store, order, dst);
    }
  }

  /** Applying the entries built for a node loses no resource. It leaves none on the node exactly if every
      resource stored with that node was listed under it; and it leaves the resources of all other nodes
      alone exactly if none of them was listed under it, but for those that are on the destination anyway. */
  lemma EvacuationIffListed(s: State, src: NodeId, dst: NodeId, order: seq<Name>, entries: seq<LogEntry>)
    requires src != dst && EvacuationOf(s, src, dst, order, entries)
    ensures var s' := Replay(s, entries);
            && s'.store.Keys == s.store.Keys
            && ((forall k :: k in s'.store ==> s'.store[k].nodeId != src)
                <==> (forall k :: k in s.store && s.store[k].nodeId == src ==> k in Listed(s, src)))
            && ((forall k :: k in s.store && s.store[k].nodeId != src ==> k in s'.store && s'.store[k] == s.store[k])
                <==> (forall k :: k in s.store && k in Listed(s, src) ==> s.store[k].nodeId in {src, dst}))
  {
    UpdatesMoveNames(s, dst, order, entries);
    var s' := Replay(s, entries);
    forall k | k in s.store
      ensures k in s'.store
      ensures s'.store[k] == if k in Listed(s, src) then s.store[k].(nodeId := dst) else s.store[k]
    {}
    hide Replay, MoveNames, EvacuationOf;
  }

  /** What is listed under another node than the destination stays listed there. */
  lemma {:induction false} UpdatesKeepOtherLists(s: State, dst: NodeId, order: seq<Name>, entries: seq<LogEntry>,
                                                 node: NodeId)
    requires |entries| == |order| && node != dst
    requires forall i :: 0 <= i < |order| ==> UpdateTo(entries[i], order[i], dst)
    ensures Listed(Replay(s, entries), node) == Listed(s, node)
    decreases |order|
  {
    if order != [] {
      assert UpdateTo(entries[0], order[0], dst);
      forall i | 0 <= i < |order[1..]|
        ensures UpdateTo(entries[1..][i], order[1..][i], dst)
      {
        assert UpdateTo(entries[i + 1], order[i + 1], dst);
      }
      UpdatesKeepOtherLists(Apply(s, entries[0]).0, dst, order[1..], entries[1..], node);
    }
  }

  /** So a second evacuation of the same node still finds what the first one has moved away, and moves it on
      from wherever it is by then. */
  lemma SameSourceAgain(s: State, src: NodeId, dst: NodeId, order: seq<Name>, entries: seq<LogEntry>,
                        third: NodeId, order': seq<Name>, entries': seq<LogEntry>, k: Name)
    requires src != dst && EvacuationOf(s, src, dst, order, entries)
    requires EvacuationOf(Replay(s, entries), src, third, order', entries')
    requires k in s.store && k in Listed(s, src)
    ensures var s' := Replay(Replay(s, entries), entries');
            k in s'.store && s'.store[k].nodeId == third
  {
    UpdatesMoveNames(s, dst, order, entries);
    UpdatesKeepOtherLists(s, dst, order, entries, src);
    UpdatesMoveNames(Replay(s, entries), third, order', entries');
  }

  /** So after any log of Put and Remove entries a node is evacuated completely. */
  lemma EvacuationAfterPutRemove(log: seq<LogEntry>, src: NodeId, dst: NodeId, order: seq<Name>, entries: seq<LogEntry>)
    requires forall e :: e in log ==> PutOrRemove(e)
    requires src != dst && EvacuationOf(Replay(EMPTY, log), src, dst, order, entries)
    ensures var s' := Replay(EMPTY, log + entries);
            && s'.store.Keys == Replay(EMPTY, log).store.Keys
            && forall k :: k in s'.store ==> s'.store[k].nodeId != src
  {
    var s := Replay(EMPTY, log);
    PutRemoveLogKeepsIndexComplete(EMPTY, log);
    ReplayConcat(EMPTY, log, entries);
    EvacuationIffListed(s, src, dst, order, entries);
  }

  /** A second evacuation finds nothing of what the first one brought: the names are not listed. */
  lemma {:induction false} UpdatesLeaveUnlisted(s: State, dst: NodeId, order: seq<Name>, entries: seq<LogEntry>,
                                                k: Name)
    requires |entries| == |order|
    requires forall i :: 0 <= i < |order| ==> UpdateTo(entries[i], order[i], dst)
    requires k in s.store && k in order && s.store[k].nodeId != dst
    ensures k !in Listed(Replay(s, entries), dst)
    decreases |order|
  {
    var s' := Apply(s, entries[0]).0;
    assert UpdateTo(entries[0], order[0], dst);
    forall i | 0 <= i < |order[1..]|
      ensures UpdateTo(entries[1..][i], order[1..][i], dst)
    {
      assert UpdateTo(entries[i + 1], order[i + 1], dst);
    }
    if order[0] == k {
      UpdatesNeverList(s', dst, order[1..], entries[1..], k);
    } else {
      UpdatesLeaveUnlisted(s', dst, order[1..], entries[1..], k);
    }
  }

  lemma {:induction false} UpdatesNeverList(s: State, dst: NodeId, order: seq<Name>, entries: seq<LogEntry>, k: Name)
    requires |entries| == |order|
    requires forall i :: 0 <= i < |order| ==> UpdateTo(entries[i], order[i], dst)
    requires k !in Listed(s, dst)
    ensures k !in Listed(Replay(s, entries), dst)
    decreases |order|
  {
    if order != [] {
      assert UpdateTo(entries[0], order[0], dst);
      forall i | 0 <= i < |order[1..]|
        ensures UpdateTo(entries[1..][i], order[1..][i], dst)
      {
        assert UpdateTo(entries[i + 1], order[i + 1], dst);
      }
      UpdatesNeverList(Apply(s, entries[0]).0, dst, order[1..], entries[1..], k);
    }
  }

  /** So what has been moved away from one node cannot be moved away from the next: it stays there. */
  lemma SecondEvacuationIsStuck(s: State, src: NodeId, dst: NodeId, order: seq<Name>, entries: seq<LogEntry>,
                                third: NodeId, order': seq<Name>, entries': seq<LogEntry>, k: Name)
    requires src != dst && EvacuationOf(s, src, dst, order, entries)
    requires k in s.store && s.store[k].nodeId == src && k in Listed(s, src)
    requires EvacuationOf(Replay(s, entries), dst, third, order', entries')
    ensures var s' := Replay(Replay(s, entries), entries');
            k in s'.store && s'.store[k].nodeId == dst
  {
    UpdatesMoveNames(s, dst, order, entries);
    UpdatesLeaveUnlisted(s, dst, order, entries, k);
    UpdatesMoveNames(Replay(s, entries), third, order', entries');
  }
}
