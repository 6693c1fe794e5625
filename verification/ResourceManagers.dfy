/** The resource manager with its objects: a primary store and a per-node index that share resources,
    changed in place by log entries and by the requests served. */
module ResourceManagers {
  import opened Messages
  import opened Timestamps
  import opened ManagerState
  import opened Snapshots
  import Codec
  import Marshal
  import RpsHistories
  import TokenBuckets
  import Wire

  class Resource {
    var nodeId: NodeId
    const limiter: TokenBuckets.TokenBucket
    var lastUpdated: int
    const rps: RpsHistories.RPS

    /** The part of a resource that requests are decided by. */
    ghost function State(): Stored
      reads this, limiter
    {
      Stored(nodeId, limiter.State(), lastUpdated)
    }

    constructor (r: Stored, rps: RpsHistories.RPS)
      ensures State() == r && this.rps == rps
      ensures fresh(limiter)
    {
      var bucket := new TokenBuckets.TokenBucket.FromState(r.bucket);
      nodeId := r.nodeId;
      limiter := bucket;
      lastUpdated := r.lastUpdated;
      this.rps := rps;
    }

    method ToPB(name: Name) returns (m: ResourcePB)
      requires Representable(State()) && RpsHistories.Recordable(rps.entries)
      ensures m == ManagerState.ToPB(name, State(), RpsHistories.HistoryPB(rps.reqCount, rps.entries))
    {
      var statistics := rps.ToPB();
      var bucket := TokenBucketLimiter(limiter.rate, limiter.burst, limiter.tokenCount, limiter.fillPeriod,
                                       Some(TimeToTimestamp(limiter.lastFilled)),
                                       Some(TimeToTimestamp(limiter.nextFill)));
      m := Messages.Resource.Resource(name, nodeId, LIMITER_TOKEN_BUCKET, Some(statistics),
                                      Some(TimeToTimestamp(lastUpdated)), Limiter.TokenBucket(Some(bucket)));
    }
  }

  /** How long the statistics look back, and the time of a restore. */
  datatype Clock = Clock(maxHistory: nat, now: int)

  /** The limiter is chosen by the type tag; only a token bucket can be rebuilt. The statistics keep what
      is young enough. */
  method NewResourceFromPB(m: ResourcePB, clock: Clock) returns (build: Build, res: Resource?)
    ensures build == FromPB(m)
    ensures build.Built? ==> res != null && fresh(res) && fresh(res.limiter) && fresh(res.rps) && res.State() == build.r
    ensures build.Built? ==>
              && res.rps.reqCount == m.rps.value.reqCount && res.rps.maxHistory == clock.maxHistory
              && res.rps.entries
                 == RpsHistories.Younger(RpsHistories.SamplesOf(m.rps.value), clock.maxHistory, clock.now)
  {
    res := null;
    if m.limiter.NoLimiter? {
      return InvalidLimiter, null;
    }
    if m.limiterType != LIMITER_TOKEN_BUCKET {
      return UnknownLimiterType, null;
    }
    if m.limiter.message.None? || m.rps.None? {
      return NilDereference, null;
    }
    var r := Stored(m.nodeId, BucketFromPB(m.limiter.message.value), TimestampToTime(m.lastUpdated));
    var rps := new RpsHistories.RPS(clock.maxHistory);
    rps.FromPB(m.rps.value, clock.now);
    res := new Resource(r, rps);
    build := Built(r);
  }

  /** A random identifier of the length every entry carries. */
  method GenerateEntryID() returns (id: seq<byte>)
    ensures |id| == 16
  {
    assert |seq(16, i => 0)| == 16;
    id :| |id| == 16;
  }

  function EmptyResourcePB(name: Name, node: NodeId, now: Timestamp): ResourcePB {
    Messages.Resource.Resource(name, node, LIMITER_NULL, None, Some(now), NoLimiter)
  }

  /** A walk over the keys of a map: each key once, all but the rest so far. */
  ghost predicate Walked(keys: set<Name>, rest: set<Name>, order: seq<Name>) {
    && (forall i, j :: 0 <= i < j < |order| ==> order[i] != order[j])
    && (forall k :: k in order <==> k in keys && k !in rest)
  }

  lemma WalkOn(keys: set<Name>, rest: set<Name>, order: seq<Name>, name: Name)
    requires Walked(keys, rest, order) && name in rest && rest <= keys
    ensures Walked(keys, rest - {name}, order + [name])
  {
    forall k
      ensures k in order + [name] <==> k in keys && k !in rest - {name}
    {
      assert k in order + [name] <==> k in order || k == name;
    }
  }

  type NodeStore = map<NodeId, map<Name, Resource>>

  // ---------- the index as a map of maps ----------

  ghost function NamesOf(ns: NodeStore): map<NodeId, set<Name>> {
    map node | node in ns :: ns[node].Keys
  }

  function WithName(ns: NodeStore, node: NodeId, name: Name, res: Resource): NodeStore {
    var listed: map<Name, Resource> := if node in ns then ns[node] else map[];
    ns[node := listed[name := res]]
  }

  function WithoutName(ns: NodeStore, node: NodeId, name: Name): NodeStore {
    if node in ns then ns[node := ns[node] - {name}] else ns
  }

  lemma WithNameIs(ns: NodeStore, node: NodeId, name: Name, res: Resource)
    ensures var listed: map<Name, Resource> := if node in ns then ns[node] else map[];
            WithName(ns, node, name, res) == ns[node := listed[name := res]]
  {}

  /** Adding a name and deleting it again from the same map. */
  lemma WithoutNameSteps(ns: NodeStore, node: NodeId, name: Name, res: Resource)
    ensures node !in ns ==> WithoutName(ns, node, name) == ns
    ensures node in ns ==>
              var ns1 := ns[node := ns[node][name := res]];
              ns1[node := ns1[node] - {name}] == WithoutName(ns, node, name)
    ensures node in ns ==> ns[node := ns[node] - {name}] == WithoutName(ns, node, name)
  {
    if node in ns {
      var ns1 := ns[node := ns[node][name := res]];
      assert ns1[node] - {name} == ns[node] - {name};
    }
  }

  lemma NamesOfWithName(ns: NodeStore, node: NodeId, name: Name, res: Resource)
    ensures NamesOf(WithName(ns, node, name, res)) == NamesOf(ns)[node := Listed(State(map[], NamesOf(ns)),
        node) + {name}]
  {
    var listed: map<Name, Resource> := if node in ns then ns[node] else map[];
    assert listed[name := res].Keys == listed.Keys + {name};
    assert Listed(State(map[], NamesOf(ns)), node) == listed.Keys;
  }

  lemma NamesOfWithoutName(ns: NodeStore, node: NodeId, name: Name)
    ensures NamesOf(WithoutName(ns, node, name))
            == if node in ns then NamesOf(ns)[node := ns[node].Keys - {name}] else NamesOf(ns)
  {
    if node in ns {
      assert (ns[node] - {name}).Keys == ns[node].Keys - {name};
    }
  }

  /** What a node lists of its own is the stored object itself. */
  ghost predicate Shares(store: map<Name, Resource>, ns: NodeStore, states: map<Name, Stored>) {
    forall node, k :: node in ns && k in ns[node] && k in store && k in states && states[k].nodeId == node
      ==> ns[node][k] == store[k]
  }

  // ---------- the objects behind the store ----------

  predicate Apart(r: Resource, q: Resource) {
    && r != q && r.limiter != q.limiter && r as object != q.limiter && q as object != r.limiter
  }

  /** Every stored resource and its limiter belong to the manager; no two names share any of them. */
  ghost predicate Separate(store: map<Name, Resource>, repr: set<object>) {
    && (forall k :: k in store ==>
          store[k] in repr && store[k].limiter in repr && store[k] as object != store[k].limiter)
    && (forall j, k :: j in store && k in store && j != k ==> Apart(store[j], store[k]))
  }

  lemma PutKeepsSeparate(store: map<Name, Resource>, repr: set<object>, name: Name, res: Resource)
    requires Separate(store, repr)
    requires res !in repr && res.limiter !in repr && res as object != res.limiter
    ensures Separate(store[name := res], repr + {res, res.limiter})
  {}

  ghost function StatesOf(store: map<Name, Resource>, repr: set<object>): map<Name, Stored>
    requires Separate(store, repr)
    reads repr
  {
    map k | k in store :: store[k].State()
  }

  /** What the maps show, once the states of the objects are known. */
  ghost predicate Shows(store: map<Name, Resource>, ns: NodeStore, states: map<Name, Stored>, s: State) {
    Shares(store, ns, states) && s.store == states && s.index == NamesOf(ns)
  }

  lemma PutShows(store: map<Name, Resource>, ns: NodeStore, s: State, name: Name, res: Resource, r: Stored)
    requires Shows(store, ns, s.store, s)
    ensures var s' := Put(s, name, r);
            Shows(store[name := res], WithName(ns, r.nodeId, name, res), s'.store, s')
  {
    NamesOfWithName(ns, r.nodeId, name, res);
  }

  lemma RemoveShows(store: map<Name, Resource>, ns: NodeStore, s: State, name: Name)
    requires Shows(store, ns, s.store, s) && name in s.store
    ensures var s' := Remove(s, name);
            Shows(store - {name}, WithoutName(ns, s.store[name].nodeId, name), s'.store, s')
  {
    NamesOfWithoutName(ns, s.store[name].nodeId, name);
  }

  lemma MoveShows(store: map<Name, Resource>, ns: NodeStore, s: State, name: Name, dst: NodeId)
    requires Shows(store, ns, s.store, s) && name in s.store && s.store[name].nodeId != dst
    ensures var s' := Move(s, name, dst);
            Shows(store, WithoutName(ns, dst, name), s'.store, s')
  {
    NamesOfWithoutName(ns, dst, name);
  }

  lemma PutStates(store: map<Name, Resource>, repr: set<object>, name: Name, res: Resource)
    requires Separate(store, repr) && Separate(store[name := res], repr + {res, res.limiter})
    ensures StatesOf(store[name := res], repr + {res, res.limiter}) == StatesOf(store, repr)[name := res.State()]
  {}

  lemma RemoveStates(store: map<Name, Resource>, repr: set<object>, name: Name)
    requires Separate(store, repr)
    ensures Separate(store - {name}, repr)
    ensures StatesOf(store - {name}, repr) == StatesOf(store, repr) - {name}
  {}

  /** One object has changed, and no other name sees it. */
  lemma ChangeStates(store: map<Name, Resource>, repr: set<object>, name: Name, before: map<Name, Stored>)
    requires Separate(store, repr) && name in store && before.Keys == store.Keys
    requires forall k :: k in store && k != name ==> store[k].State() == before[k]
    ensures StatesOf(store, repr) == before[name := store[name].State()]
  {}

  ghost predicate Coherent(store: map<Name, Resource>, ns: NodeStore, repr: set<object>)
    reads repr
  {
    Separate(store, repr) && Shares(store, ns, StatesOf(store, repr))
  }

  ghost function ContentsOf(store: map<Name, Resource>, ns: NodeStore, repr: set<object>): State
    requires Separate(store, repr)
    reads repr
  {
    State(StatesOf(store, repr), NamesOf(ns))
  }

  lemma PutCoherent(store: map<Name, Resource>, ns: NodeStore, repr: set<object>, name: Name, res: Resource,
                    before: State)
    requires Separate(store, repr) && Shows(store, ns, before.store, before) && before.store == StatesOf(store, repr)
    requires res !in repr && res.limiter !in repr && res as object != res.limiter
    ensures var store', ns' := store[name := res], WithName(ns, res.nodeId, name, res);
            var repr' := repr + {res, res.limiter};
            && Coherent(store', ns', repr') && Separate(store', repr')
            && ContentsOf(store', ns', repr') == Put(before, name, res.State())
  {
    PutKeepsSeparate(store, repr, name, res);
    PutStates(store, repr, name, res);
    PutShows(store, ns, before, name, res, res.State());
    hide Separate, Shares, StatesOf, NamesOf;
  }

  lemma RemoveCoherent(store: map<Name, Resource>, ns: NodeStore, repr: set<object>, name: Name)
    requires Coherent(store, ns, repr) && name in store
    ensures var store', ns' := store - {name}, WithoutName(ns, store[name].nodeId, name);
            && Coherent(store', ns', repr) && Separate(store', repr)
            && ContentsOf(store', ns', repr) == Remove(ContentsOf(store, ns, repr), name)
  {
    RemoveStates(store, repr, name);
    RemoveShows(store, ns, ContentsOf(store, ns, repr), name);
  }

  lemma MoveCoherent(store: map<Name, Resource>, ns: NodeStore, repr: set<object>, name: Name, dst: NodeId,
                     before: State)
    requires Separate(store, repr) && Shows(store, ns, before.store, before) && before.store.Keys == store.Keys
    requires name in store && before.store[name].nodeId != dst
    requires store[name].State() == before.store[name].(nodeId := dst)
    requires forall k :: k in store && k != name ==> store[k].State() == before.store[k]
    ensures var ns' := WithoutName(ns, dst, name);
            && Coherent(store, ns', repr)
            && ContentsOf(store, ns', repr) == Move(before, name, dst)
  {
    ChangeStates(store, repr, name, before.store);
    MoveShows(store, ns, before, name, dst);
  }

  lemma ServeCoherent(store: map<Name, Resource>, ns: NodeStore, repr: set<object>, name: Name, before: State)
    requires Separate(store, repr) && Shows(store, ns, before.store, before) && before.store.Keys == store.Keys
    requires name in store && store[name].nodeId == before.store[name].nodeId
    requires forall k :: k in store && k != name ==> store[k].State() == before.store[k]
    ensures Coherent(store, ns, repr)
    ensures ContentsOf(store, ns, repr) == State(before.store[name := store[name].State()], before.index)
  {
    ChangeStates(store, repr, name, before.store);
  }

  class ResourceManager {
    var store: map<Name, Resource>
    var nodeStore: NodeStore
    ghost var Repr: set<object>

    ghost predicate Valid()
      reads this, Repr
    {
      this !in Repr && Coherent(store, nodeStore, Repr)
    }

    ghost function Contents(): State
      requires Valid()
      reads this, Repr
    {
      ContentsOf(store, nodeStore, Repr)
    }

    constructor ()
      ensures Valid() && Contents() == EMPTY && Repr == {}
    {
      store := map[];
      nodeStore := map[];
      Repr := {};
    }

    /** What the maps show is what the manager holds. */
    lemma ContentsShow()
      requires Valid()
      ensures Separate(store, Repr) && Contents().store == StatesOf(store, Repr)
      ensures Shows(store, nodeStore, Contents().store, Contents())
      ensures Contents().store.Keys == store.Keys
      ensures forall k :: k in store ==> Contents().store[k] == store[k].State()
    {}

    method PutResource(name: Name, res: Resource)
      requires Valid() && res !in Repr && res.limiter !in Repr && res as object != this && res.limiter as object != this
      requires res as object != res.limiter
      modifies this
      ensures Valid() && Repr == old(Repr) + {res, res.limiter}
      ensures Contents() == Put(old(Contents()), name, res.State())
      ensures store == old(store)[name := res]
    {
      hide Shares, Separate, Coherent, ContentsOf, WithName, Put, Shows, NamesOf, StatesOf;
      ContentsShow();
      ghost var before, store0, ns, repr := Contents(), store, nodeStore, Repr;
      store := store[name := res];
      var listed: map<Name, Resource> := map[];
      if res.nodeId in nodeStore {
        listed := nodeStore[res.nodeId];
      }
      nodeStore := nodeStore[res.nodeId := listed[name := res]];
      Repr := Repr + {res, res.limiter};
      PutCoherent(store0, ns, repr, name, res, before);
      WithNameIs(ns, res.nodeId, name, res);
    }

    method RemoveResource(name: Name)
      requires Valid()
      modifies this
      ensures Valid() && Repr == old(Repr)
      ensures Contents() == Remove(old(Contents()), name)
    {
      if name in store {
        RemoveCoherent(store, nodeStore, Repr, name);
        var node := store[name].nodeId;
        WithoutNameSteps(nodeStore, node, name, store[name]);
        hide Coherent, Separate, ContentsOf, WithoutName, Remove;
        if node in nodeStore {
          nodeStore := nodeStore[node := nodeStore[node] - {name}];
        }
        store := store - {name};
      }
    }

    method UpdateResourceNodeId(name: Name, dst: NodeId)
      requires Valid()
      modifies this, Repr
      ensures Valid() && Repr == old(Repr)
      ensures Contents() == Move(old(Contents()), name, dst)
      ensures store == old(store)
    {
      if name in store && store[name].nodeId != dst {
        ghost var before, ns := Contents(), nodeStore;
        assert Shows(store, ns, before.store, before);
        var res := store[name];
        WithoutNameSteps(nodeStore, dst, name, res);
        res.nodeId := dst;
        if res.nodeId in nodeStore {
          var src := res.nodeId;
          nodeStore := nodeStore[dst := nodeStore[dst][name := res]];
          nodeStore := nodeStore[src := nodeStore[src] - {name}];
        }
        hide Shows, Shares, NamesOf, WithoutName, Move;
        MoveCoherent(store, ns, Repr, name, dst, before);
      }
    }

    /** The owner consults the limiter of a stored resource. */
    method Allow(name: Name, t: int, n: nat) returns (ok: bool)
      requires Valid() && name in store
      modifies Repr
      ensures Valid()
      ensures Contents() == State(Serve(old(Contents()).store, name, t, n), old(Contents()).index)
      ensures ok == TokenBuckets.AllowAt(old(Contents()).store[name].bucket, t, n).1
    {
      ghost var before := Contents();
      assert Shows(store, nodeStore, before.store, before);
      ok := store[name].limiter.Allow(t, n);
      ServeCoherent(store, nodeStore, Repr, name, before);
    }

    /** A committed log entry arrives as bytes. */
    method Apply(v: FloatView, data: Buffer, clock: Clock) returns (outcome: Outcome)
      requires Valid()
      modifies this, Repr
      ensures Valid() && fresh(Repr - old(Repr))
      ensures (Contents(), outcome) == ApplyBytes(v, old(Contents()), data)
      ensures Codec.UnmarshalEntry(Codec.EMPTY_ENTRY, data).Err? ==> (Contents(), outcome) == (old(Contents()), Ignored)
    {
      var entry := Wire.Unmarshal(Codec.EntryKinds, Codec.MergeEntry, Codec.EMPTY_ENTRY, data);
      hide Coherent, ContentsOf, ManagerState.Apply, MapEntry;
      if !entry.Ok? {
        return Ignored;
      }
      outcome := ApplyEntry(MapEntry(v.value, entry.value), clock);
    }

    method ApplyEntry(e: LogEntry, clock: Clock) returns (outcome: Outcome)
      requires Valid()
      modifies this, Repr
      ensures Valid() && fresh(Repr - old(Repr))
      ensures (Contents(), outcome) == ManagerState.Apply(old(Contents()), e)
    {
      if |e.id| != 16 {
        return Ignored;
      }
      if e.resource.None? {
        return Panicked;
      }
      var m := e.resource.value;
      if e.action == PUT_RESOURCE {
        var build, res := NewResourceFromPB(m, clock);
        if !build.Built? {
          return if build.NilDereference? then Panicked else Ignored;
        }
        PutResource(m.name, res);
      } else if e.action == REMOVE_RESOURCE {
        RemoveResource(m.name);
      } else if e.action == UPDATE_RESOURCE_NODE_ID {
        UpdateResourceNodeId(m.name, m.nodeId);
      }
      return Done;
    }

    method Restore(v: FloatView, data: Buffer, clock: Clock) returns (outcome: RestoreOutcome)
      requires Valid()
      modifies this, Repr
      ensures Valid() && fresh(Repr - old(Repr))
      ensures (Contents(), outcome) == RestoreBytes(v, old(Contents()), data)
      ensures Codec.UnmarshalSnapshot(Codec.EMPTY_SNAPSHOT, data).Err? ==>
                (Contents(), outcome) == (old(Contents()), Undecodable)
    {
      var snapshot := Wire.Unmarshal(Codec.SnapshotKinds, Codec.MergeSnapshot, Codec.EMPTY_SNAPSHOT, data);
      hide Coherent, ContentsOf, RestoreAll, MapEntries;
      if !snapshot.Ok? {
        return Undecodable;
      }
      outcome := RestoreEntries(MapEntries(v.value, snapshot.value.entries), clock);
    }

    /** Puts what the snapshot holds over what is there. */
    method RestoreEntries(entries: seq<LogEntry>, clock: Clock) returns (outcome: RestoreOutcome)
      requires Valid()
      modifies this, Repr
      ensures Valid() && fresh(Repr - old(Repr))
      ensures (Contents(), outcome) == RestoreAll(old(Contents()), entries)
    {
      hide RestoreAll, Coherent, ContentsOf, Put;
      ghost var before := Contents();
      assert (before, Restored) == RestoreAll(before, entries[..0]) by {
        RestoreNothing(before, entries);
      }
      for i := 0 to |entries|
        invariant Valid() && fresh(Repr - old(Repr))
        invariant (Contents(), Restored) == RestoreAll(before, entries[..i])
      {
        RestoreOne(before, entries, i);
        if entries[i].resource.None? {
          RestoreStops(before, entries, i + 1);
          return EmptyResource;
        }
        var build, res := NewResourceFromPB(entries[i].resource.value, clock);
        if !build.Built? {
          RestoreStops(before, entries, i + 1);
          return if build.NilDereference? then RestorePanicked else LimiterError;
        }
        PutResource(entries[i].resource.value.name, res);
      }
      assert entries[..|entries|] == entries;
      return Restored;
    }

    /** The snapshot as bytes, of the length computed beforehand. */
    method Snapshot(v: FloatView, current: NodeId) returns (data: array<byte>, ghost entries: seq<LogEntry>)
      requires Valid() && Storable()
      ensures fresh(data) && IsSnapshotOf(Contents().store, entries) && data[..] == SnapshotBytes(v, entries)
      ensures forall e :: e in entries ==> HoldsStatistics(e)
    {
      var messages := CreateSnapshotPB(current);
      entries := messages;
      hide Coherent, ContentsOf, IsSnapshotOf, Codec.EncodeSnapshot;
      data := Marshal.MarshalSnapshot(EntrySnapshot(MapEntries(v.bits, messages)));
    }

    /** All counters and times fit their machine types. */
    ghost predicate Storable()
      requires Valid()
      reads this, Repr, set k | k in store :: store[k].rps
    {
      forall k :: k in store ==> Representable(store[k].State()) && RpsHistories.Recordable(store[k].rps.entries)
    }

    /** An entry carries the statistics of the resource it names: its own count and its own readings. */
    ghost predicate HoldsStatistics(e: LogEntry)
      requires Valid() && Storable()
      reads this, Repr, set k | k in store :: store[k].rps
    {
      && e.resource.Some? && e.resource.value.name in store
      && var rps := store[e.resource.value.name].rps;
         e.resource.value.rps == Some(RpsHistories.HistoryPB(rps.reqCount, rps.entries))
    }

    /** The Put entry of one stored resource. */
    method PutEntry(name: Name, current: NodeId) returns (e: LogEntry)
      requires Valid() && Storable() && name in Contents().store
      ensures SnapshotEntry(e, name, Contents().store[name]) && HoldsStatistics(e)
    {
      hide Coherent, ContentsOf, Representable, Shows, StatesOf, Separate;
      ContentsShow();
      var m := store[name].ToPB(name);
      var id := GenerateEntryID();
      e := Entry(id, PUT_RESOURCE, current, Some(m));
    }

    /** One Put entry for every stored resource, in whatever order the map is walked. */
    method CreateSnapshotPB(current: NodeId) returns (entries: seq<LogEntry>)
      requires Valid() && Storable()
      ensures IsSnapshotOf(Contents().store, entries) && forall e :: e in entries ==> HoldsStatistics(e)
    {
      hide Valid, Storable, Contents, SnapshotEntry, HoldsStatistics;
      ContentsShow();
      entries := [];
      ghost var order: seq<Name> := [];
      var rest := store.Keys;
      while rest != {}
        invariant rest <= store.Keys
        invariant Walked(store.Keys, rest, order)
        invariant |entries| == |order| && forall e :: e in entries ==> HoldsStatistics(e)
        invariant forall i :: 0 <= i < |order| ==> SnapshotEntry(entries[i], order[i], Contents().store[order[i]])
      {
        var name :| name in rest;
        var e := PutEntry(name, current);
        WalkOn(store.Keys, rest, order, name);
        entries := entries + [e];
        order := order + [name];
        rest := rest - {name};
      }
      assert SnapshotOf(Contents().store, order, entries);
    }

    /** Asks up to ten times for the lightest node; if it never differs from the source nothing is moved. */
    method MoveNodeResources(src: NodeId, lightest: nat -> NodeId, now: Timestamp)
      returns (dst: Option<NodeId>, entries: seq<LogEntry>, ghost order: seq<Name>)
      requires Valid()
      ensures dst.None? <==> forall i :: 0 <= i < 10 ==> lightest(i) == src
      ensures dst.Some? ==> dst.value != src && exists i :: 0 <= i < 10 && dst.value == lightest(i)
      ensures dst.None? ==> entries == []
      ensures dst.Some? ==> EvacuationOf(Contents(), src, dst.value, order, entries)
    {
      dst, entries, order := None, [], [];
      var i := 0;
      while i < 10
        invariant 0 <= i <= 10
        invariant forall j :: 0 <= j < i ==> lightest(j) == src
      {
        if lightest(i) != src {
          dst := Some(lightest(i));
          break;
        }
        i := i + 1;
      }
      if dst.None? {
        return;
      }
      if src !in nodeStore {
        return;
      }
      var rest := nodeStore[src].Keys;
      while rest != {}
        invariant rest <= nodeStore[src].Keys
        invariant Walked(nodeStore[src].Keys, rest, order)
        invariant |entries| == |order|
        invariant forall i :: 0 <= i < |order| ==> UpdateTo(entries[i], order[i], dst.value)
      {
        var name :| name in rest;
        var id := GenerateEntryID();
        WalkOn(nodeStore[src].Keys, rest, order, name);
        entries := entries + [Entry(id, UPDATE_RESOURCE_NODE_ID, src, Some(EmptyResourcePB(name, dst.value, now)))];
        order := order + [name];
        rest := rest - {name};
      }
    }
  }

  /** A node that joins: it restores the bytes of another's snapshot into a manager of its own, which then
      holds the same resources, as objects of its own, and an exact index. */
  method CatchUp(v: FloatView, other: ResourceManager, current: NodeId, clock: Clock)
    returns (own: ResourceManager, data: array<byte>)
    requires OneZero(v) && other.Valid() && other.Storable() && AllExact(v, other.Contents().store)
    ensures own.Valid() && fresh(own) && fresh(own.Repr)
    ensures data.Length < TWO_TO_THE_63 ==>
              own.Contents().store == other.Contents().store && IndexExact(own.Contents())
  {
    hide IndexExact, IsSnapshotOf, RestoreBytes, SnapshotBytes, Coherent, ContentsOf, AllExact, OneZero;
    ghost var states := other.Contents().store;
    ghost var entries;
    data, entries := other.Snapshot(v, current);
    own := new ResourceManager();
    if data.Length < TWO_TO_THE_63 {
      AnySnapshotThroughBytes(v, states, entries);
      var outcome := own.Restore(v, data[..], clock);
    }
  }
}
