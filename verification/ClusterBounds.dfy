/** How much a whole cluster admits for one name while the resource is put, moved from node to node and
    removed. Log entries take effect on all nodes at once; requests arrive anywhere and carry a shared
    clock. */
module ClusterBounds {
  import opened Arithmetic
  import opened Messages
  import opened ManagerState
  import opened Routing
  import TokenBuckets

  datatype ClusterEvent =
    | Applied(e: LogEntry)
    | Requested(at: NodeId, name: Name, events: nat, t: int, up: set<NodeId>, hops: nat)

  function ApplyEverywhere(c: Cluster, op: Op): Cluster {
    map node | node in c :: Perform(c[node], op)
  }

  function Happens(c: Cluster, ev: ClusterEvent): (Cluster, Reply) {
    match ev
    case Applied(e) => (ApplyEverywhere(c, OpOf(e)), NoReply)
    case Requested(at, name, events, t, up, hops) =>
      if at in c then Route(c, at, name, events, t, up, hops) else (c, NoReply)
  }

  /** Events that any node of the cluster has admitted for a name. */
  function AdmittedFor(name: Name, c: Cluster, events: seq<ClusterEvent>): nat
    decreases |events|
  {
    if events == [] then 0
    else
      var (c', reply) := Happens(c, events[0]);
      AdmittedBy(name, events[0], reply) + AdmittedFor(name, c', events[1..])
  }

  function AdmittedBy(name: Name, ev: ClusterEvent, reply: Reply): nat {
    if ev.Requested? && ev.name == name && reply.Answer? && reply.ok then EventsOf(ev.events) else 0
  }

  /** What a yes is worth: the events of the request itself, and one for a request that names none. */
  function EventsOf(events: nat): nat {
    if events != 0 then events else 1
  }

  /** The owner of a name, if it is stored, after an operation. */
  function OwnerAfter(name: Name, owner: Option<NodeId>, op: Op): Option<NodeId> {
    match op
    case Set(k, r) => if k == name then Some(r.nodeId) else owner
    case Delete(k) => if k == name then None else owner
    case SetNode(k, node) => if k == name && owner.Some? then Some(node) else owner
    case Nothing => owner
  }

  /** Another bucket takes over: the name is put, or its resource moves to another node. */
  predicate TakesOver(name: Name, owner: Option<NodeId>, op: Op) {
    (op.Set? && op.name == name) || (op.SetNode? && op.name == name && owner.Some? && op.node != owner.value)
  }

  /** The number of buckets that decide for a name one after the other, from a given owner on. */
  function Ownerships(name: Name, owner: Option<NodeId>, events: seq<ClusterEvent>): nat {
    Held(owner) + Takeovers(name, owner, events)
  }

  function Held(owner: Option<NodeId>): nat {
    if owner.Some? then 1 else 0
  }

  function Takeovers(name: Name, owner: Option<NodeId>, events: seq<ClusterEvent>): nat
    decreases |events|
  {
    if events == [] then 0
    else if events[0].Requested? then Takeovers(name, owner, events[1..])
    else
      var op := OpOf(events[0].e);
      (if TakesOver(name, owner, op) then 1 else 0) + Takeovers(name, OwnerAfter(name, owner, op), events[1..])
  }

  /** A bucket as a constructor builds it, with at most this burst and at least this period. */
  ghost predicate Limits(b: Bucket, burst: nat, p: int) {
    b.WellFormed() && b.burst <= burst && p <= b.fillPeriod
  }

  /** What is put under the name stays within the limits. */
  ghost predicate PutsLimited(name: Name, ev: ClusterEvent, burst: nat, p: int) {
    ev.Applied? && OpOf(ev.e).Set? && OpOf(ev.e).name == name ==> Limits(OpOf(ev.e).r.bucket, burst, p)
  }

  /** The clock readings lie between two times and never run backwards. */
  predicate Ordered(events: seq<ClusterEvent>, from: int, until: int)
    decreases |events|
  {
    if events == [] then from <= until
    else if events[0].Requested? then from <= events[0].t && Ordered(events[1..], events[0].t, until)
    else Ordered(events[1..], from, until)
  }

  lemma {:induction false} OrderedSpan(events: seq<ClusterEvent>, from: int, until: int)
    requires Ordered(events, from, until)
    ensures from <= until
    decreases |events|
  {
    if events != [] {
      OrderedSpan(events[1..], if events[0].Requested? then events[0].t else from, until);
    }
  }

  /** All nodes agree whether the name is stored, and with which owner; its buckets are within the limits. */
  ghost predicate Sound(c: Cluster, name: Name, owner: Option<NodeId>, burst: nat, p: int) {
    forall node :: node in c ==>
      if owner.None? then name !in c[node]
      else name in c[node] && c[node][name].nodeId == owner.value && Limits(c[node][name].bucket, burst, p)
  }

  lemma {:induction false} RouteOther(c: Cluster, at: NodeId, other: Name, events: nat, t: int, up: set<NodeId>,
                                      hops: nat, name: Name)
    requires at in c && other != name
    ensures var c' := Route(c, at, other, events, t, up, hops).0;
            && c'.Keys == c.Keys
            && forall node :: node in c ==>
                 (name in c'[node] <==> name in c[node]) && (name in c[node] ==> c'[node][name] == c[node][name])
    decreases hops
  {
    if hops != 0 && Forwards(c, other, up, at).Some? {
      RouteOther(c, c[at][other].nodeId, other, AtLeastOne(events), t, up, hops - 1, name);
    }
  }

  /** Where the nodes agree a request is either answered by the owner, who is charged, or not at all. */
  lemma RouteAgreed(c: Cluster, at: NodeId, name: Name, events: nat, t: int, up: set<NodeId>, hops: nat, owner: NodeId)
    requires at in c && name != [] && Agreed(c, name, owner)
    ensures var (c', reply) := Route(c, at, name, events, t, up, hops);
            || (c' == c && !reply.Answer?)
            || (&& owner in c && reply.Answer? && c' == Charge(c, owner, name, t, AtLeastOne(events))
                && reply.ok == TokenBuckets.AllowAt(c[owner][name].bucket, t, AtLeastOne(events)).1)
  {
    if at != owner && owner in c && owner in up {
      if hops != 0 {
        OwnerDecides(c, at, name, events, t, up, hops, owner);
      }
    } else if at != owner {
      UnreachableOwner(c, at, name, events, t, up, hops, owner);
    }
  }

  lemma ChargeKeepsSound(c: Cluster, owner: NodeId, name: Name, t: int, n: nat, burst: nat, p: int)
    requires owner in c && Sound(c, name, Some(owner), burst, p)
    ensures Sound(Charge(c, owner, name, t, n), name, Some(owner), burst, p)
  {
    TokenBuckets.StepKeepsWellFormed(c[owner][name].bucket, TokenBuckets.Call.Allow(t, n));
  }

  lemma ApplyKeepsSound(c: Cluster, name: Name, owner: Option<NodeId>, ev: ClusterEvent, burst: nat, p: int)
    requires ev.Applied? && PutsLimited(name, ev, burst, p) && Sound(c, name, owner, burst, p)
    ensures var (c', op) := (Happens(c, ev).0, OpOf(ev.e));
            && c'.Keys == c.Keys && Sound(c', name, OwnerAfter(name, owner, op), burst, p)
            && (!TakesOver(name, owner, op) ==>
                  forall node :: node in c && name in c'[node] ==>
                    name in c[node] && c'[node][name].bucket == c[node][name].bucket)
  {}

  // ---------- one ownership ----------

  /** While one bucket decides, it goes through the calls, all between two times; before there is an owner
      there are no calls. */
  ghost predicate Tracks(c: Cluster, name: Name, owner: Option<NodeId>, b: Bucket, calls: seq<TokenBuckets.Call>,
                         from: int, now: int, open: nat, burst: nat, p: int) {
    && Limits(b, burst, p) && Sound(c, name, owner, burst, p)
    && (owner.Some? && owner.value in c ==> c[owner.value][name].bucket == TokenBuckets.Run(b, calls))
    && (forall i :: 0 <= i < |calls| ==> from <= calls[i].t <= now)
    && from <= now
    && (open == 0 ==> owner.None? && calls == [])
  }

  /** What one bucket admits, measured in the shortest period and the largest burst. */
  lemma SpentByOneOwner(b: Bucket, calls: seq<TokenBuckets.Call>, from: int, now: int, open: nat, burst: nat, p: nat)
    requires Limits(b, burst, p) && from <= now
    requires forall i :: 0 <= i < |calls| ==> from <= calls[i].t <= now
    requires open == 0 ==> calls == []
    ensures TokenBuckets.Admitted(b, calls) * p <= open * ((burst + 1) * p) + (now - from)
  {
    hide TokenBuckets.Run;
    NonNegativeProduct(burst + 1, p);
    NonNegativeProduct(open, (burst + 1) * p);
    if calls == [] {
      ZeroProduct(p, TokenBuckets.Admitted(b, calls));
    } else {
      TokenBuckets.WindowBound(b, calls);
      TokenBuckets.LatestAttained(calls, calls[0].t);
      ScaleInt(1, open, (burst + 1) * p);
      SlowerPeriod(TokenBuckets.Admitted(b, calls), b.burst, b.fillPeriod, burst, p, now - from);
    }
  }

  /** A bound in events and periods gets no tighter with more events or a shorter period. */
  lemma SlowerPeriod(admitted: nat, burst: nat, period: nat, most: nat, p: nat, elapsed: nat)
    requires burst <= most && p <= period
    requires admitted * period <= (burst + 1) * period + elapsed
    ensures admitted * p <= (most + 1) * p + elapsed
  {
    var over := admitted - (burst + 1);
    Distribute(burst + 1, over, period);
    Distribute(burst + 1, over, p);
    ScaleInt(burst + 1, most + 1, p);
    if 0 <= over {
      ScaleFactor(p, period, over);
    } else {
      ScaleInt(over, 0, p);
    }
  }

  lemma ScaleFactor(x: nat, y: nat, k: nat)
    requires x <= y
    ensures k * x <= k * y
  {}

  lemma OneMoreCall(b: Bucket, calls: seq<TokenBuckets.Call>, t: int, n: nat)
    ensures var calls', bucket := calls + [TokenBuckets.Call.Allow(t, n)], TokenBuckets.Run(b, calls);
            && TokenBuckets.Run(b, calls') == TokenBuckets.AllowAt(bucket, t, n).0
            && TokenBuckets.Admitted(b, calls')
               == TokenBuckets.Admitted(b, calls) + (if TokenBuckets.AllowAt(bucket, t, n).1 then n else 0)
  {
    var call := TokenBuckets.Call.Allow(t, n);
    TokenBuckets.RunConcat(b, calls, [call]);
    assert [call][1..] == [];
  }

  lemma Request(c: Cluster, name: Name, owner: Option<NodeId>, b: Bucket, calls: seq<TokenBuckets.Call>,
                from: int, now: int, open: nat, burst: nat, p: int, ev: ClusterEvent)
    returns (calls': seq<TokenBuckets.Call>)
    requires ev.Requested? && now <= ev.t && name != [] && Tracks(c, name, owner, b, calls, from, now, open, burst, p)
    ensures var (c', reply) := Happens(c, ev);
            && Tracks(c', name, owner, b, calls', from, ev.t, open, burst, p)
            && TokenBuckets.Admitted(b, calls') == TokenBuckets.Admitted(b, calls) + AdmittedBy(name, ev, reply)
  {
    calls' := calls;
    if ev.at in c {
      if ev.name != name {
        RouteOther(c, ev.at, ev.name, ev.events, ev.t, ev.up, ev.hops, name);
      } else if owner.Some? {
        RouteAgreed(c, ev.at, name, ev.events, ev.t, ev.up, ev.hops, owner.value);
        if Happens(c, ev).1.Answer? {
          calls' := Charged(c, name, owner.value, b, calls, from, now, open, burst, p, ev.t, AtLeastOne(ev.events));
        }
      }
    }
  }

  lemma Charged(c: Cluster, name: Name, owner: NodeId, b: Bucket, calls: seq<TokenBuckets.Call>,
                from: int, now: int, open: nat, burst: nat, p: int, t: int, n: nat)
    returns (calls': seq<TokenBuckets.Call>)
    requires now <= t && owner in c && Tracks(c, name, Some(owner), b, calls, from, now, open, burst, p)
    ensures Tracks(Charge(c, owner, name, t, n), name, Some(owner), b, calls', from, t, open, burst, p)
    ensures TokenBuckets.Admitted(b, calls')
            == TokenBuckets.Admitted(b, calls) + (if TokenBuckets.AllowAt(c[owner][name].bucket, t, n).1 then n else 0)
  {
    calls' := calls + [TokenBuckets.Call.Allow(t, n)];
    OneMoreCall(b, calls, t, n);
    ChargeKeepsSound(c, owner, name, t, n, burst, p);
  }

  /** An entry that lets nobody take over leaves the bucket that decides alone. */
  lemma EntryTracks(c: Cluster, name: Name, owner: Option<NodeId>, b: Bucket, calls: seq<TokenBuckets.Call>,
                    from: int, now: int, open: nat, burst: nat, p: int, ev: ClusterEvent)
    requires Tracks(c, name, owner, b, calls, from, now, open, burst, p)
    requires ev.Applied? && PutsLimited(name, ev, burst, p) && !TakesOver(name, owner, OpOf(ev.e))
    ensures Tracks(Happens(c, ev).0, name, OwnerAfter(name, owner, OpOf(ev.e)), b, calls, from, now, open, burst, p)
  {
    ApplyKeepsSound(c, name, owner, ev, burst, p);
  }

  /** The new owner starts with its own replica of the bucket. */
  lemma TakeoverTracks(c: Cluster, name: Name, owner: Option<NodeId>, b: Bucket, calls: seq<TokenBuckets.Call>,
                       from: int, now: int, open: nat, burst: nat, p: int, ev: ClusterEvent)
    returns (b': Bucket)
    requires Tracks(c, name, owner, b, calls, from, now, open, burst, p)
    requires ev.Applied? && PutsLimited(name, ev, burst, p) && TakesOver(name, owner, OpOf(ev.e))
    ensures Tracks(Happens(c, ev).0, name, OwnerAfter(name, owner, OpOf(ev.e)), b', [], now, now, 1, burst, p)
  {
    var next := OwnerAfter(name, owner, OpOf(ev.e)).value;
    var c': Cluster := Happens(c, ev).0;
    ApplyKeepsSound(c, name, owner, ev, burst, p);
    b' := if next in c then c'[next][name].bucket else b;
  }

  // ---------- all ownerships ----------

  lemma {:induction false} OwnershipsBound(c: Cluster, name: Name, owner: Option<NodeId>, b: Bucket,
                                           calls: seq<TokenBuckets.Call>, events: seq<ClusterEvent>,
                                           from: int, now: int, until: int, open: nat, burst: nat, p: nat)
    requires name != [] && Tracks(c, name, owner, b, calls, from, now, open, burst, p)
    requires (forall ev :: ev in events ==> PutsLimited(name, ev, burst, p)) && Ordered(events, now, until)
    ensures (TokenBuckets.Admitted(b, calls) + AdmittedFor(name, c, events)) * p
            <= (open + Takeovers(name, owner, events)) * ((burst + 1) * p) + (until - from)
    decreases |events|, 1
  {
    if events == [] {
      SpentByOneOwner(b, calls, from, until, open, burst, p);
    } else if events[0].Requested? {
      var calls' := Request(c, name, owner, b, calls, from, now, open, burst, p, events[0]);
      hide Tracks, Happens, PutsLimited;
      OwnershipsBound(Happens(c, events[0]).0, name, owner, b, calls', events[1..], from, events[0].t, until,
                      open, burst, p);
    } else if TakesOver(name, owner, OpOf(events[0].e)) {
      NextOwnership(c, name, owner, b, calls, events, from, now, until, open, burst, p);
    } else {
      EntryTracks(c, name, owner, b, calls, from, now, open, burst, p, events[0]);
      hide Tracks, Happens, PutsLimited;
      OwnershipsBound(Happens(c, events[0]).0, name, OwnerAfter(name, owner, OpOf(events[0].e)), b, calls,
                      events[1..], from, now, until, open, burst, p);
    }
  }

  lemma {:induction false} NextOwnership(c: Cluster, name: Name, owner: Option<NodeId>, b: Bucket,
                                         calls: seq<TokenBuckets.Call>, events: seq<ClusterEvent>,
                                         from: int, now: int, until: int, open: nat, burst: nat, p: nat)
    requires name != [] && Tracks(c, name, owner, b, calls, from, now, open, burst, p)
    requires (forall ev :: ev in events ==> PutsLimited(name, ev, burst, p)) && Ordered(events, now, until)
    requires events != [] && events[0].Applied? && TakesOver(name, owner, OpOf(events[0].e))
    ensures (TokenBuckets.Admitted(b, calls) + AdmittedFor(name, c, events)) * p
            <= (open + Takeovers(name, owner, events)) * ((burst + 1) * p) + (until - from)
    decreases |events|, 0
  {
    var next := OwnerAfter(name, owner, OpOf(events[0].e));
    var c': Cluster := Happens(c, events[0]).0;
    var b' := TakeoverTracks(c, name, owner, b, calls, from, now, open, burst, p, events[0]);
    SpentByOneOwner(b, calls, from, now, open, burst, p);
    NothingYet(b');
    FirstEvent(name, c, owner, events);
    hide Happens, AdmittedFor, Takeovers, Tracks, TokenBuckets.Admitted, PutsLimited;
    OwnershipsBound(c', name, next, b', [], events[1..], now, now, until, 1, burst, p);
    TakeoverArithmetic(TokenBuckets.Admitted(b, calls), AdmittedFor(name, c', events[1..]), open,
                       Takeovers(name, next, events[1..]), p, (burst + 1) * p, now - from, until - now);
  }

  lemma NothingYet(b: Bucket)
    ensures TokenBuckets.Admitted(b, []) == 0
  {}

  lemma FirstEvent(name: Name, c: Cluster, owner: Option<NodeId>, events: seq<ClusterEvent>)
    requires events != [] && events[0].Applied? && TakesOver(name, owner, OpOf(events[0].e))
    ensures AdmittedFor(name, c, events) == AdmittedFor(name, Happens(c, events[0]).0, events[1..])
    ensures Takeovers(name, owner, events)
            == 1 + Takeovers(name, OwnerAfter(name, owner, OpOf(events[0].e)), events[1..])
  {}

  lemma TakeoverArithmetic(spent: nat, later: nat, open: nat, more: nat, p: nat, full: int, before: int, after: int)
    requires spent * p <= open * full + before
    requires later * p <= (1 + more) * full + after
    ensures (spent + later) * p <= (open + (1 + more)) * full + (before + after)
  {
    Distribute(spent, later, p);
    Distribute(open, 1 + more, full);
  }

  /** Over any run of the whole cluster, with requests arriving at any node and any log entries in between,
      the events admitted for a name are at most `ownerships * (burst + 1) + elapsed / p`, where burst is
      the largest and p the shortest period of the buckets put under it. An ownership begins with each put
      of the name and each move to another node. */
  lemma ClusterBound(c: Cluster, name: Name, owner: Option<NodeId>, burst: nat, p: nat, events: seq<ClusterEvent>,
                     from: int, until: int)
    requires name != [] && Sound(c, name, owner, burst, p)
    requires (forall ev :: ev in events ==> PutsLimited(name, ev, burst, p)) && Ordered(events, from, until)
    ensures AdmittedFor(name, c, events) * p <= Ownerships(name, owner, events) * ((burst + 1) * p) + (until - from)
  {
    var b := if owner.Some? && owner.value in c then c[owner.value][name].bucket
             else TokenBuckets.Bucket(1.0, burst, 0.0, p, 0, p);
    OrderedSpan(events, from, until);
    NothingYet(b);
    assert Tracks(c, name, owner, b, [], from, from, Held(owner), burst, p);
    hide Tracks, AdmittedFor, Takeovers, Ordered, PutsLimited;
    OwnershipsBound(c, name, owner, b, [], events, from, from, until, Held(owner), burst, p);
  }

  /** In particular a cluster that starts with nothing stored admits no more than its whole log accounts for. */
  lemma ClusterBoundFromNothing(nodes: set<NodeId>, name: Name, burst: nat, p: nat, events: seq<ClusterEvent>,
                                from: int, until: int)
    requires name != []
    requires (forall ev :: ev in events ==> PutsLimited(name, ev, burst, p)) && Ordered(events, from, until)
    ensures var c: Cluster := map node | node in nodes :: map[];
            AdmittedFor(name, c, events) * p <= Takeovers(name, None, events) * ((burst + 1) * p) + (until - from)
  {
    var c: Cluster := map node | node in nodes :: map[];
    ClusterBound(c, name, None, burst, p, events, from, until);
  }

  /** With one put and otherwise only moves of the name there are as many ownerships as moves, and one. */
  lemma {:induction false} OwnershipsOfMoves(name: Name, owner: NodeId, events: seq<ClusterEvent>)
    requires forall ev :: ev in events ==> Keeps(name, ev)
    ensures Ownerships(name, Some(owner), events) == 1 + Moves(name, owner, events)
    decreases |events|
  {
    if events != [] {
      var next := if IsMove(name, owner, events[0]) then OpOf(events[0].e).node else owner;
      assert Keeps(name, events[0]);
      assert events[0].Applied? ==> OwnerAfter(name, Some(owner), OpOf(events[0].e)) == Some(next);
      hide OpOf;
      OwnershipsOfMoves(name, next, events[1..]);
    }
  }

  predicate IsMove(name: Name, owner: NodeId, ev: ClusterEvent) {
    ev.Applied? && OpOf(ev.e).SetNode? && OpOf(ev.e).name == name && OpOf(ev.e).node != owner
  }

  /** How often the owner of a name changes. */
  function Moves(name: Name, owner: NodeId, events: seq<ClusterEvent>): nat
    decreases |events|
  {
    if events == [] then 0
    else if IsMove(name, owner, events[0]) then 1 + Moves(name, OpOf(events[0].e).node, events[1..])
    else Moves(name, owner, events[1..])
  }

  /** The resource itself is neither put anew nor removed. */
  predicate Keeps(name: Name, ev: ClusterEvent) {
    ev.Applied? ==> var op := OpOf(ev.e); !(op.Set? && op.name == name) && !(op.Delete? && op.name == name)
  }

  /** From the entry on that puts the resource, with moves after it: `moves + 1` bursts, and the time. */
  lemma ClusterBoundFromPut(c: Cluster, put: LogEntry, name: Name, r: Stored, events: seq<ClusterEvent>,
                            from: int, until: int)
    requires name != [] && OpOf(put) == Set(name, r) && r.bucket.WellFormed()
    requires (forall ev :: ev in events ==> Keeps(name, ev)) && Ordered(events, from, until)
    ensures var p := r.bucket.fillPeriod;
            AdmittedFor(name, c, [Applied(put)] + events) * p
            <= (1 + Moves(name, r.nodeId, events)) * ((r.bucket.burst + 1) * p) + (until - from)
  {
    var c', burst, p := Happens(c, Applied(put)).0, r.bucket.burst, r.bucket.fillPeriod;
    PutMakesSound(c, put, name, r);
    OwnershipsOfMoves(name, r.nodeId, events);
    PutFirst(name, c, put, events);
    hide Sound, AdmittedFor, Moves, Ownerships, Happens;
    ClusterBound(c', name, Some(r.nodeId), burst, p, events, from, until);
  }

  lemma PutMakesSound(c: Cluster, put: LogEntry, name: Name, r: Stored)
    requires OpOf(put) == Set(name, r) && r.bucket.WellFormed()
    ensures Sound(Happens(c, Applied(put)).0, name, Some(r.nodeId), r.bucket.burst, r.bucket.fillPeriod)
  {}

  lemma PutFirst(name: Name, c: Cluster, put: LogEntry, events: seq<ClusterEvent>)
    ensures AdmittedFor(name, c, [Applied(put)] + events) == AdmittedFor(name, Happens(c, Applied(put)).0, events)
  {
    assert ([Applied(put)] + events)[1..] == events;
  }
}
