/** How much a cluster admits while its nodes apply the log each in its own time, or lag behind for good:
    replicas may disagree, and several nodes may take themselves for the owner at once. */
module LaggingReplicas {
  import opened Arithmetic
  import opened Messages
  import opened ManagerState
  import opened Routing
  import TokenBuckets
  import Bounds = ClusterBounds

  datatype Event =
    | AppliedAt(node: NodeId, e: LogEntry)
    | Requested(at: NodeId, name: Name, events: nat, t: int, up: set<NodeId>, hops: nat)

  function Happens(c: Cluster, ev: Event): (Cluster, Reply) {
    match ev
    case AppliedAt(node, e) =>
      (if node in c then c[node := Perform(c[node], OpOf(e))] else c, NoReply)
    case Requested(at, name, events, t, up, hops) =>
      if at in c then Route(c, at, name, events, t, up, hops) else (c, NoReply)
  }

  /** Events the callers are told they may do, whichever node decided. */
  function AdmittedFor(name: Name, c: Cluster, events: seq<Event>): nat
    decreases |events|
  {
    if events == [] then 0
    else
      var (c', reply) := Happens(c, events[0]);
      Admission(name, events[0], reply) + AdmittedFor(name, c', events[1..])
  }

  function Admission(name: Name, ev: Event, reply: Reply): nat {
    if ev.Requested? && ev.name == name && reply.Answer? && reply.ok then Bounds.EventsOf(ev.events) else 0
  }

  // ---------- who decides ----------

  /** The node whose limiter is consulted in the end: the first on the way that names itself. */
  function Decider(c: Cluster, at: NodeId, name: Name, up: set<NodeId>, hops: nat): Option<NodeId>
    requires at in c
    decreases hops
  {
    if name == [] || name !in c[at] then None
    else
      var owner := c[at][name].nodeId;
      if owner == at then Some(at)
      else if owner !in c || owner !in up || hops == 0 then None
      else Decider(c, owner, name, up, hops - 1)
  }

  function DeciderOf(c: Cluster, ev: Event): Option<NodeId> {
    if ev.Requested? && ev.at in c then Decider(c, ev.at, ev.name, ev.up, ev.hops) else None
  }

  predicate NamesItself(c: Cluster, x: NodeId, name: Name) {
    x in c && name in c[x] && c[x][name].nodeId == x
  }

  /** Only the decider is charged, and the caller gets its decision; without one nobody is. */
  lemma {:induction false} DeciderDecides(c: Cluster, at: NodeId, name: Name, events: nat, t: int, up: set<NodeId>,
                                          hops: nat)
    requires at in c
    ensures var (c', reply) := Route(c, at, name, events, t, up, hops);
            var (x, n) := (Decider(c, at, name, up, hops), AtLeastOne(events));
            if x.None? then c' == c && !reply.Answer?
            else
              && NamesItself(c, x.value, name) && c' == Charge(c, x.value, name, t, n)
              && reply.Answer? && reply.ok == TokenBuckets.AllowAt(c[x.value][name].bucket, t, n).1
    decreases hops
  {
    if hops != 0 && Forwards(c, name, up, at).Some? {
      DeciderDecides(c, c[at][name].nodeId, name, AtLeastOne(events), t, up, hops - 1);
    }
  }

  /** Events that one node has admitted. */
  function AdmittedAt(x: NodeId, name: Name, c: Cluster, events: seq<Event>): nat
    decreases |events|
  {
    if events == [] then 0
    else
      var (c', reply) := Happens(c, events[0]);
      (if DeciderOf(c, events[0]) == Some(x) then Admission(name, events[0], reply) else 0)
      + AdmittedAt(x, name, c', events[1..])
  }

  // ---------- what one node accounts for ----------

  /** How often a node becomes the owner in its own eyes: by a put that names it, or by a move to it. */
  function SelfTakeovers(x: NodeId, name: Name, owner: Option<NodeId>, events: seq<Event>): nat
    decreases |events|
  {
    if events == [] then 0
    else if events[0].AppliedAt? && events[0].node == x then
      var op := OpOf(events[0].e);
      (if Bounds.TakesOver(name, owner, op) && Bounds.OwnerAfter(name, owner, op) == Some(x) then 1 else 0)
      + SelfTakeovers(x, name, Bounds.OwnerAfter(name, owner, op), events[1..])
    else SelfTakeovers(x, name, owner, events[1..])
  }

  /** The time that passes, by the clock readings of the requests, while a node is the owner in its own eyes. */
  function OwnedTime(x: NodeId, name: Name, owner: Option<NodeId>, now: int, events: seq<Event>): int
    decreases |events|
  {
    if events == [] then 0
    else if events[0].Requested? then
      (if owner == Some(x) then events[0].t - now else 0) + OwnedTime(x, name, owner, events[0].t, events[1..])
    else if events[0].node == x then
      OwnedTime(x, name, Bounds.OwnerAfter(name, owner, OpOf(events[0].e)), now, events[1..])
    else OwnedTime(x, name, owner, now, events[1..])
  }

  predicate Ordered(events: seq<Event>, from: int)
    decreases |events|
  {
    if events == [] then true
    else if events[0].Requested? then from <= events[0].t && Ordered(events[1..], events[0].t)
    else Ordered(events[1..], from)
  }

  ghost predicate PutsLimited(name: Name, ev: Event, burst: nat, p: int) {
    ev.AppliedAt? && OpOf(ev.e).Set? && OpOf(ev.e).name == name ==> Bounds.Limits(OpOf(ev.e).r.bucket, burst, p)
  }

  /** The owner that a node's replica names. */
  function OwnerIn(c: Cluster, x: NodeId, name: Name): Option<NodeId> {
    if x in c && name in c[x] then Some(c[x][name].nodeId) else None
  }

  ghost predicate LimitedAt(c: Cluster, x: NodeId, name: Name, burst: nat, p: int) {
    x in c && name in c[x] ==> Bounds.Limits(c[x][name].bucket, burst, p)
  }

  function Own(owner: Option<NodeId>, x: NodeId): nat {
    if owner == Some(x) then 1 else 0
  }

  /** While a node is the owner in its own eyes its bucket goes through the calls; while it is not there
      are none. */
  ghost predicate Tracks(c: Cluster, x: NodeId, name: Name, b: Bucket, calls: seq<TokenBuckets.Call>,
                         start: int, now: int, burst: nat, p: int) {
    && Bounds.Limits(b, burst, p) && LimitedAt(c, x, name, burst, p) && start <= now
    && (forall i :: 0 <= i < |calls| ==> start <= calls[i].t <= now)
    && if NamesItself(c, x, name) then c[x][name].bucket == TokenBuckets.Run(b, calls) else calls == [] && start == now
  }

  // ---------- one step of one node ----------

  lemma ChargeElsewhere(c: Cluster, x: NodeId, name: Name, y: NodeId, other: Name, t: int, n: nat)
    requires y in c && (x != y || name != other)
    ensures var c' := Charge(c, y, other, t, n);
            (x in c' <==> x in c) && (x in c ==> (name in c'[x] <==> name in c[x]))
            && (x in c && name in c[x] ==> c'[x][name] == c[x][name])
  {}

  lemma ChargedHere(c: Cluster, x: NodeId, name: Name, t: int, n: nat, burst: nat, p: int)
    requires NamesItself(c, x, name) && LimitedAt(c, x, name, burst, p)
    ensures var c' := Charge(c, x, name, t, n);
            && NamesItself(c', x, name) && LimitedAt(c', x, name, burst, p)
            && c'[x][name].bucket == TokenBuckets.AllowAt(c[x][name].bucket, t, n).0
  {
    TokenBuckets.StepKeepsWellFormed(c[x][name].bucket, TokenBuckets.Call.Allow(t, n));
  }

  /** A request either is decided by the node, whose bucket sees one more call, or passes it by. */
  lemma Request(c: Cluster, x: NodeId, name: Name, b: Bucket, calls: seq<TokenBuckets.Call>,
                start: int, now: int, burst: nat, p: int, ev: Event)
    returns (start': int, calls': seq<TokenBuckets.Call>)
    requires ev.Requested? && now <= ev.t && Tracks(c, x, name, b, calls, start, now, burst, p)
    ensures var (c', reply) := Happens(c, ev);
            && OwnerIn(c', x, name) == OwnerIn(c, x, name)
            && Tracks(c', x, name, b, calls', start', ev.t, burst, p)
            && start' == (if OwnerIn(c, x, name) == Some(x) then start else ev.t)
            && TokenBuckets.Admitted(b, calls')
               == TokenBuckets.Admitted(b, calls)
                  + (if DeciderOf(c, ev) == Some(x) then Admission(name, ev, reply) else 0)
  {
    calls' := calls;
    start' := if OwnerIn(c, x, name) == Some(x) then start else ev.t;
    if ev.at in c {
      DeciderDecides(c, ev.at, ev.name, ev.events, ev.t, ev.up, ev.hops);
      var decider, n := DeciderOf(c, ev), AtLeastOne(ev.events);
      hide Decider, Route, Charge;
      if decider.Some? {
        if decider.value == x && ev.name == name {
          ChargedHere(c, x, name, ev.t, n, burst, p);
          Bounds.OneMoreCall(b, calls, ev.t, n);
          calls' := calls + [TokenBuckets.Call.Allow(ev.t, n)];
        } else {
          ChargeElsewhere(c, x, name, decider.value, ev.name, ev.t, n);
        }
      }
    }
  }

  /** An entry at another node passes the node by. */
  lemma EntryElsewhere(c: Cluster, x: NodeId, name: Name, ev: Event)
    requires ev.AppliedAt? && ev.node != x
    ensures var c' := Happens(c, ev).0;
            (x in c' <==> x in c) && (x in c ==> c'[x] == c[x])
  {}

  lemma EntryHere(c: Cluster, x: NodeId, name: Name, ev: Event, burst: nat, p: int)
    requires x in c && ev.AppliedAt? && ev.node == x
    requires PutsLimited(name, ev, burst, p) && LimitedAt(c, x, name, burst, p)
    ensures var c': Cluster := Happens(c, ev).0;
            var op := OpOf(ev.e);
            && OwnerIn(c', x, name) == Bounds.OwnerAfter(name, OwnerIn(c, x, name), op)
            && x in c' && LimitedAt(c', x, name, burst, p)
            && (!Bounds.TakesOver(name, OwnerIn(c, x, name), op) && name in c'[x] ==>
                  name in c[x] && c'[x][name].bucket == c[x][name].bucket)
  {}

  /** The node's own ownership begins anew, or ends, or has not begun. */
  lemma StartOver(c: Cluster, x: NodeId, name: Name, b: Bucket, now: int, burst: nat, p: int) returns (b': Bucket)
    requires LimitedAt(c, x, name, burst, p) && Bounds.Limits(b, burst, p)
    ensures Tracks(c, x, name, b', [], now, now, burst, p)
  {
    b' := if NamesItself(c, x, name) then c[x][name].bucket else b;
  }

  // ---------- all steps of one node ----------

  /** What is still allowed from a state on: one burst if the node owns the resource, and so on. */
  function Allowance(x: NodeId, name: Name, owner: Option<NodeId>, now: int, events: seq<Event>, full: int): int {
    (Own(owner, x) + SelfTakeovers(x, name, owner, events)) * full + OwnedTime(x, name, owner, now, events)
  }

  lemma {:induction false} NodeTracked(c: Cluster, x: NodeId, name: Name, b: Bucket, calls: seq<TokenBuckets.Call>,
                                       events: seq<Event>, start: int, now: int, burst: nat, p: nat)
    requires x in c && Tracks(c, x, name, b, calls, start, now, burst, p)
    requires (forall ev :: ev in events ==> PutsLimited(name, ev, burst, p)) && Ordered(events, now)
    ensures (TokenBuckets.Admitted(b, calls) + AdmittedAt(x, name, c, events)) * p
            <= Allowance(x, name, OwnerIn(c, x, name), now, events, (burst + 1) * p) + (now - start)
    decreases |events|, 1
  {
    if events == [] {
      Spent(c, x, name, b, calls, start, now, burst, p);
    } else if events[0].Requested? {
      var start', calls' := Request(c, x, name, b, calls, start, now, burst, p, events[0]);
      StaysIn(c, x, events[0]);
      hide Tracks, Happens, PutsLimited;
      NodeTracked(Happens(c, events[0]).0, x, name, b, calls', events[1..], start', events[0].t, burst, p);
    } else if events[0].node != x {
      EntryElsewhere(c, x, name, events[0]);
      hide Happens, PutsLimited;
      NodeTracked(Happens(c, events[0]).0, x, name, b, calls, events[1..], start, now, burst, p);
    } else {
      OwnEntry(c, x, name, b, calls, events, start, now, burst, p);
    }
  }

  lemma StaysIn(c: Cluster, x: NodeId, ev: Event)
    requires x in c
    ensures x in Happens(c, ev).0
  {
    if ev.Requested? && ev.at in c {
      DeciderDecides(c, ev.at, ev.name, ev.events, ev.t, ev.up, ev.hops);
      hide Route;
    }
  }

  /** What the calls so far have spent is paid for. */
  lemma Spent(c: Cluster, x: NodeId, name: Name, b: Bucket, calls: seq<TokenBuckets.Call>,
              start: int, now: int, burst: nat, p: nat)
    requires x in c && Tracks(c, x, name, b, calls, start, now, burst, p)
    ensures TokenBuckets.Admitted(b, calls) * p <= Own(OwnerIn(c, x, name), x) * ((burst + 1) * p) + (now - start)
  {
    Bounds.SpentByOneOwner(b, calls, start, now, Own(OwnerIn(c, x, name), x), burst, p);
  }

  lemma {:induction false} OwnEntry(c: Cluster, x: NodeId, name: Name, b: Bucket, calls: seq<TokenBuckets.Call>,
                                    events: seq<Event>, start: int, now: int, burst: nat, p: nat)
    requires x in c && Tracks(c, x, name, b, calls, start, now, burst, p)
    requires (forall ev :: ev in events ==> PutsLimited(name, ev, burst, p)) && Ordered(events, now)
    requires events != [] && events[0].AppliedAt? && events[0].node == x
    ensures (TokenBuckets.Admitted(b, calls) + AdmittedAt(x, name, c, events)) * p
            <= Allowance(x, name, OwnerIn(c, x, name), now, events, (burst + 1) * p) + (now - start)
    decreases |events|, 0
  {
    hide Tracks, Happens, PutsLimited, AdmittedAt, SelfTakeovers, OwnedTime, OwnerIn, TokenBuckets.Admitted;
    assert PutsLimited(name, events[0], burst, p);
    var owner, op := OwnerIn(c, x, name), OpOf(events[0].e);
    var c': Cluster := Happens(c, events[0]).0;
    OwnEntryTracks(c, x, name, b, calls, events[0], start, now, burst, p);
    var owner' := OwnerIn(c', x, name);
    FirstEntry(c, x, name, events, now);
    if owner == Some(x) && owner' == Some(x) && !Bounds.TakesOver(name, owner, op) {
      NodeTracked(c', x, name, b, calls, events[1..], start, now, burst, p);
    } else {
      Spent(c, x, name, b, calls, start, now, burst, p);
      var b' := StartOver(c', x, name, b, now, burst, p);
      NodeTracked(c', x, name, b', [], events[1..], now, now, burst, p);
      Bounds.NothingYet(b');
      Renewed(TokenBuckets.Admitted(b, calls), AdmittedAt(x, name, c', events[1..]), Own(owner, x), Own(owner', x),
              SelfTakeovers(x, name, owner', events[1..]), p, (burst + 1) * p,
              now - start, OwnedTime(x, name, owner', now, events[1..]));
    }
  }

  lemma OwnEntryTracks(c: Cluster, x: NodeId, name: Name, b: Bucket, calls: seq<TokenBuckets.Call>, ev: Event,
                       start: int, now: int, burst: nat, p: int)
    requires x in c && Tracks(c, x, name, b, calls, start, now, burst, p)
    requires ev.AppliedAt? && ev.node == x && PutsLimited(name, ev, burst, p)
    ensures var c' := Happens(c, ev).0;
            var owner, owner' := OwnerIn(c, x, name), OwnerIn(c', x, name);
            && x in c' && owner' == Bounds.OwnerAfter(name, owner, OpOf(ev.e))
            && LimitedAt(c', x, name, burst, p) && Bounds.Limits(b, burst, p) && start <= now
            && (owner == Some(x) && owner' == Some(x) && !Bounds.TakesOver(name, owner, OpOf(ev.e)) ==>
                  Tracks(c', x, name, b, calls, start, now, burst, p))
  {
    EntryHere(c, x, name, ev, burst, p);
  }

  lemma FirstEntry(c: Cluster, x: NodeId, name: Name, events: seq<Event>, now: int)
    requires events != [] && events[0].AppliedAt? && events[0].node == x
    ensures var owner, op := OwnerIn(c, x, name), OpOf(events[0].e);
            var owner' := Bounds.OwnerAfter(name, owner, op);
            var taken := if Bounds.TakesOver(name, owner, op) && owner' == Some(x) then 1 else 0;
            && AdmittedAt(x, name, c, events) == AdmittedAt(x, name, Happens(c, events[0]).0, events[1..])
            && SelfTakeovers(x, name, owner, events) == taken + SelfTakeovers(x, name, owner', events[1..])
            && OwnedTime(x, name, owner, now, events) == OwnedTime(x, name, owner', now, events[1..])
  {}

  lemma Renewed(spent: nat, later: nat, own: nat, own': nat, more: nat, p: nat, full: int, before: int, after: int)
    requires spent * p <= own * full + before
    requires later * p <= (own' + more) * full + after
    ensures (spent + later) * p <= (own + (own' + more)) * full + after + before
  {
    Distribute(spent, later, p);
    Distribute(own, own' + more, full);
  }

  /** Whatever entries a node has applied, and when: it admits no more than a burst and one event for each time
      it takes itself for the owner, and one event for each period while it does. */
  lemma NodeBound(c: Cluster, x: NodeId, name: Name, burst: nat, p: nat, events: seq<Event>, from: int)
    requires x in c && LimitedAt(c, x, name, burst, p)
    requires (forall ev :: ev in events ==> PutsLimited(name, ev, burst, p)) && Ordered(events, from)
    ensures AdmittedAt(x, name, c, events) * p
            <= Allowance(x, name, OwnerIn(c, x, name), from, events, (burst + 1) * p)
  {
    var any := TokenBuckets.Bucket(1.0, burst, 0.0, p, 0, p);
    var b := StartOver(c, x, name, any, from, burst, p);
    Bounds.NothingYet(b);
    hide Tracks, AdmittedAt, Allowance, Ordered, PutsLimited;
    NodeTracked(c, x, name, b, [], events, from, from, burst, p);
  }

  // ---------- all nodes ----------

  function SumAdmitted(nodes: seq<NodeId>, name: Name, c: Cluster, events: seq<Event>): nat {
    if nodes == [] then 0 else AdmittedAt(nodes[0], name, c, events) + SumAdmitted(nodes[1..], name, c, events)
  }

  function SumAllowances(nodes: seq<NodeId>, name: Name, c: Cluster, from: int, events: seq<Event>, full: int): int {
    if nodes == [] then 0
    else
      Allowance(nodes[0], name, OwnerIn(c, nodes[0], name), from, events, full)
      + SumAllowances(nodes[1..], name, c, from, events, full)
  }

  lemma {:induction false} SumStep(nodes: seq<NodeId>, name: Name, c: Cluster, events: seq<Event>)
    requires events != [] && forall i, j :: 0 <= i < j < |nodes| ==> nodes[i] != nodes[j]
    ensures var (c', reply) := Happens(c, events[0]);
            var x := DeciderOf(c, events[0]);
            SumAdmitted(nodes, name, c, events)
            == SumAdmitted(nodes, name, c', events[1..])
               + (if x.Some? && x.value in nodes then Admission(name, events[0], reply) else 0)
    decreases |nodes|
  {
    if nodes != [] {
      SumStep(nodes[1..], name, c, events);
      hide Happens, DeciderOf, Admission;
      assert nodes == [nodes[0]] + nodes[1..];
      assert nodes[0] !in nodes[1..];
    }
  }

  /** Every admission is the decision of one node. */
  lemma {:induction false} AdmissionsAreDecisions(nodes: seq<NodeId>, name: Name, c: Cluster, events: seq<Event>)
    requires (forall i, j :: 0 <= i < j < |nodes| ==> nodes[i] != nodes[j]) && (forall x :: x in c ==> x in nodes)
    ensures AdmittedFor(name, c, events) == SumAdmitted(nodes, name, c, events)
    decreases |events|
  {
    if events == [] {
      NothingAdmitted(nodes, name, c);
    } else {
      SumStep(nodes, name, c, events);
      DeciderFound(c, events[0]);
      hide Happens, DeciderOf, SumAdmitted;
      AdmissionsAreDecisions(nodes, name, Happens(c, events[0]).0, events[1..]);
    }
  }

  lemma {:induction false} NothingAdmitted(nodes: seq<NodeId>, name: Name, c: Cluster)
    ensures SumAdmitted(nodes, name, c, []) == 0
  {
    if nodes != [] {
      NothingAdmitted(nodes[1..], name, c);
    }
  }

  lemma DeciderFound(c: Cluster, ev: Event)
    ensures var (c', reply) := Happens(c, ev);
            && c'.Keys == c.Keys
            && (DeciderOf(c, ev).None? ==> !reply.Answer?)
            && (DeciderOf(c, ev).Some? ==> DeciderOf(c, ev).value in c)
  {
    if ev.Requested? && ev.at in c {
      DeciderDecides(c, ev.at, ev.name, ev.events, ev.t, ev.up, ev.hops);
      hide Route, Decider;
    }
  }

  /** The bound for a whole cluster of replicas that apply what they apply when they apply it: the admissions
      are at most the sum, over the nodes, of a burst and one event for each of its self-ownerships, and the
      time these have lasted divided by the period. */
  lemma LaggingBound(c: Cluster, nodes: seq<NodeId>, name: Name, burst: nat, p: nat, events: seq<Event>, from: int)
    requires (forall i, j :: 0 <= i < j < |nodes| ==> nodes[i] != nodes[j]) && (forall x :: x in c <==> x in nodes)
    requires forall x :: x in c ==> LimitedAt(c, x, name, burst, p)
    requires (forall ev :: ev in events ==> PutsLimited(name, ev, burst, p)) && Ordered(events, from)
    ensures AdmittedFor(name, c, events) * p <= SumAllowances(nodes, name, c, from, events, (burst + 1) * p)
  {
    AdmissionsAreDecisions(nodes, name, c, events);
    hide AdmittedFor, LimitedAt, PutsLimited, Ordered;
    SumsBounded(nodes, c, name, burst, p, events, from);
  }

  lemma {:induction false} SumsBounded(nodes: seq<NodeId>, c: Cluster, name: Name, burst: nat, p: nat,
                                       events: seq<Event>, from: int)
    requires forall x :: x in nodes ==> x in c && LimitedAt(c, x, name, burst, p)
    requires (forall ev :: ev in events ==> PutsLimited(name, ev, burst, p)) && Ordered(events, from)
    ensures SumAdmitted(nodes, name, c, events) * p <= SumAllowances(nodes, name, c, from, events, (burst + 1) * p)
    decreases |nodes|
  {
    hide LimitedAt, PutsLimited, Ordered, AdmittedAt, Allowance;
    if nodes != [] {
      NodeBound(c, nodes[0], name, burst, p, events, from);
      SumsBounded(nodes[1..], c, name, burst, p, events, from);
      Distribute(AdmittedAt(nodes[0], name, c, events), SumAdmitted(nodes[1..], name, c, events), p);
    }
  }
}
