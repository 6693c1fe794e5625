/** Who decides an Allow request: every node holds a replica of the store, only the node a replica
    names as owner consults its limiter, the others forward. On top, the client that is redirected. */
module Routing {
  import opened Messages
  import opened ManagerState
  import TokenBuckets

  type Cluster = map<NodeId, map<Name, Stored>>

  /** The server's replies. `NoReply` is a request that is still being forwarded when the hops allowed
      for it are used up. */
  datatype Reply =
    | Answer(nodeId: NodeId, ok: bool, redirected: bool)
    | InvalidMsg
    | NotFound
    | ForwardFail
    | NoReply

  // ---------- what a server does with a request ----------

  function AtLeastOne(events: nat): nat {
    if events == 0 then 1 else events
  }

  /** The owner charges its own limiter. */
  function Charge(c: Cluster, owner: NodeId, name: Name, t: int, n: nat): Cluster
    requires owner in c
  {
    c[owner := Serve(c[owner], name, t, n)]
  }

  /** `up` are the peers that can be reached. */
  function Route(c: Cluster, at: NodeId, name: Name, events: nat, t: int, up: set<NodeId>, hops: nat): (Cluster, Reply)
    requires at in c
    decreases hops
  {
    if name == [] then (c, InvalidMsg)
    else if name !in c[at] then (c, NotFound)
    else
      var n, owner := AtLeastOne(events), c[at][name].nodeId;
      if owner == at then
        (Charge(c, at, name, t, n), Answer(at, TokenBuckets.AllowAt(c[at][name].bucket, t, n).1, false))
      else if owner !in c || owner !in up then (c, ForwardFail)
      else if hops == 0 then (c, NoReply)
      else
        var (c', reply) := Route(c, owner, name, n, t, up, hops - 1);
        (c', Forwarded(reply, owner))
  }

  /** What the forwarding node makes of its peer's reply. */
  function Forwarded(reply: Reply, owner: NodeId): Reply {
    match reply
    case Answer(_, ok, _) => Answer(owner, ok, true)
    case NoReply => NoReply
    case _ => ForwardFail
  }

  class AllowCmd {
    var resource: Name
    var events: nat

    constructor (resource: Name, events: nat)
      ensures this.resource == resource && this.events == events
    {
      this.resource := resource;
      this.events := events;
    }
  }

  class Servers {
    var stores: Cluster

    constructor (c: Cluster)
      ensures stores == c
    {
      stores := c;
    }

    /** Fills in the event count of the command, and the address of the reply it forwards. */
    method AllowPbCmd(at: NodeId, cmd: AllowCmd, t: int, up: set<NodeId>, hops: nat) returns (reply: Reply)
      requires at in stores
      modifies this, cmd
      ensures (stores, reply) == Route(old(stores), at, old(cmd.resource), old(cmd.events), t, up, hops)
      ensures cmd.resource == old(cmd.resource)
      ensures cmd.events == if old(cmd.resource) != [] && old(cmd.resource) in old(stores)[at]
                               && old(cmd.events) == 0
                            then 1 else old(cmd.events)
      decreases hops
    {
      var name := cmd.resource;
      if |name| < 1 {
        return InvalidMsg;
      }
      if name !in stores[at] {
        return NotFound;
      }
      if cmd.events == 0 {
        cmd.events := 1;
      }
      var owner := stores[at][name].nodeId;
      if owner != at {
        if owner !in stores || owner !in up {
          return ForwardFail;
        }
        if hops == 0 {
          return NoReply;
        }
        reply := AllowPbCmd(owner, cmd, t, up, hops - 1);
        if reply.NoReply? {
          return;
        }
        if !reply.Answer? {
          return ForwardFail;
        }
        reply := reply.(redirected := true);
        reply := reply.(nodeId := owner);
        return;
      }
      var (bucket, ok) := TokenBuckets.AllowAt(stores[at][name].bucket, t, cmd.events);
      stores := stores[at := stores[at][name := stores[at][name].(bucket := bucket)]];
      return Answer(at, ok, false);
    }
  }

  // ---------- what the owner makes of a request ----------

  /** A node that names itself as owner answers and charges its own limiter, and nothing else in the cluster
      changes. A request for some events is admitted exactly if the bucket, refilled, has as many tokens, and
      then takes exactly as many. */
  lemma OwnerTakesEvents(c: Cluster, at: NodeId, name: Name, events: nat, t: int, up: set<NodeId>, hops: nat)
    requires at in c && name != [] && name in c[at] && c[at][name].nodeId == at && 1 <= events
    ensures var r := c[at][name];
            var f := TokenBuckets.FillAt(r.bucket, t);
            var ok := events as real <= f.tokenCount;
            Route(c, at, name, events, t, up, hops)
            == (c[at := c[at][name := r.(bucket := f.(tokenCount := if ok then f.tokenCount - events as real
                                                                    else f.tokenCount))]],
                Answer(at, ok, false))
  {
    TokenBuckets.AllowIs(c[at][name].bucket, t, events);
    hide TokenBuckets.AllowAt, TokenBuckets.FillAt;
  }

  /** In terms of the bucket as it was: before the next fill the tokens decide, after it the time since the last
      fill as well, and no more than a burst is ever admitted at once. */
  lemma OwnerAdmitsIff(c: Cluster, at: NodeId, name: Name, events: nat, t: int, up: set<NodeId>, hops: nat)
    requires at in c && name != [] && name in c[at] && c[at][name].nodeId == at && 1 <= events
    requires c[at][name].bucket.WellFormed()
    ensures var b := c[at][name].bucket;
            Route(c, at, name, events, t, up, hops).1 == Answer(at, true, false) <==>
              if t <= b.nextFill then events as real <= b.tokenCount
              else && events <= b.burst
                   && (b.fillPeriod == 0
                       || (events as real - b.tokenCount) * b.fillPeriod as real <= (t - b.lastFilled) as real)
  {
    TokenBuckets.AdmitsIffRefilled(c[at][name].bucket, t, events);
    hide TokenBuckets.AllowAt;
  }

  /** Whoever decides it, a request for no events is one for a single event. */
  lemma NoEventsIsOne(c: Cluster, at: NodeId, name: Name, t: int, up: set<NodeId>, hops: nat)
    requires at in c
    ensures Route(c, at, name, 0, t, up, hops) == Route(c, at, name, 1, t, up, hops)
  {}

  /** Exactly which requests are refused, and why: an empty name, a name the node does not store, an owner it
      cannot reach or that answers with an error. A refusal charges nobody. */
  lemma {:induction false} RefusedIff(c: Cluster, at: NodeId, name: Name, events: nat, t: int, up: set<NodeId>,
                                      hops: nat)
    requires at in c
    ensures var (c', reply) := Route(c, at, name, events, t, up, hops);
            && (reply == InvalidMsg <==> name == [])
            && (reply == NotFound <==> name != [] && name !in c[at])
            && (reply == ForwardFail <==> EndsBadly(c, at, name, up, hops))
            && (!reply.Answer? ==> c' == c)
    decreases hops
  {
    if hops != 0 && Forwards(c, name, up, at).Some? {
      RefusedIff(c, c[at][name].nodeId, name, AtLeastOne(events), t, up, hops - 1);
    }
  }

  /** The way leads, within the hops, to an owner out of reach or to one that does not store the name. */
  predicate EndsBadly(c: Cluster, at: NodeId, name: Name, up: set<NodeId>, hops: nat)
    requires at in c
    decreases hops
  {
    && name != [] && name in c[at] && c[at][name].nodeId != at
    && var owner := c[at][name].nodeId;
       || owner !in c || owner !in up
       || (hops != 0 && (name !in c[owner] || EndsBadly(c, owner, name, up, hops - 1)))
  }

  // ---------- forwarding ends, or goes on for ever ----------

  function Forwards(c: Cluster, name: Name, up: set<NodeId>, at: NodeId): Option<NodeId>
    requires at in c
  {
    if name == [] || name !in c[at] then None
    else
      var owner := c[at][name].nodeId;
      if owner == at || owner !in c || owner !in up then None else Some(owner)
  }

  /** A set of nodes that only ever forward to each other. */
  ghost predicate Closed(c: Cluster, name: Name, up: set<NodeId>, s: set<NodeId>) {
    forall x :: x in s ==> x in c && Forwards(c, name, up, x).Some? && Forwards(c, name, up, x).value in s
  }

  lemma {:induction false} ClosedNeverReplies(c: Cluster, at: NodeId, name: Name, events: nat, t: int,
                                              up: set<NodeId>, hops: nat, s: set<NodeId>)
    requires Closed(c, name, up, s) && at in s && at in c
    ensures Route(c, at, name, events, t, up, hops) == (c, NoReply)
    decreases hops
  {
    if hops != 0 {
      ClosedNeverReplies(c, c[at][name].nodeId, name, AtLeastOne(events), t, up, hops - 1, s);
    }
  }

  lemma NoReplyForwards(c: Cluster, at: NodeId, name: Name, events: nat, t: int, up: set<NodeId>, hops: nat)
    requires at in c && Route(c, at, name, events, t, up, hops).1 == NoReply
    ensures Forwards(c, name, up, at).Some?
    ensures var owner := Forwards(c, name, up, at).value;
            owner in c && (hops != 0 ==> Route(c, owner, name, AtLeastOne(events), t, up, hops - 1).1 == NoReply)
  {}

  /** The nodes passed so far forward to each other or to the node reached. */
  ghost predicate LeadsTo(c: Cluster, name: Name, up: set<NodeId>, passed: set<NodeId>, at: NodeId) {
    forall x :: x in passed ==>
      x in c && Forwards(c, name, up, x).Some? && Forwards(c, name, up, x).value in passed + {at}
  }

  lemma LeadsBack(c: Cluster, name: Name, up: set<NodeId>, passed: set<NodeId>, at: NodeId)
    requires LeadsTo(c, name, up, passed, at) && at in passed
    ensures Closed(c, name, up, passed)
  {
    assert passed + {at} == passed;
  }

  lemma LeadsOn(c: Cluster, name: Name, up: set<NodeId>, passed: set<NodeId>, at: NodeId)
    requires LeadsTo(c, name, up, passed, at) && at in c && Forwards(c, name, up, at).Some?
    ensures LeadsTo(c, name, up, passed + {at}, Forwards(c, name, up, at).value)
  {}

  /** Following a request that finds no reply: the nodes passed so far close up into a set. */
  lemma {:induction false} Closing(c: Cluster, at: NodeId, name: Name, events: nat, t: int, up: set<NodeId>,
                                   hops: nat, passed: set<NodeId>)
    returns (s: set<NodeId>)
    requires at in c && PassedWithin(passed, c.Keys, hops)
    requires LeadsTo(c, name, up, passed, at) && Route(c, at, name, events, t, up, hops).1 == NoReply
    ensures at in s && Closed(c, name, up, s)
    ensures forall x :: x in passed ==> x in s
    decreases hops
  {
    hide Route, Forwards, LeadsTo, Closed, PassedWithin;
    NoReplyForwards(c, at, name, events, t, up, hops);
    if at in passed {
      LeadsBack(c, name, up, passed, at);
      s := passed;
    } else {
      PassOn(passed, c.Keys, hops, at);
      var owner := Forwards(c, name, up, at).value;
      var passed' := passed + {at};
      LeadsOn(c, name, up, passed, at);
      if hops == 0 {
        LeadsBack(c, name, up, passed', owner);
        s := passed';
      } else {
        s := Closing(c, owner, name, AtLeastOne(events), t, up, hops - 1, passed');
      }
    }
  }

  /** There are not enough nodes left to pass to outlast the hops. */
  ghost predicate PassedWithin(passed: set<NodeId>, nodes: set<NodeId>, hops: nat) {
    passed <= nodes && |nodes| <= hops + |passed| + 1
  }

  lemma PassOn(passed: set<NodeId>, nodes: set<NodeId>, hops: nat, at: NodeId)
    requires PassedWithin(passed, nodes, hops) && at in nodes && at !in passed
    ensures hops == 0 ==> passed + {at} == nodes
    ensures hops != 0 ==> PassedWithin(passed + {at}, nodes, hops - 1)
  {
    if hops == 0 {
      Full(passed + {at}, nodes);
    }
  }

  lemma Full(s: set<NodeId>, t: set<NodeId>)
    requires s <= t && |t| <= |s|
    ensures s == t
  {
    if s != t {
      var x :| x in t && x !in s;
      assert s + {x} <= t;
      Smaller(s + {x}, t);
    }
  }

  lemma {:induction false} Smaller(s: set<NodeId>, t: set<NodeId>)
    requires s <= t
    ensures |s| <= |t|
    decreases s
  {
    if s != {} {
      var x :| x in s;
      Smaller(s - {x}, t - {x});
    }
  }

  /** Exactly when a request finds no reply: when the node it is sent to belongs to a set of nodes that only
      forward to each other. One forward fewer than there are nodes is enough to tell. */
  lemma NoReplyIffClosed(c: Cluster, at: NodeId, name: Name, events: nat, t: int, up: set<NodeId>, hops: nat)
    requires at in c && |c.Keys| <= hops + 1
    ensures Route(c, at, name, events, t, up, hops).1 == NoReply <==> exists s :: at in s && Closed(c, name, up, s)
  {
    if Route(c, at, name, events, t, up, hops).1 == NoReply {
      var s := Closing(c, at, name, events, t, up, hops, {});
      assert at in s;
    } else if s :| at in s && Closed(c, name, up, s) {
      ClosedNeverReplies(c, at, name, events, t, up, hops, s);
      assert false;
    }
  }

  /** So a request gets its reply within one forward fewer than there are nodes, or never. */
  lemma RepliesWithinClusterOrNever(c: Cluster, at: NodeId, name: Name, events: nat, t: int, up: set<NodeId>, hops: nat)
    requires at in c && Route(c, at, name, events, t, up, |c.Keys| - 1).1 == NoReply
    ensures Route(c, at, name, events, t, up, hops) == (c, NoReply)
  {
    NoReplyIffClosed(c, at, name, events, t, up, |c.Keys| - 1);
    var s :| at in s && Closed(c, name, up, s);
    ClosedNeverReplies(c, at, name, events, t, up, hops, s);
  }

  /** More hops do not change a reply. */
  lemma {:induction false} ReplyIsFinal(c: Cluster, at: NodeId, name: Name, events: nat, t: int, up: set<NodeId>,
                                        hops: nat, more: nat)
    requires at in c && hops <= more && Route(c, at, name, events, t, up, hops).1 != NoReply
    ensures Route(c, at, name, events, t, up, more) == Route(c, at, name, events, t, up, hops)
    decreases hops
  {
    if hops != 0 && Forwards(c, name, up, at).Some? {
      ReplyIsFinal(c, c[at][name].nodeId, name, AtLeastOne(events), t, up, hops - 1, more - 1);
    }
  }

  /** Two nodes that name each other as owner bounce a request for ever. */
  lemma DisagreementNeverReplies(c: Cluster, a: NodeId, b: NodeId, name: Name, events: nat, t: int, up: set<NodeId>,
                                 hops: nat)
    requires a in c && b in c && a != b && a in up && b in up
    requires name != [] && name in c[a] && name in c[b]
    requires c[a][name].nodeId == b && c[b][name].nodeId == a
    ensures Route(c, a, name, events, t, up, hops) == (c, NoReply)
  {
    ClosedNeverReplies(c, a, name, events, t, up, hops, {a, b});
  }

  // ---------- nodes that agree ----------

  ghost predicate Agreed(c: Cluster, name: Name, owner: NodeId) {
    forall node :: node in c ==> name in c[node] && c[node][name].nodeId == owner
  }

  /** Only the owner is charged and one forward is enough. */
  lemma OwnerDecides(c: Cluster, at: NodeId, name: Name, events: nat, t: int, up: set<NodeId>, hops: nat, owner: NodeId)
    requires at in c && owner in c && owner in up && name != [] && Agreed(c, name, owner)
    requires 1 <= hops
    ensures var n := AtLeastOne(events);
            Route(c, at, name, events, t, up, hops)
            == (Charge(c, owner, name, t, n), Answer(owner, TokenBuckets.AllowAt(c[owner][name].bucket, t, n).1,
                                                     at != owner))
  {}

  lemma UnreachableOwner(c: Cluster, at: NodeId, name: Name, events: nat, t: int, up: set<NodeId>, hops: nat,
                         owner: NodeId)
    requires at in c && at != owner && name != [] && Agreed(c, name, owner)
    requires owner !in c || owner !in up
    ensures Route(c, at, name, events, t, up, hops) == (c, ForwardFail)
  {}

  /** Nodes that have applied the same log agree, whatever requests each of them has served. */
  lemma SameLogAgrees(histories: map<NodeId, seq<Event>>, log: seq<LogEntry>, name: Name)
    requires forall node :: node in histories ==> LogOf(histories[node]) == log
    requires name in PerformAll(map[], log)
    ensures var c := map node | node in histories :: Live(EMPTY, histories[node]).store;
            Agreed(c, name, PerformAll(map[], log)[name].nodeId)
  {
    forall node | node in histories
      ensures SameConfig(Live(EMPTY, histories[node]).store, PerformAll(map[], log))
    {
      LiveFollowsLog(EMPTY, map[], histories[node]);
    }
  }
}
