/** The client's side of an Allow request: it asks the node it has bound the resource to, or the
    leader, and on a redirect binds the resource anew and asks again. */
module Clients {
  import opened Messages
  import opened ManagerState
  import opened Routing
  import TokenBuckets

  type Bindings = map<Name, NodeId>

  /** `Endless` stands for a call that has not returned after the retries allowed for it. */
  datatype ClientError = Nil | NoConnection | ServerError | NotPooled | Endless

  datatype Result = Result(bindings: Bindings, stores: Cluster, ok: bool, err: ClientError)

  function Target(bindings: Bindings, leader: Option<NodeId>, name: Name): Option<NodeId> {
    if name in bindings then Some(bindings[name]) else leader
  }

  /** How the cluster is reached: the pooled connections, the leader, the time each attempt is
      decided at, the peers the servers reach and the forwards they have time for. */
  datatype Net = Net(pool: set<NodeId>, leader: Option<NodeId>, clock: nat -> int, up: set<NodeId>, hops: nat)

  /** Errors come with a positive answer, so that a caller who ignores them is let through. */
  function AllowFrom(bindings: Bindings, c: Cluster, net: Net, name: Name, events: nat, attempt: nat,
                     retries: nat): Result
    decreases retries
  {
    var target := Target(bindings, net.leader, name);
    if target.None? then Result(bindings, c, true, NoConnection)
    else if target.value !in c then Result(bindings, c, true, ServerError)
    else
      var (c', reply) := Route(c, target.value, name, events, net.clock(attempt), net.up, net.hops);
      if !reply.Answer? then Result(bindings, c', true, ServerError)
      else if !reply.redirected then Result(bindings, c', reply.ok, Nil)
      else if reply.nodeId !in net.pool then Result(bindings, c', true, NotPooled)
      else if retries == 0 then Result(bindings[name := reply.nodeId], c', true, Endless)
      else AllowFrom(bindings[name := reply.nodeId], c', net, name, events, attempt + 1, retries - 1)
  }

  /** Registering binds the resource to the node it was put on, unless the leader answered for itself. */
  function AfterRegister(bindings: Bindings, leader: NodeId, name: Name, node: NodeId): Bindings {
    if leader != node then bindings[name := node] else bindings
  }

  class TCPClient {
    var resPool: Bindings

    constructor ()
      ensures resPool == map[]
    {
      resPool := map[];
    }

    method BindResourceConn(node: NodeId, name: Name)
      modifies this
      ensures resPool == old(resPool)[name := node]
    {
      resPool := resPool - {name};
      resPool := resPool[name := node];
    }

    method Allow(servers: Servers, net: Net, name: Name, events: nat, attempt: nat, retries: nat)
      returns (ok: bool, err: ClientError)
      modifies this, servers
      ensures Result(resPool, servers.stores, ok, err)
              == AllowFrom(old(resPool), old(servers.stores), net, name, events, attempt, retries)
      decreases retries
    {
      var target := if name in resPool then Some(resPool[name]) else net.leader;
      if target.None? {
        return true, NoConnection;
      }
      if target.value !in servers.stores {
        return true, ServerError;
      }
      var cmd := new AllowCmd(name, events);
      var reply := servers.AllowPbCmd(target.value, cmd, net.clock(attempt), net.up, net.hops);
      if !reply.Answer? {
        return true, ServerError;
      }
      if reply.redirected {
        if reply.nodeId !in net.pool {
          return true, NotPooled;
        }
        BindResourceConn(reply.nodeId, name);
        if retries == 0 {
          return true, Endless;
        }
        ok, err := Allow(servers, net, name, events, attempt + 1, retries - 1);
        return;
      }
      return reply.ok, Nil;
    }

    /** `reply` is the node a successful registration names; a registration that failed changes nothing. */
    method RegisterTokenBucket(net: Net, name: Name, reply: Option<NodeId>) returns (err: ClientError)
      modifies this
      ensures net.leader.None? ==> err == NoConnection
      ensures net.leader.Some? && reply.None? ==> err == ServerError
      ensures net.leader.Some? && reply.Some? ==>
                err == if net.leader.value == reply.value || reply.value in net.pool then Nil else NotPooled
      ensures resPool == if err == Nil then AfterRegister(old(resPool), net.leader.value, name, reply.value)
                         else old(resPool)
      ensures forall k :: k != name ==> Target(resPool, None, k) == Target(old(resPool), None, k)
      ensures if err == Nil && net.leader.value != reply.value then name in resPool && resPool[name] == reply.value
              else resPool == old(resPool)
    {
      if net.leader.None? {
        return NoConnection;
      }
      if reply.None? {
        return ServerError;
      }
      var node := reply.value;
      if net.leader.value != node {
        if node !in net.pool {
          return NotPooled;
        }
        BindResourceConn(node, name);
      }
      return Nil;
    }
  }

  /** Whatever fails, the caller is let through. */
  lemma {:induction false} FailuresLetThrough(bindings: Bindings, c: Cluster, net: Net, name: Name, events: nat,
                                              attempt: nat, retries: nat)
    ensures var r := AllowFrom(bindings, c, net, name, events, attempt, retries);
            r.err != Nil ==> r.ok
    decreases retries
  {
    var target := Target(bindings, net.leader, name);
    if target.Some? && target.value in c && retries != 0 {
      var (c', reply) := Route(c, target.value, name, events, net.clock(attempt), net.up, net.hops);
      if reply.Answer? {
        FailuresLetThrough(bindings[name := reply.nodeId], c', net, name, events, attempt + 1, retries - 1);
      }
    }
  }

  /** A call may bind its own name anew, and no other. */
  lemma {:induction false} OtherBindingsKept(bindings: Bindings, c: Cluster, net: Net, name: Name, events: nat,
                                             attempt: nat, retries: nat, k: Name)
    requires k != name
    ensures var r := AllowFrom(bindings, c, net, name, events, attempt, retries);
            (k in r.bindings <==> k in bindings) && (k in bindings ==> r.bindings[k] == bindings[k])
    decreases retries
  {
    hide Route;
    var target := Target(bindings, net.leader, name);
    if target.Some? && target.value in c && retries != 0 {
      var (c', reply) := Route(c, target.value, name, events, net.clock(attempt), net.up, net.hops);
      if reply.Answer? {
        OtherBindingsKept(bindings[name := reply.nodeId], c', net, name, events, attempt + 1, retries - 1, k);
      }
    }
  }

  /** Exactly how a call can fail at its first attempt: nobody to ask, an error for a reply, or a redirect to a node
      the client has no connection to. Then no binding has changed; only the last of them can follow a charge. */
  lemma FirstAttemptFails(bindings: Bindings, c: Cluster, net: Net, name: Name, events: nat, attempt: nat,
                          retries: nat)
    ensures var r := AllowFrom(bindings, c, net, name, events, attempt, retries);
            var target := Target(bindings, net.leader, name);
            && (target.None? ==> r == Result(bindings, c, true, NoConnection))
            && (target.Some? && target.value !in c ==> r == Result(bindings, c, true, ServerError))
            && (target.Some? && target.value in c ==>
                  var (c', reply) := Route(c, target.value, name, events, net.clock(attempt), net.up, net.hops);
                  && (!reply.Answer? ==> r == Result(bindings, c, true, ServerError))
                  && (reply.Answer? && reply.redirected && reply.nodeId !in net.pool ==>
                        r == Result(bindings, c', true, NotPooled)))
  {
    var target := Target(bindings, net.leader, name);
    if target.Some? && target.value in c {
      RefusedIff(c, target.value, name, events, net.clock(attempt), net.up, net.hops);
      hide Route;
    }
  }

  /** There is nobody to ask exactly if the name is not bound and there is no leader. */
  lemma {:induction false} NoConnectionIff(bindings: Bindings, c: Cluster, net: Net, name: Name, events: nat,
                                           attempt: nat, retries: nat)
    ensures AllowFrom(bindings, c, net, name, events, attempt, retries).err == NoConnection
            <==> name !in bindings && net.leader.None?
    decreases retries
  {
    hide Route;
    var target := Target(bindings, net.leader, name);
    if target.Some? && target.value in c && retries != 0 {
      var (c', reply) := Route(c, target.value, name, events, net.clock(attempt), net.up, net.hops);
      if reply.Answer? {
        NoConnectionIff(bindings[name := reply.nodeId], c', net, name, events, attempt + 1, retries - 1);
      }
    }
  }

  // ---------- convergence ----------

  /** The calls the last node's limiter sees, one for each attempt. */
  function Attempts(net: Net, n: nat, attempt: nat, k: nat): (calls: seq<TokenBuckets.Call>)
    ensures |calls| == k
    decreases k
  {
    if k == 0 then [] else [TokenBuckets.Call.Allow(net.clock(attempt), n)] + Attempts(net, n, attempt + 1, k - 1)
  }

  /** The decision on the last of some calls. */
  function LastDecision(b: Bucket, calls: seq<TokenBuckets.Call>): bool
    requires calls != []
  {
    TokenBuckets.Step(TokenBuckets.Run(b, calls[..|calls| - 1]), calls[|calls| - 1]).1.Granted?
  }

  function WithBucket(c: Cluster, owner: NodeId, name: Name, b: Bucket): Cluster
    requires owner in c && name in c[owner]
  {
    c[owner := c[owner][name := c[owner][name].(bucket := b)]]
  }

  // ---------- whole chains ----------

  /** Nodes that forward to one another, and a last one that names itself. */
  ghost predicate Chain(c: Cluster, name: Name, up: set<NodeId>, path: seq<NodeId>)
    decreases |path|
  {
    && path != [] && path[0] in c && name in c[path[0]]
    && if |path| == 1 then c[path[0]][name].nodeId == path[0]
       else
         && c[path[0]][name].nodeId == path[1] && path[1] != path[0] && path[1] in up
         && Chain(c, name, up, path[1..])
  }

  function Last(path: seq<NodeId>): NodeId
    requires path != []
  {
    path[|path| - 1]
  }

  lemma {:induction false} ChainEnds(c: Cluster, name: Name, up: set<NodeId>, path: seq<NodeId>)
    requires Chain(c, name, up, path)
    ensures path != []
    ensures Last(path) in c && name in c[Last(path)] && c[Last(path)][name].nodeId == Last(path)
    decreases |path|
  {
    if |path| != 1 {
      ChainEnds(c, name, up, path[1..]);
    }
  }

  lemma {:induction false} ChargeKeepsChain(c: Cluster, name: Name, up: set<NodeId>, path: seq<NodeId>,
                                            x: NodeId, b: Bucket)
    requires Chain(c, name, up, path) && x in c && name in c[x]
    ensures Chain(WithBucket(c, x, name, b), name, up, path)
    decreases |path|
  {
    if |path| != 1 {
      ChargeKeepsChain(c, name, up, path[1..], x, b);
    }
  }

  /** What the first node of a chain makes of a request: the last one decides, and the reply names the second. */
  lemma {:induction false} ChainDecides(c: Cluster, name: Name, events: nat, t: int, up: set<NodeId>, hops: nat,
                                        path: seq<NodeId>)
    requires name != [] && Chain(c, name, up, path) && |path| <= hops + 1
    ensures Last(path) in c && name in c[Last(path)]
    ensures var (last, n) := (Last(path), AtLeastOne(events));
            var (b, ok) := TokenBuckets.AllowAt(c[last][name].bucket, t, n);
            Route(c, path[0], name, events, t, up, hops)
            == (WithBucket(c, last, name, b), Answer(if |path| == 1 then last else path[1], ok, |path| != 1))
    decreases |path|
  {
    hide TokenBuckets.AllowAt;
    if |path| != 1 {
      ChainStarts(c, name, up, path);
      ChainDecides(c, name, AtLeastOne(events), t, up, hops - 1, path[1..]);
    }
  }

  lemma ChainStarts(c: Cluster, name: Name, up: set<NodeId>, path: seq<NodeId>)
    requires Chain(c, name, up, path) && |path| != 1
    ensures path[0] in c && name in c[path[0]] && c[path[0]][name].nodeId == path[1] && path[1] != path[0]
    ensures path[1] in up && path[1] in c && Chain(c, name, up, path[1..]) && Last(path[1..]) == Last(path)
  {
    assert path[1..][0] == path[1];
  }

  lemma MoreAttempts(b: Bucket, call: TokenBuckets.Call, calls: seq<TokenBuckets.Call>)
    requires calls != []
    ensures var b' := TokenBuckets.Step(b, call).0;
            && TokenBuckets.Run(b, [call] + calls) == TokenBuckets.Run(b', calls)
            && LastDecision(b, [call] + calls) == LastDecision(b', calls)
  {
    var all := [call] + calls;
    assert all[1..] == calls && all[..|all| - 1] == [call] + calls[..|calls| - 1];
    assert all[..|all| - 1][1..] == calls[..|calls| - 1];
  }

  /** Whether the nodes agree or not: a client that asks the first node of a chain is handed on from node to
      node. It ends without an error, bound to the last one, with that node's own decision; and that node
      alone is charged, once for each node of the chain. */
  lemma {:induction false} ChainConverges(bindings: Bindings, c: Cluster, net: Net, name: Name, events: nat,
                                          attempt: nat, retries: nat, path: seq<NodeId>)
    requires name != [] && Chain(c, name, net.up, path) && Target(bindings, net.leader, name) == Some(path[0])
    requires |path| <= net.hops + 1 && |path| <= retries + 1
    requires forall x :: x in path[1..] ==> x in net.pool
    ensures Last(path) in c && name in c[Last(path)]
    ensures var last := Last(path);
            var b := c[last][name].bucket;
            var calls := Attempts(net, AtLeastOne(events), attempt, |path|);
            AllowFrom(bindings, c, net, name, events, attempt, retries)
            == Result(if |path| == 1 then bindings else bindings[name := last],
                      WithBucket(c, last, name, TokenBuckets.Run(b, calls)), LastDecision(b, calls), Nil)
    decreases |path|
  {
    hide AllowFrom, Route, LastDecision, WithBucket, Chain, TokenBuckets.AllowAt, TokenBuckets.Run;
    ChainEnds(c, name, net.up, path);
    if |path| == 1 {
      AskLast(bindings, c, net, name, events, attempt, retries, path);
    } else {
      var n, t, last := AtLeastOne(events), net.clock(attempt), Last(path);
      var b := c[last][name].bucket;
      var b' := TokenBuckets.AllowAt(b, t, n).0;
      HandOn(bindings, c, net, name, events, attempt, retries, path, b');
      ChainStarts(c, name, net.up, path);
      ChargeKeepsChain(c, name, net.up, path[1..], last, b');
      WithBucketShows(c, last, name, b');
      assert forall x :: x in path[1..][1..] ==> x in path[1..];
      ChainConverges(bindings[name := path[1]], WithBucket(c, last, name, b'), net, name, events,
                     attempt + 1, retries - 1, path[1..]);
      MoreAttempts(b, TokenBuckets.Call.Allow(t, n), Attempts(net, n, attempt + 1, |path| - 1));
      StepOfAllow(b, t, n);
      Rebound(bindings, name, path);
      WithBucketTwice(c, last, name, b', TokenBuckets.Run(b', Attempts(net, n, attempt + 1, |path| - 1)));
    }
  }

  lemma AskLast(bindings: Bindings, c: Cluster, net: Net, name: Name, events: nat, attempt: nat, retries: nat,
                path: seq<NodeId>)
    requires name != [] && |path| == 1 && Chain(c, name, net.up, path)
    requires Target(bindings, net.leader, name) == Some(path[0])
    ensures var b := c[path[0]][name].bucket;
            var calls := Attempts(net, AtLeastOne(events), attempt, 1);
            AllowFrom(bindings, c, net, name, events, attempt, retries)
            == Result(bindings, WithBucket(c, path[0], name, TokenBuckets.Run(b, calls)), LastDecision(b, calls), Nil)
  {
    hide Route, LastDecision, TokenBuckets.AllowAt, TokenBuckets.Run;
    var n, t := AtLeastOne(events), net.clock(attempt);
    ChainDecides(c, name, events, t, net.up, net.hops, path);
    RunOfOne(c[path[0]][name].bucket, t, n);
    assert Attempts(net, n, attempt, 1) == [TokenBuckets.Call.Allow(t, n)];
  }

  lemma StepOfAllow(b: Bucket, t: int, n: nat)
    ensures TokenBuckets.Step(b, TokenBuckets.Call.Allow(t, n)).0 == TokenBuckets.AllowAt(b, t, n).0
  {}

  lemma WithBucketShows(c: Cluster, x: NodeId, name: Name, b: Bucket)
    requires x in c && name in c[x]
    ensures var c' := WithBucket(c, x, name, b);
            x in c' && name in c'[x] && c'[x][name].bucket == b
  {}

  /** One redirect: the client binds to the second node of the chain and asks again. */
  lemma HandOn(bindings: Bindings, c: Cluster, net: Net, name: Name, events: nat, attempt: nat, retries: nat,
               path: seq<NodeId>, b': Bucket)
    requires |path| != 1 && name != [] && Chain(c, name, net.up, path) && |path| <= net.hops + 1 && 1 <= retries
    requires Target(bindings, net.leader, name) == Some(path[0]) && path[1] in net.pool
    requires Last(path) in c && name in c[Last(path)]
    requires b' == TokenBuckets.AllowAt(c[Last(path)][name].bucket, net.clock(attempt), AtLeastOne(events)).0
    ensures AllowFrom(bindings, c, net, name, events, attempt, retries)
            == AllowFrom(bindings[name := path[1]], WithBucket(c, Last(path), name, b'), net, name, events,
                         attempt + 1, retries - 1)
  {
    ChainDecides(c, name, events, net.clock(attempt), net.up, net.hops, path);
    hide Route, WithBucket, TokenBuckets.AllowAt, Last;
  }

  lemma Rebound(bindings: Bindings, name: Name, path: seq<NodeId>)
    requires 2 <= |path|
    ensures var first := bindings[name := path[1]];
            (if |path[1..]| == 1 then first else first[name := Last(path[1..])]) == bindings[name := Last(path)]
  {}

  lemma WithBucketTwice(c: Cluster, x: NodeId, name: Name, b: Bucket, b': Bucket)
    requires x in c && name in c[x]
    ensures WithBucket(WithBucket(c, x, name, b), x, name, b') == WithBucket(c, x, name, b')
  {
    var s, r := c[x], c[x][name];
    assert s[name := r.(bucket := b)][name := r.(bucket := b')] == s[name := r.(bucket := b')];
  }

  // ---------- agreement ----------

  /** The client asks the owner, or asks a node that reaches it and can follow the redirect. */
  predicate Reaches(c: Cluster, net: Net, target: Option<NodeId>, owner: NodeId, retries: nat) {
    && target.Some? && target.value in c && owner in c
    && (target.value == owner || (owner in net.up && 1 <= net.hops && owner in net.pool && 1 <= retries))
  }

  /** Where the nodes agree on an owner the client reaches, a request ends after at most one new binding,
      with the owner's own decision; the client ends up bound to the owner exactly if it was redirected,
      and only the owner's limiter is charged, once for a client that asked the owner and twice
      for one that did not. */
  lemma RedirectConverges(bindings: Bindings, c: Cluster, net: Net, name: Name, events: nat, attempt: nat,
                          retries: nat, owner: NodeId)
    requires name != [] && Agreed(c, name, owner)
    requires Reaches(c, net, Target(bindings, net.leader, name), owner, retries)
    ensures var target := Target(bindings, net.leader, name).value;
            var calls := Attempts(net, AtLeastOne(events), attempt, if target == owner then 1 else 2);
            var b := c[owner][name].bucket;
            AllowFrom(bindings, c, net, name, events, attempt, retries)
            == Result(if target == owner then bindings else bindings[name := owner],
                      WithBucket(c, owner, name, TokenBuckets.Run(b, calls)),
                      LastDecision(b, calls), Nil)
  {
    var target := Target(bindings, net.leader, name).value;
    var path := if target == owner then [owner] else [target, owner];
    assert path[1..] == if target == owner then [] else [owner];
    hide AllowFrom, Attempts, LastDecision;
    assert Chain(c, name, net.up, path);
    ChainConverges(bindings, c, net, name, events, attempt, retries, path);
  }

  /** Exactly when the caller gets an answer without an error, which is then the owner's decision. */
  lemma AnsweredIffReached(bindings: Bindings, c: Cluster, net: Net, name: Name, events: nat, attempt: nat,
                           retries: nat, owner: NodeId)
    requires name != [] && Agreed(c, name, owner)
    ensures AllowFrom(bindings, c, net, name, events, attempt, retries).err == Nil
            <==> Reaches(c, net, Target(bindings, net.leader, name), owner, retries)
  {
    var target := Target(bindings, net.leader, name);
    if Reaches(c, net, target, owner, retries) {
      RedirectConverges(bindings, c, net, name, events, attempt, retries, owner);
    } else if target.Some? && target.value in c {
      var t := net.clock(attempt);
      if owner !in c || owner !in net.up {
        UnreachableOwner(c, target.value, name, events, t, net.up, net.hops, owner);
      } else if 1 <= net.hops {
        OwnerDecides(c, target.value, name, events, t, net.up, net.hops, owner);
      }
    }
  }

  lemma RunOfOne(b: Bucket, t: int, n: nat)
    ensures var calls := [TokenBuckets.Call.Allow(t, n)];
            && TokenBuckets.Run(b, calls) == TokenBuckets.AllowAt(b, t, n).0
            && LastDecision(b, calls) == TokenBuckets.AllowAt(b, t, n).1
  {
    var call := TokenBuckets.Call.Allow(t, n);
    assert [call][1..] == [] && [call][..0] == [];
  }

  lemma RunOfTwo(b: Bucket, t: int, u: int, n: nat)
    ensures var calls := [TokenBuckets.Call.Allow(t, n), TokenBuckets.Call.Allow(u, n)];
            var b' := TokenBuckets.AllowAt(b, t, n).0;
            && TokenBuckets.Run(b, calls) == TokenBuckets.AllowAt(b', u, n).0
            && LastDecision(b, calls) == TokenBuckets.AllowAt(b', u, n).1
  {
    var c0, c1 := TokenBuckets.Call.Allow(t, n), TokenBuckets.Call.Allow(u, n);
    RunOfOne(b, t, n);
    RunOfOne(TokenBuckets.AllowAt(b, t, n).0, u, n);
    assert [c0, c1][1..] == [c1] && [c0, c1][..1] == [c0];
    assert TokenBuckets.Run(b, [c0, c1]) == TokenBuckets.Run(TokenBuckets.AllowAt(b, t, n).0, [c1]);
  }

  /** The second charge can cost the caller its answer. Exactly when a redirected request is refused although
      the owner would have admitted it: the bucket, refilled for the first attempt, holds enough for one
      request, and for two neither then nor, if the second attempt comes late enough to refill, with the time
      that has passed. */
  lemma RedirectRefusesIffNotTwice(b: Bucket, t: int, u: int, n: nat)
    requires b.WellFormed() && 1 <= n
    ensures var f := TokenBuckets.FillAt(b, t);
            LastDecision(b, [TokenBuckets.Call.Allow(t, n)])
            && !LastDecision(b, [TokenBuckets.Call.Allow(t, n), TokenBuckets.Call.Allow(u, n)])
            <==> n as real <= f.tokenCount
                 && (if u <= f.nextFill then f.tokenCount < (2 * n) as real
                     else 0 < b.fillPeriod
                          && ((2 * n) as real - f.tokenCount) * b.fillPeriod as real > (u - f.lastFilled) as real)
  {
    hide LastDecision, TokenBuckets.FillAt, TokenBuckets.AllowAt;
    RunOfOne(b, t, n);
    RunOfTwo(b, t, u, n);
    TokenBuckets.FillKeepsWellFormed(b, t);
    FirstAttempt(b, t, n);
    OneThenAnother(TokenBuckets.FillAt(b, t), u, n);
  }

  lemma FirstAttempt(b: Bucket, t: int, n: nat)
    ensures var f := TokenBuckets.FillAt(b, t);
            TokenBuckets.AllowAt(b, t, n)
            == if n as real <= f.tokenCount then (f.(tokenCount := f.tokenCount - n as real), true) else (f, false)
  {
    hide TokenBuckets.FillAt;
  }

  /** Once `n` tokens are taken, the second request misses what is short of two. */
  lemma OneThenAnother(f: Bucket, u: int, n: nat)
    requires f.WellFormed() && 1 <= n
    ensures n as real <= f.tokenCount ==>
              TokenBuckets.AllowAt(f.(tokenCount := f.tokenCount - n as real), u, n).1 ==
              if u <= f.nextFill then (2 * n) as real <= f.tokenCount
              else f.fillPeriod == 0
                   || ((2 * n) as real - f.tokenCount) * f.fillPeriod as real <= (u - f.lastFilled) as real
  {
    if n as real <= f.tokenCount {
      var g := f.(tokenCount := f.tokenCount - n as real);
      TokenBuckets.AdmitsIffRefilled(g, u, n);
      assert n as real - g.tokenCount == (2 * n) as real - f.tokenCount;
      hide TokenBuckets.AllowAt;
    }
  }

  /** The next request of a redirected client is charged once. */
  lemma ThenChargedOnce(bindings: Bindings, c: Cluster, net: Net, name: Name, events: nat, attempt: nat,
                        retries: nat, owner: NodeId)
    requires name != [] && Agreed(c, name, owner)
    requires Reaches(c, net, Target(bindings, net.leader, name), owner, retries)
    ensures var r := AllowFrom(bindings, c, net, name, events, attempt, retries);
            Target(r.bindings, net.leader, name) == Some(owner) && Agreed(r.stores, name, owner)
  {
    RedirectConverges(bindings, c, net, name, events, attempt, retries, owner);
  }

  /** After a registration the client asks the right node exactly if no old binding is left in the way. */
  lemma RegisterBindsIff(bindings: Bindings, leader: NodeId, name: Name, node: NodeId)
    ensures Target(AfterRegister(bindings, leader, name, node), Some(leader), name) == Some(node)
            <==> leader != node || name !in bindings || bindings[name] == node
  {}
}
