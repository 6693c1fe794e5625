/** Handing applied entry ids to those who wait for them: concurrent handlers share one channel, and put
    the ids that are not theirs into a common set. */
module HandOff {

  type Id = seq<int>

  // ---------- handlers and their steps ----------

  /** Where a handler is: at the select, on its way to look into the set, with an id it has received,
      or done. */
  datatype Phase = Polling | Checking | Holding(id: Id) | Done(answer: bool)

  datatype Handler = Handler(req: Id, phase: Phase)

  /** `enqueued` are all ids ever sent. */
  datatype State = State(queue: seq<Id>, overflow: set<Id>, handlers: seq<Handler>, enqueued: set<Id>)

  const INITIAL := State([], {}, [], {})

  datatype Step =
    | Enqueue(id: Id)
    | Arrive(req: Id)
    | Receive(h: nat)
    | Default(h: nat)
    | Check(h: nat)
    | Compare(h: nat, expired: bool)
    | Expire(h: nat)

  /** The select takes its default only when nothing is queued; the set is looked at, and an id compared,
      at any later time, whatever the others have done meanwhile. Ids are sent once. */
  predicate Enabled(s: State, step: Step) {
    match step
    case Enqueue(id) => id !in s.enqueued
    case Arrive(_) => true
    case Receive(h) => At(s, h, Polling) && s.queue != []
    case Default(h) => At(s, h, Polling) && s.queue == []
    case Check(h) => At(s, h, Checking)
    case Compare(h, _) => h < |s.handlers| && s.handlers[h].phase.Holding?
    case Expire(h) => At(s, h, Polling)
  }

  predicate At(s: State, h: nat, phase: Phase) {
    h < |s.handlers| && s.handlers[h].phase == phase
  }

  function Next(s: State, step: Step): State
    requires Enabled(s, step)
  {
    match step
    case Enqueue(id) => s.(queue := s.queue + [id], enqueued := s.enqueued + {id})
    case Arrive(req) => s.(handlers := s.handlers + [Handler(req, Polling)])
    case Receive(h) => Enter(s, h, Holding(s.queue[0])).(queue := s.queue[1..])
    case Default(h) => Enter(s, h, Checking)
    case Check(h) =>
      var req := s.handlers[h].req;
      if req in s.overflow then Enter(s, h, Done(true)).(overflow := s.overflow - {req}) else Enter(s, h, Polling)
    case Compare(h, expired) =>
      var (req, id) := (s.handlers[h].req, s.handlers[h].phase.id);
      if id == req then Enter(s, h, Done(true))
      else Enter(s, h, if expired then Done(false) else Polling).(overflow := s.overflow + {id})
    case Expire(h) => Enter(s, h, Done(false))
  }

  function Enter(s: State, h: nat, phase: Phase): State
    requires h < |s.handlers|
  {
    s.(handlers := s.handlers[h := s.handlers[h].(phase := phase)])
  }

  /** A handler that looks into the set finds its id exactly if it is there, and one that holds an id answers
      true exactly if it is its own; no other handler moves. */
  lemma FindsItsOwn(s: State, step: Step, other: nat)
    requires Enabled(s, step)
    ensures step.Check? ==> (At(Next(s, step), step.h, Done(true)) <==> s.handlers[step.h].req in s.overflow)
    ensures step.Compare? ==>
              (At(Next(s, step), step.h, Done(true)) <==> s.handlers[step.h].phase.id == s.handlers[step.h].req)
    ensures other < |s.handlers| && (step.Enqueue? || step.Arrive? || step.h != other) ==>
              other < |Next(s, step).handlers| && Next(s, step).handlers[other] == s.handlers[other]
  {}

  predicate Possible(s: State, steps: seq<Step>)
    decreases |steps|
  {
    steps == [] || (Enabled(s, steps[0]) && Possible(Next(s, steps[0]), steps[1..]))
  }

  function Run(s: State, steps: seq<Step>): State
    requires Possible(s, steps)
    decreases |steps|
  {
    if steps == [] then s else Run(Next(s, steps[0]), steps[1..])
  }

  // ---------- where the ids are ----------

  /** Has the handler taken the id out: does it hold it, or has it answered for it? */
  function Takes(h: Handler, id: Id): nat {
    if h.phase == Holding(id) || (h.phase == Done(true) && h.req == id) then 1 else 0
  }

  function Taken(handlers: seq<Handler>, id: Id): nat {
    if handlers == [] then 0 else Takes(handlers[0], id) + Taken(handlers[1..], id)
  }

  function Queued(queue: seq<Id>, id: Id): nat {
    if queue == [] then 0 else (if queue[0] == id then 1 else 0) + Queued(queue[1..], id)
  }

  /** The number of places an id is in. */
  function Places(s: State, id: Id): nat {
    Queued(s.queue, id) + (if id in s.overflow then 1 else 0) + Taken(s.handlers, id)
  }

  /** Every id sent is in exactly one place, every other id in none. */
  predicate Conserved(s: State, id: Id) {
    Places(s, id) == if id in s.enqueued then 1 else 0
  }

  lemma {:induction false} TakenAfterChange(handlers: seq<Handler>, i: nat, h: Handler, id: Id)
    requires i < |handlers|
    ensures Taken(handlers[i := h], id) == Taken(handlers, id) - Takes(handlers[i], id) + Takes(h, id)
    decreases i
  {
    if i == 0 {
      assert handlers[i := h][1..] == handlers[1..];
    } else {
      TakenAfterChange(handlers[1..], i - 1, h, id);
      assert handlers[i := h][1..] == handlers[1..][i - 1 := h];
    }
  }

  lemma {:induction false} TakenAfterArrival(handlers: seq<Handler>, h: Handler, id: Id)
    ensures Taken(handlers + [h], id) == Taken(handlers, id) + Takes(h, id)
  {
    if handlers == [] {
      assert [] + [h] == [h] && [h][1..] == [];
    } else {
      TakenAfterArrival(handlers[1..], h, id);
      assert (handlers + [h])[1..] == handlers[1..] + [h];
    }
  }

  lemma {:induction false} QueuedAfterSend(queue: seq<Id>, sent: Id, id: Id)
    ensures Queued(queue + [sent], id) == Queued(queue, id) + (if sent == id then 1 else 0)
  {
    if queue == [] {
      assert [] + [sent] == [sent] && [sent][1..] == [];
    } else {
      QueuedAfterSend(queue[1..], sent, id);
      assert (queue + [sent])[1..] == queue[1..] + [sent];
    }
  }

  lemma {:induction false} QueuedIff(queue: seq<Id>, id: Id)
    ensures 1 <= Queued(queue, id) <==> id in queue
  {
    if queue != [] {
      QueuedIff(queue[1..], id);
      assert queue == [queue[0]] + queue[1..];
    }
  }

  /** Two handlers that have taken the same id count twice. */
  lemma {:induction false} TakenByBoth(handlers: seq<Handler>, i: nat, j: nat, id: Id)
    requires i <= j < |handlers|
    ensures Takes(handlers[j], id) + (if i < j then Takes(handlers[i], id) else 0) <= Taken(handlers, id)
    decreases j
  {
    if 0 < j {
      TakenByBoth(handlers[1..], if i == 0 then j - 1 else i - 1, j - 1, id);
    }
  }

  lemma StepConserves(s: State, step: Step, id: Id)
    requires Enabled(s, step) && Conserved(s, id)
    requires step.Compare? ==> Conserved(s, s.handlers[step.h].phase.id)
    ensures Conserved(Next(s, step), id)
  {
    hide Taken, Queued;
    match step
    case Enqueue(sent) => QueuedAfterSend(s.queue, sent, id);
    case Arrive(req) => TakenAfterArrival(s.handlers, Handler(req, Polling), id);
    case Receive(h) => ReceiveConserves(s, h, id);
    case Compare(h, expired) => CompareConserves(s, h, expired, id);
    case Default(h) => TakenAfterChange(s.handlers, h, Next(s, step).handlers[h], id);
    case Check(h) => TakenAfterChange(s.handlers, h, Next(s, step).handlers[h], id);
    case Expire(h) => TakenAfterChange(s.handlers, h, Next(s, step).handlers[h], id);
  }

  lemma ReceiveConserves(s: State, h: nat, id: Id)
    requires Enabled(s, Receive(h)) && Conserved(s, id)
    ensures Conserved(Next(s, Receive(h)), id)
  {
    TakenAfterChange(s.handlers, h, Next(s, Receive(h)).handlers[h], id);
    hide Taken;
  }

  /** An id that is received is in no other place, so the set does not hold it yet. */
  lemma CompareConserves(s: State, h: nat, expired: bool, id: Id)
    requires Enabled(s, Compare(h, expired)) && Conserved(s, id) && Conserved(s, s.handlers[h].phase.id)
    ensures Conserved(Next(s, Compare(h, expired)), id)
  {
    TakenAfterChange(s.handlers, h, Next(s, Compare(h, expired)).handlers[h], id);
    TakenByBoth(s.handlers, h, h, s.handlers[h].phase.id);
    hide Taken, Queued;
  }

  lemma {:induction false} RunConserves(s: State, steps: seq<Step>)
    requires (forall id :: Conserved(s, id)) && Possible(s, steps)
    ensures forall id :: Conserved(Run(s, steps), id)
    decreases |steps|
  {
    if steps != [] {
      forall id
        ensures Conserved(Next(s, steps[0]), id)
      {
        StepConserves(s, steps[0], id);
      }
      RunConserves(Next(s, steps[0]), steps[1..]);
    }
  }

  /** Over every interleaving, timeouts included: each id sent is queued once, or in the set, or taken by
      one handler, and in only one of these places; no other id is anywhere. */
  lemma EveryIdInOnePlace(steps: seq<Step>, id: Id)
    requires Possible(INITIAL, steps)
    ensures var s := Run(INITIAL, steps);
            Places(s, id) == if id in s.enqueued then 1 else 0
  {
    forall other: Id
      ensures Conserved(INITIAL, other)
    {}
    RunConserves(INITIAL, steps);
    assert Conserved(Run(INITIAL, steps), id);
  }

  /** A handler answers true only for an id that was sent, is in no other place, and is taken by no
      other handler. */
  lemma AnsweredOnce(steps: seq<Step>, i: nat)
    requires Possible(INITIAL, steps) && At(Run(INITIAL, steps), i, Done(true))
    ensures var s := Run(INITIAL, steps);
            var id := s.handlers[i].req;
            && id in s.enqueued && id !in s.queue && id !in s.overflow
            && forall j :: 0 <= j < |s.handlers| && j != i ==> Takes(s.handlers[j], id) == 0
  {
    var s := Run(INITIAL, steps);
    var id := s.handlers[i].req;
    EveryIdInOnePlace(steps, id);
    TakenByBoth(s.handlers, i, i, id);
    QueuedIff(s.queue, id);
    forall j | 0 <= j < |s.handlers| && j != i
      ensures Takes(s.handlers[j], id) == 0
    {
      TakenByBoth(s.handlers, if i < j then i else j, if i < j then j else i, id);
    }
  }

  /** An id that was sent and for which no handler has answered or is about to can still be found. */
  lemma NothingLost(steps: seq<Step>, id: Id)
    requires Possible(INITIAL, steps)
    ensures var s := Run(INITIAL, steps);
            id in s.enqueued && Taken(s.handlers, id) == 0 <==> id in s.queue || id in s.overflow
  {
    EveryIdInOnePlace(steps, id);
    QueuedIff(Run(INITIAL, steps).queue, id);
  }

  // ---------- one handler on its own ----------

  /** An id is sent once, and is in the channel or in the set. */
  predicate Distinct(channel: seq<Id>, overflow: set<Id>) {
    && (forall i, j :: 0 <= i < j < |channel| ==> channel[i] != channel[j])
    && (forall i :: 0 <= i < |channel| ==> channel[i] !in overflow)
  }

  /** All ids that can be found. */
  function Known(channel: seq<Id>, overflow: set<Id>): set<Id> {
    (set id | id in channel) + overflow
  }

  lemma TakeHead(channel: seq<Id>, overflow: set<Id>)
    requires Distinct(channel, overflow) && channel != []
    ensures Distinct(channel[1..], overflow) && Distinct(channel[1..], overflow + {channel[0]})
    ensures Known(channel[1..], overflow + {channel[0]}) == Known(channel, overflow)
    ensures Known(channel[1..], overflow) == Known(channel, overflow) - {channel[0]}
    ensures channel[0] in Known(channel, overflow)
  {
    assert channel == [channel[0]] + channel[1..];
  }

  lemma TakeFromSet(overflow: set<Id>, id: Id)
    requires id in overflow
    ensures Distinct([], overflow - {id}) && Known([], overflow - {id}) == Known([], overflow) - {id}
    ensures id in Known([], overflow)
  {}

  class Server {
    var entryApplyChan: seq<Id>
    var entryApplySet: set<Id>

    constructor ()
      ensures entryApplyChan == [] && entryApplySet == {}
    {
      entryApplyChan, entryApplySet := [], {};
    }

    /** The loop of a handler that is not interrupted. `expired` tells at which turn the deadline has
        passed, `pick` which case the select takes if the deadline and an id are both there. Nothing is
        lost but the id answered for, and in time it is always found. */
    method IsEntryApplied(req: Id, expired: nat -> bool, pick: nat -> bool, limit: nat) returns (ok: bool)
      requires Distinct(entryApplyChan, entryApplySet)
      requires expired(limit) && forall i, j :: 0 <= i <= j && expired(i) ==> expired(j)
      modifies this
      ensures Distinct(entryApplyChan, entryApplySet)
      ensures var known := old(Known(entryApplyChan, entryApplySet));
              && Known(entryApplyChan, entryApplySet) == (if ok then known - {req} else known)
              && (ok ==> req in known)
              && (req in known && !expired(|old(entryApplyChan)|) ==> ok)
    {
      hide Distinct, Known;
      ghost var known, n := Known(entryApplyChan, entryApplySet), |entryApplyChan|;
      var i := 0;
      while true
        invariant i <= limit
        invariant Distinct(entryApplyChan, entryApplySet) && Known(entryApplyChan, entryApplySet) == known
        invariant |entryApplyChan| == if i <= n then n - i else 0
        invariant n < i ==> req !in known
        decreases limit - i
      {
        if expired(i) && (entryApplyChan == [] || pick(i)) {
          return false;
        }
        if entryApplyChan != [] {
          TakeHead(entryApplyChan, entryApplySet);
          var id := entryApplyChan[0];
          entryApplyChan := entryApplyChan[1..];
          if id == req {
            return true;
          }
          entryApplySet := entryApplySet + {id};
          if expired(i + 1) {
            return false;
          }
        } else if req in entryApplySet {
          TakeFromSet(entryApplySet, req);
          entryApplySet := entryApplySet - {req};
          return true;
        } else {
          NotKnown(entryApplySet, req);
        }
        i := i + 1;
      }
    }
  }

  lemma NotKnown(overflow: set<Id>, id: Id)
    requires id !in overflow
    ensures id !in Known([], overflow)
  {}
}
