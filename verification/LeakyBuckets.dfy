/** The leaky bucket: a signed count of drops that leaks one drop per drain period, drained lazily
    and only while it is positive. Drop counts are whole numbers, times integer nanoseconds. */
module LeakyBuckets {
  import opened Arithmetic
  import opened Timestamps

  datatype Bucket = Bucket(
    capability: nat,
    drops: int,
    drainPeriod: int,
    lastDrained: int,
    nextDrain: int)
  {
    ghost predicate WellFormed() {
      && 0 < drainPeriod
      && nextDrain == lastDrained + drainPeriod
      && -(capability as int) <= drops <= capability
    }
  }

  function NewBucket(rate: real, capability: nat, now: int): Bucket
    requires 1.0 <= rate
  {
    var drainPeriod := SECOND / rate.Floor;
    Bucket(capability, 0, drainPeriod, now, now + drainPeriod)
  }

  function DrainAt(b: Bucket, t: int): Bucket
    requires 0 < b.drainPeriod
    requires b.nextDrain == b.lastDrained + b.drainPeriod
  {
    if 0 < b.drops && b.nextDrain < t then
      var drips := (t - b.lastDrained) / b.drainPeriod;
      var last := b.lastDrained + drips * b.drainPeriod;
      b.(drops := if b.drops - drips < -(b.capability as int) then -(b.capability as int) else b.drops - drips,
         lastDrained := last, nextDrain := last + b.drainPeriod)
    else b
  }

  datatype TakeResult = Delay(delay: int) | Overflow(delay: int)

  function AllowAt(b: Bucket, t: int, n: nat): (Bucket, bool)
    requires b.WellFormed()
  {
    var d := DrainAt(b, t);
    if d.drops + n <= d.capability then (d.(drops := d.drops + n), true) else (d, false)
  }

  /** The delay is worth the drops found; with a negative count only the overflow error shows it. */
  function TakeAt(b: Bucket, t: int, n: nat): (Bucket, TakeResult)
    requires b.WellFormed()
  {
    var d := DrainAt(b, t);
    var delay := d.drops * d.drainPeriod;
    if d.capability < d.drops + n then (d, Overflow(delay))
    else (d.(drops := d.drops + n), Delay(if delay < 0 then 0 else delay))
  }

  class LeakyBucket {
    var capability: nat
    var drops: int
    var drainPeriod: int
    var lastDrained: int
    var nextDrain: int

    ghost function State(): Bucket
      reads this
    {
      Bucket(capability, drops, drainPeriod, lastDrained, nextDrain)
    }

    /** A rate above one drop per nanosecond makes the period zero, and the first drain would divide by it. */
    constructor (rate: real, capability: nat, now: int)
      requires 1.0 <= rate
      ensures State() == NewBucket(rate, capability, now)
      ensures State().WellFormed() <==> rate.Floor <= SECOND
    {
      var period := SECOND / rate.Floor;
      PeriodPositiveIff(rate.Floor);
      this.capability := capability;
      this.drops := 0;
      this.drainPeriod := period;
      this.lastDrained := now;
      this.nextDrain := now + period;
    }

    method Drain(t: int)
      requires State().WellFormed()
      modifies this
      ensures State() == DrainAt(old(State()), t)
    {
      if 0 < drops && nextDrain < t {
        var drips := (t - lastDrained) / drainPeriod;
        drops := drops - drips;
        if drops < -(capability as int) {
          drops := -(capability as int);
        }
        lastDrained := lastDrained + drips * drainPeriod;
        nextDrain := lastDrained + drainPeriod;
      }
    }

    method Allow(t: int, n: nat) returns (ok: bool)
      requires State().WellFormed()
      modifies this
      ensures (State(), ok) == AllowAt(old(State()), t, n)
      ensures State().WellFormed()
    {
      DrainKeepsWellFormed(State(), t);
      Drain(t);
      if drops + n <= capability {
        drops := drops + n;
        return true;
      }
      return false;
    }

    method Take(t: int, n: nat) returns (r: TakeResult)
      requires State().WellFormed()
      modifies this
      ensures (State(), r) == TakeAt(old(State()), t, n)
      ensures State().WellFormed()
    {
      DrainKeepsWellFormed(State(), t);
      Drain(t);
      var delay := drops * drainPeriod;
      if capability < drops + n {
        return Overflow(delay);
      }
      drops := drops + n;
      if delay < 0 {
        delay := 0;
      }
      return Delay(delay);
    }
  }

  lemma PeriodPositiveIff(rate: int)
    requires 1 <= rate
    ensures 0 <= SECOND / rate
    ensures 1 <= SECOND / rate <==> rate <= SECOND
  {
    if rate <= SECOND {
      Quotient(SECOND, rate);
    } else {
      DivisionIs(SECOND, 0, rate, SECOND);
    }
  }

  // ---------- one bucket, one call ----------

  /** A new bucket is empty, and its period is the whole number of nanoseconds that fits the rate. */
  lemma NewBucketIs(rate: real, capability: nat, now: int)
    requires 1.0 <= rate
    ensures var b := NewBucket(rate, capability, now);
            var p := b.drainPeriod;
            && b == Bucket(capability, 0, p, now, now + p)
            && 0 <= p && p * rate.Floor <= 1_000_000_000 < (p + 1) * rate.Floor
  {
    Quotient(SECOND, rate.Floor);
    Distribute(SECOND / rate.Floor, 1, rate.Floor);
  }

  /** Exactly what a drain does: nothing before the next drain is due, or while the count is not positive; after
      that one drop leaks for each whole period, down to minus the capability, and only these periods are
      accounted for. */
  lemma DrainIs(b: Bucket, t: int) returns (periods: nat)
    requires b.WellFormed()
    ensures b.drops <= 0 || t <= b.nextDrain ==> DrainAt(b, t) == b
    ensures 0 < b.drops && b.nextDrain < t ==>
              var last := b.lastDrained + periods * b.drainPeriod;
              && last <= t < last + b.drainPeriod
              && DrainAt(b, t) == b.(drops := Greater(b.drops - periods, -(b.capability as int)),
                                     lastDrained := last, nextDrain := last + b.drainPeriod)
  {
    periods := 0;
    if 0 < b.drops && b.nextDrain < t {
      Quotient(t - b.lastDrained, b.drainPeriod);
      periods := (t - b.lastDrained) / b.drainPeriod;
    }
  }

  function Greater(x: int, y: int): int {
    if x <= y then y else x
  }

  /** A yes adds exactly the events asked for, a no adds nothing. */
  lemma AllowIs(b: Bucket, t: int, n: nat)
    requires b.WellFormed()
    ensures var d, (b', ok) := DrainAt(b, t), AllowAt(b, t, n);
            && (ok <==> d.drops + n <= b.capability)
            && b' == d.(drops := if ok then d.drops + n else d.drops)
  {
    hide DrainAt;
    DrainKeepsWellFormed(b, t);
  }

  /** Take accepts exactly what Allow accepts, with the same bucket left behind; the delay is what the drops
      found take to leak, and an overflow reports it even if it is negative. */
  lemma TakeIs(b: Bucket, t: int, n: nat)
    requires b.WellFormed()
    ensures var found, (b', r) := DrainAt(b, t).drops * b.drainPeriod, TakeAt(b, t, n);
            && b' == AllowAt(b, t, n).0
            && r == if AllowAt(b, t, n).1 then Delay(Greater(found, 0)) else Overflow(found)
  {
    DrainKeepsWellFormed(b, t);
    hide DrainAt;
  }

  // ---------- one step ----------

  datatype Call = Allow(t: int, n: nat) | Take(t: int, n: nat)

  function Step(b: Bucket, c: Call): (Bucket, nat)
    requires b.WellFormed()
  {
    match c
    case Allow(t, n) => var (b', ok) := AllowAt(b, t, n); (b', if ok then n else 0)
    case Take(t, n) => var (b', r) := TakeAt(b, t, n); (b', if r.Delay? then n else 0)
  }

  lemma DrainKeepsWellFormed(b: Bucket, t: int)
    requires b.WellFormed()
    ensures var d := DrainAt(b, t);
            && d.WellFormed() && d.capability == b.capability && d.drainPeriod == b.drainPeriod
            && b.lastDrained <= d.lastDrained
            && (d == b || (t - b.drainPeriod < d.lastDrained <= t && 0 < b.drops))
            && (b.drops - d.drops) * b.drainPeriod <= d.lastDrained - b.lastDrained
  {
    if 0 < b.drops && b.nextDrain < t {
      var drips := (t - b.lastDrained) / b.drainPeriod;
      Quotient(t - b.lastDrained, b.drainPeriod);
      if b.drops - drips < -(b.capability as int) {
        ScaleInt(b.drops + b.capability, drips, b.drainPeriod);
      }
    }
  }

  lemma StepKeepsWellFormed(b: Bucket, c: Call)
    requires b.WellFormed()
    ensures var (b', n) := Step(b, c);
            && b'.WellFormed() && b'.capability == b.capability && b'.drainPeriod == b.drainPeriod
            && b'.drops == DrainAt(b, c.t).drops + n && b'.lastDrained == DrainAt(b, c.t).lastDrained
  {
    DrainKeepsWellFormed(b, c.t);
  }

  // ---------- runs ----------

  function Run(b: Bucket, calls: seq<Call>): (r: Bucket)
    requires b.WellFormed()
    ensures r.WellFormed() && r.capability == b.capability && r.drainPeriod == b.drainPeriod
    decreases |calls|
  {
    if calls == [] then b
    else
      StepKeepsWellFormed(b, calls[0]);
      Run(Step(b, calls[0]).0, calls[1..])
  }

  /** Events accepted by the calls of a run. */
  function Accepted(b: Bucket, calls: seq<Call>): nat
    requires b.WellFormed()
    decreases |calls|
  {
    if calls == [] then 0
    else
      StepKeepsWellFormed(b, calls[0]);
      Step(b, calls[0]).1 + Accepted(Step(b, calls[0]).0, calls[1..])
  }

  predicate Within(calls: seq<Call>, t1: int, t2: int) {
    calls == [] || (t1 <= calls[0].t <= t2 && Within(calls[1..], t1, t2))
  }

  predicate UpTo(calls: seq<Call>, t2: int) {
    calls == [] || (calls[0].t <= t2 && UpTo(calls[1..], t2))
  }

  lemma StepPaidByDrain(b: Bucket, c: Call, t2: int)
    requires b.WellFormed() && c.t <= t2 && b.lastDrained <= t2
    ensures var (b', n) := Step(b, c);
            && b'.WellFormed() && b'.capability == b.capability && b'.drainPeriod == b.drainPeriod
            && b.lastDrained <= b'.lastDrained <= t2
            && n * b.drainPeriod <= (b'.drops - b.drops) * b.drainPeriod + (b'.lastDrained - b.lastDrained)
  {
    var (b', n) := Step(b, c);
    var leaked := b.drops - DrainAt(b, c.t).drops;
    DrainKeepsWellFormed(b, c.t);
    StepKeepsWellFormed(b, c);
    Distribute(b'.drops - b.drops, leaked, b.drainPeriod);
  }

  /** Conservation: a run accepts no more than it leaves in the bucket and has leaked meanwhile. */
  lemma {:induction false} AcceptedPaidByDrain(b: Bucket, calls: seq<Call>, t2: int)
    requires b.WellFormed() && UpTo(calls, t2) && b.lastDrained <= t2
    ensures var e := Run(b, calls);
            && b.lastDrained <= e.lastDrained <= t2
            && Accepted(b, calls) * b.drainPeriod
               <= (e.drops - b.drops) * b.drainPeriod + (e.lastDrained - b.lastDrained)
    decreases |calls|
  {
    if calls != [] {
      var (b', n) := Step(b, calls[0]);
      StepPaidByDrain(b, calls[0], t2);
      AcceptedPaidByDrain(b', calls[1..], t2);
      var e := Run(b', calls[1..]);
      var rest := Accepted(b', calls[1..]);
      Distribute(n, rest, b.drainPeriod);
      Distribute(b'.drops - b.drops, e.drops - b'.drops, b.drainPeriod);
    }
  }

  /** From creation on, in whatever order the clock readings arrive, a bucket accepts at most
      `capability + elapsed / drainPeriod` events. */
  lemma AcceptedSinceCreation(rate: real, capability: nat, t0: int, calls: seq<Call>, t2: int)
    requires 1.0 <= rate && rate.Floor <= SECOND && t0 <= t2 && UpTo(calls, t2)
    ensures var b := NewBucket(rate, capability, t0);
            b.WellFormed() && Accepted(b, calls) * b.drainPeriod <= capability * b.drainPeriod + (t2 - t0)
  {
    PeriodPositiveIff(rate.Floor);
    var b := NewBucket(rate, capability, t0);
    AcceptedPaidByDrain(b, calls, t2);
    ScaleInt(Run(b, calls).drops, capability, b.drainPeriod);
  }

  /** Until the first drain a run fills up the bucket; from then on it is paid for by the drops of
      that moment and the time since, and a drain leaves less than one period unaccounted. */
  lemma {:induction false} WindowFromState(b: Bucket, calls: seq<Call>, t1: int, t2: int)
    requires b.WellFormed() && t1 <= t2 && Within(calls, t1, t2)
    ensures Accepted(b, calls) * b.drainPeriod
            <= (3 * b.capability - b.drops) * b.drainPeriod + b.drainPeriod + (t2 - t1)
    decreases |calls|
  {
    var p, cap := b.drainPeriod, b.capability;
    ScaleInt(0, 3 * cap - b.drops, p);
    if calls != [] {
      var (b', n) := Step(b, calls[0]);
      var d := DrainAt(b, calls[0].t);
      DrainKeepsWellFormed(b, calls[0].t);
      StepKeepsWellFormed(b, calls[0]);
      if d == b {
        WindowFromState(b', calls[1..], t1, t2);
        Distribute(n, Accepted(b', calls[1..]), p);
        Distribute(n, 3 * cap - b'.drops, p);
      } else {
        WithinUpTo(calls, t1, t2);
        assert DrainAt(d, calls[0].t) == d;
        assert Accepted(b, calls) == Accepted(d, calls);
        AcceptedPaidByDrain(d, calls, t2);
        ScaleInt(Run(d, calls).drops - d.drops, 3 * cap - b.drops, p);
      }
    }
  }

  lemma {:induction false} WithinUpTo(calls: seq<Call>, t1: int, t2: int)
    requires Within(calls, t1, t2)
    ensures UpTo(calls, t2)
  {
    if calls != [] {
      WithinUpTo(calls[1..], t1, t2);
    }
  }

  /** Any window, from any reachable state: at most `4 * capability + 1 + elapsed / drainPeriod`. */
  lemma WindowBound(b: Bucket, calls: seq<Call>, t1: int, t2: int)
    requires b.WellFormed() && t1 <= t2 && Within(calls, t1, t2)
    ensures Accepted(b, calls) * b.drainPeriod <= (4 * b.capability + 1) * b.drainPeriod + (t2 - t1)
  {
    WindowFromState(b, calls, t1, t2);
    ScaleInt(3 * b.capability - b.drops, 4 * b.capability, b.drainPeriod);
    Distribute(4 * b.capability, 1, b.drainPeriod);
  }

  /** The four capabilities are reached in a single instant: a count that is not positive is not drained, so
      the time it rests is still there to be used by a later drain. This holds of every bucket that has been
      drained to the bottom and rested for long enough. */
  lemma RestedAcceptsFour(b: Bucket, t: int)
    requires b.WellFormed() && b.drops == -(b.capability as int) && 1 <= b.capability
    requires b.lastDrained + (2 * b.capability + 1) * b.drainPeriod < t
    ensures Accepted(b, [Allow(t, 2 * b.capability), Allow(t, 2 * b.capability)]) == 4 * b.capability
  {
    var cap, p := b.capability, b.drainPeriod;
    var c := Call.Allow(t, 2 * cap);
    var b1 := b.(drops := cap);
    assert Step(b, c) == (b1, 2 * cap);
    WholePeriods(t - b.lastDrained, 2 * cap + 1, p);
    ScaleInt(1, 2 * cap + 1, p);
    DrainKeepsWellFormed(b1, t);
    assert DrainAt(b1, t).drops == -(cap as int);
    StepKeepsWellFormed(b1, c);
    var b2 := Step(b1, c).0;
    assert Step(b1, c).1 == 2 * cap;
    assert [c, c][1..] == [c] && [c][1..] == [];
    assert Accepted(b2, []) == 0;
    assert Accepted(b1, [c]) == 2 * cap;
    assert Accepted(b, [c, c]) == 2 * cap + Accepted(b1, [c]);
  }

  /** Every bucket with room for a drop gets there: it is filled up, and drained once, late. */
  lemma FourCapabilitiesAtOnce(rate: real, capability: nat, t0: int)
    requires 1.0 <= rate && rate.Floor <= SECOND && 1 <= capability
    ensures var b := NewBucket(rate, capability, t0);
            var late := (2 * capability + 1) * b.drainPeriod;
            var before := [Allow(t0, capability), Allow(t0 + late, 0)];
            var now := Allow(t0 + 2 * late + 1, 2 * capability);
            b.WellFormed() && Accepted(Run(b, before), [now, now]) == 4 * capability
  {
    PeriodPositiveIff(rate.Floor);
    var b := NewBucket(rate, capability, t0);
    FilledAndDrained(b, t0);
    var late := (2 * capability + 1) * b.drainPeriod;
    var rested := b.(drops := -(capability as int), lastDrained := t0 + late, nextDrain := t0 + late + b.drainPeriod);
    RestedAcceptsFour(rested, t0 + 2 * late + 1);
  }

  lemma FilledAndDrained(b: Bucket, t0: int)
    requires b.WellFormed() && b.drops == 0 && b.lastDrained == t0 && 1 <= b.capability
    ensures var late := (2 * b.capability + 1) * b.drainPeriod;
            Run(b, [Allow(t0, b.capability), Allow(t0 + late, 0)])
            == b.(drops := -(b.capability as int), lastDrained := t0 + late, nextDrain := t0 + late + b.drainPeriod)
  {
    var k, p := 2 * b.capability + 1, b.drainPeriod;
    var c0, c1 := Call.Allow(t0, b.capability), Call.Allow(t0 + k * p, 0);
    var b1 := b.(drops := b.capability);
    assert Step(b, c0).0 == b1;
    DivisionIs(k * p, k, p, 0);
    ScaleInt(2, k, p);
    var b2 := b.(drops := -(b.capability as int), lastDrained := t0 + k * p, nextDrain := t0 + k * p + p);
    assert DrainAt(b1, c1.t) == b2;
    assert Step(b1, c1).0 == b2;
    assert [c0, c1][1..] == [c1] && [c1][1..] == [];
    assert Run(b, [c0, c1]) == Run(b1, [c1]) == Run(b2, []);
  }

  /** A delay is never negative nor longer than a full bucket takes to leak. */
  lemma DelayBounded(b: Bucket, t: int, n: nat)
    requires b.WellFormed()
    ensures var r := TakeAt(b, t, n).1;
            r.Delay? ==> 0 <= r.delay <= b.capability * b.drainPeriod
  {
    DrainKeepsWellFormed(b, t);
    ScaleInt(DrainAt(b, t).drops, b.capability, b.drainPeriod);
    ScaleInt(0, b.capability, b.drainPeriod);
  }

  /** Exactly when a request is accepted, from any state: without a drain if it fits; after one if twice the
      capability holds it and the drops in its way have had the time to leak. */
  lemma AcceptsIffDrained(b: Bucket, t: int, n: nat)
    requires b.WellFormed()
    ensures AllowAt(b, t, n).1 <==>
              if b.drops <= 0 || t <= b.nextDrain then b.drops + n <= b.capability
              else n <= 2 * b.capability && b.lastDrained + (b.drops + n - b.capability) * b.drainPeriod <= t
  {
    if 0 < b.drops && b.nextDrain < t {
      WholePeriods(t - b.lastDrained, b.drops + n - b.capability, b.drainPeriod);
    }
  }

  /** No starvation: a request up to the capability is accepted once the drops in its way have leaked. */
  lemma EnoughWaitingAccepts(b: Bucket, t: int, n: nat)
    requires b.WellFormed() && n <= b.capability
    requires b.nextDrain < t && b.lastDrained + (b.drops + n - b.capability) * b.drainPeriod <= t
    ensures AllowAt(b, t, n).1
  {
    AcceptsIffDrained(b, t, n);
  }

  lemma WholePeriods(elapsed: nat, k: int, p: int)
    requires 0 < p
    ensures k <= elapsed / p <==> k * p <= elapsed
  {
    var q := elapsed / p;
    Quotient(elapsed, p);
    if k <= q {
      ScaleInt(k, q, p);
    } else {
      ScaleInt(q + 1, k, p);
      Distribute(q, 1, p);
    }
  }
}
