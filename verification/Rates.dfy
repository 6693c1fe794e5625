/** The bounds of both buckets in the rate they were configured with. The period is the rate's, rounded down to
    whole nanoseconds, so what a bucket keeps to exactly is a rate that divides the second. */
module Rates {
  import opened Arithmetic
  import Tokens = TokenBuckets
  import Leaky = LeakyBuckets

  /** The part of a second that whole periods fill. */
  function WholePeriods(rate: int): (w: int)
    requires 1 <= rate
    ensures 0 <= w <= 1_000_000_000
  {
    1_000_000_000 - 1_000_000_000 % rate
  }

  lemma PeriodsFill(p: nat, rate: int)
    requires 1 <= rate && p * rate <= 1_000_000_000 < (p + 1) * rate
    ensures p * rate == WholePeriods(rate)
  {
    Distribute(p, 1, rate);
    DivisionIs(1_000_000_000, p, rate, 1_000_000_000 - p * rate);
  }

  /** A bound in periods is a bound in the rate. */
  lemma InRate(events: nat, allowed: nat, p: nat, rate: int, elapsed: int)
    requires 1 <= rate && p * rate == WholePeriods(rate)
    requires events * p <= allowed * p + elapsed
    ensures (events - allowed) * WholePeriods(rate) <= elapsed * rate
  {
    Distribute(events - allowed, allowed, p);
    ScaleInt((events - allowed) * p, elapsed, rate);
    assert (events - allowed) * p * rate == (events - allowed) * (p * rate);
  }

  // ---------- the token bucket ----------

  lemma PeriodOf(rate: real, burst: nat, t0: int)
    requires 1.0 <= rate
    ensures var b := Tokens.NewBucket(rate, burst, t0);
            && b.WellFormed() && b.burst == burst && b.tokenCount == burst as real && b.lastFilled == t0
            && 0 <= b.fillPeriod && b.fillPeriod * rate.Floor == WholePeriods(rate.Floor)
            && (rate.Floor <= 1_000_000_000 <==> 1 <= b.fillPeriod)
  {
    Tokens.NewBucketIs(rate, burst, t0);
    var p := Tokens.NewBucket(rate, burst, t0).fillPeriod;
    PeriodsFill(p, rate.Floor);
    if 1 <= p {
      ScaleInt(1, p, rate.Floor);
    }
  }

  /** From construction on, in whatever order the clock is read and whatever is reserved in between, Allow admits
      the burst and the rate: the rate of periods that are cut to whole nanoseconds. */
  lemma AdmittedInRate(rate: real, burst: nat, t0: int, calls: seq<Tokens.Call>)
    requires 1.0 <= rate
    ensures var admitted := Tokens.Admitted(Tokens.NewBucket(rate, burst, t0), calls);
            (admitted - burst) * WholePeriods(rate.Floor) <= (Tokens.Latest(calls, t0) - t0) * rate.Floor
  {
    hide Tokens.NewBucket, Tokens.Admitted, Tokens.Latest, WholePeriods;
    var b := Tokens.NewBucket(rate, burst, t0);
    PeriodOf(rate, burst, t0);
    AdmittedInPeriods(b, calls);
    InRate(Tokens.Admitted(b, calls), burst, b.fillPeriod, rate.Floor, Tokens.Latest(calls, t0) - t0);
  }

  lemma AdmittedInPeriods(b: Tokens.Bucket, calls: seq<Tokens.Call>)
    requires b.WellFormed()
    ensures Tokens.Admitted(b, calls) * b.fillPeriod
            <= b.burst * b.fillPeriod + (Tokens.Latest(calls, b.lastFilled) - b.lastFilled)
  {
    hide Tokens.Admitted;
    NonNegativeProduct(b.burst, b.fillPeriod);
    if b.fillPeriod == 0 {
      ZeroProduct(Tokens.Admitted(b, calls), b.fillPeriod);
    } else {
      Tokens.AdmittedPaidByCredit(b, calls);
      Tokens.CreditAtMostBurst(b);
      ZeroEvents(Tokens.Admitted(b, calls), b.fillPeriod);
    }
  }

  lemma ZeroEvents(n: nat, p: nat)
    ensures n == 0 ==> n * p == 0
  {}

  /** Any window of any later run: one event more, which is needed. */
  lemma WindowInRate(rate: real, burst: nat, t0: int, before: seq<Tokens.Call>, calls: seq<Tokens.Call>)
    requires 1.0 <= rate && calls != []
    ensures var admitted := Tokens.Admitted(Tokens.Run(Tokens.NewBucket(rate, burst, t0), before), calls);
            (admitted - (burst + 1)) * WholePeriods(rate.Floor)
            <= (Tokens.Latest(calls, calls[0].t) - calls[0].t) * rate.Floor
  {
    hide Tokens.NewBucket, Tokens.Admitted, Tokens.Latest, Tokens.Run, WholePeriods;
    var b := Tokens.NewBucket(rate, burst, t0);
    PeriodOf(rate, burst, t0);
    Tokens.RunKeepsWellFormed(b, before);
    var e := Tokens.Run(b, before);
    Tokens.WindowBound(e, calls);
    InRate(Tokens.Admitted(e, calls), burst + 1, e.fillPeriod, rate.Floor,
           Tokens.Latest(calls, calls[0].t) - calls[0].t);
  }

  /** Paced reservations, in the rate. */
  lemma PacingInRate(rate: real, burst: nat, t0: int, calls: seq<Tokens.Call>, T: int)
    requires 1.0 <= rate && t0 <= T
    requires Tokens.InOrder(calls, t0) && Tokens.NoClamp(Tokens.NewBucket(rate, burst, t0), calls)
    ensures var ready := Tokens.ReadyBy(Tokens.NewBucket(rate, burst, t0), calls, T);
            (ready - burst) * WholePeriods(rate.Floor) <= (T - t0) * rate.Floor
  {
    hide Tokens.NewBucket, Tokens.ReadyBy, Tokens.InOrder, Tokens.NoClamp, WholePeriods;
    PeriodOf(rate, burst, t0);
    Tokens.PacingBound(rate, burst, t0, calls, T);
    var b := Tokens.NewBucket(rate, burst, t0);
    InRate(Tokens.ReadyBy(b, calls, T), burst, b.fillPeriod, rate.Floor, T - t0);
  }

  /** Admissions from construction on keep within the burst and the configured rate itself. */
  predicate KeepsRate(rate: real, burst: nat, t0: int, calls: seq<Tokens.Call>)
    requires 1.0 <= rate
  {
    (Tokens.Admitted(Tokens.NewBucket(rate, burst, t0), calls) - burst) * 1_000_000_000
    <= (Tokens.Latest(calls, t0) - t0) * rate.Floor
  }

  /** A burst of one is refilled a nanosecond late each time: every event but the first takes more than a period. */
  function Ready(b: Tokens.Bucket): nat {
    if 1.0 <= b.tokenCount then 1 else 0
  }

  lemma StepOfSmallBurst(b: Tokens.Bucket, c: Tokens.Call)
    requires b.WellFormed() && b.burst <= 1
    ensures var (b', g) := Tokens.Step(b, c);
            && b'.WellFormed() && b'.burst == b.burst && b'.fillPeriod == b.fillPeriod
            && b.lastFilled <= b'.lastFilled <= (if b.lastFilled < c.t then c.t else b.lastFilled)
            && (b'.lastFilled == b.lastFilled || b.lastFilled + (b.fillPeriod + 1) <= b'.lastFilled)
            && Tokens.Paid(c, g) + Ready(b') <= (if b'.lastFilled == b.lastFilled then Ready(b) else 1)
  {
    Tokens.FillKeepsWellFormed(b, c.t);
    Tokens.StepKeepsWellFormed(b, c);
    var f := Tokens.FillAt(b, c.t);
    assert f.lastFilled == b.lastFilled ==> f == b;
    SettleSmallBurst(f, c);
    hide Tokens.FillAt, Tokens.Settle;
  }

  lemma SettleSmallBurst(f: Tokens.Bucket, c: Tokens.Call)
    requires f.WellFormed() && f.burst <= 1
    ensures var (b', g) := Tokens.Settle(f, c);
            b'.lastFilled == f.lastFilled && Tokens.Paid(c, g) + Ready(b') <= Ready(f)
  {
    hide Tokens.Delay;
  }

  lemma {:induction false} SmallBurstInPeriods(b: Tokens.Bucket, calls: seq<Tokens.Call>)
    requires b.WellFormed() && b.burst <= 1
    ensures Tokens.Admitted(b, calls) * (b.fillPeriod + 1)
            <= Ready(b) * (b.fillPeriod + 1) + (Tokens.Latest(calls, b.lastFilled) - b.lastFilled)
    decreases |calls|
  {
    if calls != [] {
      var c := calls[0];
      var (b', g) := Tokens.Step(b, c);
      StepOfSmallBurst(b, c);
      SmallBurstInPeriods(b', calls[1..]);
      hide Tokens.Step;
      Tokens.LatestMonotone(calls[1..], b'.lastFilled, if b.lastFilled < c.t then c.t else b.lastFilled);
      SmallBurstArithmetic(Tokens.Paid(c, g), Tokens.Admitted(b', calls[1..]), Ready(b), Ready(b'), b.fillPeriod + 1,
                           b'.lastFilled - b.lastFilled, Tokens.Latest(calls[1..], b'.lastFilled) - b'.lastFilled);
    }
  }

  lemma SmallBurstArithmetic(paid: nat, later: nat, ready: nat, ready': nat, p: nat, gone: int, left: int)
    requires 1 <= p && later * p <= ready' * p + left
    requires (gone == 0 && paid + ready' <= ready) || (p <= gone && paid + ready' <= 1)
    ensures (paid + later) * p <= ready * p + (gone + left)
  {
    Distribute(paid, later, p);
    Distribute(paid, ready', p);
    NonNegativeProduct(ready, p);
    ScaleInt(paid + ready', if gone == 0 then ready else 1, p);
  }

  /** Exactly when a bucket keeps the rate it is configured with, over all runs: when the burst is at most one, or
      the rate divides a second into whole nanoseconds. */
  lemma KeepsRateIffDivides(rate: real, burst: nat, t0: int)
    requires 1.0 <= rate && rate.Floor <= 1_000_000_000
    ensures (forall calls :: KeepsRate(rate, burst, t0, calls)) <==> burst <= 1 || 1_000_000_000 % rate.Floor == 0
  {
    if burst <= 1 {
      forall calls
        ensures KeepsRate(rate, burst, t0, calls)
      {
        SmallBurstKeepsRate(rate, burst, t0, calls);
      }
    } else if 1_000_000_000 % rate.Floor == 0 {
      forall calls
        ensures KeepsRate(rate, burst, t0, calls)
      {
        AdmittedInRate(rate, burst, t0, calls);
      }
    } else {
      var calls := TooFast(rate, burst, t0);
      assert !KeepsRate(rate, burst, t0, calls);
    }
  }

  lemma SmallBurstKeepsRate(rate: real, burst: nat, t0: int, calls: seq<Tokens.Call>)
    requires 1.0 <= rate && burst <= 1
    ensures KeepsRate(rate, burst, t0, calls)
  {
    hide Tokens.NewBucket, Tokens.Admitted, Tokens.Latest;
    var b, admitted := Tokens.NewBucket(rate, burst, t0), Tokens.Admitted(Tokens.NewBucket(rate, burst, t0), calls);
    Tokens.NewBucketIs(rate, burst, t0);
    PeriodOf(rate, burst, t0);
    SmallBurstInPeriods(b, calls);
    var p, elapsed := b.fillPeriod + 1, Tokens.Latest(calls, t0) - t0;
    Distribute(admitted - burst, burst, p);
    ScaleInt((admitted - burst) * p, elapsed, rate.Floor);
    assert (admitted - burst) * p * rate.Floor == (admitted - burst) * (p * rate.Floor);
    if burst <= admitted {
      Factors(admitted - burst, 1_000_000_000, p * rate.Floor);
    } else {
      NonNegativeProduct(elapsed, rate.Floor);
    }
  }

  lemma Factors(k: nat, x: int, y: int)
    requires x <= y
    ensures k * x <= k * y
  {}

  /** The full burst at once, and two events after two whole periods, which are shorter than the rate's. */
  lemma TooFast(rate: real, burst: nat, t0: int) returns (calls: seq<Tokens.Call>)
    requires 1.0 <= rate && rate.Floor <= 1_000_000_000 && 2 <= burst && 1_000_000_000 % rate.Floor != 0
    ensures !KeepsRate(rate, burst, t0, calls)
  {
    hide Tokens.NewBucket, Tokens.Admitted, Tokens.Latest;
    var b := Tokens.NewBucket(rate, burst, t0);
    PeriodOf(rate, burst, t0);
    var p := b.fillPeriod;
    var c0, c1 := Tokens.Call.Allow(t0, burst), Tokens.Call.Allow(t0 + 2 * p, 2);
    calls := [c0, c1];
    EmptiedThenTwo(b);
    Tokens.TwoCalls(b, c0, c1);
    assert 2 * p * rate.Floor == 2 * (p * rate.Floor);
  }

  lemma EmptiedThenTwo(b: Tokens.Bucket)
    requires b.WellFormed() && b.tokenCount == b.burst as real && 2 <= b.burst && 1 <= b.fillPeriod
    ensures var t := b.lastFilled;
            var (b', g) := Tokens.Step(b, Tokens.Call.Allow(t, b.burst));
            && g == Tokens.Granted(b.burst, t)
            && Tokens.Step(b', Tokens.Call.Allow(t + 2 * b.fillPeriod, 2)).1
               == Tokens.Granted(2, t + 2 * b.fillPeriod)
  {
    var t, b' := b.lastFilled, b.(tokenCount := 0.0);
    assert Tokens.Step(b, Tokens.Call.Allow(t, b.burst)) == (b', Tokens.Granted(b.burst, t));
    Tokens.AdmitsIffRefilled(b', t + 2 * b.fillPeriod, 2);
    assert (2 as real - 0.0) * b.fillPeriod as real == (2 * b.fillPeriod) as real;
    assert Tokens.AllowAt(b', t + 2 * b.fillPeriod, 2).1;
    hide Tokens.FillAt;
  }

  // ---------- the leaky bucket ----------

  /** What a bucket has accepted since it was created, up to some time, keeps within the capability and the rate. */
  predicate LeaksInRate(rate: real, capability: nat, t0: int, calls: seq<Leaky.Call>, until: int)
    requires 1.0 <= rate && Leaky.NewBucket(rate, capability, t0).WellFormed()
  {
    Leaky.UpTo(calls, until) && t0 <= until ==>
      (Leaky.Accepted(Leaky.NewBucket(rate, capability, t0), calls) - capability) * 1_000_000_000
      <= (until - t0) * rate.Floor
  }

  lemma LeakyPeriodOf(rate: real, capability: nat, t0: int)
    requires 1.0 <= rate && rate.Floor <= 1_000_000_000
    ensures var b := Leaky.NewBucket(rate, capability, t0);
            && b.WellFormed() && b.capability == capability && b.drops == 0 && b.lastDrained == t0
            && b.drainPeriod * rate.Floor == WholePeriods(rate.Floor)
  {
    Leaky.NewBucketIs(rate, capability, t0);
    var p := Leaky.NewBucket(rate, capability, t0).drainPeriod;
    PeriodsFill(p, rate.Floor);
    Leaky.PeriodPositiveIff(rate.Floor);
  }

  lemma AcceptedInRate(rate: real, capability: nat, t0: int, calls: seq<Leaky.Call>, until: int)
    requires 1.0 <= rate && rate.Floor <= 1_000_000_000 && t0 <= until && Leaky.UpTo(calls, until)
    ensures Leaky.NewBucket(rate, capability, t0).WellFormed()
    ensures var accepted := Leaky.Accepted(Leaky.NewBucket(rate, capability, t0), calls);
            (accepted - capability) * WholePeriods(rate.Floor) <= (until - t0) * rate.Floor
  {
    hide Leaky.NewBucket, Leaky.Accepted, Leaky.UpTo, WholePeriods;
    LeakyPeriodOf(rate, capability, t0);
    Leaky.AcceptedSinceCreation(rate, capability, t0, calls, until);
    var b := Leaky.NewBucket(rate, capability, t0);
    InRate(Leaky.Accepted(b, calls), capability, b.drainPeriod, rate.Floor, until - t0);
  }

  /** Exactly when a leaky bucket keeps the rate it is configured with, over all runs and times. */
  lemma LeaksInRateIffDivides(rate: real, capability: nat, t0: int)
    requires 1.0 <= rate && rate.Floor <= 1_000_000_000
    ensures Leaky.NewBucket(rate, capability, t0).WellFormed()
    ensures (forall calls, until :: LeaksInRate(rate, capability, t0, calls, until))
            <==> capability == 0 || 1_000_000_000 % rate.Floor == 0
  {
    LeakyPeriodOf(rate, capability, t0);
    if capability == 0 || 1_000_000_000 % rate.Floor == 0 {
      forall calls, until
        ensures LeaksInRate(rate, capability, t0, calls, until)
      {
        if Leaky.UpTo(calls, until) && t0 <= until {
          if capability == 0 {
            NothingAccepted(Leaky.NewBucket(rate, 0, t0), calls);
            NonNegativeProduct(until - t0, rate.Floor);
          } else {
            AcceptedInRate(rate, capability, t0, calls, until);
          }
        }
      }
    } else {
      var calls, until := LeaksTooFast(rate, capability, t0);
      assert !LeaksInRate(rate, capability, t0, calls, until);
    }
  }

  lemma {:induction false} NothingAccepted(b: Leaky.Bucket, calls: seq<Leaky.Call>)
    requires b.WellFormed() && b.capability == 0
    ensures Leaky.Accepted(b, calls) == 0
    decreases |calls|
  {
    if calls != [] {
      Leaky.StepKeepsWellFormed(b, calls[0]);
      Leaky.DrainKeepsWellFormed(b, calls[0].t);
      NothingAccepted(Leaky.Step(b, calls[0]).0, calls[1..]);
    }
  }

  lemma LeaksTooFast(rate: real, capability: nat, t0: int) returns (calls: seq<Leaky.Call>, until: int)
    requires 1.0 <= rate && rate.Floor <= 1_000_000_000 && 1 <= capability && 1_000_000_000 % rate.Floor != 0
    requires Leaky.NewBucket(rate, capability, t0).WellFormed()
    ensures !LeaksInRate(rate, capability, t0, calls, until)
  {
    hide Leaky.NewBucket, Leaky.Accepted;
    LeakyPeriodOf(rate, capability, t0);
    var b := Leaky.NewBucket(rate, capability, t0);
    var p := b.drainPeriod;
    calls, until := [Leaky.Call.Allow(t0, capability), Leaky.Call.Allow(t0 + 2 * p, 2)], t0 + 2 * p;
    FilledThenTwo(b);
    assert calls[1..] == [calls[1]] && calls[1..][1..] == [];
    assert Leaky.UpTo([], until) && Leaky.UpTo([calls[1]], until) && Leaky.UpTo(calls, until);
    assert 2 * p * rate.Floor == 2 * (p * rate.Floor);
  }

  lemma FilledThenTwo(b: Leaky.Bucket)
    requires b.WellFormed() && b.drops == 0 && 1 <= b.capability
    ensures var t := b.lastDrained;
            Leaky.Accepted(b, [Leaky.Call.Allow(t, b.capability), Leaky.Call.Allow(t + 2 * b.drainPeriod, 2)])
            == b.capability + 2
  {
    var t, b' := b.lastDrained, b.(drops := b.capability);
    var c0, c1 := Leaky.Call.Allow(t, b.capability), Leaky.Call.Allow(t + 2 * b.drainPeriod, 2);
    assert Leaky.Step(b, c0) == (b', b.capability);
    Leaky.AcceptsIffDrained(b', c1.t, 2);
    assert Leaky.Step(b', c1).1 == 2;
    assert [c0, c1][1..] == [c1] && [c1][1..] == [];
    assert Leaky.Accepted(Leaky.Step(b', c1).0, []) == 0;
    assert Leaky.Accepted(b', [c1]) == 2;
  }
}
