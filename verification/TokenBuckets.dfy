/** The token bucket: lazy refill, admission and paced reservations with debt.
    Times and durations are integer nanoseconds, token counts are reals. */
module TokenBuckets {
  import opened Arithmetic
  import opened Timestamps

  /** The fields of a bucket, as a value. */
  datatype Bucket = Bucket(
    rate: real,
    burst: nat,
    tokenCount: real,
    fillPeriod: int,
    lastFilled: int,
    nextFill: int)
  {
    /** What every bucket built by the constructor satisfies for ever. */
    ghost predicate WellFormed() {
      && 0 <= fillPeriod
      && nextFill == lastFilled + fillPeriod
      && -(burst as real) <= tokenCount <= burst as real
    }
  }

  function NewBucket(rate: real, burst: nat, now: int): Bucket
    requires 1.0 <= rate
  {
    var fillPeriod := SECOND / rate.Floor;
    Bucket(rate, burst, burst as real, fillPeriod, now, now + fillPeriod)
  }

  /** Lazy refill. A rate above one token per nanosecond has period zero; the quotient is
      then infinite and the bucket fills up. */
  function FillAt(b: Bucket, t: int): Bucket {
    if t <= b.nextFill then b
    else
      var tokens :=
        if b.fillPeriod == 0 then b.burst as real
        else
          var newTokens := (t - b.lastFilled) as real / b.fillPeriod as real;
          if b.tokenCount + newTokens <= b.burst as real then b.tokenCount + newTokens else b.burst as real;
      b.(tokenCount := tokens, lastFilled := t, nextFill := t + b.fillPeriod)
  }

  function AllowAt(b: Bucket, t: int, n: nat): (Bucket, bool) {
    Admit(FillAt(b, t), n)
  }

  function Admit(f: Bucket, n: nat): (Bucket, bool) {
    if f.tokenCount < n as real then (f, false) else (f.(tokenCount := f.tokenCount - n as real), true)
  }

  /** The second component is the delay the caller must sleep. */
  function TakeAt(b: Bucket, t: int, n: nat): (Bucket, int) {
    Reserve(FillAt(b, t), n)
  }

  /** The time a debt takes to refill; fractions of a nanosecond are cut off. */
  function Delay(tokens: real, fillPeriod: int): int {
    (-tokens * fillPeriod as real).Floor
  }

  function Reserve(f: Bucket, n: nat): (Bucket, int) {
    var rest := f.tokenCount - n as real;
    if rest < 0.0 then
      var kept := if rest < -(f.burst as real) then -(f.burst as real) else rest;
      (f.(tokenCount := kept), Delay(kept, f.fillPeriod))
    else
      (f.(tokenCount := rest), 0)
  }

  /** The mutable bucket. */
  class TokenBucket {
    var rate: real
    var burst: nat
    var tokenCount: real
    var fillPeriod: int
    var lastFilled: int
    var nextFill: int

    ghost function State(): Bucket
      reads this
    {
      Bucket(rate, burst, tokenCount, fillPeriod, lastFilled, nextFill)
    }

    constructor (rate: real, burst: nat, now: int)
      requires 1.0 <= rate
      ensures State() == NewBucket(rate, burst, now)
      ensures State().WellFormed()
    {
      var period := SECOND / rate.Floor;
      this.rate := rate;
      this.fillPeriod := period;
      this.burst := burst;
      this.tokenCount := burst as real;
      this.lastFilled := now;
      this.nextFill := now + period;
    }

    /** A bucket with given contents, as restored from a message. */
    constructor FromState(b: Bucket)
      ensures State() == b
    {
      rate, burst, tokenCount := b.rate, b.burst, b.tokenCount;
      fillPeriod, lastFilled, nextFill := b.fillPeriod, b.lastFilled, b.nextFill;
    }

    method Fill(t: int)
      modifies this
      ensures State() == FillAt(old(State()), t)
    {
      if nextFill < t {
        if fillPeriod == 0 {
          tokenCount := burst as real;
        } else {
          var newTokens := (t - lastFilled) as real / fillPeriod as real;
          if tokenCount + newTokens <= burst as real {
            tokenCount := tokenCount + newTokens;
          } else {
            tokenCount := burst as real;
          }
        }
        lastFilled := t;
        nextFill := t + fillPeriod;
      }
    }

    method Allow(t: int, n: nat) returns (ok: bool)
      modifies this
      ensures (State(), ok) == AllowAt(old(State()), t, n)
      ensures old(State()).WellFormed() ==> State().WellFormed()
      ensures ok ==> tokenCount >= 0.0 || n == 0
    {
      StepKeepsWellFormed(State(), Call.Allow(t, n));
      Fill(t);
      if tokenCount < n as real {
        return false;
      }
      tokenCount := tokenCount - n as real;
      return true;
    }

    method Take(t: int, n: nat) returns (delay: int)
      modifies this
      ensures (State(), delay) == TakeAt(old(State()), t, n)
      ensures old(State()).WellFormed() ==> State().WellFormed()
    {
      StepKeepsWellFormed(State(), Call.Take(t, n));
      Fill(t);
      tokenCount := tokenCount - n as real;
      if tokenCount < 0.0 {
        if tokenCount < -(burst as real) {
          tokenCount := -(burst as real);
        }
        return Delay(tokenCount, fillPeriod);
      }
      return 0;
    }
  }

  // ---------- runs ----------

  datatype Call = Allow(t: int, n: nat) | Take(t: int, n: nat)

  /** What a call hands out: nothing, or `events` events that may happen from `ready` on. */
  datatype Grant = Denied | Granted(events: nat, ready: int)

  function Step(b: Bucket, c: Call): (Bucket, Grant) {
    Settle(FillAt(b, c.t), c)
  }

  /** The part of a call that follows the refill. */
  function Settle(f: Bucket, c: Call): (Bucket, Grant) {
    match c
    case Allow(t, n) => var (b', ok) := Admit(f, n); (b', if ok then Granted(n, t) else Denied)
    case Take(t, n) => var (b', delay) := Reserve(f, n); (b', Granted(n, t + delay))
  }

  function Run(b: Bucket, calls: seq<Call>): Bucket
    decreases |calls|
  {
    if calls == [] then b else Run(Step(b, calls[0]).0, calls[1..])
  }

  function Paid(c: Call, g: Grant): nat {
    if c.Allow? && g.Granted? then g.events else 0
  }

  /** Events admitted by the Allow calls of a run. */
  function Admitted(b: Bucket, calls: seq<Call>): nat
    decreases |calls|
  {
    if calls == [] then 0
    else
      var (b', g) := Step(b, calls[0]);
      Paid(calls[0], g) + Admitted(b', calls[1..])
  }

  /** Events of a run whose ready time is at most `T`. */
  function ReadyBy(b: Bucket, calls: seq<Call>, T: int): nat
    decreases |calls|
  {
    if calls == [] then 0
    else
      var (b', g) := Step(b, calls[0]);
      (if g.Granted? && g.ready <= T then g.events else 0) + ReadyBy(b', calls[1..], T)
  }

  /** The latest of `t` and the times of the calls. */
  function Latest(calls: seq<Call>, t: int): (r: int)
    ensures t <= r
    ensures forall i :: 0 <= i < |calls| ==> calls[i].t <= r
  {
    if calls == [] then t
    else
      var r := Latest(calls[1..], if t < calls[0].t then calls[0].t else t);
      assert forall i :: 0 < i < |calls| ==> calls[i] == calls[1..][i - 1];
      r
  }

  // ---------- one bucket, one call ----------

  /** A new bucket is full, and its period is the whole number of nanoseconds that fits the rate. */
  lemma NewBucketIs(rate: real, burst: nat, now: int)
    requires 1.0 <= rate
    ensures var b := NewBucket(rate, burst, now);
            var p := b.fillPeriod;
            && b == Bucket(rate, burst, burst as real, p, now, now + p)
            && 0 <= p && p * rate.Floor <= 1_000_000_000 < (p + 1) * rate.Floor
  {
    Quotient(SECOND, rate.Floor);
    Distribute(SECOND / rate.Floor, 1, rate.Floor);
  }

  /** Exactly what a refill leaves: nothing changes up to the next fill; after it the credit is what there
      was and the time since the last fill, up to a full burst. */
  lemma FillIs(b: Bucket, t: int)
    requires b.WellFormed() && 0 < b.fillPeriod
    ensures t <= b.nextFill ==> FillAt(b, t) == b
    ensures b.nextFill < t ==>
              var f := FillAt(b, t);
              && f == b.(tokenCount := f.tokenCount, lastFilled := t, nextFill := t + b.fillPeriod)
              && Credit(f) == Lesser((b.burst * b.fillPeriod) as real, Credit(b) + (t - b.lastFilled) as real)
  {
    if b.nextFill < t {
      var p, d := b.fillPeriod as real, (t - b.lastFilled) as real;
      var q := d / p;
      assert q * p == d;
      assert (b.tokenCount + q) * p == b.tokenCount * p + d;
      ProductOfReals(b.burst, b.fillPeriod);
      if b.tokenCount + q <= b.burst as real {
        Scale(b.tokenCount + q, b.burst as real, p);
      } else {
        Scale(b.burst as real, b.tokenCount + q, p);
      }
    }
  }

  function Lesser(x: real, y: real): real {
    if x <= y then x else y
  }

  /** With no period at all the bucket is full whenever the clock has moved on. */
  lemma FillWithoutPeriod(b: Bucket, t: int)
    requires b.fillPeriod == 0 && b.nextFill < t
    ensures FillAt(b, t) == b.(tokenCount := b.burst as real, lastFilled := t, nextFill := t)
  {}

  /** A yes costs exactly the events asked for, a no costs nothing. */
  lemma AllowIs(b: Bucket, t: int, n: nat)
    ensures var f, (b', ok) := FillAt(b, t), AllowAt(b, t, n);
            && (ok <==> n as real <= f.tokenCount)
            && b' == f.(tokenCount := if ok then f.tokenCount - n as real else f.tokenCount)
  {
    hide FillAt;
  }

  /** Exactly what a reservation leaves and how long it waits: the tokens go into debt for what is missing, and
      no further than minus the burst; the delay is the time the debt takes, to the nanosecond. */
  lemma TakeIs(b: Bucket, t: int, n: nat)
    ensures var f, (b', delay) := FillAt(b, t), TakeAt(b, t, n);
            var missing := n as real - f.tokenCount;
            && b' == f.(tokenCount := -Lesser(missing, b.burst as real))
            && delay == if missing <= 0.0 then 0
                        else (Lesser(missing, b.burst as real) * b.fillPeriod as real).Floor
  {
    var f := FillAt(b, t);
    assert f.burst == b.burst && f.fillPeriod == b.fillPeriod;
    var missing := n as real - f.tokenCount;
    var kept := Lesser(missing, b.burst as real);
    hide FillAt;
    assert -(-kept) == kept;
  }

  // ---------- what every step keeps ----------

  lemma FillKeepsWellFormed(b: Bucket, t: int)
    requires b.WellFormed()
    ensures FillAt(b, t).WellFormed()
    ensures b.lastFilled <= FillAt(b, t).lastFilled
    ensures FillAt(b, t).lastFilled <= t || FillAt(b, t) == b
    ensures t <= FillAt(b, t).nextFill
    ensures FillAt(b, t).fillPeriod == b.fillPeriod && FillAt(b, t).burst == b.burst
  {
    if b.nextFill < t && 0 < b.fillPeriod {
      assert (t - b.lastFilled) as real / b.fillPeriod as real >= 0.0;
    }
  }

  lemma StepKeepsWellFormed(b: Bucket, c: Call)
    ensures b.WellFormed() ==> Step(b, c).0.WellFormed()
    ensures var b' := Step(b, c).0; b'.rate == b.rate && b'.burst == b.burst && b'.fillPeriod == b.fillPeriod
  {
    if b.WellFormed() {
      FillKeepsWellFormed(b, c.t);
    }
  }

  /** Every reachable bucket keeps its configuration, its token range and its next fill time. */
  lemma {:induction false} RunKeepsWellFormed(b: Bucket, calls: seq<Call>)
    requires b.WellFormed()
    ensures var b' := Run(b, calls);
            b'.WellFormed() && b'.rate == b.rate && b'.burst == b.burst && b'.fillPeriod == b.fillPeriod
    decreases |calls|
  {
    if calls != [] {
      StepKeepsWellFormed(b, calls[0]);
      RunKeepsWellFormed(Step(b, calls[0]).0, calls[1..]);
    }
  }

  // ---------- credit: tokens measured in nanoseconds ----------

  function Credit(b: Bucket): real {
    b.tokenCount * b.fillPeriod as real
  }

  /** A refill never adds more credit than the time it accounts for. */
  lemma FillCredit(b: Bucket, t: int)
    requires b.WellFormed() && 0 < b.fillPeriod
    ensures Credit(FillAt(b, t)) <= Credit(b) + (FillAt(b, t).lastFilled - b.lastFilled) as real
  {
    if b.nextFill < t {
      var p := b.fillPeriod as real;
      var d := (t - b.lastFilled) as real;
      var q := d / p;
      assert q * p == d;
      assert (b.tokenCount + q) * p == b.tokenCount * p + d;
      var f := FillAt(b, t);
      assert f.tokenCount <= b.tokenCount + q;
      Scale(f.tokenCount, b.tokenCount + q, p);
    }
  }

  lemma SpendCredit(f: Bucket, b: Bucket, n: nat)
    requires b.fillPeriod == f.fillPeriod && 0 <= f.fillPeriod && b.tokenCount <= f.tokenCount - n as real
    ensures Credit(b) + (n * f.fillPeriod) as real <= Credit(f)
  {
    var p := f.fillPeriod as real;
    ProductOfReals(n, f.fillPeriod);
    Scale(b.tokenCount + n as real, f.tokenCount, p);
    assert (b.tokenCount + n as real) * p == b.tokenCount * p + n as real * p;
  }

  lemma CreditOfTokens(b: Bucket)
    ensures 0 <= b.fillPeriod && 0.0 <= b.tokenCount ==> 0.0 <= Credit(b)
  {
    if 0 <= b.fillPeriod && 0.0 <= b.tokenCount {
      Scale(0.0, b.tokenCount, b.fillPeriod as real);
    }
  }

  /** What one call does to the credit: it gains at most the time refilled and loses what an Allow
      call admits, which never leaves the bucket in debt. */
  lemma StepCredit(b: Bucket, c: Call)
    requires b.WellFormed() && 0 < b.fillPeriod
    ensures var (b', g) := Step(b, c);
            && b'.WellFormed() && b'.fillPeriod == b.fillPeriod && b'.burst == b.burst
            && b.lastFilled <= b'.lastFilled <= (if b.lastFilled < c.t then c.t else b.lastFilled)
            && Credit(b') + (Paid(c, g) * b.fillPeriod) as real <= Credit(b) + (b'.lastFilled - b.lastFilled) as real
            && (0 < Paid(c, g) ==> 0.0 <= Credit(b'))
  {
    StepKeepsWellFormed(b, c);
    FillKeepsWellFormed(b, c.t);
    FillCredit(b, c.t);
    SettleCredit(FillAt(b, c.t), c);
  }

  lemma SettleCredit(f: Bucket, c: Call)
    requires f.WellFormed() && 0 < f.fillPeriod
    ensures var (b', g) := Settle(f, c);
            && b'.lastFilled == f.lastFilled
            && Credit(b') + (Paid(c, g) * f.fillPeriod) as real <= Credit(f)
            && (0 < Paid(c, g) ==> 0.0 <= Credit(b'))
  {
    hide Delay, Credit;
    var (b', g) := Settle(f, c);
    SpendCredit(f, b', Paid(c, g));
    CreditOfTokens(b');
  }

  // ---------- sliding window ----------

  /** Events admitted by a run are paid for by the initial credit and the time refilled since. */
  lemma {:induction false} AdmittedPaidByCredit(b: Bucket, calls: seq<Call>)
    requires b.WellFormed() && 0 < b.fillPeriod
    ensures Admitted(b, calls) == 0 ||
            (Admitted(b, calls) * b.fillPeriod) as real
            <= Credit(b) + (Latest(calls, b.lastFilled) - b.lastFilled) as real
    decreases |calls|
  {
    if calls != [] {
      var c := calls[0];
      var (b', g) := Step(b, c);
      StepCredit(b, c);
      AdmittedPaidByCredit(b', calls[1..]);
      LatestMonotone(calls[1..], b'.lastFilled, if b.lastFilled < c.t then c.t else b.lastFilled);
      Distribute(Paid(c, g), Admitted(b', calls[1..]), b.fillPeriod);
    }
  }

  lemma {:induction false} LatestMonotone(calls: seq<Call>, s: int, t: int)
    requires s <= t
    ensures Latest(calls, s) <= Latest(calls, t)
  {
    if calls != [] {
      var u := calls[0].t;
      LatestMonotone(calls[1..], if s < u then u else s, if t < u then u else t);
    }
  }

  // ---------- nothing owed is lost ----------

  function Handed(g: Grant): nat {
    if g.Granted? then g.events else 0
  }

  /** All events a run hands out, at once or for later. */
  function HandedOut(b: Bucket, calls: seq<Call>): nat
    decreases |calls|
  {
    if calls == [] then 0
    else
      var (b', g) := Step(b, calls[0]);
      Handed(g) + HandedOut(b', calls[1..])
  }

  /** No refill of the run has to be cut off at the burst. */
  predicate NoOverflow(b: Bucket, calls: seq<Call>)
    decreases |calls|
  {
    calls == [] ||
    (&& (b.nextFill < calls[0].t ==>
           Credit(b) + (calls[0].t - b.lastFilled) as real <= (b.burst * b.fillPeriod) as real)
     && NoOverflow(Step(b, calls[0]).0, calls[1..]))
  }

  /** The clamp to `-burst` does not fire in any Take call of the run. */
  predicate NoClamp(b: Bucket, calls: seq<Call>)
    decreases |calls|
  {
    calls == [] ||
    (&& (calls[0].Take? ==> -(b.burst as real) <= FillAt(b, calls[0].t).tokenCount - calls[0].n as real)
     && NoClamp(Step(b, calls[0]).0, calls[1..]))
  }

  lemma SettleSpends(f: Bucket, c: Call)
    requires 0 <= f.fillPeriod
    ensures var (b', g) := Settle(f, c);
            && b'.lastFilled == f.lastFilled && b'.nextFill == f.nextFill
            && Credit(f) <= Credit(b') + (Handed(g) * f.fillPeriod) as real
            && ((c.Take? ==> -(f.burst as real) <= f.tokenCount - c.n as real) ==>
                  Credit(f) == Credit(b') + (Handed(g) * f.fillPeriod) as real)
  {
    hide Delay;
    var (b', g) := Settle(f, c);
    var p := f.fillPeriod as real;
    ProductOfReals(Handed(g), f.fillPeriod);
    Scale(f.tokenCount, b'.tokenCount + Handed(g) as real, p);
    assert (b'.tokenCount + Handed(g) as real) * p == b'.tokenCount * p + Handed(g) as real * p;
  }

  /** Conservation as an equality: while no refill is cut off at the burst and no debt at minus the burst, a
      run leaves exactly the credit it found and all the time refilled, less what it has handed out. */
  lemma {:induction false} RunConserves(b: Bucket, calls: seq<Call>)
    requires b.WellFormed() && 0 < b.fillPeriod && NoOverflow(b, calls) && NoClamp(b, calls)
    ensures var e := Run(b, calls);
            Credit(e) + (HandedOut(b, calls) * b.fillPeriod) as real
            == Credit(b) + (e.lastFilled - b.lastFilled) as real
    decreases |calls|
  {
    if calls != [] {
      var c := calls[0];
      var (b', g) := Step(b, c);
      StepKeepsWellFormed(b, c);
      FillKeepsWellFormed(b, c.t);
      FillIs(b, c.t);
      SettleSpends(FillAt(b, c.t), c);
      hide FillAt, Settle, Credit;
      RunConserves(b', calls[1..]);
      Distribute(Handed(g), HandedOut(b', calls[1..]), b.fillPeriod);
    }
  }

  /** So after any such run, however many refills it went through, a request that comes late enough to refill is
      admitted exactly if the credit of the beginning and the whole time since cover it and all that was handed
      out before. */
  lemma AdmitsIffEarned(b: Bucket, calls: seq<Call>, t: int, n: nat)
    requires b.WellFormed() && 0 < b.fillPeriod && NoOverflow(b, calls) && NoClamp(b, calls)
    requires Run(b, calls).nextFill < t
    ensures AllowAt(Run(b, calls), t, n).1
            <==> && n <= b.burst
                 && ((HandedOut(b, calls) + n) * b.fillPeriod) as real <= Credit(b) + (t - b.lastFilled) as real
  {
    hide AllowAt, Run, NoOverflow, NoClamp, HandedOut, Credit;
    RunKeepsWellFormed(b, calls);
    RunConserves(b, calls);
    AdmitsByCredit(Run(b, calls), t, n);
    Distribute(HandedOut(b, calls), n, b.fillPeriod);
  }

  lemma AdmitsByCredit(b: Bucket, t: int, n: nat)
    requires b.WellFormed() && 0 < b.fillPeriod && b.nextFill < t
    ensures AllowAt(b, t, n).1 <==>
              n <= b.burst && (n * b.fillPeriod) as real <= Credit(b) + (t - b.lastFilled) as real
  {
    hide AllowAt;
    AdmitsIffRefilled(b, t, n);
    var p := b.fillPeriod as real;
    ProductOfReals(n, b.fillPeriod);
    assert (n as real - b.tokenCount) * p == n as real * p - b.tokenCount * p;
  }

  /** Whatever is cut off, a run leaves no less than the smaller of a full burst and all there was to have, less
      what it has handed out. */
  lemma {:induction false} RunLeavesCredit(b: Bucket, calls: seq<Call>)
    requires b.WellFormed() && 0 < b.fillPeriod
    ensures var e := Run(b, calls);
            && b.lastFilled <= e.lastFilled
            && Lesser((b.burst * b.fillPeriod) as real, Credit(b) + (e.lastFilled - b.lastFilled) as real)
               <= Credit(e) + (HandedOut(b, calls) * b.fillPeriod) as real
    decreases |calls|
  {
    if calls == [] {
      CreditAtMostBurst(b);
    } else {
      var c := calls[0];
      var (b', g) := Step(b, c);
      StepKeepsWellFormed(b, c);
      FillKeepsWellFormed(b, c.t);
      FillIs(b, c.t);
      SettleSpends(FillAt(b, c.t), c);
      CreditAtMostBurst(b);
      hide FillAt, Settle, Credit;
      RunLeavesCredit(b', calls[1..]);
      Distribute(Handed(g), HandedOut(b', calls[1..]), b.fillPeriod);
      NonNegativeProduct(Handed(g), b.fillPeriod);
    }
  }

  /** So from any state, after any run, a request is admitted that a full burst covers together with all that was
      handed out since, as soon as the time since has earned as much. */
  lemma EarnedIsAdmitted(b: Bucket, calls: seq<Call>, t: int, n: nat)
    requires b.WellFormed() && 0 < b.fillPeriod && Run(b, calls).nextFill < t
    requires HandedOut(b, calls) + n <= b.burst
    requires ((HandedOut(b, calls) + n) * b.fillPeriod) as real <= Credit(b) + (t - b.lastFilled) as real
    ensures AllowAt(Run(b, calls), t, n).1
  {
    hide AllowAt, Run, HandedOut, Credit;
    RunKeepsWellFormed(b, calls);
    RunLeavesCredit(b, calls);
    AdmitsByCredit(Run(b, calls), t, n);
    Distribute(HandedOut(b, calls), n, b.fillPeriod);
    ScaleInt(HandedOut(b, calls) + n, b.burst, b.fillPeriod);
  }

  /** A run may as well start from the bucket its first call refills. */
  lemma FillFirst(b: Bucket, calls: seq<Call>) returns (f: Bucket)
    requires b.WellFormed() && calls != []
    ensures f.WellFormed() && f.fillPeriod == b.fillPeriod && f.burst == b.burst
    ensures calls[0].t <= f.nextFill
    ensures Admitted(f, calls) == Admitted(b, calls)
  {
    f := FillAt(b, calls[0].t);
    FillKeepsWellFormed(b, calls[0].t);
    assert FillAt(f, calls[0].t) == f;
  }

  /** Sliding window: whatever happened before, whatever Take calls are mixed in and in whatever
      order the clock readings arrive, the events admitted between the first call and the latest
      clock reading are at most `burst + 1 + elapsed / fillPeriod`. */
  lemma WindowBound(b: Bucket, calls: seq<Call>)
    requires b.WellFormed() && calls != []
    ensures Admitted(b, calls) * b.fillPeriod
            <= (b.burst + 1) * b.fillPeriod + (Latest(calls, calls[0].t) - calls[0].t)
  {
    var f := FillFirst(b, calls);
    WindowAfterFill(f, calls);
  }

  lemma WindowAfterFill(f: Bucket, calls: seq<Call>)
    requires f.WellFormed() && calls != [] && calls[0].t <= f.nextFill
    ensures Admitted(f, calls) * f.fillPeriod
            <= (f.burst + 1) * f.fillPeriod + (Latest(calls, calls[0].t) - calls[0].t)
  {
    if f.fillPeriod == 0 {
      ZeroProduct(Admitted(f, calls), f.fillPeriod);
      ZeroProduct(f.burst + 1, f.fillPeriod);
    } else {
      AdmittedPaidByCredit(f, calls);
      CreditAtMostBurst(f);
      LatestOverLower(calls, f.lastFilled);
      WindowArithmetic(Admitted(f, calls), f.burst, f.fillPeriod, Credit(f), f.lastFilled,
                       Latest(calls, f.lastFilled), calls[0].t, Latest(calls, calls[0].t));
    }
  }

  lemma WindowArithmetic(admitted: nat, burst: nat, p: int, credit: real, last: int, end: int, t1: int, t2: int)
    requires 0 < p && credit <= (burst * p) as real
    requires admitted == 0 || (admitted * p) as real <= credit + (end - last) as real
    requires t1 <= last + p && t1 <= t2
    requires end == t2 || (end == last && t2 <= last)
    ensures admitted * p <= (burst + 1) * p + (t2 - t1)
  {
    Distribute(burst, 1, p);
    NonNegativeProduct(burst, p);
  }

  lemma CreditAtMostBurst(b: Bucket)
    requires b.WellFormed()
    ensures Credit(b) <= (b.burst * b.fillPeriod) as real
  {
    Scale(b.tokenCount, b.burst as real, b.fillPeriod as real);
    assert (b.burst * b.fillPeriod) as real == b.burst as real * b.fillPeriod as real;
  }

  /** The starting point matters only when it lies after every call. */
  lemma {:induction false} LatestOverLower(calls: seq<Call>, s: int)
    requires calls != []
    ensures Latest(calls, s) == s || Latest(calls, s) == Latest(calls, calls[0].t)
    ensures Latest(calls, s) == s ==> Latest(calls, calls[0].t) <= s
  {
    LatestAttained(calls, s);
    LatestAttained(calls, calls[0].t);
    if Latest(calls, s) != s {
      assert Latest(calls, calls[0].t) <= Latest(calls, s);
    }
  }

  lemma {:induction false} LatestAttained(calls: seq<Call>, s: int)
    ensures Latest(calls, s) == s || exists i :: 0 <= i < |calls| && Latest(calls, s) == calls[i].t
  {
    if calls != [] {
      LatestAttained(calls[1..], if s < calls[0].t then calls[0].t else s);
      if Latest(calls, s) != s && Latest(calls, s) != calls[0].t {
        var i :| 0 <= i < |calls[1..]| && Latest(calls, s) == calls[1..][i].t;
        assert calls[i + 1].t == Latest(calls, s);
      }
    }
  }

  /** The window really can exceed `burst + elapsed / fillPeriod`: a bucket refills only after `nextFill`,
      with all the time it did not refill before. Any full bucket lets its burst pass at `nextFill` and one
      more event a nanosecond later, which is too much exactly if a period is longer than that. */
  lemma WindowSlackIsNeeded(b: Bucket)
    requires b.WellFormed() && b.tokenCount == b.burst as real && 1 <= b.burst && 0 < b.fillPeriod
    ensures var t := b.nextFill;
            var calls := [Call.Allow(t, b.burst), Call.Allow(t + 1, 1)];
            && Admitted(b, calls) == b.burst + 1 && Latest(calls, t) == t + 1
            && (Admitted(b, calls) * b.fillPeriod > b.burst * b.fillPeriod + (Latest(calls, t) - t)
                <==> 1 < b.fillPeriod)
  {
    hide Admitted, Latest;
    var c0, c1 := Call.Allow(b.nextFill, b.burst), Call.Allow(b.nextFill + 1, 1);
    var b1 := b.(tokenCount := 0.0);
    assert Step(b, c0) == (b1, Granted(b.burst, b.nextFill));
    OneMoreAfterNextFill(b1);
    TwoCalls(b, c0, c1);
    Distribute(b.burst, 1, b.fillPeriod);
  }

  lemma TwoCalls(b: Bucket, c0: Call, c1: Call)
    requires c0.t <= c1.t
    ensures var (b', g) := Step(b, c0);
            && Admitted(b, [c0, c1]) == Paid(c0, g) + Paid(c1, Step(b', c1).1)
            && Latest([c0, c1], c0.t) == c1.t
  {
    hide Step;
    var (b1, g0) := Step(b, c0);
    var (b2, g1) := Step(b1, c1);
    assert [c0, c1][1..] == [c1] && [c1][1..] == [];
    assert Latest([c0, c1], c0.t) == Latest([c1], c0.t) == Latest([], c1.t) == c1.t;
    assert Admitted(b2, []) == 0;
    assert Admitted(b1, [c1]) == Paid(c1, g1);
  }

  lemma OneMoreAfterNextFill(b: Bucket)
    requires b.WellFormed() && b.tokenCount == 0.0 && 1 <= b.burst && 0 < b.fillPeriod
    ensures Step(b, Call.Allow(b.nextFill + 1, 1)).1 == Granted(1, b.nextFill + 1)
  {
    AdmitsIffRefilled(b, b.nextFill + 1, 1);
    assert (1 as real - 0.0) * b.fillPeriod as real == b.fillPeriod as real;
    assert AllowAt(b, b.nextFill + 1, 1).1;
    hide FillAt;
  }

  /** Exactly when a request is admitted, from any state, in debt or not: before the next fill if the tokens
      are there, after it if it is no larger than the burst and the time since the last fill covers what
      is missing. */
  lemma AdmitsIffRefilled(b: Bucket, t: int, n: nat)
    requires b.WellFormed()
    ensures AllowAt(b, t, n).1 <==>
              if t <= b.nextFill then n as real <= b.tokenCount
              else n <= b.burst
                   && (b.fillPeriod == 0
                       || (n as real - b.tokenCount) * b.fillPeriod as real <= (t - b.lastFilled) as real)
  {
    if b.nextFill < t && 0 < b.fillPeriod {
      DividedTime((t - b.lastFilled) as real, n as real - b.tokenCount, b.fillPeriod as real);
    }
  }

  lemma DividedTime(d: real, x: real, p: real)
    requires 0.0 < p
    ensures x <= d / p <==> x * p <= d
  {
    var q := d / p;
    assert q * p == d;
    if x <= q {
      Scale(x, q, p);
    }
    if x * p <= d {
      ScaleBack(x, q, p);
    }
  }

  /** No starvation: from any reachable state, the deepest debt included, a request no larger than the burst
      succeeds after the bucket has been left alone for the periods of its tokens and of a whole burst. */
  lemma EnoughWaitingAdmits(b: Bucket, t: int, n: nat)
    requires b.WellFormed() && n <= b.burst
    requires b.lastFilled + (if b.burst == 0 then 1 else n + b.burst) * b.fillPeriod < t
    ensures AllowAt(b, t, n).1
  {
    var p := b.fillPeriod;
    if b.burst != 0 {
      ScaleInt(1, n + b.burst, p);
    }
    TimeCovers(n as real - b.tokenCount, n + b.burst, p, t - b.lastFilled);
    AdmitsIffRefilled(b, t, n);
    hide AllowAt;
  }

  lemma TimeCovers(x: real, periods: nat, p: nat, d: int)
    requires x <= periods as real && periods * p <= d
    ensures x * p as real <= d as real
  {
    ProductOfReals(periods, p);
    Scale(x, periods as real, p as real);
  }

  // ---------- paced reservations ----------

  predicate InOrder(calls: seq<Call>, from: int) {
    calls == [] || (from <= calls[0].t && InOrder(calls[1..], calls[0].t))
  }

  /** Events promised for time `T` are paid for by the credit and the time up to `T`; the strict
      bound leaves room for the fraction of a nanosecond each delay cuts off. */
  lemma {:induction false} ReadyPaidByCredit(b: Bucket, calls: seq<Call>, from: int, T: int)
    requires b.WellFormed() && 0 < b.fillPeriod
    requires b.lastFilled <= from && InOrder(calls, from) && NoClamp(b, calls)
    ensures ReadyBy(b, calls, T) == 0 ||
            (ReadyBy(b, calls, T) * b.fillPeriod) as real < Credit(b) + (T - b.lastFilled + 1) as real
    decreases |calls|
  {
    if calls != [] {
      var c := calls[0];
      var (b', g) := Step(b, c);
      PromiseCredit(b, c);
      ReadyPaidByCredit(b', calls[1..], c.t, T);
      Distribute(Handed(g), ReadyBy(b', calls[1..], T), b.fillPeriod);
      NonNegativeProduct(Handed(g), b.fillPeriod);
    }
  }

  /** What an undamped call does to the credit: every event handed out is paid for, and the delay
      covers the debt up to a fraction of a nanosecond. */
  lemma PromiseCredit(b: Bucket, c: Call)
    requires b.WellFormed() && 0 < b.fillPeriod && b.lastFilled <= c.t
    requires c.Take? ==> -(b.burst as real) <= FillAt(b, c.t).tokenCount - c.n as real
    ensures var (b', g) := Step(b, c);
            && b'.WellFormed() && b'.fillPeriod == b.fillPeriod && b'.burst == b.burst
            && b.lastFilled <= b'.lastFilled <= c.t
            && Credit(b') + (Handed(g) * b.fillPeriod) as real <= Credit(b) + (b'.lastFilled - b.lastFilled) as real
            && (g.Granted? ==> 0.0 < Credit(b') + (g.ready - b'.lastFilled + 1) as real)
  {
    StepKeepsWellFormed(b, c);
    FillKeepsWellFormed(b, c.t);
    FillCredit(b, c.t);
    SettlePromise(FillAt(b, c.t), c);
  }

  lemma SettlePromise(f: Bucket, c: Call)
    requires f.WellFormed() && 0 < f.fillPeriod && f.lastFilled <= c.t
    requires c.Take? ==> -(f.burst as real) <= f.tokenCount - c.n as real
    ensures var (b', g) := Settle(f, c);
            && b'.lastFilled == f.lastFilled
            && Credit(b') + (Handed(g) * f.fillPeriod) as real <= Credit(f)
            && (g.Granted? ==> 0.0 < Credit(b') + (g.ready - f.lastFilled + 1) as real)
  {
    hide Delay, Credit;
    var (b', g) := Settle(f, c);
    SpendCredit(f, b', Handed(g));
    CreditOfTokens(b');
    DelayCovers(b');
  }

  lemma DelayCovers(b: Bucket)
    ensures 0.0 < Credit(b) + (Delay(b.tokenCount, b.fillPeriod) + 1) as real
  {
    assert -b.tokenCount * b.fillPeriod as real == -Credit(b);
  }

  /** Pacing: from construction on, with the clock never running backwards and no debt cut off,
      the events whose caller has slept out its delay by time `T` never exceed
      `burst + (T - t0) / fillPeriod`. */
  lemma PacingBound(rate: real, burst: nat, t0: int, calls: seq<Call>, T: int)
    requires 1.0 <= rate && t0 <= T
    requires InOrder(calls, t0) && NoClamp(NewBucket(rate, burst, t0), calls)
    ensures var b := NewBucket(rate, burst, t0);
            ReadyBy(b, calls, T) * b.fillPeriod <= burst * b.fillPeriod + (T - t0)
  {
    var b := NewBucket(rate, burst, t0);
    if b.fillPeriod == 0 {
      ZeroProduct(ReadyBy(b, calls, T), b.fillPeriod);
      ZeroProduct(burst, b.fillPeriod);
    } else {
      ReadyPaidByCredit(b, calls, t0, T);
      CreditAtMostBurst(b);
      PacingArithmetic(ReadyBy(b, calls, T), burst, b.fillPeriod, Credit(b), T - t0);
    }
  }

  lemma PacingArithmetic(ready: nat, burst: nat, p: int, credit: real, elapsed: int)
    requires 0 < p && 0 <= elapsed && credit <= (burst * p) as real
    requires ready == 0 || (ready * p) as real < credit + (elapsed + 1) as real
    ensures ready * p <= burst * p + elapsed
  {
    NonNegativeProduct(burst, p);
  }

  /** With or without the clamp, no caller is told to wait longer than a full bucket takes. */
  lemma DelayBounded(b: Bucket, t: int, n: nat)
    requires b.WellFormed()
    ensures 0 <= TakeAt(b, t, n).1 <= b.burst * b.fillPeriod
  {
    FillKeepsWellFormed(b, t);
    ReserveBounded(FillAt(b, t), n);
  }

  lemma ReserveBounded(f: Bucket, n: nat)
    requires f.WellFormed()
    ensures 0 <= Reserve(f, n).1 <= f.burst * f.fillPeriod
  {
    var debt := -Reserve(f, n).0.tokenCount;
    ProductBounds(debt, f.burst, f.fillPeriod);
    if 0.0 < debt {
      assert Reserve(f, n).1 == Delay(-debt, f.fillPeriod) == (debt * f.fillPeriod as real).Floor;
    } else {
      assert Reserve(f, n).1 == 0;
    }
  }

  lemma ProductBounds(x: real, burst: nat, p: int)
    requires x <= burst as real && 0 <= p
    ensures 0 <= burst * p
    ensures 0.0 <= x ==> 0 <= (x * p as real).Floor <= burst * p
  {
    NonNegativeProduct(burst, p);
    if 0.0 <= x {
      Scale(x, burst as real, p as real);
      Scale(0.0, x, p as real);
      assert (burst * p) as real == burst as real * p as real;
    }
  }

  /** The time the tokens take that a request asks for beyond what is there. */
  function Missing(f: Bucket, n: nat): real {
    (n as real - f.tokenCount) * f.fillPeriod as real
  }

  /** The longest delay there is. */
  function FullDelay(burst: nat, fillPeriod: int): int {
    burst * fillPeriod
  }

  /** Exactly when a reservation is paced honestly, on any bucket: the debt is kept in full as long as the
      events are covered by the tokens and one burst of debt, and forgiven beyond; the delay is as long as
      the missing tokens take, to the nanosecond, unless what is forgiven is worth a nanosecond or more. */
  lemma TakeHonestIff(b: Bucket, t: int, n: nat)
    requires b.WellFormed()
    ensures var f, (b', delay) := FillAt(b, t), TakeAt(b, t, n);
            && (b'.tokenCount == f.tokenCount - n as real <==> n as real <= f.tokenCount + b.burst as real)
            && (Missing(f, n).Floor <= delay <==> Missing(f, n) < (FullDelay(b.burst, b.fillPeriod) + 1) as real)
  {
    FillKeepsWellFormed(b, t);
    DebtKeptIff(FillAt(b, t), n);
    DelayCoversIff(FillAt(b, t), n);
    hide FillAt, Reserve, Missing, FullDelay;
  }

  lemma DebtKeptIff(f: Bucket, n: nat)
    ensures Reserve(f, n).0.tokenCount == f.tokenCount - n as real <==> n as real <= f.tokenCount + f.burst as real
  {
    hide Delay;
  }

  lemma DelayCoversIff(f: Bucket, n: nat)
    requires f.WellFormed()
    ensures Missing(f, n).Floor <= Reserve(f, n).1 <==> Missing(f, n) < (FullDelay(f.burst, f.fillPeriod) + 1) as real
  {
    var x := n as real - f.tokenCount;
    DelayByMissing(f, n);
    MissingCovered(x, f.burst, f.fillPeriod);
    assert Missing(f, n) == x * f.fillPeriod as real;
    hide Reserve, MissingDelay, Missing, FullDelay;
  }

  /** The delay in the three cases: enough tokens, a debt that is kept, a debt that is cut off. */
  function MissingDelay(x: real, burst: nat, p: int): int {
    if x <= 0.0 then 0 else if x <= burst as real then (x * p as real).Floor else FullDelay(burst, p)
  }

  lemma DelayByMissing(f: Bucket, n: nat)
    ensures Reserve(f, n).1 == MissingDelay(n as real - f.tokenCount, f.burst, f.fillPeriod)
  {
    ProductOfReals(f.burst, f.fillPeriod);
    var x := n as real - f.tokenCount;
    assert -(f.tokenCount - n as real) == x && -(-(f.burst as real)) == f.burst as real;
  }

  lemma MissingCovered(x: real, burst: nat, p: int)
    requires 0 <= p
    ensures (x * p as real).Floor <= MissingDelay(x, burst, p) <==> x * p as real < (FullDelay(burst, p) + 1) as real
  {
    ProductOfReals(burst, p);
    NonNegativeProduct(burst, p);
    if x <= 0.0 {
      Scale(x, 0.0, p as real);
    } else if x <= burst as real {
      Scale(x, burst as real, p as real);
    }
  }

  /** On a full bucket this means: up to twice the burst. */
  lemma FullTakeHonestIffTwiceBurst(b: Bucket, t: int, n: nat)
    requires b.WellFormed() && b.tokenCount == b.burst as real && 0 < b.fillPeriod
    ensures n * b.fillPeriod <= b.burst * b.fillPeriod + TakeAt(b, t, n).1 <==> n <= 2 * b.burst
  {
    FillKeepsWellFormed(b, t);
    FullStaysFull(b, t);
    TakeHonestIff(b, t, n);
    WholeMissing(FillAt(b, t), n);
    hide TakeAt, FillAt, Missing, FullDelay;
    TwiceArithmetic(n, b.burst, b.fillPeriod, TakeAt(b, t, n).1);
  }

  lemma WholeMissing(f: Bucket, n: nat)
    requires f.tokenCount == f.burst as real
    ensures Missing(f, n) == ((n - f.burst) * f.fillPeriod) as real
  {
    ProductOfReals(n - f.burst, f.fillPeriod);
  }

  lemma TwiceArithmetic(n: nat, burst: nat, p: int, delay: int)
    requires 0 < p && ((n - burst) * p <= delay <==> (n - burst) * p < FullDelay(burst, p) + 1)
    ensures n * p <= burst * p + delay <==> n <= 2 * burst
  {
    Distribute(n - burst, burst, p);
    if n - burst <= burst {
      ScaleInt(n - burst, burst, p);
    } else {
      ScaleInt(burst + 1, n - burst, p);
      Distribute(burst, 1, p);
    }
  }

  lemma FullStaysFull(b: Bucket, t: int)
    requires b.WellFormed() && b.tokenCount == b.burst as real
    ensures FillAt(b, t).tokenCount == b.burst as real
  {
    if b.nextFill < t && 0 < b.fillPeriod {
      assert (t - b.lastFilled) as real / b.fillPeriod as real > 0.0;
    }
  }

  /** Splitting a run. */
  lemma {:induction false} RunConcat(b: Bucket, xs: seq<Call>, ys: seq<Call>)
    ensures Run(b, xs + ys) == Run(Run(b, xs), ys)
    ensures Admitted(b, xs + ys) == Admitted(b, xs) + Admitted(Run(b, xs), ys)
    decreases |xs|
  {
    if xs == [] {
      assert xs + ys == ys;
    } else {
      assert (xs + ys)[1..] == xs[1..] + ys;
      RunConcat(Step(b, xs[0]).0, xs[1..], ys);
    }
  }
}
