/** Requests per second: a counter that is read out at intervals, and a history of the readings that is
    trimmed as it grows and still answers for the recent past as if it were not. */
module RpsHistories {
  import opened Arithmetic
  import opened Messages
  import opened Timestamps

  datatype Sample = Sample(rps: real, t: int)

  type History = seq<Sample>

  // ---------- what the history computes ----------

  /** One reading is added; at most one, the oldest, is dropped. */
  function Pushed(entries: History, max: nat, e: Sample): History {
    var grown := entries + [e];
    if max < e.t - grown[0].t then grown[1..] else grown
  }

  /** The history after a series of readings. */
  function Kept(all: History, max: nat): History {
    if all == [] then [] else Pushed(Kept(all[..|all| - 1], max), max, all[|all| - 1])
  }

  function Sum(entries: History, since: int): real {
    if entries == [] then 0.0 else (if since <= entries[0].t then entries[0].rps else 0.0) + Sum(entries[1..], since)
  }

  function Count(entries: History, since: int): nat {
    if entries == [] then 0 else (if since <= entries[0].t then 1 else 0) + Count(entries[1..], since)
  }

  /** The mean of the readings of the last `d` nanoseconds; zero over no history at all, and no number
      over a history that has nothing in range. */
  function Average(entries: History, d: int, now: int): Option<real> {
    if entries == [] then Some(0.0) else Mean(Sum(entries, now - d), Count(entries, now - d))
  }

  function Mean(sum: real, n: nat): Option<real> {
    if n == 0 then None else Some(sum / n as real)
  }

  /** What a restored history keeps, by the clock of the restore. */
  function Younger(entries: History, max: nat, now: int): History {
    if entries == [] then []
    else (if now - entries[0].t < max then [entries[0]] else []) + Younger(entries[1..], max, now)
  }

  // ---------- histories and messages ----------

  /** The times of the readings can be written as timestamps. */
  predicate Recordable(entries: History) {
    forall i :: 0 <= i < |entries| ==> InRange(entries[i].t)
  }

  function EntryPB(e: Sample): ReqPerSecEntry<real>
    requires InRange(e.t)
  {
    ReqPerSecEntry(e.rps, Some(TimeToTimestamp(e.t)))
  }

  function HistoryPB(count: uint32, entries: History): ReqPerSec<real>
    requires Recordable(entries)
  {
    ReqPerSec(count, seq(|entries|, i requires 0 <= i < |entries| => EntryPB(entries[i])))
  }

  function SamplesOf(m: ReqPerSec<real>): History {
    seq(|m.histories|, i requires 0 <= i < |m.histories| =>
      Sample(m.histories[i].rps, TimestampToTime(m.histories[i].time)))
  }

  /** The message of a history holds the same count and the same readings. */
  lemma HistoryMessageRoundTrip(count: uint32, entries: History)
    requires Recordable(entries)
    ensures HistoryPB(count, entries).reqCount == count
    ensures SamplesOf(HistoryPB(count, entries)) == entries
  {
    forall i | 0 <= i < |entries|
      ensures SamplesOf(HistoryPB(count, entries))[i] == entries[i]
    {
      TimeRoundTrip(entries[i].t);
    }
  }

  class RPS {
    const maxHistory: nat
    var reqCount: uint32
    var entries: History

    constructor (maxHistory: nat)
      ensures this.maxHistory == maxHistory && reqCount == 0 && entries == []
    {
      this.maxHistory := maxHistory;
      reqCount := 0;
      entries := [];
    }

    /** Adding wraps around. */
    method Add(n: uint32)
      modifies this
      ensures reqCount == (old(reqCount) + n) % TWO_TO_THE_32 && entries == old(entries)
    {
      reqCount := (reqCount + n) % TWO_TO_THE_32;
    }

    method Push(rps: real, now: int)
      modifies this
      ensures entries == Pushed(old(entries), maxHistory, Sample(rps, now)) && reqCount == old(reqCount)
    {
      entries := entries + [Sample(rps, now)];
      if now - entries[0].t > maxHistory {
        entries := entries[1..];
      }
    }

    /** The count is swapped for zero and read out as a rate. */
    method Calc(interval: int, now: int) returns (rps: real)
      requires 0 < interval
      modifies this
      ensures reqCount == 0
      ensures rps * (interval as real / SECOND as real) == old(reqCount) as real
      ensures entries == Pushed(old(entries), maxHistory, Sample(rps, now))
    {
      var reqs := reqCount;
      reqCount := 0;
      var seconds := interval as real / SECOND as real;
      RateTimesSeconds(reqs as real, seconds);
      rps := reqs as real / seconds;
      Push(rps, now);
    }

    method ToPB() returns (m: ReqPerSec<real>)
      requires Recordable(entries)
      ensures m == HistoryPB(reqCount, entries)
    {
      var histories := [];
      for i := 0 to |entries|
        invariant histories == HistoryPB(reqCount, entries).histories[..i]
      {
        histories := histories + [EntryPB(entries[i])];
      }
      m := ReqPerSec(reqCount, histories);
    }

    method FromPB(m: ReqPerSec<real>, now: int)
      modifies this
      ensures reqCount == m.reqCount && entries == Younger(SamplesOf(m), maxHistory, now)
    {
      hide Younger;
      reqCount := m.reqCount;
      entries := [];
      ghost var all := SamplesOf(m);
      assert all[0..] == all;
      for i := 0 to |m.histories|
        invariant entries + Younger(all[i..], maxHistory, now) == Younger(all, maxHistory, now)
        invariant reqCount == m.reqCount
      {
        YoungerStep(all, i, maxHistory, now);
        var t := TimestampToTime(m.histories[i].time);
        assert all[i] == Sample(m.histories[i].rps, t);
        if now - t < maxHistory {
          entries := entries + [Sample(m.histories[i].rps, t)];
        }
      }
      YoungerEnd(all, maxHistory, now);
    }

    /** The loop runs from the newest reading to the oldest and looks at all of them. */
    method AvgRPS(d: int, now: int) returns (avg: Option<real>)
      ensures avg == Average(entries, d, now)
    {
      hide Mean;
      var size := |entries|;
      if size == 0 {
        return Some(0.0);
      }
      var since := now - d;
      var rpsCount, rpsSum := 0, 0.0;
      var i := size - 1;
      while 0 <= i
        invariant -1 <= i < size
        invariant rpsSum == Sum(entries[i + 1..], since) && rpsCount == Count(entries[i + 1..], since)
      {
        assert entries[i..][0] == entries[i] && entries[i..][1..] == entries[i + 1..];
        if since <= entries[i].t {
          rpsSum := rpsSum + entries[i].rps;
          rpsCount := rpsCount + 1;
        }
        i := i - 1;
      }
      assert entries[0..] == entries;
      return Mean(rpsSum, rpsCount);
    }
  }

  lemma RateTimesSeconds(reqs: real, seconds: real)
    requires 0.0 < seconds
    ensures reqs / seconds * seconds == reqs
  {}

  // ---------- the trimmed history ----------

  predicate Sorted(entries: History) {
    forall i, j :: 0 <= i <= j < |entries| ==> entries[i].t <= entries[j].t
  }

  /** What is kept is a suffix of all readings, and all that was dropped is older than the maximum. */
  lemma {:induction false} KeptIsRecentSuffix(all: History, max: nat) returns (k: nat)
    requires Sorted(all)
    ensures k <= |all| && Kept(all, max) == all[k..]
    ensures all != [] ==> k < |all|
    ensures forall i :: 0 <= i < k ==> max < all[|all| - 1].t - all[i].t
  {
    if all == [] {
      k := 0;
    } else {
      var before, e := all[..|all| - 1], all[|all| - 1];
      assert before + [e] == all;
      k := KeptIsRecentSuffix(before, max);
      PushedSuffix(before, k, max, e);
      assert forall i :: 0 <= i < k ==> before[|before| - 1].t <= e.t && before[i] == all[i];
      if max < e.t - all[k].t {
        k := k + 1;
      }
    }
  }

  lemma PushedSuffix(before: History, k: nat, max: nat, e: Sample)
    requires k <= |before|
    ensures var all := before + [e];
            Pushed(before[k..], max, e) == if max < e.t - all[k].t then all[k + 1..] else all[k..]
  {
    var all := before + [e];
    assert before[k..] + [e] == all[k..];
    assert all[k..][1..] == all[k + 1..];
  }

  /** Readings that are out of range count for nothing. */
  lemma {:induction false} OutOfRange(entries: History, k: nat, since: int)
    requires k <= |entries| && forall i :: 0 <= i < k ==> entries[i].t < since
    ensures Sum(entries, since) == Sum(entries[k..], since) && Count(entries, since) == Count(entries[k..], since)
    decreases k
  {
    if k == 0 {
      assert entries[k..] == entries;
    } else {
      OutOfRange(entries[1..], k - 1, since);
      assert entries[1..][k - 1..] == entries[k..];
    }
  }

  /** With a clock that does not run backwards, the trimmed history gives for every duration up to the
      maximum exactly the answer that the readings of all times give. */
  lemma TrimmedAnswersLikeFull(all: History, max: nat, d: int, now: int)
    requires Sorted(all) && d <= max && (all != [] ==> all[|all| - 1].t <= now)
    ensures Average(Kept(all, max), d, now) == Average(all, d, now)
  {
    var k := KeptIsRecentSuffix(all, max);
    OutOfRange(all, k, now - d);
  }

  /** The kept readings stay in order. */
  lemma KeptIsSorted(all: History, max: nat)
    requires Sorted(all)
    ensures Sorted(Kept(all, max))
  {
    var k := KeptIsRecentSuffix(all, max);
  }

  /** For every longer duration there is a history that is answered differently: two readings just too far
      apart, 3 on average, of which the first is dropped. */
  lemma LongerDurationForgets(max: nat, d: int)
    requires max < d
    ensures var all := [Sample(4.0, 0), Sample(2.0, max + 1)];
            Average(Kept(all, max), d, max + 1) == Some(2.0) && Average(all, d, max + 1) == Some(3.0)
  {
    var s0, s1 := Sample(4.0, 0), Sample(2.0, max + 1);
    var all, since := [s0, s1], max + 1 - d;
    assert all[..1] == [s0] && [s0][..0] == [] && [s0][1..] == [] && all[1..] == [s1] && [s1][1..] == [];
    assert Kept([s0], max) == Pushed([], max, s0) == [s0];
    assert Kept(all, max) == Pushed([s0], max, s1) == [s1];
    assert Count([s1], since) == 1 && Sum([s1], since) == 2.0;
    assert Count(all, since) == 2 && Sum(all, since) == 6.0;
  }

  /** A history pushed in order of time and read after its last reading is answered as the full one. */
  predicate AnsweredAlike(all: History, max: nat, d: int, now: int) {
    Sorted(all) && (all != [] ==> all[|all| - 1].t <= now) ==>
      Average(Kept(all, max), d, now) == Average(all, d, now)
  }

  /** The trimmed history answers like the full one, whatever was pushed and whenever it is asked, exactly
      for the durations up to the maximum. */
  lemma AnsweredAlikeIffWithinMaximum(max: nat, d: int)
    ensures (forall all: History, now: int :: AnsweredAlike(all, max, d, now)) <==> d <= max
  {
    if d <= max {
      forall all: History, now: int
        ensures AnsweredAlike(all, max, d, now)
      {
        if Sorted(all) && (all != [] ==> all[|all| - 1].t <= now) {
          TrimmedAnswersLikeFull(all, max, d, now);
        }
      }
    } else {
      LongerDurationForgets(max, d);
      assert !AnsweredAlike([Sample(4.0, 0), Sample(2.0, max + 1)], max, d, max + 1);
    }
  }

  /** What a restore keeps of a history in order of time: its end, from the first reading on that is young
      enough. */
  lemma {:induction false} YoungerIsSuffix(entries: History, max: nat, now: int) returns (k: nat)
    requires Sorted(entries)
    ensures k <= |entries| && Younger(entries, max, now) == entries[k..]
    ensures forall i :: 0 <= i < |entries| ==> (i < k <==> max <= now - entries[i].t)
    decreases |entries|
  {
    if entries == [] {
      k := 0;
    } else {
      var rest := YoungerIsSuffix(entries[1..], max, now);
      assert forall i :: 0 < i < |entries| ==> entries[i] == entries[1..][i - 1];
      if now - entries[0].t < max {
        assert 1 < |entries| ==> entries[0].t <= entries[1..][0].t;
        assert rest == 0;
        k := 0;
        assert [entries[0]] + entries[1..] == entries;
      } else {
        k := rest + 1;
        assert entries[1..][rest..] == entries[k..];
      }
    }
  }

  function Occurrences(entries: History, e: Sample): nat {
    if entries == [] then 0 else (if entries[0] == e then 1 else 0) + Occurrences(entries[1..], e)
  }

  /** And of any history: exactly the readings that are young enough, as often as they were there. */
  lemma {:induction false} YoungerOccurs(entries: History, max: nat, now: int, e: Sample)
    ensures Occurrences(Younger(entries, max, now), e) == if now - e.t < max then Occurrences(entries, e) else 0
    decreases |entries|
  {
    if entries != [] {
      YoungerOccurs(entries[1..], max, now, e);
      var rest := Younger(entries[1..], max, now);
      assert ([entries[0]] + rest)[1..] == rest && [] + rest == rest;
    }
  }

  /** An average lies between the bounds of the readings in range, and it is missing exactly if there is a history
      but none of it is in range. */
  lemma AverageBetween(entries: History, d: int, now: int, lo: real, hi: real)
    requires forall i :: 0 <= i < |entries| && now - d <= entries[i].t ==> lo <= entries[i].rps <= hi
    ensures var avg := Average(entries, d, now);
            && (avg == None <==> entries != [] && forall i :: 0 <= i < |entries| ==> entries[i].t < now - d)
            && (avg.Some? && entries != [] ==> lo <= avg.value <= hi)
  {
    hide Count, Sum, Times;
    var n, sum := Count(entries, now - d), Sum(entries, now - d);
    SumBetween(entries, now - d, lo, hi);
    if n != 0 {
      MeanBetween(lo, sum, hi, n);
    }
  }

  function Times(n: nat, x: real): real {
    n as real * x
  }

  lemma MeanBetween(lo: real, sum: real, hi: real, n: nat)
    requires 0 < n && Times(n, lo) <= sum <= Times(n, hi)
    ensures lo <= sum / n as real <= hi
  {
    var a, k := sum / n as real, n as real;
    assert a * k == sum;
    assert lo * k == Times(n, lo) && hi * k == Times(n, hi);
    ScaleBack(lo, a, k);
    ScaleBack(a, hi, k);
  }

  lemma {:induction false} SumBetween(entries: History, since: int, lo: real, hi: real)
    requires forall i :: 0 <= i < |entries| && since <= entries[i].t ==> lo <= entries[i].rps <= hi
    ensures Times(Count(entries, since), lo) <= Sum(entries, since) <= Times(Count(entries, since), hi)
    ensures Count(entries, since) == 0 <==> forall i :: 0 <= i < |entries| ==> entries[i].t < since
    decreases |entries|
  {
    if entries == [] {
      assert Times(0, lo) == 0.0 == Times(0, hi);
    } else {
      hide Times;
      assert forall i :: 0 < i < |entries| ==> entries[i] == entries[1..][i - 1];
      SumBetween(entries[1..], since, lo, hi);
      OneMoreTimes(Count(entries[1..], since), lo);
      OneMoreTimes(Count(entries[1..], since), hi);
    }
  }

  lemma OneMoreTimes(n: nat, x: real)
    ensures Times(1 + n, x) == x + Times(n, x)
  {}

  lemma YoungerStep(all: History, i: nat, max: nat, now: int)
    requires i < |all|
    ensures forall before: History :: before + Younger(all[i..], max, now)
              == (if now - all[i].t < max then before + [all[i]] else before) + Younger(all[i + 1..], max, now)
  {
    assert all[i..][0] == all[i] && all[i..][1..] == all[i + 1..];
  }

  lemma YoungerEnd(all: History, max: nat, now: int)
    ensures Younger(all[|all|..], max, now) == []
  {}

  lemma {:induction false} YoungerCounts(entries: History, max: nat, now: int, since: int)
    requires now - max < since
    ensures var young := Younger(entries, max, now);
            Sum(young, since) == Sum(entries, since) && Count(young, since) == Count(entries, since)
  {
    if entries != [] {
      YoungerCounts(entries[1..], max, now, since);
      var young := Younger(entries[1..], max, now);
      if now - entries[0].t < max {
        assert ([entries[0]] + young)[1..] == young;
      } else {
        assert [] + young == young;
      }
    }
  }

  /** A history restored from a message answers for durations below the maximum as the original would,
      exactly unless all of it was too old: then the original has no mean and the restored one is zero. */
  lemma RestoredAnswersIffNotAllOld(entries: History, max: nat, restored: int, d: int, now: int)
    requires d < max && restored <= now
    ensures Average(Younger(entries, max, restored), d, now) == Average(entries, d, now)
            <==> entries == [] || Younger(entries, max, restored) != []
  {
    YoungerCounts(entries, max, restored, now - d);
    hide Younger;
  }

  // ---------- the counter ----------

  datatype Tick = Added(n: uint32) | Calculated

  /** Requests read out over a run, and what is left in the counter. */
  function ReadOut(count: uint32, ticks: seq<Tick>): (nat, uint32)
    decreases |ticks|
  {
    if ticks == [] then (0, count)
    else
      match ticks[0]
      case Added(n) => ReadOut((count + n) % TWO_TO_THE_32, ticks[1..])
      case Calculated => var (later, left) := ReadOut(0, ticks[1..]); (count + later, left)
  }

  function TotalAdded(ticks: seq<Tick>): nat {
    if ticks == [] then 0 else (if ticks[0].Added? then ticks[0].n else 0) + TotalAdded(ticks[1..])
  }

  /** How often the counter wraps around. */
  function Wraps(count: uint32, ticks: seq<Tick>): nat
    decreases |ticks|
  {
    if ticks == [] then 0
    else
      match ticks[0]
      case Added(n) => (if TWO_TO_THE_32 <= count + n then 1 else 0) + Wraps((count + n) % TWO_TO_THE_32, ticks[1..])
      case Calculated => Wraps(0, ticks[1..])
  }

  /** Every request is read out once or still counted, but for the 2^32 that each wrap loses. */
  lemma {:induction false} NoRequestLostButByWrapping(count: uint32, ticks: seq<Tick>)
    ensures var (read, left) := ReadOut(count, ticks);
            read + left + Wraps(count, ticks) * TWO_TO_THE_32 == count + TotalAdded(ticks)
    decreases |ticks|
  {
    if ticks != [] {
      match ticks[0]
      case Added(n) =>
        NoRequestLostButByWrapping((count + n) % TWO_TO_THE_32, ticks[1..]);
      case Calculated =>
        NoRequestLostButByWrapping(0, ticks[1..]);
    }
  }
}
