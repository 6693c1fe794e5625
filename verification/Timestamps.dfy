/** Times, integer nanoseconds since the epoch, as protocol timestamps and back. */
module Timestamps {
  import opened Messages

  const SECOND: int := 1_000_000_000

  /** The times whose seconds fit 64 bits. */
  predicate InRange(t: int) {
    -TWO_TO_THE_63 * SECOND <= t < TWO_TO_THE_63 * SECOND
  }

  /** Seconds are rounded down, so the nanoseconds are never negative. */
  function TimeToTimestamp(t: int): Timestamp
    requires InRange(t)
  {
    Timestamp(t / SECOND, t % SECOND)
  }

  /** A missing timestamp reads as the epoch. */
  function TimestampToTime(ts: Option<Timestamp>): int {
    if ts.None? then 0 else ts.value.seconds * SECOND + ts.value.nanos
  }

  lemma TimeRoundTrip(t: int)
    requires InRange(t)
    ensures TimestampToTime(Some(TimeToTimestamp(t))) == t
    ensures 0 <= TimeToTimestamp(t).nanos < SECOND
  {}

  /** A timestamp counts whole seconds from the epoch and nanoseconds beyond them; a missing one is the epoch. */
  lemma TimestampIs(t: int)
    requires InRange(t)
    ensures TimeToTimestamp(t).seconds * 1_000_000_000 <= t < (TimeToTimestamp(t).seconds + 1) * 1_000_000_000
    ensures TimestampToTime(None) == 0
  {}

  /** Timestamps read from a peer survive exactly if their nanoseconds are in the normal range. */
  lemma TimestampRoundTripIffNormal(ts: Timestamp)
    requires InRange(TimestampToTime(Some(ts)))
    ensures TimeToTimestamp(TimestampToTime(Some(ts))) == ts <==> 0 <= ts.nanos < SECOND
  {}
}
