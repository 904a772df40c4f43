/** Wall-clock times and the half-hour rounding that both rate classes apply
    before they ask for a rate period. */
module Clock {
  const MicrosPerSecond: int := 1_000_000

  /** `timedelta(minutes=30)`, in microseconds. */
  const HalfHour: int := 30 * 60 * MicrosPerSecond

  /** A naive `datetime`: a day number standing for the calendar date, and
      the time of day. */
  datatype DateTime = DateTime(day: int, hour: int, minute: int, second: int, microsecond: int)

  /** The field ranges a `datetime` object keeps. */
  predicate Valid(t: DateTime)
  {
    0 <= t.hour < 24 && 0 <= t.minute < 60 && 0 <= t.second < 60 && 0 <= t.microsecond < MicrosPerSecond
  }

  /** The instant t denotes, in microseconds from the start of day 0; adding
      a `timedelta` to a `datetime` adds its length here. */
  function Instant(t: DateTime): int
  {
    (((t.day * 24 + t.hour) * 60 + t.minute) * 60 + t.second) * MicrosPerSecond + t.microsecond
  }

  /** `round_time`: the minute becomes 30 when `t.minute // 30 == 1` and 0
      otherwise, the seconds and microseconds become 0, the hour and the date
      stay. On valid times the minute test is "at least 30". */
  function RoundTime(t: DateTime): (r: DateTime)
    ensures Valid(t) ==> Valid(r)
    ensures r.minute == (if 30 <= t.minute < 60 then 30 else 0)
    ensures r.day == t.day && r.hour == t.hour && r.second == 0 && r.microsecond == 0
  {
    var minute := if t.minute / 30 == 1 then 30 else 0;
    t.(second := 0, microsecond := 0, minute := minute, hour := t.hour)
  }

  /** Euclidean division by a positive modulus has a unique remainder. */
  lemma ModOfSplit(x: int, q: int, r: int)
    requires 0 <= r < HalfHour && x == HalfHour * q + r
    ensures x % HalfHour == r
  {
    assert HalfHour * (x / HalfHour - q) == r - x % HalfHour;
  }

  /** The start of the half hour holding t: t's instant rounded down to a
      multiple of thirty minutes. */
  lemma {:induction false} RoundTimeFloor(t: DateTime)
    requires Valid(t)
    ensures Instant(RoundTime(t)) == Instant(t) - Instant(t) % HalfHour
  {
    var q := t.day * 48 + t.hour * 2 + t.minute / 30;
    var r := ((t.minute % 30) * 60 + t.second) * MicrosPerSecond + t.microsecond;
    assert t.minute == 30 * (t.minute / 30) + t.minute % 30;
    assert Instant(t) == HalfHour * q + r;
    assert Instant(RoundTime(t)) == HalfHour * q;
    ModOfSplit(Instant(t), q, r);
  }

  /** The rounded time is on the half-hour grid, not after t, and less than
      thirty minutes before it. */
  lemma RoundTimeBounds(t: DateTime)
    requires Valid(t)
    ensures Instant(RoundTime(t)) % HalfHour == 0
    ensures Instant(RoundTime(t)) <= Instant(t) < Instant(RoundTime(t)) + HalfHour
  {
    RoundTimeFloor(t);
    ModOfSplit(Instant(RoundTime(t)), Instant(t) / HalfHour, 0);
  }

  /** Rounding twice is rounding once, so the getters' second `round_time`
      changes nothing. */
  lemma RoundTimeIdempotent(t: DateTime)
    ensures RoundTime(RoundTime(t)) == RoundTime(t)
  {
  }
}
