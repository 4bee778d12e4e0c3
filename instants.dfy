/** Instants and spans on the UTC timeline.

    An aware `datetime` is modelled as the number of microseconds since a
    fixed UTC epoch, and a `timedelta` as a number of microseconds; both are
    unbounded integers. Microseconds are the resolution of both Python types,
    so every comparison and every addition of the views is exact here.

    Two assumptions make `FloorToHour` below the `.hour` of a booking's
    `start_time`: the epoch lies on a UTC hour boundary (the Unix epoch
    does), and the ORM hands `start_time` back in UTC, as Django does when
    time-zone support is turned on. */
module Instants {

  const MINUTE: int := 60_000_000
  /** `timedelta(seconds=1800)`, the width of one bucket of the day view. */
  const HALF_HOUR: int := 1_800_000_000
  const HOUR: int := 3_600_000_000
  /** 48 half hours. */
  const DAY: int := 86_400_000_000

  function Max(a: int, b: int): int { if a >= b then a else b }

  function Min(a: int, b: int): int { if a <= b then a else b }

  /** The top of the UTC hour that contains `t`: the value of
      `datetime(t.year, t.month, t.day, t.hour)` made aware in UTC. Dafny's
      `%` is Euclidean, so instants before the epoch round towards the past
      as well. */
  function FloorToHour(t: int): (r: int)
    ensures r <= t < r + HOUR
    ensures r % HOUR == 0
  {
    t - t % HOUR
  }

  /** The part of `t` past the top of its hour, the value of
      `timedelta(minutes=t.minute, seconds=t.second, microseconds=t.microsecond)`. */
  function PastHour(t: int): (r: int)
    ensures 0 <= r < HOUR
    ensures FloorToHour(t) + r == t
  {
    t % HOUR
  }

  /** The top of the half hour that contains `t`; used only to state
      properties. */
  function FloorToHalfHour(t: int): (r: int)
    ensures r <= t < r + HALF_HOUR
    ensures r % HALF_HOUR == 0
  {
    t - t % HALF_HOUR
  }

  /** Euclidean remainders by a half hour are unique: a decomposition
      `t == q * HALF_HOUR + r` with `0 <= r < HALF_HOUR` determines them. */
  lemma {:induction false} HalfHourRemainder(t: int, q: int, r: int)
    requires 0 <= r < HALF_HOUR && t == q * HALF_HOUR + r
    ensures t % HALF_HOUR == r && t / HALF_HOUR == q
  {
  }

  /** The same for remainders by an hour. */
  lemma {:induction false} HourRemainder(t: int, q: int, r: int)
    requires 0 <= r < HOUR && t == q * HOUR + r
    ensures t % HOUR == r && t / HOUR == q
  {
  }

  /** Flooring to the hour and then stepping forward by one half hour when
      at least half an hour has passed is flooring to the half hour. */
  lemma {:induction false} HourThenBumpIsHalfHourFloor(t: int)
    ensures FloorToHour(t) + (if PastHour(t) >= HALF_HOUR then HALF_HOUR else 0) == FloorToHalfHour(t)
  {
    var h := t / HOUR;
    var p := PastHour(t);
    if p >= HALF_HOUR {
      HalfHourRemainder(t, 2 * h + 1, p - HALF_HOUR);
    } else {
      HalfHourRemainder(t, 2 * h, p);
    }
  }
}
