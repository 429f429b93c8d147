/** Calendar arithmetic on timestamps held as whole seconds since
    1970-01-01 00:00 (naive, as stored in the price tables).  Python's
    `datetime.weekday()` numbers Monday 0 .. Sunday 6; 1970-01-01 was a
    Thursday (3).  Dafny's `/` and `%` with a positive divisor floor, exactly
    as Python's `//` and `%` do. */
module Clock {

  const SecondsPerMinute: nat := 60
  const SecondsPerHour: nat := 3600
  const SecondsPerDay: nat := 86400
  const SecondsPerWeek: nat := 7 * 86400

  const Monday: int := 0
  const Friday: int := 4

  /** `datetime.weekday()` of the instant `t`. */
  function Weekday(t: int): (d: int)
    ensures 0 <= d < 7
  {
    (t / SecondsPerDay + 3) % 7
  }

  /** `datetime.hour` of the instant `t`. */
  function Hour(t: int): (h: int)
    ensures 0 <= h < 24
  {
    (t % SecondsPerDay) / SecondsPerHour
  }

  /** `timedelta.days` of a non-negative span of `d` seconds. */
  function Days(d: int): int {
    d / SecondsPerDay
  }

  /** Moving an instant by whole days moves its weekday by as many days and
      keeps its hour. */
  lemma {:induction false} ShiftByDays(t: int, k: int)
    ensures Weekday(t + k * SecondsPerDay) == (Weekday(t) + k) % 7
    ensures Hour(t + k * SecondsPerDay) == Hour(t)
  {
    var q := t / SecondsPerDay;
    var r := t % SecondsPerDay;
    assert t == q * SecondsPerDay + r;
    assert t + k * SecondsPerDay == (q + k) * SecondsPerDay + r;
    assert (t + k * SecondsPerDay) / SecondsPerDay == q + k;
    assert (t + k * SecondsPerDay) % SecondsPerDay == r;
    assert (q + k + 3) % 7 == ((q + 3) % 7 + k) % 7;
  }

  /** Whole weeks later it is the same weekday and the same hour. */
  lemma ShiftByWeeks(t: int, w: int)
    ensures Weekday(t + w * SecondsPerWeek) == Weekday(t)
    ensures Hour(t + w * SecondsPerWeek) == Hour(t)
  {
    assert w * SecondsPerWeek == (7 * w) * SecondsPerDay;
    ShiftByDays(t, 7 * w);
    assert (Weekday(t) + 7 * w) % 7 == Weekday(t);
  }
}
