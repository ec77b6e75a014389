/** Instants and the handful of date-fns operations the power-cycle code uses.

    An instant is a whole number of milliseconds on the host's local wall clock.
    Days are fixed 24-hour days: daylight-saving shifts and time zones are not
    modelled, so the calendar day of an instant is its millisecond count divided
    (rounding down) by the length of a day. */
module Time {

  type Instant = int

  const MS_PER_MINUTE: int := 60_000
  const MS_PER_HOUR: int := 3_600_000
  const MS_PER_DAY: int := 86_400_000
  /** Time of day 12:00:00.000, as an offset from midnight. */
  const NOON: int := 43_200_000

  /** Integer division rounded toward zero, as `Math.trunc(a / b)` in JavaScript. */
  function TruncDiv(a: int, b: int): (q: int)
    requires b > 0
    ensures 0 <= a ==> 0 <= q * b <= a < q * b + b
    ensures a < 0 ==> q * b - b < a <= q * b <= 0
  {
    if a >= 0 then
      DivBounds(a, b);
      a / b
    else
      DivBounds(-a, b);
      -((-a) / b)
  }

  /** Euclidean division of a natural number: the quotient times the divisor
      lies within one divisor below the dividend. */
  lemma DivBounds(a: nat, b: int)
    requires b > 0
    ensures 0 <= (a / b) * b <= a < (a / b) * b + b
  {
    assert a == (a / b) * b + a % b;
    assert 0 <= a / b;
    MulNonNegative(a / b, b);
  }

  lemma MulNonNegative(x: int, y: int)
    requires 0 <= x && 0 <= y
    ensures 0 <= x * y
  {
  }

  /** JavaScript's `%` on integers: the remainder of the truncated division,
      whose sign follows the dividend. */
  function TruncRem(a: int, b: int): (r: int)
    requires b > 0
    ensures a == TruncDiv(a, b) * b + r
    ensures 0 <= a ==> 0 <= r < b
    ensures a < 0 ==> -b < r <= 0
  {
    if a >= 0 then a % b else -((-a) % b)
  }

  /** date-fns `differenceInHours(later, earlier)`: whole hours, truncated toward zero. */
  function DiffHours(later: Instant, earlier: Instant): (h: int)
    ensures earlier <= later ==> h * MS_PER_HOUR <= later - earlier < (h + 1) * MS_PER_HOUR
    ensures later < earlier ==> (h - 1) * MS_PER_HOUR < later - earlier <= h * MS_PER_HOUR
  {
    TruncDiv(later - earlier, MS_PER_HOUR)
  }

  /** date-fns `differenceInMinutes(later, earlier)`: whole minutes, truncated toward zero. */
  function DiffMinutes(later: Instant, earlier: Instant): (m: int)
    ensures earlier <= later ==> m * MS_PER_MINUTE <= later - earlier < (m + 1) * MS_PER_MINUTE
    ensures later < earlier ==> (m - 1) * MS_PER_MINUTE < later - earlier <= m * MS_PER_MINUTE
  {
    TruncDiv(later - earlier, MS_PER_MINUTE)
  }

  /** date-fns `addHours`: exactly `hours` whole hours later, as
      `differenceInHours` counts them. */
  function AddHours(t: Instant, hours: int): (r: Instant)
    ensures DiffHours(r, t) == hours
    ensures (r - t) % MS_PER_HOUR == 0
  {
    DivUnique(if hours >= 0 then hours * MS_PER_HOUR else -hours * MS_PER_HOUR, MS_PER_HOUR,
              if hours >= 0 then hours else -hours, 0);
    t + hours * MS_PER_HOUR
  }

  /** Calendar day of an instant (day 0 is the day holding instant 0). */
  function DayOf(t: Instant): int
  {
    t / MS_PER_DAY
  }

  /** Time of day of an instant, in milliseconds since midnight. */
  function TimeOfDay(t: Instant): int
  {
    t % MS_PER_DAY
  }

  /** date-fns `addDays` on fixed 24-hour days: the same time of day, `days`
      calendar days later. */
  function AddDays(t: Instant, days: int): (r: Instant)
    ensures DayOf(r) == DayOf(t) + days
    ensures TimeOfDay(r) == TimeOfDay(t)
  {
    DivUnique(t + days * MS_PER_DAY, MS_PER_DAY, DayOf(t) + days, TimeOfDay(t));
    t + days * MS_PER_DAY
  }

  /** date-fns `subDays` on fixed 24-hour days: the same time of day, `days`
      calendar days earlier. */
  function SubDays(t: Instant, days: int): (r: Instant)
    ensures DayOf(r) == DayOf(t) - days
    ensures TimeOfDay(r) == TimeOfDay(t)
  {
    DivUnique(t - days * MS_PER_DAY, MS_PER_DAY, DayOf(t) - days, TimeOfDay(t));
    t - days * MS_PER_DAY
  }

  /** date-fns `set(t, {hours: 12, minutes: 0, seconds: 0, milliseconds: 0})`:
      the same calendar day, at noon. */
  function SetNoon(t: Instant): (n: Instant)
    ensures DayOf(n) == DayOf(t)
    ensures TimeOfDay(n) == NOON
    ensures t - NOON - MS_PER_DAY < n <= t - NOON + MS_PER_DAY
  {
    DayOf(t) * MS_PER_DAY + NOON
  }

  /** Whole minutes and whole hours, both truncated, agree: the hours are the
      truncated quotient of the minutes by sixty. */
  lemma HoursFromMinutes(later: Instant, earlier: Instant)
    ensures DiffHours(later, earlier) == TruncDiv(DiffMinutes(later, earlier), 60)
  {
    var d := later - earlier;
    if d >= 0 {
      HoursOfMinutes(d);
    } else {
      HoursOfMinutes(-d);
    }
  }

  /** Rounding down to whole minutes and then to whole hours is rounding down
      to whole hours. */
  lemma HoursOfMinutes(a: nat)
    ensures (a / MS_PER_MINUTE) / 60 == a / MS_PER_HOUR
  {
    var x := a / MS_PER_MINUTE;
    var y := x / 60;
    assert a == x * MS_PER_MINUTE + a % MS_PER_MINUTE;
    assert x == y * 60 + x % 60;
    DivUnique(a, MS_PER_HOUR, y, (x % 60) * MS_PER_MINUTE + a % MS_PER_MINUTE);
  }

  /** The quotient of Euclidean division is determined by any decomposition
      with an in-range remainder. */
  lemma DivUnique(a: int, m: int, q: int, r: int)
    requires m > 0 && 0 <= r < m
    requires a == q * m + r
    ensures a / m == q
  {
    var q' := a / m;
    assert a == q' * m + a % m;
    if q' < q {
      MulNonNegative(q - q' - 1, m);
      assert false;
    } else if q' > q {
      MulNonNegative(q' - q - 1, m);
      assert false;
    }
  }
}
