/**
 * The part of Python's proleptic Gregorian `datetime` arithmetic that
 * `extract_date_utc` relies on: which field values a `datetime` accepts,
 * the ordinal day number (`toordinal`), and moving a date-time by less than
 * one day, which is all that `astimezone(timezone.utc)` does for an offset
 * that `timezone` accepts.
 */
module Calendar {
  import opened Options

  const MINYEAR: int := 1
  const MAXYEAR: int := 9999
  const SECONDS_PER_DAY: int := 86400
  /** The ordinal of 9999-12-31, the last day a `datetime` can hold. */
  const MAX_ORDINAL: int := 3652059
  /** Seconds from 0001-01-01T00:00:00 to 9999-12-31T23:59:59. */
  const MAX_SECONDS: int := MAX_ORDINAL * SECONDS_PER_DAY - 1

  /** A date-time with whole seconds (the parsed header never carries microseconds). */
  datatype DateTime = DateTime(year: int, month: int, day: int, hour: int, minute: int, second: int)

  predicate IsLeap(year: int) {
    year % 4 == 0 && (year % 100 != 0 || year % 400 == 0)
  }

  function DaysInMonth(year: int, month: int): (n: int)
    requires 1 <= month <= 12
    ensures 28 <= n <= 31
    ensures n == 29 <==> month == 2 && IsLeap(year)
  {
    if month == 2 && IsLeap(year) then 29
    else [31, 28, 31, 30, 31, 30, 31, 31, 30, 31, 30, 31][month - 1]
  }

  function DaysBeforeMonth(year: int, month: int): int
    requires 1 <= month <= 12
  {
    [0, 31, 59, 90, 120, 151, 181, 212, 243, 273, 304, 334][month - 1]
      + (if month > 2 && IsLeap(year) then 1 else 0)
  }

  function DaysInYear(year: int): int {
    if IsLeap(year) then 366 else 365
  }

  /** Number of days in the years 1 .. year-1. */
  function DaysBeforeYear(year: int): int
    requires year >= 1
  {
    var y := year - 1;
    y * 365 + y / 4 - y / 100 + y / 400
  }

  /** The field ranges Python's `datetime` constructor accepts (otherwise it raises ValueError). */
  predicate ValidDate(year: int, month: int, day: int) {
    MINYEAR <= year <= MAXYEAR && 1 <= month <= 12 && 1 <= day <= DaysInMonth(year, month)
  }

  predicate Valid(dt: DateTime) {
    ValidDate(dt.year, dt.month, dt.day)
    && 0 <= dt.hour < 24 && 0 <= dt.minute < 60 && 0 <= dt.second < 60
  }

  /** `date.toordinal()`: 0001-01-01 is day 1. */
  function Ordinal(year: int, month: int, day: int): int
    requires ValidDate(year, month, day)
  {
    DaysBeforeYear(year) + DaysBeforeMonth(year, month) + day
  }

  function SecondOfDay(dt: DateTime): int {
    dt.hour * 3600 + dt.minute * 60 + dt.second
  }

  /** The instant a date-time denotes, as seconds since 0001-01-01T00:00:00 on the same clock. */
  function Seconds(dt: DateTime): int
    requires Valid(dt)
  {
    (Ordinal(dt.year, dt.month, dt.day) - 1) * SECONDS_PER_DAY + SecondOfDay(dt)
  }

  lemma DaysBeforeMonthStep(year: int, month: int)
    requires 1 <= month < 12
    ensures DaysBeforeMonth(year, month + 1) == DaysBeforeMonth(year, month) + DaysInMonth(year, month)
  {
  }

  lemma DaysBeforeMonthLast(year: int)
    ensures DaysBeforeMonth(year, 12) + DaysInMonth(year, 12) == DaysInYear(year)
  {
  }

  lemma DaysBeforeYearStep(year: int)
    requires year >= 1
    ensures DaysBeforeYear(year + 1) == DaysBeforeYear(year) + DaysInYear(year)
  {
    var y := year - 1;
    assert year / 4 == y / 4 + (if year % 4 == 0 then 1 else 0);
    assert year / 100 == y / 100 + (if year % 100 == 0 then 1 else 0);
    assert year / 400 == y / 400 + (if year % 400 == 0 then 1 else 0);
  }

  /** Each later year starts at least 365 days later. */
  lemma {:induction false} DaysBeforeYearMonotone(y1: int, y2: int)
    requires 1 <= y1 <= y2
    ensures DaysBeforeYear(y1) + 365 * (y2 - y1) <= DaysBeforeYear(y2)
    decreases y2 - y1
  {
    if y1 < y2 {
      DaysBeforeYearMonotone(y1, y2 - 1);
      DaysBeforeYearStep(y2 - 1);
    }
  }

  /** Within a year, the day of the month and the months before it fill at most the whole year. */
  lemma DayOfYearBounds(year: int, month: int, day: int)
    requires ValidDate(year, month, day)
    ensures 0 < DaysBeforeMonth(year, month) + day <= DaysInYear(year)
  {
  }

  /** Months start strictly later than every day of an earlier month. */
  lemma MonthsOrdered(year: int, m1: int, d1: int, m2: int)
    requires 1 <= m1 < m2 <= 12 && 1 <= d1 <= DaysInMonth(year, m1)
    ensures DaysBeforeMonth(year, m1) + d1 <= DaysBeforeMonth(year, m2)
  {
  }

  lemma OrdinalWithinYear(year: int, month: int, day: int)
    requires ValidDate(year, month, day)
    ensures DaysBeforeYear(year) < Ordinal(year, month, day) <= DaysBeforeYear(year + 1)
  {
    DayOfYearBounds(year, month, day);
    DaysBeforeYearStep(year);
  }

  /** Every valid date lies between 0001-01-01 (day 1) and 9999-12-31. */
  lemma OrdinalBounds(year: int, month: int, day: int)
    requires ValidDate(year, month, day)
    ensures 1 <= Ordinal(year, month, day) <= MAX_ORDINAL
  {
    OrdinalWithinYear(year, month, day);
    DaysBeforeYearMonotone(1, year);
    DaysBeforeYearMonotone(year + 1, MAXYEAR + 1);
  }

  lemma SecondsBounds(dt: DateTime)
    requires Valid(dt)
    ensures 0 <= Seconds(dt) <= MAX_SECONDS
  {
    OrdinalBounds(dt.year, dt.month, dt.day);
  }

  /**
   * `a < b` for two `datetime` values with the same `tzinfo` (all rows are
   * UTC): their fields compare lexicographically, most significant first.
   */
  predicate DateLt(a: DateTime, b: DateTime) {
    a.year < b.year || (a.year == b.year &&
    (a.month < b.month || (a.month == b.month &&
    (a.day < b.day || (a.day == b.day &&
    (a.hour < b.hour || (a.hour == b.hour &&
    (a.minute < b.minute || (a.minute == b.minute && a.second < b.second)))))))))
  }

  predicate DateLe(a: DateTime, b: DateTime) {
    DateLt(a, b) || a == b
  }

  /** Two different date-times are ordered one way or the other. */
  lemma DateLtTotal(a: DateTime, b: DateTime)
    ensures a == b || DateLt(a, b) || DateLt(b, a)
  {
  }

  /** A later day means a later instant, whatever the times of day. */
  lemma EarlierDayEarlierInstant(a: DateTime, b: DateTime)
    requires Valid(a) && Valid(b)
    requires Ordinal(a.year, a.month, a.day) < Ordinal(b.year, b.month, b.day)
    ensures Seconds(a) < Seconds(b)
  {
  }

  /** Comparing the fields agrees with comparing the instants they denote. */
  lemma DateLtIsEarlier(a: DateTime, b: DateTime)
    requires Valid(a) && Valid(b) && DateLt(a, b)
    ensures Seconds(a) < Seconds(b)
  {
    OrdinalWithinYear(a.year, a.month, a.day);
    OrdinalWithinYear(b.year, b.month, b.day);
    if a.year < b.year {
      DaysBeforeYearMonotone(a.year + 1, b.year);
      EarlierDayEarlierInstant(a, b);
    } else if a.month < b.month {
      MonthsOrdered(a.year, a.month, a.day, b.month);
      EarlierDayEarlierInstant(a, b);
    } else if a.day < b.day {
      EarlierDayEarlierInstant(a, b);
    }
  }

  /**
   * For valid date-times the sort order is the order of the instants: one
   * date-time sorts no later than another exactly when it denotes no later
   * an instant.
   */
  lemma DateLeIsInstantOrder(a: DateTime, b: DateTime)
    requires Valid(a) && Valid(b)
    ensures DateLe(a, b) <==> Seconds(a) <= Seconds(b)
  {
    DateLtTotal(a, b);
    if DateLt(a, b) {
      DateLtIsEarlier(a, b);
    } else if DateLt(b, a) {
      DateLtIsEarlier(b, a);
    }
  }

  /** A valid date-time is determined by the instant it denotes. */
  lemma SecondsInjective(a: DateTime, b: DateTime)
    requires Valid(a) && Valid(b) && Seconds(a) == Seconds(b)
    ensures a == b
  {
    DateLtTotal(a, b);
    if DateLt(a, b) {
      DateLtIsEarlier(a, b);
      assert false;
    } else if DateLt(b, a) {
      DateLtIsEarlier(b, a);
      assert false;
    }
  }

  /** The day after a date, as `date + timedelta(days=1)` computes it. */
  function NextDay(year: int, month: int, day: int): (r: (int, int, int))
    requires ValidDate(year, month, day) && (year, month, day) != (MAXYEAR, 12, 31)
    ensures ValidDate(r.0, r.1, r.2)
    ensures Ordinal(r.0, r.1, r.2) == Ordinal(year, month, day) + 1
  {
    if day < DaysInMonth(year, month) then (year, month, day + 1)
    else if month < 12 then
      DaysBeforeMonthStep(year, month);
      (year, month + 1, 1)
    else
      DaysBeforeMonthLast(year);
      DaysBeforeYearStep(year);
      (year + 1, 1, 1)
  }

  /** The day before a date, as `date - timedelta(days=1)` computes it. */
  function PrevDay(year: int, month: int, day: int): (r: (int, int, int))
    requires ValidDate(year, month, day) && (year, month, day) != (MINYEAR, 1, 1)
    ensures ValidDate(r.0, r.1, r.2)
    ensures Ordinal(r.0, r.1, r.2) == Ordinal(year, month, day) - 1
  {
    if day > 1 then (year, month, day - 1)
    else if month > 1 then
      DaysBeforeMonthStep(year, month - 1);
      (year, month - 1, DaysInMonth(year, month - 1))
    else
      DaysBeforeMonthLast(year - 1);
      DaysBeforeYearStep(year - 1);
      (year - 1, 12, 31)
  }

  /** The date-time `t` seconds after midnight of a given date. */
  function AtSecond(year: int, month: int, day: int, t: int): (r: DateTime)
    requires ValidDate(year, month, day) && 0 <= t < SECONDS_PER_DAY
    ensures Valid(r) && (r.year, r.month, r.day) == (year, month, day)
    ensures Seconds(r) == (Ordinal(year, month, day) - 1) * SECONDS_PER_DAY + t
  {
    DateTime(year, month, day, t / 3600, t % 3600 / 60, t % 60)
  }

  /**
   * `dt + timedelta(seconds=delta)` for |delta| below one day. None stands for
   * the OverflowError Python raises when the result leaves years 1 .. 9999.
   */
  function Shift(dt: DateTime, delta: int): (r: Option<DateTime>)
    requires Valid(dt) && -SECONDS_PER_DAY < delta < SECONDS_PER_DAY
    ensures r.Some? ==> Valid(r.value) && Seconds(r.value) == Seconds(dt) + delta
    ensures r.None? <==> Seconds(dt) + delta < 0 || Seconds(dt) + delta > MAX_SECONDS
  {
    var t := SecondOfDay(dt) + delta;
    SecondsBounds(dt);
    if t < 0 then
      if (dt.year, dt.month, dt.day) == (MINYEAR, 1, 1) then None
      else
        var d := PrevDay(dt.year, dt.month, dt.day);
        var r := AtSecond(d.0, d.1, d.2, t + SECONDS_PER_DAY);
        SecondsBounds(r);
        Some(r)
    else if t >= SECONDS_PER_DAY then
      if (dt.year, dt.month, dt.day) == (MAXYEAR, 12, 31) then None
      else
        var d := NextDay(dt.year, dt.month, dt.day);
        var r := AtSecond(d.0, d.1, d.2, t - SECONDS_PER_DAY);
        SecondsBounds(r);
        Some(r)
    else
      var r := AtSecond(dt.year, dt.month, dt.day, t);
      SecondsBounds(r);
      Some(r)
  }
}
