/** Civil date-times and the "now minus N units" arithmetic that reading
    lists use for their maximum article age. An instant is a whole number of
    seconds since 0001-01-01T00:00:00 UTC in the proleptic Gregorian
    calendar, the calendar Python's `datetime` uses. Hours, days and weeks
    are exact durations; months are calendar months, with the day clamped to
    the length of the target month, as `dateutil.relativedelta` does. */
module Time {
  import opened Common

  type Instant = int

  /** `ArticlesMaxAgeUnit`: no limit, or one of the four calendar units. */
  datatype AgeUnit = Unset | Hours | Days | Weeks | Months

  datatype DateTime = DateTime(year: int, month: int, day: int, hour: int, minute: int, second: int)

  const SecondsPerDay: int := 86400

  predicate IsLeapYear(y: int) {
    y % 4 == 0 && (y % 100 != 0 || y % 400 == 0)
  }

  function DaysInMonth(y: int, m: int): (d: int)
    requires 1 <= m <= 12
    ensures 28 <= d <= 31
    ensures m == 2 ==> (d == 29 <==> IsLeapYear(y))
  {
    if m == 2 then (if IsLeapYear(y) then 29 else 28)
    else if m == 4 || m == 6 || m == 9 || m == 11 then 30
    else 31
  }

  predicate ValidDateTime(t: DateTime) {
    && 1 <= t.month <= 12
    && 1 <= t.day <= DaysInMonth(t.year, t.month)
    && 0 <= t.hour < 24 && 0 <= t.minute < 60 && 0 <= t.second < 60
  }

  /** Days from 0001-01-01 to the first of January of year `y`. */
  function DaysBeforeYear(y: int): int {
    var p := y - 1;
    365 * p + p / 4 - p / 100 + p / 400
  }

  /** Days from the first of January of year `y` to the first of month `m`. */
  function DaysBeforeMonth(y: int, m: int): int
    requires 1 <= m <= 12
  {
    var common := [0, 31, 59, 90, 120, 151, 181, 212, 243, 273, 304, 334];
    common[m - 1] + (if m > 2 && IsLeapYear(y) then 1 else 0)
  }

  function DayNumber(y: int, m: int, d: int): int
    requires 1 <= m <= 12
  {
    DaysBeforeYear(y) + DaysBeforeMonth(y, m) + (d - 1)
  }

  function ToInstant(t: DateTime): Instant
    requires ValidDateTime(t)
  {
    DayNumber(t.year, t.month, t.day) * SecondsPerDay + t.hour * 3600 + t.minute * 60 + t.second
  }

  /** `now - relativedelta(months=n)`: the month index moves back by `n`
      (carrying into the year) and the day is clamped to the new month. */
  function MonthsBefore(t: DateTime, n: nat): (r: DateTime)
    requires ValidDateTime(t)
    ensures ValidDateTime(r)
    ensures r.hour == t.hour && r.minute == t.minute && r.second == t.second
  {
    var index := t.year * 12 + (t.month - 1) - n;
    var y := index / 12;
    var m := index % 12 + 1;
    var d := if t.day <= DaysInMonth(y, m) then t.day else DaysInMonth(y, m);
    DateTime(y, m, d, t.hour, t.minute, t.second)
  }

  /** `now - relativedelta(**{unit: value})`, the lower bound of a reading
      list's age window. */
  function NowMinus(now: DateTime, unit: AgeUnit, value: nat): (r: Instant)
    requires ValidDateTime(now)
    requires unit != Unset
    ensures (ToInstant(now) - r) % 3600 == 0
    ensures unit != Hours ==> (ToInstant(now) - r) % SecondsPerDay == 0
  {
    match unit
    case Hours => WholeHours(value); ToInstant(now) - value * 3600
    case Days => WholeDays(value); ToInstant(now) - value * SecondsPerDay
    case Weeks => WholeDays(value * 7); ToInstant(now) - value * 7 * SecondsPerDay
    case Months =>
      var m := MonthsBefore(now, value);
      SameTimeOfDay(now, m);
      ToInstant(m)
  }

  /** Two date-times with the same time of day lie whole days apart. */
  lemma SameTimeOfDay(t: DateTime, u: DateTime)
    requires ValidDateTime(t) && ValidDateTime(u)
    requires t.hour == u.hour && t.minute == u.minute && t.second == u.second
    ensures (ToInstant(t) - ToInstant(u)) % SecondsPerDay == 0
    ensures (ToInstant(t) - ToInstant(u)) % 3600 == 0
  {
    var days := DayNumber(t.year, t.month, t.day) - DayNumber(u.year, u.month, u.day);
    assert ToInstant(t) - ToInstant(u) == days * SecondsPerDay;
    WholeDays(days);
  }

  lemma WholeHours(hours: int)
    ensures (hours * 3600) % 3600 == 0
  {
  }

  /** A whole number of days is a whole number of days and of hours. */
  lemma WholeDays(days: int)
    ensures (days * SecondsPerDay) % SecondsPerDay == 0
    ensures (days * SecondsPerDay) % 3600 == 0
  {
    assert days * SecondsPerDay == (days * 24) * 3600;
  }

  /** `now - relativedelta(**{unit: value})` as Python evaluates it: None
      when the result falls before 0001-01-01T00:00, the first instant a
      `datetime` can hold. A shift by hours, days or weeks past that point
      raises OverflowError; a shift by months raises ValueError from
      `replace(year=...)` once the target year is below 1. */
  function AgeThreshold(now: DateTime, unit: AgeUnit, value: nat): (r: Option<Instant>)
    requires ValidDateTime(now)
    requires unit != Unset
    ensures r.Some? <==> 0 <= NowMinus(now, unit, value)
    ensures r.Some? ==> r.value == NowMinus(now, unit, value)
  {
    if unit == Months then
      var m := MonthsBefore(now, value);
      YearSign(m);
      if m.year < 1 then None else Some(ToInstant(m))
    else
      var t := NowMinus(now, unit, value);
      if t < 0 then None else Some(t)
  }

  /** An instant is negative exactly when its year is before year 1. */
  lemma YearSign(t: DateTime)
    requires ValidDateTime(t)
    ensures t.year >= 1 <==> ToInstant(t) >= 0
  {
    var p := t.year - 1;
    if t.year < 1 {
      assert DaysBeforeYear(t.year) <= -366 by {
        assert 365 * p + p / 4 - p / 100 + p / 400 <= -366;
      }
      assert DaysBeforeMonth(t.year, t.month) + (t.day - 1) <= 365;
    }
  }

  /** 30000 months before 2024-03-19 lies before year 1, so the age filter
      of such a reading list cannot be computed; an hour before it can. */
  lemma ThresholdOutOfRange()
    ensures AgeThreshold(DateTime(2024, 3, 19, 21, 8, 0), Months, 30000).None?
    ensures AgeThreshold(DateTime(2024, 3, 19, 21, 8, 0), Hours, 1).Some?
  {
    assert MonthsBefore(DateTime(2024, 3, 19, 21, 8, 0), 30000).year < 1;
  }

  // ---------------------------------------------------------------------
  // The calendar is consistent: consecutive months and years abut.

  lemma YearLength(y: int)
    ensures DaysBeforeYear(y + 1) == DaysBeforeYear(y) + (if IsLeapYear(y) then 366 else 365)
  {
    FloorStep4(y - 1);
    FloorStep100(y - 1);
    FloorStep400(y - 1);
  }

  lemma FloorStep4(p: int)
    ensures (p + 1) / 4 - p / 4 == (if (p + 1) % 4 == 0 then 1 else 0)
  {
  }

  lemma FloorStep100(p: int)
    ensures (p + 1) / 100 - p / 100 == (if (p + 1) % 100 == 0 then 1 else 0)
  {
  }

  lemma FloorStep400(p: int)
    ensures (p + 1) / 400 - p / 400 == (if (p + 1) % 400 == 0 then 1 else 0)
  {
  }

  lemma FloorStep12(k: int)
    ensures k % 12 == 11 ==> (k + 1) / 12 == k / 12 + 1 && (k + 1) % 12 == 0
    ensures k % 12 != 11 ==> (k + 1) / 12 == k / 12 && (k + 1) % 12 == k % 12 + 1
  {
  }

  /** The first day of the month with index `k` (year `k / 12`, month
      `k % 12 + 1`). */
  function MonthStart(k: int): int {
    DaysBeforeYear(k / 12) + DaysBeforeMonth(k / 12, k % 12 + 1)
  }

  lemma MonthStartStep(k: int)
    ensures MonthStart(k + 1) == MonthStart(k) + DaysInMonth(k / 12, k % 12 + 1)
  {
    FloorStep12(k);
    if k % 12 == 11 {
      YearLength(k / 12);
    }
  }

  /** Consecutive month starts are at least 28 days apart. */
  lemma MonthStartsAbut()
    ensures forall k :: MonthStart(k) + 28 <= MonthStart(k + 1)
  {
    forall k ensures MonthStart(k) + 28 <= MonthStart(k + 1) {
      MonthStartStep(k);
    }
  }

  /** A sequence of integers whose consecutive terms grow by at least 28
      grows by at least 28 per step between any two indices. */
  lemma {:induction false} StepsAccumulate(f: int -> int, j: int, k: int)
    requires forall i :: f(i) + 28 <= f(i + 1)
    requires j <= k
    ensures f(j) + 28 * (k - j) <= f(k)
    decreases k - j
  {
    if j < k {
      StepsAccumulate(f, j + 1, k);
    }
  }

  lemma MonthIndex(y: int, m: int)
    requires 1 <= m <= 12
    ensures (y * 12 + (m - 1)) / 12 == y && (y * 12 + (m - 1)) % 12 + 1 == m
  {
  }

  /** A day of month `m` of year `y` lies between the first day of that month
      and the first day of the next one. */
  lemma WithinMonth(y: int, m: int, d: int)
    requires 1 <= m <= 12 && 1 <= d <= DaysInMonth(y, m)
    ensures MonthStart(y * 12 + (m - 1)) <= DayNumber(y, m, d) < MonthStart(y * 12 + (m - 1) + 1)
  {
    MonthIndex(y, m);
    assert MonthStart(y * 12 + (m - 1)) == DaysBeforeYear(y) + DaysBeforeMonth(y, m);
    MonthStartStep(y * 12 + (m - 1));
  }

  lemma MonthStartMonotone(j: int, k: int)
    requires j <= k
    ensures MonthStart(j) <= MonthStart(k)
  {
    MonthStartsAbut();
    StepsAccumulate(MonthStart, j, k);
  }

  /** A day lies before the start of every later month. */
  lemma BeforeLaterMonth(r: DateTime, k: int)
    requires ValidDateTime(r)
    requires r.year * 12 + (r.month - 1) < k
    ensures DayNumber(r.year, r.month, r.day) < MonthStart(k)
  {
    WithinMonth(r.year, r.month, r.day);
    MonthStartMonotone(r.year * 12 + (r.month - 1) + 1, k);
  }

  /** A day in an earlier month is an earlier day. */
  lemma EarlierMonthIsEarlier(r: DateTime, t: DateTime)
    requires ValidDateTime(r) && ValidDateTime(t)
    requires r.year * 12 + (r.month - 1) < t.year * 12 + (t.month - 1)
    ensures DayNumber(r.year, r.month, r.day) < DayNumber(t.year, t.month, t.day)
  {
    BeforeLaterMonth(r, t.year * 12 + (t.month - 1));
    WithinMonth(t.year, t.month, t.day);
  }

  /** Going back a positive number of calendar months lands strictly before
      `t`; going back zero months stays at `t`. */
  lemma MonthsBeforeIsEarlier(t: DateTime, n: nat)
    requires ValidDateTime(t)
    ensures n == 0 ==> ToInstant(MonthsBefore(t, n)) == ToInstant(t)
    ensures n > 0 ==> ToInstant(MonthsBefore(t, n)) < ToInstant(t)
  {
    var k := t.year * 12 + (t.month - 1);
    var r := MonthsBefore(t, n);
    if n == 0 {
      MonthIndex(t.year, t.month);
      assert r == t;
    } else {
      assert r.year * 12 + (r.month - 1) == k - n;
      EarlierMonthIsEarlier(r, t);
    }
  }

  /** The age threshold never lies after `now`, and lies strictly before it
      whenever the age value is positive. */
  lemma NowMinusIsEarlier(now: DateTime, unit: AgeUnit, value: nat)
    requires ValidDateTime(now)
    requires unit != Unset
    ensures NowMinus(now, unit, value) <= ToInstant(now)
    ensures value > 0 ==> NowMinus(now, unit, value) < ToInstant(now)
    ensures value == 0 ==> NowMinus(now, unit, value) == ToInstant(now)
  {
    if unit == Months {
      MonthsBeforeIsEarlier(now, value);
    }
  }

  /** The thresholds at 2024-03-19 21:08 UTC: one hour, one day, one week
      and one month before. */
  lemma PinnedThresholds()
    ensures var now := DateTime(2024, 3, 19, 21, 8, 0);
      && NowMinus(now, Hours, 1) == ToInstant(DateTime(2024, 3, 19, 20, 8, 0))
      && NowMinus(now, Days, 1) == ToInstant(DateTime(2024, 3, 18, 21, 8, 0))
      && NowMinus(now, Weeks, 1) == ToInstant(DateTime(2024, 3, 12, 21, 8, 0))
      && NowMinus(now, Months, 1) == ToInstant(DateTime(2024, 2, 19, 21, 8, 0))
  {
    assert MonthsBefore(DateTime(2024, 3, 19, 21, 8, 0), 1) == DateTime(2024, 2, 19, 21, 8, 0);
  }

  /** A month is a calendar month, not thirty days: one month before the
      31st of March 2024 is the 29th of February, and one month before the
      19th of March 2024 lies 29 days earlier. */
  lemma MonthsAreCalendarMonths()
    ensures NowMinus(DateTime(2024, 3, 31, 12, 0, 0), Months, 1) == ToInstant(DateTime(2024, 2, 29, 12, 0, 0))
    ensures ToInstant(DateTime(2024, 3, 19, 21, 8, 0)) - NowMinus(DateTime(2024, 3, 19, 21, 8, 0), Months, 1) == 29 * SecondsPerDay
  {
    assert MonthsBefore(DateTime(2024, 3, 31, 12, 0, 0), 1) == DateTime(2024, 2, 29, 12, 0, 0);
    assert MonthsBefore(DateTime(2024, 3, 19, 21, 8, 0), 1) == DateTime(2024, 2, 19, 21, 8, 0);
  }
}
