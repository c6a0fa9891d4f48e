/** Calendar dates and wall-clock moments as Python's `datetime` module treats
    them: the proleptic Gregorian calendar over years 1 to 9999, where day
    number 1 is 0001-01-01, and subtraction of a `timedelta` raises
    OverflowError when the result leaves that range. */
module Calendar {
  import opened Optional

  const MinYear: int := 1
  const MaxYear: int := 9999
  const MinutesPerDay: int := 1440

  /** A calendar date (no time component), as `datetime.date`. */
  datatype Date = Date(year: int, month: int, day: int)

  /** `date.min`, the first representable date. */
  const Epoch: Date := Date(1, 1, 1)
  /** The day number of `date.max`, 9999-12-31. */
  const MaxOrdinal: int := 3652059

  predicate IsLeapYear(y: int) {
    y % 4 == 0 && (y % 100 != 0 || y % 400 == 0)
  }

  function DaysInYear(y: int): int {
    if IsLeapYear(y) then 366 else 365
  }

  function DaysInMonth(y: int, m: int): (n: int)
    requires 1 <= m <= 12
    ensures 28 <= n <= 31
    ensures n == 29 <==> m == 2 && IsLeapYear(y)
  {
    if m == 2 then (if IsLeapYear(y) then 29 else 28)
    else if m == 4 || m == 6 || m == 9 || m == 11 then 30
    else 31
  }

  /** A date `datetime.date` can represent. */
  predicate Valid(d: Date) {
    && MinYear <= d.year <= MaxYear
    && 1 <= d.month <= 12
    && 1 <= d.day <= DaysInMonth(d.year, d.month)
  }

  /** Chronological order: `a` is strictly earlier than `b`. */
  predicate Before(a: Date, b: Date) {
    || a.year < b.year
    || (a.year == b.year && a.month < b.month)
    || (a.year == b.year && a.month == b.month && a.day < b.day)
  }

  /** Days of year `y` that lie before the first of month `m` (13 = end of year). */
  function DaysBeforeMonth(y: int, m: int): int
    requires 1 <= m <= 13
  {
    if m == 1 then 0 else DaysBeforeMonth(y, m - 1) + DaysInMonth(y, m - 1)
  }

  /** Days before January 1 of year `y`, in the closed form Python's
      `datetime` module uses. */
  function DaysBeforeYear(y: int): int
    requires y >= 1
  {
    var p := y - 1;
    p * 365 + p / 4 - p / 100 + p / 400
  }

  /** The day number of a date, as `date.toordinal()`: 0001-01-01 is day 1. */
  function Ordinal(d: Date): int
    requires Valid(d)
  {
    DaysBeforeYear(d.year) + DaysBeforeMonth(d.year, d.month) + d.day
  }

  /** The calendar day immediately before `d`. */
  function PrevDay(d: Date): (p: Date)
    requires Valid(d) && d != Epoch
    ensures Valid(p) && Before(p, d)
  {
    if d.day > 1 then Date(d.year, d.month, d.day - 1)
    else if d.month > 1 then Date(d.year, d.month - 1, DaysInMonth(d.year, d.month - 1))
    else Date(d.year - 1, 12, 31)
  }

  /** `d - timedelta(days = n)`, or None where Python raises OverflowError
      because the result would precede `date.min`. */
  function MinusDays(d: Date, n: nat): (r: Option<Date>)
    requires Valid(d)
    ensures r.Some? ==> Valid(r.value) && !Before(d, r.value)
    decreases n
  {
    if n == 0 then Some(d)
    else if d == Epoch then None
    else MinusDays(PrevDay(d), n - 1)
  }

  /** The first day of the month of `d`, as `d.replace(day = 1)`. */
  function FirstOfMonth(d: Date): (f: Date)
    requires Valid(d)
    ensures Valid(f) && !Before(d, f)
    ensures f.year == d.year && f.month == d.month && f.day == 1
  {
    d.(day := 1)
  }

  /** January 1 of the year of `d`, as `d.replace(month = 1, day = 1)`. */
  function FirstOfYear(d: Date): (f: Date)
    requires Valid(d)
    ensures Valid(f) && !Before(FirstOfMonth(d), f)
    ensures f.year == d.year && f.month == 1 && f.day == 1
  {
    d.(month := 1, day := 1)
  }

  // ---------------------------------------------------------------------------
  // Day numbers

  /** A leap year has one day more than the year before it in the
      closed-form day count. */
  lemma DaysBeforeNextYear(y: int)
    requires y >= 1
    ensures DaysBeforeYear(y + 1) == DaysBeforeYear(y) + DaysInYear(y)
  {
    var p := y - 1;
    var d4, d100, d400 := y / 4 - p / 4, y / 100 - p / 100, y / 400 - p / 400;
    assert DaysBeforeYear(y + 1) - DaysBeforeYear(y) == 365 + d4 - d100 + d400;
    QuotientStep(y, 4);
    QuotientStep(y, 100);
    QuotientStep(y, 400);
    DivisibilityNests(y);
  }

  /** Passing a multiple of `k` raises the floor quotient by `k` by one. */
  lemma QuotientStep(y: int, k: int)
    requires k == 4 || k == 100 || k == 400
    ensures y / k - (y - 1) / k == (if y % k == 0 then 1 else 0)
  {
    if k == 4 {
      assert y / 4 - (y - 1) / 4 == (if y % 4 == 0 then 1 else 0);
    } else if k == 100 {
      assert y / 100 - (y - 1) / 100 == (if y % 100 == 0 then 1 else 0);
    } else {
      assert y / 400 - (y - 1) / 400 == (if y % 400 == 0 then 1 else 0);
    }
  }

  lemma DivisibilityNests(y: int)
    ensures y % 400 == 0 ==> y % 100 == 0
    ensures y % 100 == 0 ==> y % 4 == 0
  {
    if y % 400 == 0 {
      MultipleOfFactor(y / 400, 4, 100);
    }
    if y % 100 == 0 {
      MultipleOfFactor(y / 100, 25, 4);
    }
  }

  lemma MultipleOfFactor(q: int, a: int, b: int)
    requires (a == 4 && b == 100) || (a == 25 && b == 4)
    ensures (q * (a * b)) % b == 0
  {
    assert q * (a * b) == (q * a) * b;
  }

  lemma {:induction false} DaysBeforeYearMonotone(y1: int, y2: int)
    requires 1 <= y1 < y2
    ensures DaysBeforeYear(y1) + DaysInYear(y1) <= DaysBeforeYear(y2)
    decreases y2 - y1
  {
    DaysBeforeNextYear(y1);
    if y1 + 1 < y2 {
      DaysBeforeYearMonotone(y1 + 1, y2);
    }
  }

  /** The twelve months of a year add up to the year's length. */
  lemma DaysBeforeMonthEndOfYear(y: int)
    ensures DaysBeforeMonth(y, 13) == DaysInYear(y)
  {
    var f := if IsLeapYear(y) then 1 else 0;
    assert DaysBeforeMonth(y, 2) == 31;
    assert DaysBeforeMonth(y, 3) == 59 + f;
    assert DaysBeforeMonth(y, 4) == 90 + f;
    assert DaysBeforeMonth(y, 5) == 120 + f;
    assert DaysBeforeMonth(y, 6) == 151 + f;
    assert DaysBeforeMonth(y, 7) == 181 + f;
    assert DaysBeforeMonth(y, 8) == 212 + f;
    assert DaysBeforeMonth(y, 9) == 243 + f;
    assert DaysBeforeMonth(y, 10) == 273 + f;
    assert DaysBeforeMonth(y, 11) == 304 + f;
    assert DaysBeforeMonth(y, 12) == 334 + f;
  }

  lemma {:induction false} DaysBeforeMonthMonotone(y: int, m1: int, m2: int)
    requires 1 <= m1 < m2 <= 13
    ensures DaysBeforeMonth(y, m1) + DaysInMonth(y, m1) <= DaysBeforeMonth(y, m2)
    decreases m2
  {
    if m1 + 1 < m2 {
      DaysBeforeMonthMonotone(y, m1, m2 - 1);
    }
  }

  /** A day of a month lies within its year's day count. */
  lemma DayOfYearBounds(d: Date)
    requires Valid(d)
    ensures 1 <= DaysBeforeMonth(d.year, d.month) + d.day <= DaysInYear(d.year)
  {
    DaysBeforeMonthEndOfYear(d.year);
    if d.month > 1 {
      DaysBeforeMonthMonotone(d.year, 1, d.month);
    }
    DaysBeforeMonthMonotone(d.year, d.month, 13);
  }

  /** Day numbers run in calendar order: comparing two valid dates is the same
      as comparing their day numbers, and distinct dates have distinct numbers. */
  lemma OrdinalOrder(a: Date, b: Date)
    requires Valid(a) && Valid(b)
    ensures Before(a, b) <==> Ordinal(a) < Ordinal(b)
    ensures a == b <==> Ordinal(a) == Ordinal(b)
  {
    if a != b {
      if Before(a, b) {
        OrdinalOrderStrict(a, b);
      } else {
        assert Before(b, a);
        OrdinalOrderStrict(b, a);
      }
    }
  }

  lemma OrdinalOrderStrict(a: Date, b: Date)
    requires Valid(a) && Valid(b) && Before(a, b)
    ensures Ordinal(a) < Ordinal(b)
  {
    if a.year < b.year {
      DayOfYearBounds(a);
      DayOfYearBounds(b);
      DaysBeforeYearMonotone(a.year, b.year);
    } else if a.month < b.month {
      DaysBeforeMonthMonotone(a.year, a.month, b.month);
    }
  }

  /** Every valid date has a day number between 1 (`date.min`) and
      MaxOrdinal (`date.max`, 9999-12-31), and only `date.min` has day
      number 1. */
  lemma OrdinalRange(d: Date)
    requires Valid(d)
    ensures 1 <= Ordinal(d) <= MaxOrdinal
    ensures Ordinal(d) == 1 <==> d == Epoch
  {
    DayOfYearBounds(d);
    assert DaysBeforeYear(1) == 0;
    assert DaysBeforeYear(MaxYear) + DaysInYear(MaxYear) == MaxOrdinal;
    if d.year > 1 {
      DaysBeforeYearMonotone(1, d.year);
    }
    if d.year < MaxYear {
      DaysBeforeYearMonotone(d.year, MaxYear);
    }
    if d.month > 1 {
      DaysBeforeMonthMonotone(d.year, 1, d.month);
    }
  }

  /** Stepping back one calendar day lowers the day number by exactly one. */
  lemma PrevDayOrdinal(d: Date)
    requires Valid(d) && d != Epoch
    ensures Ordinal(PrevDay(d)) == Ordinal(d) - 1
  {
    if d.day == 1 && d.month == 1 {
      DaysBeforeNextYear(d.year - 1);
      DaysBeforeMonthEndOfYear(d.year - 1);
    }
  }

  /** `d - timedelta(days = n)` succeeds exactly when the day number stays
      at or above 1, and then it is the date whose day number is n lower. */
  lemma MinusDaysOrdinal(d: Date, n: nat)
    requires Valid(d)
    ensures MinusDays(d, n).Some? <==> n < Ordinal(d)
    ensures MinusDays(d, n).Some? ==> Ordinal(MinusDays(d, n).value) == Ordinal(d) - n
  {
    MinusDaysDefined(d, n);
    MinusDaysLowersOrdinal(d, n);
  }

  lemma {:induction false} MinusDaysDefined(d: Date, n: nat)
    requires Valid(d)
    ensures MinusDays(d, n).Some? <==> n < Ordinal(d)
    decreases n
  {
    if n == 0 {
      OrdinalRange(d);
    } else if d == Epoch {
      NothingBeforeEpoch(d, n);
    } else {
      MinusDaysStep(d, n);
      MinusDaysDefined(PrevDay(d), n - 1);
    }
  }

  lemma {:induction false} MinusDaysLowersOrdinal(d: Date, n: nat)
    requires Valid(d)
    ensures MinusDays(d, n).Some? ==> Ordinal(MinusDays(d, n).value) == Ordinal(d) - n
    decreases n
  {
    if n > 0 && d != Epoch {
      MinusDaysStep(d, n);
      MinusDaysLowersOrdinal(PrevDay(d), n - 1);
    }
  }

  lemma NothingBeforeEpoch(d: Date, n: nat)
    requires Valid(d) && n > 0 && d == Epoch
    ensures MinusDays(d, n).None? && Ordinal(d) == 1
  {
    assert d.year == 1 && d.month == 1 && d.day == 1;
    assert DaysBeforeYear(d.year) == 0;
    assert DaysBeforeMonth(d.year, d.month) == 0;
  }

  lemma MinusDaysStep(d: Date, n: nat)
    requires Valid(d) && n > 0 && d != Epoch
    ensures MinusDays(d, n) == MinusDays(PrevDay(d), n - 1)
    ensures Ordinal(PrevDay(d)) == Ordinal(d) - 1
  {
    PrevDayOrdinal(d);
  }

  // ---------------------------------------------------------------------------
  // Moments (date plus wall-clock minute)

  /** A moment as `datetime.now()` reports it, to the minute: the seconds are
      left out because subtracting whole minutes keeps them and `%H:%M`
      drops them. */
  datatype Moment = Moment(date: Date, minuteOfDay: int)

  predicate ValidMoment(t: Moment) {
    Valid(t.date) && 0 <= t.minuteOfDay < MinutesPerDay
  }

  /** Minutes elapsed since 0001-01-01 00:00. */
  function MinuteStamp(t: Moment): int
    requires ValidMoment(t)
  {
    (Ordinal(t.date) - 1) * MinutesPerDay + t.minuteOfDay
  }

  /** The minute stamps `datetime` can represent. */
  predicate StampInRange(stamp: int) {
    0 <= stamp < MaxOrdinal * MinutesPerDay
  }

  /** `timedelta(minutes = m)` is constructible: at most 999999999 days either way. */
  predicate TimedeltaMinutesInRange(m: int) {
    -999999999 * MinutesPerDay <= m < 1000000000 * MinutesPerDay
  }

  /** The wall-clock minute of `t - timedelta(minutes = m)`, or None where
      Python raises OverflowError. The clock wraps at midnight: the result
      lies `m` minutes behind `t` modulo a day. */
  function MinuteOfDayBefore(t: Moment, m: int): (r: Option<int>)
    requires ValidMoment(t)
    ensures r.Some? <==> StampInRange(MinuteStamp(t) - m)
    ensures r.Some? ==> 0 <= r.value < MinutesPerDay
    ensures r.Some? ==> (t.minuteOfDay - r.value) % MinutesPerDay == m % MinutesPerDay
  {
    OrdinalRange(t.date);
    WrapAround(Ordinal(t.date) - 1, t.minuteOfDay, m);
    if !TimedeltaMinutesInRange(m) then None
    else
      var stamp := MinuteStamp(t) - m;
      if StampInRange(stamp) then Some(stamp % MinutesPerDay) else None
  }

  /** Subtracting `m` minutes from a stamp `q` whole days plus `x` minutes
      moves the clock back by `m` modulo a day. */
  lemma WrapAround(q: int, x: int, m: int)
    ensures (x - (q * MinutesPerDay + x - m) % MinutesPerDay) % MinutesPerDay == m % MinutesPerDay
  {
    var s := q * MinutesPerDay + x - m;
    var k := s / MinutesPerDay;
    assert s == k * MinutesPerDay + s % MinutesPerDay;
    assert x - s % MinutesPerDay == m + (k - q) * MinutesPerDay;
  }
}
