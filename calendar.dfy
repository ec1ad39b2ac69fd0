/**
 * The part of Python's `datetime` that the birthday calculator relies on:
 * proleptic Gregorian dates in years 1..9999, the day ordinal behind date
 * subtraction, naive timestamps compared and subtracted with microsecond
 * precision, and `replace(year=...)`.
 */
module Calendar {
  import opened Wrappers

  /** A calendar date; `ValidDate` says when Python's `datetime` accepts it. */
  datatype Date = Date(year: int, month: int, day: int)

  const MIN_YEAR := 1
  const MAX_YEAR := 9999
  const MICROS_PER_DAY := 86_400_000_000

  predicate IsLeapYear(year: int)
  {
    year % 4 == 0 && (year % 100 != 0 || year % 400 == 0)
  }

  function DaysInMonth(year: int, month: int): (n: int)
    requires 1 <= month <= 12
    ensures 28 <= n <= 31
    ensures n == 29 <==> month == 2 && IsLeapYear(year)
  {
    if month == 2 then (if IsLeapYear(year) then 29 else 28)
    else if month == 4 || month == 6 || month == 9 || month == 11 then 30
    else 31
  }

  function DaysInYear(year: int): int
  {
    if IsLeapYear(year) then 366 else 365
  }

  predicate ValidDate(d: Date)
  {
    && MIN_YEAR <= d.year <= MAX_YEAR
    && 1 <= d.month <= 12
    && 1 <= d.day <= DaysInMonth(d.year, d.month)
  }

  /** Strict chronological order of dates, field by field. */
  predicate Before(a: Date, b: Date)
  {
    || a.year < b.year
    || (a.year == b.year && a.month < b.month)
    || (a.year == b.year && a.month == b.month && a.day < b.day)
  }

  /** Days in the years before `year`, in the closed form Python's `datetime` uses. */
  function DaysBeforeYear(year: int): int
    requires year >= 1
  {
    var y := year - 1;
    y * 365 + y / 4 - y / 100 + y / 400
  }

  /** Days in the months of `year` before `month`. */
  function DaysBeforeMonth(year: int, month: int): int
    requires 1 <= month <= 12
  {
    [0, 31, 59, 90, 120, 151, 181, 212, 243, 273, 304, 334][month - 1]
      + (if month > 2 && IsLeapYear(year) then 1 else 0)
  }

  /** The day number of a date, 0001-01-01 being day 1 (`date.toordinal()`). */
  function Ordinal(d: Date): (n: int)
    requires ValidDate(d)
    ensures n >= 1
  {
    DaysBeforeYear(d.year) + DaysBeforeMonth(d.year, d.month) + d.day
  }

  lemma DaysBeforeYearStep(year: int)
    requires year >= 1
    ensures DaysBeforeYear(year + 1) == DaysBeforeYear(year) + DaysInYear(year)
  {
    var y := year - 1;
    DivStep(y, 4);
    DivStep(y, 100);
    DivStep(y, 400);
    assert DaysBeforeYear(year) == y * 365 + y / 4 - y / 100 + y / 400;
    assert DaysBeforeYear(year + 1) == (y + 1) * 365 + (y + 1) / 4 - (y + 1) / 100 + (y + 1) / 400;
    assert (y + 1) * 365 == y * 365 + 365;
    DivisorsNest(year);
    assert DaysInYear(year) == 365 + (if year % 4 == 0 then 1 else 0)
      - (if year % 100 == 0 then 1 else 0) + (if year % 400 == 0 then 1 else 0);
  }

  /** Every multiple of 400 is one of 100, and every multiple of 100 one of 4. */
  lemma DivisorsNest(n: int)
    ensures n % 400 == 0 ==> n % 100 == 0
    ensures n % 100 == 0 ==> n % 4 == 0
  {
    if n % 400 == 0 {
      var q := n / 400;
      assert n == 400 * q;
      MultipleMod(4 * q, 100);
      assert n == 100 * (4 * q);
    }
    if n % 100 == 0 {
      var q := n / 100;
      assert n == 100 * q;
      MultipleMod(25 * q, 4);
      assert n == 4 * (25 * q);
    }
  }

  lemma MultipleMod(m: int, k: int)
    requires k == 4 || k == 100
    ensures (k * m) % k == 0
  {
  }

  /** Going from `y` to `y + 1` adds one to `y / k` exactly when `k` divides `y + 1`. */
  lemma DivStep(y: int, k: int)
    requires y >= 0 && (k == 4 || k == 100 || k == 400)
    ensures (y + 1) / k - y / k == (if (y + 1) % k == 0 then 1 else 0)
  {
    if k == 4 {
      assert (y + 1) / 4 - y / 4 == (if (y + 1) % 4 == 0 then 1 else 0);
    } else if k == 100 {
      assert (y + 1) / 100 - y / 100 == (if (y + 1) % 100 == 0 then 1 else 0);
    } else {
      assert (y + 1) / 400 - y / 400 == (if (y + 1) % 400 == 0 then 1 else 0);
    }
  }

  /** Every year has at least 365 days, so the ordinal of 1 January grows by at least that much a year. */
  lemma {:induction false} DaysBeforeYearGrowth(y1: int, y2: int)
    requires 1 <= y1 <= y2
    ensures DaysBeforeYear(y1) + 365 * (y2 - y1) <= DaysBeforeYear(y2)
    ensures y1 < y2 ==> DaysBeforeYear(y1) + DaysInYear(y1) + 365 * (y2 - y1 - 1) <= DaysBeforeYear(y2)
    decreases y2 - y1
  {
    if y1 < y2 {
      DaysBeforeYearGrowth(y1, y2 - 1);
      DaysBeforeYearStep(y2 - 1);
      if y1 == y2 - 1 {
        DaysBeforeYearStep(y1);
      }
    }
  }

  lemma MonthsBefore(year: int, m1: int, m2: int)
    requires 1 <= m1 < m2 <= 12
    ensures DaysBeforeMonth(year, m1) + DaysInMonth(year, m1) <= DaysBeforeMonth(year, m2)
  {
  }

  /** A valid date lies inside its own year's block of ordinals. */
  lemma OrdinalWithinYear(d: Date)
    requires ValidDate(d)
    ensures DaysBeforeYear(d.year) < Ordinal(d) <= DaysBeforeYear(d.year) + DaysInYear(d.year)
  {
    if d.month < 12 {
      MonthsBefore(d.year, d.month, 12);
    }
  }

  /** Ordinals order valid dates exactly as the calendar does. */
  lemma OrdinalOrder(a: Date, b: Date)
    requires ValidDate(a) && ValidDate(b)
    ensures Ordinal(a) < Ordinal(b) <==> Before(a, b)
    ensures Ordinal(a) == Ordinal(b) <==> a == b
  {
    if Before(a, b) {
      OrdinalBefore(a, b);
    } else if Before(b, a) {
      OrdinalBefore(b, a);
    }
  }

  lemma OrdinalBefore(a: Date, b: Date)
    requires ValidDate(a) && ValidDate(b) && Before(a, b)
    ensures Ordinal(a) < Ordinal(b)
  {
    if a.year < b.year {
      OrdinalWithinYear(a);
      OrdinalWithinYear(b);
      DaysBeforeYearGrowth(a.year, b.year);
    } else if a.month < b.month {
      MonthsBefore(a.year, a.month, b.month);
    }
  }

  /**
   * The same month and day one year later is 365 or 366 days on: 366 only
   * when a 29 February lies in between.
   */
  lemma AnniversaryGap(d: Date)
    requires ValidDate(d) && ValidDate(Date(d.year + 1, d.month, d.day))
    ensures 365 <= Ordinal(Date(d.year + 1, d.month, d.day)) - Ordinal(d) <= 366
  {
    DaysBeforeYearStep(d.year);
  }

  /** A naive `datetime`: a date and the microseconds elapsed since its midnight. */
  datatype Instant = Instant(date: Date, micros: int)

  predicate ValidInstant(t: Instant)
  {
    ValidDate(t.date) && 0 <= t.micros < MICROS_PER_DAY
  }

  /** A date as the `datetime` at its midnight, which is what `strptime` yields for a date-only layout. */
  function Midnight(d: Date): (t: Instant)
    ensures t.date == d && t.micros == 0
  {
    Instant(d, 0)
  }

  /** Microseconds since the start of day 0, the ordering key of naive datetimes. */
  function Stamp(t: Instant): int
    requires ValidInstant(t)
  {
    Ordinal(t.date) * MICROS_PER_DAY + t.micros
  }

  /** `a > b` on naive datetimes. */
  predicate After(a: Instant, b: Instant)
    requires ValidInstant(a) && ValidInstant(b)
  {
    Stamp(a) > Stamp(b)
  }

  /**
   * `(later - earlier).days`: the timedelta's whole days, rounded towards
   * minus infinity (Dafny's `/` on a positive divisor floors, as Python's does).
   */
  function DaysBetween(later: Instant, earlier: Instant): int
    requires ValidInstant(later) && ValidInstant(earlier)
  {
    (Stamp(later) - Stamp(earlier)) / MICROS_PER_DAY
  }

  /** A midnight is after `now` exactly when its date is a later day than `now`'s. */
  lemma MidnightAfter(d: Date, now: Instant)
    requires ValidDate(d) && ValidInstant(now)
    ensures After(Midnight(d), now) <==> Ordinal(d) > Ordinal(now.date)
  {
  }

  /** Whole days from `now` to a midnight: the day difference, less one for a started day. */
  lemma DaysToMidnight(d: Date, now: Instant)
    requires ValidDate(d) && ValidInstant(now)
    ensures DaysBetween(Midnight(d), now)
      == Ordinal(d) - Ordinal(now.date) - (if now.micros == 0 then 0 else 1)
  {
    var k := Ordinal(d) - Ordinal(now.date);
    assert Stamp(Midnight(d)) - Stamp(now) == k * MICROS_PER_DAY - now.micros;
    if now.micros != 0 {
      assert (k - 1) * MICROS_PER_DAY <= k * MICROS_PER_DAY - now.micros < k * MICROS_PER_DAY;
    }
  }

  /** Whole days from a midnight to `now`: the time of day of `now` never adds a day. */
  lemma DaysFromMidnight(d: Date, now: Instant)
    requires ValidDate(d) && ValidInstant(now)
    ensures DaysBetween(now, Midnight(d)) == Ordinal(now.date) - Ordinal(d)
  {
    var k := Ordinal(now.date) - Ordinal(d);
    assert Stamp(now) - Stamp(Midnight(d)) == k * MICROS_PER_DAY + now.micros;
  }

  datatype ReplaceError = YearOutOfRange | DayOutOfRange

  /**
   * `d.replace(year=year)`: the same month and day in another year. Python
   * checks the year's range first, then that the day exists in that month.
   */
  function Replace(d: Date, year: int): (r: Result<Date, ReplaceError>)
    requires ValidDate(d)
    ensures r.Ok? <==> ValidDate(Date(year, d.month, d.day))
    ensures r.Ok? ==> r.value == Date(year, d.month, d.day)
    ensures r.Err? ==> (r.error == YearOutOfRange <==> !(MIN_YEAR <= year <= MAX_YEAR))
  {
    if !(MIN_YEAR <= year <= MAX_YEAR) then Err(YearOutOfRange)
    else if d.day > DaysInMonth(year, d.month) then Err(DayOutOfRange)
    else Ok(Date(year, d.month, d.day))
  }
}
