/**
 * The next-birthday arithmetic of `ComputeNextBirthDay`: which anniversary
 * comes next, the age in 365-day blocks, and the whole days left to wait.
 * The wall clock is the parameter `now`.
 */
module Birthday {
  import opened Wrappers
  import opened Calendar
  import opened DateParse

  /**
   * Why `compute_next_birthday` gives no date: the text parses to nothing
   * (so `None.replace` fails), or `replace(year=...)` raises `ValueError`.
   */
  datatype BirthdayError = NotADate | ReplaceFailed(reason: ReplaceError)

  /** `is_birthday_still_this_year`: the birthday's midnight is strictly later than `now`. */
  predicate IsBirthdayStillThisYear(birthday: Date, now: Instant)
    requires ValidDate(birthday) && ValidInstant(now)
    ensures IsBirthdayStillThisYear(birthday, now) <==> Before(now.date, birthday)
  {
    MidnightAfter(birthday, now);
    OrdinalOrder(now.date, birthday);
    After(Midnight(birthday), now)
  }

  /**
   * `compute_next_birthday`: `NotADate` when the text is no date, otherwise
   * the next occurrence of the parsed birthday.
   */
  function ComputeNextBirthday(text: string, now: Instant): (r: Result<Date, BirthdayError>)
    requires ValidInstant(now)
    ensures r == Err(NotADate) <==> ParseText(text).None?
    ensures ParseText(text).Some? ==> r == NextOccurrence(ParseText(text).value, now)
  {
    match ParseText(text)
    case None => Err(NotADate)
    case Some(birth) => NextOccurrence(birth, now)
  }

  /**
   * The year choice of `compute_next_birthday`: the birthday moved to this
   * year if still ahead, else to next year. A result keeps the birth month
   * and day, falls in this year or the next, and is strictly later than `now`.
   */
  function NextOccurrence(birth: Date, now: Instant): (r: Result<Date, BirthdayError>)
    requires ValidDate(birth) && ValidInstant(now)
    ensures r.Err? ==> r.error.ReplaceFailed?
    ensures r.Ok? ==>
      && ValidDate(r.value)
      && r.value.month == birth.month && r.value.day == birth.day
      && (r.value.year == now.date.year || r.value.year == now.date.year + 1)
      && After(Midnight(r.value), now)
  {
    match Replace(birth, now.date.year)
    case Err(e) => Err(ReplaceFailed(e))
    case Ok(candidate) =>
      if IsBirthdayStillThisYear(candidate, now) then Ok(candidate)
      else
        match Replace(birth, now.date.year + 1)
        case Err(e) => Err(ReplaceFailed(e))
        case Ok(next) =>
          OrdinalBefore(now.date, next);
          Ok(next)
  }

  /**
   * `compute_age`: whole 365-day blocks from the birth midnight to `now`;
   * `now`'s time of day never changes the result.
   */
  function ComputeAge(birth: Date, now: Instant): (age: int)
    requires ValidDate(birth) && ValidInstant(now)
    ensures age == (Ordinal(now.date) - Ordinal(birth)) / 365
    ensures age >= 0 <==> !After(Midnight(birth), now)
  {
    DaysFromMidnight(birth, now);
    DaysBetween(now, Midnight(birth)) / 365
  }

  /**
   * `compute_days_to_wait`: whole days from `now` to the next birthday's
   * midnight; a day already begun does not count.
   */
  function ComputeDaysToWait(next: Date, now: Instant): (days: int)
    requires ValidDate(next) && ValidInstant(now)
    ensures days == Ordinal(next) - Ordinal(now.date) - (if now.micros == 0 then 0 else 1)
    ensures days >= 0 <==> !After(now, Midnight(next))
  {
    DaysToMidnight(next, now);
    DaysBetween(Midnight(next), now)
  }

  /** This year's date is chosen exactly when its midnight is still ahead of `now`. */
  lemma ThisYearChosenIff(birth: Date, now: Instant)
    requires ValidDate(birth) && ValidInstant(now)
    requires NextOccurrence(birth, now).Ok?
    ensures ValidDate(Date(now.date.year, birth.month, birth.day))
    ensures NextOccurrence(birth, now).value.year == now.date.year
        <==> IsBirthdayStillThisYear(Date(now.date.year, birth.month, birth.day), now)
  {
  }

  /**
   * A birthday on today's date has already passed, whatever the time of day,
   * so the next one is a year on.
   */
  lemma BirthdayTodayRollsOver(birth: Date, now: Instant)
    requires ValidDate(birth) && ValidInstant(now)
    requires birth.month == now.date.month && birth.day == now.date.day
    ensures NextOccurrence(birth, now) ==
      match Replace(birth, now.date.year + 1)
      case Ok(next) => Ok(next)
      case Err(e) => Err(ReplaceFailed(e))
  {
    assert Date(now.date.year, birth.month, birth.day) == now.date;
    MidnightAfter(now.date, now);
  }

  /** No earlier year's anniversary is still ahead of `now`: the result is the first one to come. */
  lemma NextBirthdayIsEarliest(birth: Date, now: Instant, year: int)
    requires ValidDate(birth) && ValidInstant(now) && NextOccurrence(birth, now).Ok?
    requires ValidDate(Date(year, birth.month, birth.day)) && year < NextOccurrence(birth, now).value.year
    ensures !IsBirthdayStillThisYear(Date(year, birth.month, birth.day), now)
  {
    var earlier := Date(year, birth.month, birth.day);
    if year < now.date.year {
      OrdinalBefore(earlier, now.date);
      MidnightAfter(earlier, now);
    }
  }

  /**
   * A birthday other than 29 February always has a next occurrence, unless
   * the current year is 9999 and this year's date has passed.
   */
  lemma NextBirthdayDefined(birth: Date, now: Instant)
    requires ValidDate(birth) && ValidInstant(now)
    requires !(birth.month == 2 && birth.day == 29)
    requires now.date.year < MAX_YEAR || Before(now.date, Date(MAX_YEAR, birth.month, birth.day))
    ensures NextOccurrence(birth, now).Ok?
  {
  }

  /**
   * A 29 February birthday fails, with a day-out-of-range error, exactly
   * when this year is not a leap year (the year-`now` date is built before
   * the comparison, even when next year is a leap year), or when this
   * year's 29 February has passed.
   */
  lemma LeapDayBirthday(birth: Date, now: Instant)
    requires ValidDate(birth) && ValidInstant(now)
    requires birth.month == 2 && birth.day == 29
    ensures NextOccurrence(birth, now).Err? <==>
      !IsLeapYear(now.date.year) || !IsBirthdayStillThisYear(Date(now.date.year, 2, 29), now)
    ensures NextOccurrence(birth, now).Err? ==>
      NextOccurrence(birth, now).error == ReplaceFailed(DayOutOfRange)
  {
    var y := now.date.year;
    if IsLeapYear(y) {
      assert !IsLeapYear(y + 1);
      assert y < MAX_YEAR;
    }
  }

  /** In the year 9999 a birthday already passed cannot move to year 10000. */
  lemma LastYearOverflow(birth: Date, now: Instant)
    requires ValidDate(birth) && ValidInstant(now) && now.date.year == MAX_YEAR
    requires ValidDate(Date(MAX_YEAR, birth.month, birth.day))
    requires !IsBirthdayStillThisYear(Date(MAX_YEAR, birth.month, birth.day), now)
    ensures NextOccurrence(birth, now) == Err(ReplaceFailed(YearOutOfRange))
  {
  }

  /** The wait for a computed next birthday is never negative and never more than 366 days. */
  lemma DaysToWaitBounded(birth: Date, now: Instant)
    requires ValidDate(birth) && ValidInstant(now) && NextOccurrence(birth, now).Ok?
    ensures 0 <= ComputeDaysToWait(NextOccurrence(birth, now).value, now) <= 366
  {
    var next := NextOccurrence(birth, now).value;
    var y := now.date.year;
    if next.year == y {
      OrdinalWithinYear(next);
      OrdinalWithinYear(now.date);
    } else {
      var candidate := Date(y, birth.month, birth.day);
      MidnightAfter(candidate, now);
      AnniversaryGap(candidate);
    }
  }

  /**
   * The 365-day age never falls short of the calendar age: once the
   * `years`-th anniversary has come, the age is at least `years`.
   */
  lemma AgeAtLeastCalendarYears(birth: Date, now: Instant, years: nat)
    requires ValidDate(birth) && ValidInstant(now)
    requires ValidDate(Date(birth.year + years, birth.month, birth.day))
    requires Ordinal(Date(birth.year + years, birth.month, birth.day)) <= Ordinal(now.date)
    ensures ComputeAge(birth, now) >= years
  {
    var later := Date(birth.year + years, birth.month, birth.day);
    if years > 0 {
      DaysBeforeYearGrowth(birth.year, later.year);
      assert Ordinal(later) - Ordinal(birth) >= 365 * years;
    }
  }
}
