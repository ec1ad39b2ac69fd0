/** Worked cases of the birthday calculator, each a fixed text or date and a fixed `now`. */
module BirthdayExamples {
  import opened Wrappers
  import opened Calendar
  import opened DateParse
  import opened Birthday

  /** "2023-11-16" is 16 November 2023. */
  lemma YearFirstExample()
    ensures ParseText("2023-11-16") == Some(Date(2023, 11, 16))
  {
    YearFirstSpelling(2023, 11, 16, "2023", "11", "16");
    assert "2023-11-16" == "2023" + ['-'] + "11" + ['-'] + "16";
    RenderRoundTrip(FORMATS[0], Date(2023, 11, 16));
  }

  /** "16.11.2023", "16/11/2023" and "16-11-2023" are all 16 November 2023 too. */
  lemma DayFirstNotationsAgree(sep: char)
    requires sep == '.' || sep == '/' || sep == '-'
    ensures ParseText("16" + [sep] + "11" + [sep] + "2023") == Some(Date(2023, 11, 16))
  {
    var d := Date(2023, 11, 16);
    assert Pad(2023, 4) == "2023" && Pad(11, 2) == "11" && Pad(16, 2) == "16";
    RenderRoundTrip(DayFirst(sep), d);
  }

  /** "2023-02-30" names no date. */
  lemma YearFirstThirtiethRejected()
    ensures !IsDate("2023-02-30")
  {
    var d := Date(2023, 2, 30);
    assert Render(FORMATS[0], d) == "2023-02-30";
    RenderedIsDate(FORMATS[0], d);
  }

  /** Nor do "30.02.2023", "30/02/2023" and "30-02-2023". */
  lemma DayFirstThirtiethRejected(sep: char)
    requires sep == '.' || sep == '/' || sep == '-'
    ensures !IsDate("30" + [sep] + "02" + [sep] + "2023")
  {
    var d := Date(2023, 2, 30);
    assert Pad(2023, 4) == "2023" && Pad(2, 2) == "02" && Pad(30, 2) == "30";
    RenderedIsDate(DayFirst(sep), d);
  }

  /** Fields need no leading zero: "5.1.2023" is 5 January 2023. */
  lemma UnpaddedExample()
    ensures ParseText("5.1.2023") == Some(Date(2023, 1, 5))
  {
    var d := Date(2023, 1, 5);
    assert Pow10(1) == 10;
    assert RenderW(FORMATS[1], d, 1, 1) == "5.1.2023";
    SpellsWitness(FORMATS[1], "5.1.2023", d, 1, 1);
    ParseTextSpells("5.1.2023", d);
  }

  /** On 15 June 2024 at 10:00, the text "1990-06-15" gives 15 June 2025: today's date has passed. */
  lemma BirthdayTodayExample()
    ensures ComputeNextBirthday("1990-06-15", Instant(Date(2024, 6, 15), 36_000_000_000)) == Ok(Date(2025, 6, 15))
  {
    var now := Instant(Date(2024, 6, 15), 36_000_000_000);
    YearFirstSpelling(1990, 6, 15, "1990", "06", "15");
    assert "1990-06-15" == "1990" + ['-'] + "06" + ['-'] + "15";
    RenderRoundTrip(FORMATS[0], Date(1990, 6, 15));
    BirthdayTodayRollsOver(Date(1990, 6, 15), now);
  }

  /** On 15 June 2024 a 25 December birthday is still ahead this year. */
  lemma ChristmasExample()
    ensures NextOccurrence(Date(1990, 12, 25), Instant(Date(2024, 6, 15), 36_000_000_000)) == Ok(Date(2024, 12, 25))
  {
    var now := Instant(Date(2024, 6, 15), 36_000_000_000);
    assert Replace(Date(1990, 12, 25), 2024) == Ok(Date(2024, 12, 25));
    assert IsBirthdayStillThisYear(Date(2024, 12, 25), now);
  }

  /** At midnight on 1 January 2024 a 31 December birthday is still ahead. */
  lemma NewYearExample()
    ensures NextOccurrence(Date(1990, 12, 31), Instant(Date(2024, 1, 1), 0)) == Ok(Date(2024, 12, 31))
  {
    assert Replace(Date(1990, 12, 31), 2024) == Ok(Date(2024, 12, 31));
    assert IsBirthdayStillThisYear(Date(2024, 12, 31), Instant(Date(2024, 1, 1), 0));
  }

  /** Born on 1 January 2000, on 1 January 2024: 8766 days, 24 blocks of 365 days. */
  lemma AgeExample()
    ensures ComputeAge(Date(2000, 1, 1), Instant(Date(2024, 1, 1), 0)) == 24
  {
  }

  /** A 29 February birthday in 2023, not a leap year, has no date this year and fails. */
  lemma LeapDayExample()
    ensures NextOccurrence(Date(2000, 2, 29), Instant(Date(2023, 6, 1), 0)) == Err(ReplaceFailed(DayOutOfRange))
  {
    assert Replace(Date(2000, 2, 29), 2023) == Err(DayOutOfRange);
  }

  /** A date's year-first text, from the zero-padded texts of its fields. */
  lemma YearFirstSpelling(year: nat, month: nat, day: nat, y: string, m: string, d: string)
    requires Pad(year, 4) == y && Pad(month, 2) == m && Pad(day, 2) == d
    ensures Render(FORMATS[0], Date(year, month, day)) == y + ['-'] + m + ['-'] + d
  {
  }
}
