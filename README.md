# Next-birthday calculator, modelled in Dafny

`ComputeNextBirthDay` (main.py) reads a birth date typed as text, checks that it is a date, works out
the next birthday after the current moment, and computes the age and the number of days left to wait.
This project models that date logic and proves its properties:

- `calendar.dfy` (module `Calendar`) models the part of Python's `datetime` the program relies on.
  Dates are proleptic Gregorian in years 1..9999. The day ordinal (`Ordinal`, Python's `toordinal`)
  uses Python's closed form. A naive `datetime` is an `Instant`: a date plus the microseconds since
  its midnight. Comparison and subtraction are integer arithmetic on microseconds. `.days` is floor
  division, and Dafny's `/` floors when the divisor is positive. `Replace` models
  `replace(year=...)`: it checks the year range first, then that the day exists in the month.
- `date_parse.dfy` (module `DateParse`) models `parse_text_to_date` and `is_date`. There are four
  layouts, tried in order: `%Y-%m-%d`, `%d.%m.%Y`, `%d/%m/%Y`, `%d-%m-%Y`. `ParseTextToDate` is the
  loop with its early return. `ParseText` is the same first-match search written as a function, and
  the other definitions use it.
- `birthday.dfy` (module `Birthday`) models `is_birthday_still_this_year`, `compute_next_birthday`,
  `compute_age` and `compute_days_to_wait`.
- `examples.dfy` (module `BirthdayExamples`) holds worked cases: four notations of one date, an
  impossible date, a date without leading zeros, birthdays before and after "now", the age formula, and a leap-day failure.
- `wrappers.dfy` holds `Option` and `Result`.

The wall clock is a parameter, `now`. The parsed birth date is a `Date`, taken to be at midnight,
because `strptime` with a date-only layout yields 00:00. A missing date is `None`. The source's
exceptions become `Result` errors:
- `NotADate`: `compute_next_birthday` calls `replace` on `None`.
- `ReplaceFailed(YearOutOfRange)` and `ReplaceFailed(DayOutOfRange)`: `replace` raises `ValueError`.

Each `strptime` layout is modelled as fixed separators around a four-digit year and one- or
two-digit month and day fields, and the fields must cover the whole text. The regular expressions
`strptime` uses for `%d` and `%m` also refuse some digit pairs, such as `00`, `13` and `39`. The model
reads those pairs as numbers instead and then rejects them in the calendar check. The outcome is the
same: no date.

The date being built before the comparison matters. `compute_next_birthday` evaluates
`replace(year=now.year)` before it compares anything. A 29 February birthday therefore fails in every
non-leap current year, even when next year is a leap year. `LeapDayBirthday` states this behaviour
and the model keeps it.

## Model

| member | source | states |
|---|---|---|
| `DateParse.ParseTextToDate` | main.py:19-29 | The layouts are tried in the fixed order. The result is the first layout's successful parse, and no earlier layout succeeded. It is `None` exactly when every layout fails. |
| `DateParse.FirstMatch` | main.py:23-29 | The first-match search as a function. The result is `None` iff every layout fails; otherwise it is the parse by the first layout that succeeds. |
| `DateParse.FirstMatchAt` | main.py:23-28 | When layout `i` is the first to accept a text, the search returns exactly that layout's parse. |
| `DateParse.ParseWith` | main.py:24-28 | One `strptime` attempt with its `ValueError` swallowed. A success is always a valid calendar date. |
| `DateParse.ParseWithSound` | main.py:24-28 | A success is a date the text spells in that layout: a four-digit year, a month and day of one or two digits each, the separators, and nothing else. |
| `DateParse.ParseWithComplete` | main.py:24-28 | The converse: a layout with a non-digit separator returns every valid date the text spells in it, so "5.1.2023" is accepted as well as "05.01.2023". |
| `DateParse.LexSpells` | main.py:24-28 | Whatever year, month and day the field reader takes from a text, the text spells exactly those fields in that layout. |
| `DateParse.SpellsLex` | main.py:24-28 | With a non-digit separator, a text spells at most one date in a layout, and the field reader returns that date. |
| `DateParse.LexRenderW` | main.py:24-28 | A date written with a four-digit year and a one- or two-digit month and day reads back field by field, in either layout order. |
| `DateParse.PadDecimal` | main.py:24-28 | A digit string is the zero-padded form of its value, and that value fits in the string's width. |
| `DateParse.LayoutsExclusive` | main.py:20 | No text fits two of the four layouts. |
| `DateParse.ParseTextIff` | main.py:20-29 | A text parses to `d` iff some accepted layout reads it as the valid date `d`. |
| `DateParse.ParseTextSpells` | main.py:19-29 | The whole parser apart from its search order: a text parses to `d` iff `d` is a valid date and the text spells `d` in one of the four layouts. |
| `DateParse.RenderRoundTrip` | main.py:13-16 | Each of the four notations in the comments, written for any valid date, reads back as that date. |
| `DateParse.ImpossibleDateRejected` | main.py:24-29 | A text that spells, in an accepted layout, a date the calendar lacks (month 13, day 32, 30 February, 29 February of a common year) parses to `None`, padded or not. |
| `DateParse.IsDate` | main.py:36-42 | `is_date` is true iff some layout accepts the text. |
| `DateParse.RenderedIsDate` | main.py:36-42 | A date written in any accepted notation passes `is_date` iff it is a real calendar date. |
| `DateParse.PadDigits` | main.py:13-16 | A number below 10^w written as w zero-padded digits reads back as that number. |
| `DateParse.LexRender` | main.py:13-16 | Reading the fields of a rendered date, in any accepted layout, gives back its year, month and day. |
| `Calendar.Replace` | main.py:59-62 | `replace(year=y)` succeeds iff the same month and day exist in year `y`, and then keeps the month and day. The error is year-out-of-range exactly when `y` is outside 1..9999. |
| `Calendar.OrdinalOrder` | main.py:52 | Day ordinals order valid dates as the calendar does, and equal ordinals mean equal dates. This is why comparing datetimes compares dates. |
| `Calendar.OrdinalBefore` | main.py:52 | A date earlier in the calendar has a smaller ordinal. |
| `Calendar.DaysBeforeYearStep` | main.py:75 | The ordinal of 1 January grows by exactly the length of the year before it. |
| `Calendar.DaysBeforeYearGrowth` | main.py:75 | Over n years the ordinal of 1 January grows by at least 365n days, plus one more for a leap first year. |
| `Calendar.OrdinalWithinYear` | main.py:75 | A valid date's ordinal lies within its own year's block of days. |
| `Calendar.AnniversaryGap` | main.py:62 | The same month and day one year later is 365 or 366 days on. |
| `Calendar.MidnightAfter` | main.py:52 | A midnight is strictly after `now` iff its date is a later day than `now`'s. |
| `Calendar.DaysToMidnight` | main.py:81-82 | The whole days from `now` to a midnight are the day difference, less one when `now` is past its own midnight. |
| `Calendar.DaysFromMidnight` | main.py:75-76 | The whole days from a midnight to `now` are the day difference; the time of day never adds a day. |
| `Birthday.IsBirthdayStillThisYear` | main.py:48-52 | The birthday counts as still this year iff its date is a later day than today. Today itself has passed at any time of day. |
| `Birthday.ComputeNextBirthday` | main.py:56-63 | The result is `NotADate` iff the text does not parse; otherwise it is the next occurrence of the parsed birth date. |
| `Birthday.NextOccurrence` | main.py:58-62 | The year choice. A failure is always a `replace` failure. A result keeps the birth month and day, its year is this year or next year, and its midnight is strictly after `now`. |
| `Birthday.ThisYearChosenIff` | main.py:58-62 | When a next birthday results, this year's anniversary of the birth date is valid, and it is chosen iff its midnight is strictly later than `now`. |
| `Birthday.BirthdayTodayRollsOver` | main.py:58-62 | A birth date with today's month and day always moves to next year, whatever the time of day: the result is exactly next year's `replace`. |
| `Birthday.NextBirthdayIsEarliest` | main.py:58-62 | No anniversary of the birth date in a year before the result's is still ahead of `now`, so the result is the first one to come. |
| `Birthday.NextBirthdayDefined` | main.py:58-62 | A birth date other than 29 February always has a next birthday when the current year is before 9999, or when this year's anniversary is still ahead. |
| `Birthday.LeapDayBirthday` | main.py:58-62 | A 29 February birthday fails iff this year is not a leap year or this year's 29 February has passed. The failure is always day-out-of-range. |
| `Birthday.LastYearOverflow` | main.py:62 | In the year 9999, a birthday that has passed fails with year-out-of-range. |
| `Birthday.ComputeAge` | main.py:73-76 | The age is the whole days from the birth date to today's date, floor-divided by 365. The time of day is irrelevant. The age is non-negative iff the birth midnight is not after `now`. |
| `Birthday.AgeAtLeastCalendarYears` | main.py:73-76 | The 365-day age is never below the calendar age: after the n-th anniversary it is at least n. |
| `Birthday.ComputeDaysToWait` | main.py:79-82 | The wait is the day difference less one for a started day. It is non-negative iff `now` is not after the next birthday's midnight. |
| `Birthday.DaysToWaitBounded` | main.py:79-82 | For the next birthday computed from any birth date, the wait is between 0 and 366 days. |
| `BirthdayExamples.YearFirstExample` | main.py:13-20 | "2023-11-16" parses to 16 November 2023. |
| `BirthdayExamples.DayFirstNotationsAgree` | main.py:13-20 | "16.11.2023", "16/11/2023" and "16-11-2023" parse to 16 November 2023 too. |
| `BirthdayExamples.YearFirstThirtiethRejected` | main.py:36-42 | "2023-02-30" is not a date. |
| `BirthdayExamples.DayFirstThirtiethRejected` | main.py:36-42 | Neither are "30.02.2023", "30/02/2023" and "30-02-2023". |
| `BirthdayExamples.UnpaddedExample` | main.py:20-28 | "5.1.2023", without leading zeros, parses to 5 January 2023. |
| `BirthdayExamples.BirthdayTodayExample` | main.py:56-63 | On 15 June 2024 at 10:00, the text "1990-06-15" gives the next birthday 15 June 2025. |
| `BirthdayExamples.ChristmasExample` | main.py:58-62 | On 15 June 2024, a 25 December birthday next falls on 25 December 2024. |
| `BirthdayExamples.NewYearExample` | main.py:58-62 | At midnight on 1 January 2024, a 31 December birthday next falls on 31 December 2024. |
| `BirthdayExamples.AgeExample` | main.py:73-76 | Born 1 January 2000, on 1 January 2024 the age is 24. |
| `BirthdayExamples.LeapDayExample` | main.py:59-62 | A 29 February 2000 birthday fails with day-out-of-range in 2023. |

## Left out

- `get_validator` (main.py:65-70) binds `is_date` to a prompt_toolkit `Validator`. That is a callback into a foreign UI library; only the `is_date` predicate it wraps is modelled.
- `compute_birthday` (main.py:84-123) and the `__main__` block (main.py:126-129) are left out. They are interactive `prompt` input, `print` output and `SystemExit`, which is I/O.
- Weekday and month names (`strftime("%A")`, `calendar.month_name`) are left out. They are locale-dependent formatting done by a library.
- `datetime.now()` is not sampled. The source calls it afresh inside each function, and here one explicit `now` is passed to every function instead. Clock drift between those calls is not modelled.
- `strptime` accepts some inputs the model does not. `\d` matches non-ASCII decimal digits, and `%d` takes a space before a single digit (" 1"). Only ASCII digits and no leading space are modelled.
- `ComputeNextBirthDay` is a class without fields. Its methods are modelled as module-level functions, and the `self` parameter is dropped.
