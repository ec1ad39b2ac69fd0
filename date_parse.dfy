/**
 * Reading a birthday typed as text (`parse_text_to_date` and `is_date`).
 *
 * Each accepted layout is a fixed separator between a four-digit year and
 * one- or two-digit month and day fields, covering the whole text; the
 * fields must then name a real date, as `strptime` demands.
 */
module DateParse {
  import opened Wrappers
  import opened Calendar

  /** A `strptime` layout: `%Y<sep>%m<sep>%d` or `%d<sep>%m<sep>%Y`. */
  datatype Layout = YearFirst(sep: char) | DayFirst(sep: char)

  /** The layouts in the order they are tried: `%Y-%m-%d`, `%d.%m.%Y`, `%d/%m/%Y`, `%d-%m-%Y`. */
  const FORMATS: seq<Layout> := [YearFirst('-'), DayFirst('.'), DayFirst('/'), DayFirst('-')]

  predicate IsDigit(c: char)
  {
    '0' <= c <= '9'
  }

  predicate AllDigits(s: string)
  {
    forall i :: 0 <= i < |s| ==> IsDigit(s[i])
  }

  function DigitValue(c: char): nat
    requires IsDigit(c)
  {
    c as int - '0' as int
  }

  /** The number a run of decimal digits denotes. */
  function DecimalValue(s: string): nat
    requires AllDigits(s)
  {
    if s == [] then 0 else DecimalValue(s[..|s| - 1]) * 10 + DigitValue(s[|s| - 1])
  }

  /**
   * The length of a one- or two-digit field at the start of `t` that is
   * followed by `sep`, or 0 when there is none.
   */
  function FieldLength(t: string, sep: char): (k: nat)
    ensures k == 0 || ((k == 1 || k == 2) && k < |t| && AllDigits(t[..k]) && t[k] == sep)
  {
    if |t| >= 2 && IsDigit(t[0]) && t[1] == sep then 1
    else if |t| >= 3 && IsDigit(t[0]) && IsDigit(t[1]) && t[2] == sep then 2
    else 0
  }

  /** The year, month and day fields `t` spells in layout `f`, before any calendar check. */
  function Lex(f: Layout, t: string): Option<Date>
  {
    match f
    case YearFirst(sep) =>
      if |t| >= 5 && AllDigits(t[..4]) && t[4] == sep then
        var rest := t[5..];
        var k := FieldLength(rest, sep);
        if k == 0 then None
        else
          var dayText := rest[k + 1..];
          if 1 <= |dayText| <= 2 && AllDigits(dayText) then
            Some(Date(DecimalValue(t[..4]), DecimalValue(rest[..k]), DecimalValue(dayText)))
          else None
      else None
    case DayFirst(sep) =>
      var k1 := FieldLength(t, sep);
      if k1 == 0 then None
      else
        var rest := t[k1 + 1..];
        var k2 := FieldLength(rest, sep);
        if k2 == 0 then None
        else
          var yearText := rest[k2 + 1..];
          if |yearText| == 4 && AllDigits(yearText) then
            Some(Date(DecimalValue(yearText), DecimalValue(rest[..k2]), DecimalValue(t[..k1])))
          else None
  }

  /**
   * `datetime.strptime(t, f)`, with its `ValueError` turned into `None`: a
   * success is a valid date, one that `t` spells in layout `f`
   * (`ParseWithSound`); `ParseWithComplete` gives the converse.
   */
  function ParseWith(f: Layout, t: string): (r: Option<Date>)
    ensures r.Some? ==> ValidDate(r.value)
  {
    match Lex(f, t)
    case Some(d) => if ValidDate(d) then Some(d) else None
    case None => None
  }

  /** The result of the first layout of `fs` that accepts `t`, or `None`. */
  function FirstMatch(fs: seq<Layout>, t: string): (r: Option<Date>)
    ensures r.None? <==> forall j :: 0 <= j < |fs| ==> ParseWith(fs[j], t).None?
    ensures r.Some? ==> exists i :: 0 <= i < |fs| && r == ParseWith(fs[i], t)
                                   && forall j :: 0 <= j < i ==> ParseWith(fs[j], t).None?
  {
    if fs == [] then None
    else
      match ParseWith(fs[0], t)
      case Some(d) => Some(d)
      case None =>
        var r := FirstMatch(fs[1..], t);
        assert forall j :: 1 <= j < |fs| ==> fs[j] == fs[1..][j - 1];
        if r.Some? then
          var i :| 0 <= i < |fs[1..]| && r == ParseWith(fs[1..][i], t)
                   && forall j :: 0 <= j < i ==> ParseWith(fs[1..][j], t).None?;
          assert 0 <= i + 1 < |fs| && r == ParseWith(fs[i + 1], t);
          r
        else r
  }

  /** What `parse_text_to_date` returns, for use by the other definitions. */
  function ParseText(text: string): Option<Date>
  {
    FirstMatch(FORMATS, text)
  }

  /** `parse_text_to_date`: try each layout in turn and return the first date that parses. */
  method ParseTextToDate(text: string) returns (r: Option<Date>)
    ensures r == ParseText(text)
    ensures r.Some? ==> exists i :: 0 <= i < |FORMATS| && r == ParseWith(FORMATS[i], text)
                                   && forall j :: 0 <= j < i ==> ParseWith(FORMATS[j], text).None?
    ensures r.None? <==> forall j :: 0 <= j < |FORMATS| ==> ParseWith(FORMATS[j], text).None?
  {
    for i := 0 to |FORMATS|
      invariant forall j :: 0 <= j < i ==> ParseWith(FORMATS[j], text).None?
    {
      var attempt := ParseWith(FORMATS[i], text);
      if attempt.Some? {
        FirstMatchAt(FORMATS, text, i);
        return attempt;
      }
    }
    return None;
  }

  /** When layout `i` is the first to accept `t`, the search returns its parse. */
  lemma {:induction false} FirstMatchAt(fs: seq<Layout>, t: string, i: nat)
    requires i < |fs| && ParseWith(fs[i], t).Some?
    requires forall j :: 0 <= j < i ==> ParseWith(fs[j], t).None?
    ensures FirstMatch(fs, t) == ParseWith(fs[i], t)
  {
    if i > 0 {
      assert ParseWith(fs[0], t).None?;
      assert forall j :: 0 <= j < i - 1 ==> fs[1..][j] == fs[j + 1];
      FirstMatchAt(fs[1..], t, i - 1);
    }
  }

  /** `is_date`: the text is accepted exactly when it parses. */
  predicate IsDate(text: string)
    ensures IsDate(text) <==> exists i :: 0 <= i < |FORMATS| && ParseWith(FORMATS[i], text).Some?
  {
    ParseText(text).Some?
  }

  /** `n` as exactly `width` decimal digits, with leading zeros. */
  function Pad(n: nat, width: nat): string
  {
    if width == 0 then [] else Pad(n / 10, width - 1) + [('0' as int + n % 10) as char]
  }

  function Pow10(k: nat): nat
  {
    if k == 0 then 1 else 10 * Pow10(k - 1)
  }

  /** A date spelled in layout `f`, its month and day written with `wm` and `wd` digits. */
  function RenderW(f: Layout, d: Date, wm: nat, wd: nat): string
    requires 0 <= d.year && 0 <= d.month && 0 <= d.day
  {
    match f
    case YearFirst(sep) => Pad(d.year, 4) + [sep] + Pad(d.month, wm) + [sep] + Pad(d.day, wd)
    case DayFirst(sep) => Pad(d.day, wd) + [sep] + Pad(d.month, wm) + [sep] + Pad(d.year, 4)
  }

  /** A date spelled in layout `f` with zero-padded fields, as in "2023-11-16" or "16.11.2023". */
  function Render(f: Layout, d: Date): string
    requires 0 <= d.year && 0 <= d.month && 0 <= d.day
  {
    RenderW(f, d, 2, 2)
  }

  predicate RenderableDate(d: Date)
  {
    0 <= d.year < 10000 && 0 <= d.month < 100 && 0 <= d.day < 100
  }

  /**
   * `t` spells `d` in layout `f`: a four-digit year and a month and day of
   * one or two digits each (so "5.1.2023" as well as "05.01.2023").
   */
  predicate Spells(f: Layout, t: string, d: Date)
  {
    && 0 <= d.year < 10000 && 0 <= d.month && 0 <= d.day
    && exists wm: nat, wd: nat :: 1 <= wm <= 2 && 1 <= wd <= 2 && d.month < Pow10(wm) && d.day < Pow10(wd)
                                 && t == RenderW(f, d, wm, wd)
  }

  lemma {:induction false} PadDigits(n: nat, width: nat)
    requires n < Pow10(width)
    ensures |Pad(n, width)| == width && AllDigits(Pad(n, width))
    ensures DecimalValue(Pad(n, width)) == n
  {
    if width > 0 {
      PadDigits(n / 10, width - 1);
      var s := Pad(n, width);
      assert s[..|s| - 1] == Pad(n / 10, width - 1);
    }
  }

  /** A run of digits is the zero-padded spelling of the number it denotes. */
  lemma {:induction false} PadDecimal(s: string)
    requires AllDigits(s)
    ensures DecimalValue(s) < Pow10(|s|) && Pad(DecimalValue(s), |s|) == s
  {
    if s != [] {
      var p := s[..|s| - 1];
      PadDecimal(p);
      var v := DecimalValue(s);
      assert v / 10 == DecimalValue(p) && v % 10 == DigitValue(s[|s| - 1]);
      assert s == p + [s[|s| - 1]];
    }
  }

  /** Lexing a date spelled with any field widths gives back its fields, in every layout. */
  lemma LexRenderW(f: Layout, d: Date, wm: nat, wd: nat)
    requires !IsDigit(f.sep) && 0 <= d.year < 10000 && 0 <= d.month && 0 <= d.day
    requires 1 <= wm <= 2 && 1 <= wd <= 2 && d.month < Pow10(wm) && d.day < Pow10(wd)
    ensures Lex(f, RenderW(f, d, wm, wd)) == Some(d)
  {
    assert Pow10(4) == 10000;
    PadDigits(d.year, 4);
    PadDigits(d.month, wm);
    PadDigits(d.day, wd);
    match f
    case YearFirst(sep) => LexYearFirstFields(sep, Pad(d.year, 4), Pad(d.month, wm), Pad(d.day, wd));
    case DayFirst(sep) => LexDayFirstFields(sep, Pad(d.day, wd), Pad(d.month, wm), Pad(d.year, 4));
  }

  lemma LexYearFirstFields(sep: char, y: string, m: string, dd: string)
    requires !IsDigit(sep) && |y| == 4 && 1 <= |m| <= 2 && 1 <= |dd| <= 2
    requires AllDigits(y) && AllDigits(m) && AllDigits(dd)
    ensures Lex(YearFirst(sep), y + [sep] + m + [sep] + dd)
      == Some(Date(DecimalValue(y), DecimalValue(m), DecimalValue(dd)))
  {
    var t := y + [sep] + m + [sep] + dd;
    var rest := m + [sep] + dd;
    assert t == y + ([sep] + rest);
    assert t[..4] == y && t[4] == sep && t[5..] == rest;
    FieldSplit(m, sep, dd);
  }

  lemma LexDayFirstFields(sep: char, dd: string, m: string, y: string)
    requires !IsDigit(sep) && |y| == 4 && 1 <= |m| <= 2 && 1 <= |dd| <= 2
    requires AllDigits(y) && AllDigits(m) && AllDigits(dd)
    ensures Lex(DayFirst(sep), dd + [sep] + m + [sep] + y)
      == Some(Date(DecimalValue(y), DecimalValue(m), DecimalValue(dd)))
  {
    var rest := m + [sep] + y;
    assert dd + [sep] + m + [sep] + y == dd + [sep] + rest;
    FieldSplit(dd, sep, rest);
    FieldSplit(m, sep, y);
  }

  /** A one- or two-digit field followed by a non-digit separator is read as exactly that field. */
  lemma FieldSplit(field: string, sep: char, tail: string)
    requires !IsDigit(sep) && 1 <= |field| <= 2 && AllDigits(field)
    ensures FieldLength(field + [sep] + tail, sep) == |field|
    ensures (field + [sep] + tail)[..|field|] == field
    ensures (field + [sep] + tail)[|field| + 1..] == tail
  {
    var t := field + [sep] + tail;
    assert t == field + ([sep] + tail);
    assert t[|field|] == sep;
  }

  /** Lexing a rendered date gives back its fields, in every accepted layout. */
  lemma LexRender(f: Layout, d: Date)
    requires f in FORMATS && RenderableDate(d)
    ensures Lex(f, Render(f, d)) == Some(d)
  {
    assert Pow10(2) == 100;
    LexRenderW(f, d, 2, 2);
  }

  /** Whatever layout `f` reads from `t`, `t` spells exactly those fields. */
  lemma LexSpells(f: Layout, t: string)
    ensures Lex(f, t).Some? ==> Spells(f, t, Lex(f, t).value)
  {
    if Lex(f, t).Some? {
      match f
      case YearFirst(sep) => LexSpellsYearFirst(sep, t);
      case DayFirst(sep) => LexSpellsDayFirst(sep, t);
    }
  }

  lemma LexSpellsYearFirst(sep: char, t: string)
    requires Lex(YearFirst(sep), t).Some?
    ensures Spells(YearFirst(sep), t, Lex(YearFirst(sep), t).value)
  {
    var rest := t[5..];
    var k := FieldLength(rest, sep);
    var y, m, dd := t[..4], rest[..k], rest[k + 1..];
    assert t == y + [sep] + m + [sep] + dd by {
      SplitAt(rest, k);
      SplitAt(t, 4);
    }
    SpellsFields(YearFirst(sep), t, y, m, dd);
  }

  lemma LexSpellsDayFirst(sep: char, t: string)
    requires Lex(DayFirst(sep), t).Some?
    ensures Spells(DayFirst(sep), t, Lex(DayFirst(sep), t).value)
  {
    var k1 := FieldLength(t, sep);
    var rest := t[k1 + 1..];
    var k2 := FieldLength(rest, sep);
    var dd, m, y := t[..k1], rest[..k2], rest[k2 + 1..];
    assert Lex(DayFirst(sep), t).value == Date(DecimalValue(y), DecimalValue(m), DecimalValue(dd));
    assert t == dd + [sep] + m + [sep] + y by {
      SplitAt(rest, k2);
      SplitAt(t, k1);
    }
    SpellsFields(DayFirst(sep), t, y, m, dd);
  }

  /** A text made of the three digit fields in layout order spells the date they denote. */
  lemma SpellsFields(f: Layout, t: string, y: string, m: string, dd: string)
    requires |y| == 4 && 1 <= |m| <= 2 && 1 <= |dd| <= 2
    requires AllDigits(y) && AllDigits(m) && AllDigits(dd)
    requires f.YearFirst? ==> t == y + [f.sep] + m + [f.sep] + dd
    requires f.DayFirst? ==> t == dd + [f.sep] + m + [f.sep] + y
    ensures Spells(f, t, Date(DecimalValue(y), DecimalValue(m), DecimalValue(dd)))
  {
    PadDecimal(y);
    PadDecimal(m);
    PadDecimal(dd);
    assert Pow10(4) == 10000;
    SpellsWitness(f, t, Date(DecimalValue(y), DecimalValue(m), DecimalValue(dd)), |m|, |dd|);
  }

  lemma SplitAt(s: string, k: nat)
    requires k < |s|
    ensures s == s[..k] + [s[k]] + s[k + 1..]
  {
    assert s[..k] + [s[k]] == s[..k + 1];
  }

  lemma SpellsWitness(f: Layout, t: string, d: Date, wm: nat, wd: nat)
    requires 0 <= d.year < 10000 && 0 <= d.month && 0 <= d.day
    requires 1 <= wm <= 2 && 1 <= wd <= 2 && d.month < Pow10(wm) && d.day < Pow10(wd)
    requires t == RenderW(f, d, wm, wd)
    ensures Spells(f, t, d)
  {
  }

  /** With a non-digit separator, every date `t` spells in layout `f` is what `f` reads. */
  lemma SpellsLex(f: Layout, t: string)
    ensures !IsDigit(f.sep) ==> forall d :: Spells(f, t, d) ==> Lex(f, t) == Some(d)
  {
    if !IsDigit(f.sep) {
      forall d | Spells(f, t, d)
        ensures Lex(f, t) == Some(d)
      {
        var wm: nat, wd: nat :| 1 <= wm <= 2 && 1 <= wd <= 2 && d.month < Pow10(wm) && d.day < Pow10(wd)
                               && t == RenderW(f, d, wm, wd);
        LexRenderW(f, d, wm, wd);
      }
    }
  }

  /** What a layout parses from a text, the text spells in that layout. */
  lemma ParseWithSound(f: Layout, t: string)
    ensures ParseWith(f, t).Some? ==> Spells(f, t, ParseWith(f, t).value)
  {
    LexSpells(f, t);
  }

  /** Every valid date a text spells in a layout with a non-digit separator is what that layout parses. */
  lemma ParseWithComplete(f: Layout, t: string, d: Date)
    requires !IsDigit(f.sep) && ValidDate(d) && Spells(f, t, d)
    ensures ParseWith(f, t) == Some(d)
  {
    SpellsLex(f, t);
  }

  /** No text fits two of the accepted layouts, so their order never changes a result. */
  lemma LayoutsExclusive(i: int, j: int, t: string)
    requires 0 <= i < |FORMATS| && 0 <= j < |FORMATS| && i != j
    requires Lex(FORMATS[i], t).Some?
    ensures Lex(FORMATS[j], t).None?
  {
    LexShape(FORMATS[i], t);
    LexShape(FORMATS[j], t);
  }

  /**
   * What an accepted text looks like at its start: the year-first layout
   * has digits at positions 1 and 2, the day-first layout its separator at
   * position 1 or 2.
   */
  lemma LexShape(f: Layout, t: string)
    ensures Lex(f, t).Some? && f.YearFirst? ==> |t| >= 5 && IsDigit(t[1]) && IsDigit(t[2])
    ensures Lex(f, t).Some? && f.DayFirst? ==>
      |t| >= 3 && (t[1] == f.sep || (IsDigit(t[1]) && t[2] == f.sep))
  {
    if Lex(f, t).Some? && f.YearFirst? {
      assert IsDigit(t[..4][1]) && IsDigit(t[..4][2]);
    }
  }

  /** A text parses to `d` exactly when some accepted layout reads it as the valid date `d`. */
  lemma ParseTextIff(t: string, d: Date)
    ensures ParseText(t) == Some(d) <==> exists i :: 0 <= i < |FORMATS| && ParseWith(FORMATS[i], t) == Some(d)
  {
    if i :| 0 <= i < |FORMATS| && ParseWith(FORMATS[i], t) == Some(d) {
      var r := ParseText(t);
      var k :| 0 <= k < |FORMATS| && r == ParseWith(FORMATS[k], t)
               && forall j :: 0 <= j < k ==> ParseWith(FORMATS[j], t).None?;
      if k != i {
        LayoutsExclusive(i, k, t);
      }
    }
  }

  /** Every accepted layout reads a rendered valid date back as that date. */
  lemma RenderRoundTrip(f: Layout, d: Date)
    requires f in FORMATS && ValidDate(d)
    ensures ParseText(Render(f, d)) == Some(d)
  {
    LexRender(f, d);
    var i :| 0 <= i < |FORMATS| && FORMATS[i] == f;
    ParseTextIff(Render(f, d), d);
  }

  /** Text spelling a date the calendar lacks (month 13, 30 February, ...) is no date in any layout. */
  lemma ImpossibleDateRejected(f: Layout, t: string, d: Date)
    requires f in FORMATS && Spells(f, t, d) && !ValidDate(d)
    ensures ParseText(t) == None
  {
    var i :| 0 <= i < |FORMATS| && FORMATS[i] == f;
    SpellsLex(f, t);
    forall j | 0 <= j < |FORMATS|
      ensures ParseWith(FORMATS[j], t).None?
    {
      if j != i {
        LayoutsExclusive(i, j, t);
      }
    }
  }

  /**
   * The whole parser without its search order: a text parses to `d` exactly
   * when `d` is a valid date the text spells in one of the accepted layouts.
   */
  lemma ParseTextSpells(t: string, d: Date)
    ensures ParseText(t) == Some(d) <==> ValidDate(d) && exists f :: f in FORMATS && Spells(f, t, d)
  {
    ParseTextIff(t, d);
    if f :| f in FORMATS && Spells(f, t, d) {
      var i :| 0 <= i < |FORMATS| && FORMATS[i] == f;
      if ValidDate(d) {
        ParseWithComplete(f, t, d);
      }
    }
    if ParseText(t) == Some(d) {
      var i :| 0 <= i < |FORMATS| && ParseWith(FORMATS[i], t) == Some(d);
      ParseWithSound(FORMATS[i], t);
      assert FORMATS[i] in FORMATS && Spells(FORMATS[i], t, d);
    }
  }

  /** A rendered date is accepted by `is_date` exactly when it is a real calendar date. */
  lemma RenderedIsDate(f: Layout, d: Date)
    requires f in FORMATS && RenderableDate(d)
    ensures IsDate(Render(f, d)) <==> ValidDate(d)
  {
    if ValidDate(d) {
      RenderRoundTrip(f, d);
    } else {
      assert Pow10(2) == 100;
      assert Spells(f, Render(f, d), d);
      ImpossibleDateRejected(f, Render(f, d), d);
    }
  }
}
