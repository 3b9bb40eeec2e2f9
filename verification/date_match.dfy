/** Date filters of the dashboard: `buildDateMatch` and the calendar-year
    windows of the monthly and yearly reports. A window is the `date`
    condition of a `$match` stage: an optional `$gte` and an optional `$lte`. */
module DateMatch {
  import opened Base
  import opened JsString
  import opened CivilTime

  datatype Window = Window(from: Option<int>, to: Option<int>)

  /** Whether an instant passes a date condition; `None` is "no condition". */
  predicate InWindow(w: Option<Window>, t: int)
  {
    w.None? || ((w.value.from.None? || w.value.from.value <= t) && (w.value.to.None? || t <= w.value.to.value))
  }

  /** The date-related query parameters. `startDate`/`endDate` are `Some`
      when the parameter is a non-empty string, holding the instant
      `new Date(...)` parsed from it; `month`/`year` are the raw strings. */
  datatype DateQuery = DateQuery(
    startDate: Option<int>,
    endDate: Option<int>,
    month: Option<string>,
    year: Option<string>)

  /** The year `Date.UTC` actually uses: 0..99 mean 1900..1999. */
  function EffectiveYear(y: int): int
  {
    if 0 <= y <= 99 then 1900 + y else y
  }

  /** `Date.UTC(y, m - 1, 1)` to `Date.UTC(y, m, 0, 23, 59, 59, 999)`. */
  function MonthWindow(y: int, m: int): (r: Window)
    ensures r.from.Some? && r.to.Some?
    ensures r.to.value + 1 == DateUtc(y, m, 1, 0, 0, 0, 0)
  {
    Window(Some(DateUtc(y, m - 1, 1, 0, 0, 0, 0)), Some(DateUtc(y, m, 0, 23, 59, 59, 999)))
  }

  /** `buildDateMatch`: explicit bounds win; otherwise a numeric month and
      year give that month's window; anything else gives no condition. */
  function BuildDateMatch(q: DateQuery): (r: Option<Window>)
    ensures q.startDate.Some? || q.endDate.Some? ==> r == Some(Window(q.startDate, q.endDate))
    ensures q.startDate.None? && q.endDate.None? ==>
      (r.Some? <==>
        (Truthy(q.month) && Truthy(q.year)
         && ParseInt(q.month.value).Some? && ParseInt(q.year.value).Some?))
    ensures r.Some? && q.startDate.None? && q.endDate.None? ==>
      r.value == MonthWindow(ParseInt(q.year.value).value, ParseInt(q.month.value).value)
  {
    if q.startDate.Some? || q.endDate.Some? then
      Some(Window(q.startDate, q.endDate))
    else if Truthy(q.month) && Truthy(q.year) then
      var y := ParseInt(q.year.value);
      var m := ParseInt(q.month.value);
      if y.Some? && m.Some? then Some(MonthWindow(y.value, m.value)) else None
    else
      None
  }

  /** When an explicit bound is given, `month` and `year` make no difference. */
  lemma {:induction false} ExplicitBoundsIgnoreMonth(q: DateQuery, month: Option<string>, year: Option<string>)
    requires q.startDate.Some? || q.endDate.Some?
    ensures BuildDateMatch(q) == BuildDateMatch(q.(month := month, year := year))
    ensures BuildDateMatch(q).value.from.Some? <==> q.startDate.Some?
    ensures BuildDateMatch(q).value.to.Some? <==> q.endDate.Some?
  {
  }

  /** A month or year that is not a number gives no date condition at all:
      every instant passes, exactly as if neither parameter had been sent. */
  lemma {:induction false} NonNumericMonthMeansNoFilter(q: DateQuery, t: int)
    requires q.startDate.None? && q.endDate.None?
    requires q.month.Some? && q.year.Some?
    requires ParseInt(q.month.value).None? || ParseInt(q.year.value).None?
    ensures BuildDateMatch(q) == None
    ensures BuildDateMatch(q) == BuildDateMatch(q.(month := None, year := None))
    ensures InWindow(BuildDateMatch(q), t)
  {
  }

  /** The window of month `m` ends one millisecond before the window of
      month `m + 1` starts; with `Date.UTC`'s rollover this holds for
      December too, whose successor is January of the next year. */
  lemma {:induction false} MonthWindowsTile(y: int, m: int)
    ensures MonthWindow(y, m).to.value + 1 == MonthWindow(y, m + 1).from.value
  {
  }

  lemma {:induction false} MonthRollover(y: int, m: int)
    ensures var mo := (m - 1) % 12 + 1;
      1 <= mo <= 12
      && Civil(y + m / 12, m % 12 + 1, 1) == NextMonth(y + (m - 1) / 12, mo)
  {
  }

  /** `c` lies in the month that `Date.UTC(y, m - 1, ...)` names: a month
      number outside 1..12 moves into a neighbouring year, and a year 0..99
      means 19xx. */
  predicate NamesMonth(c: Civil, y: int, m: int)
  {
    c.year == EffectiveYear(y) + (m - 1) / 12 && c.month == (m - 1) % 12 + 1
  }

  /** For numeric `y` and `m` the window holds exactly the instants whose UTC
      calendar month is month `m` of year `y` (after `Date.UTC` has moved a
      month outside 1..12 into a neighbouring year and read a year 0..99 as
      19xx): from the first millisecond of the month to 23:59:59.999 on its
      last day, both ends included. */
  lemma {:induction false} MonthWindowIff(y: int, m: int, t: int)
    ensures InWindow(Some(MonthWindow(y, m)), t) <==> NamesMonth(CivilOfInstant(t), y, m)
  {
    var year := EffectiveYear(y) + (m - 1) / 12;
    var month := (m - 1) % 12 + 1;
    MonthWindowStart(y, m, year, month);
    MonthWindowEnd(y, m, year, month);
    InMonthIff(year, month, t);
  }

  lemma {:induction false} MonthWindowStart(y: int, m: int, year: int, month: int)
    requires year == EffectiveYear(y) + (m - 1) / 12 && month == (m - 1) % 12 + 1
    ensures 1 <= month <= 12 && MonthWindow(y, m).from == Some(MonthStartMs(year, month))
  {
  }

  lemma {:induction false} MonthWindowEnd(y: int, m: int, year: int, month: int)
    requires year == EffectiveYear(y) + (m - 1) / 12 && month == (m - 1) % 12 + 1
    ensures MonthWindow(y, m).to == Some(DaysFromCivil(NextMonth(year, month)) * MsPerDay - 1)
  {
    var ey := EffectiveYear(y);
    MonthRollover(ey, m);
    var next := Civil(ey + m / 12, m % 12 + 1, 1);
    assert next == NextMonth(year, month);
    var d := DaysFromCivil(next);
    assert MakeDay(ey, m, 0) == d - 1;
    assert DateUtc(y, m, 0, 23, 59, 59, 999) == (d - 1) * MsPerDay + 86399999;
  }

  /** December of every year: the last millisecond before the next New Year
      is inside its window, New Year itself is outside, and month 13 is
      January of the next year, starting exactly there. */
  lemma {:induction false} DecemberWindowEdges(y: int)
    ensures var s := NewYear(EffectiveYear(y) + 1) * MsPerDay;
      && InWindow(Some(MonthWindow(y, 12)), s - 1)
      && !InWindow(Some(MonthWindow(y, 12)), s)
      && MonthWindow(y, 13).from == Some(s)
  {
    var ey := EffectiveYear(y);
    MonthWindowStart(y, 12, ey, 12);
    MonthWindowEnd(y, 12, ey, 12);
    MonthLength(ey, 12);
    MonthWindowsTile(y, 12);
  }

  // ---------------------------------------------------------------------
  // Year windows

  /** The `$match` of `getMonthly`: `Date.UTC(y, 0, 1)` to `Date.UTC(y, 11, 31, 23, 59, 59, 999)`. */
  function YearWindow(y: int): Window
  {
    Window(Some(DateUtc(y, 0, 1, 0, 0, 0, 0)), Some(DateUtc(y, 11, 31, 23, 59, 59, 999)))
  }

  lemma {:induction false} YearWindowEnds(y: int)
    ensures YearWindow(y).from.value == NewYear(EffectiveYear(y)) * MsPerDay
    ensures YearWindow(y).to.value + 1 == NewYear(EffectiveYear(y) + 1) * MsPerDay
  {
    MonthLength(EffectiveYear(y), 12);
  }

  /** The calendar-year window holds exactly the instants of that UTC year. */
  lemma {:induction false} YearWindowIff(y: int, t: int)
    ensures InWindow(Some(YearWindow(y)), t) <==> CivilOfInstant(t).year == EffectiveYear(y)
  {
    var ey := EffectiveYear(y);
    YearWindowEnds(y);
    DayIndexBounds(t, NewYear(ey), NewYear(ey + 1));
    InYearIffDays(ey, t / MsPerDay);
  }

  /** `getYearly`'s bounds: `$gte Date.UTC(startYear, 0, 1)` and
      `$lte Date.UTC(endYear, 11, 31, 23, 59, 59, 999)`, each only when given. */
  function YearRangeWindow(startYear: Option<int>, endYear: Option<int>): (r: Option<Window>)
  {
    if startYear.None? && endYear.None? then None
    else
      Some(Window(
        if startYear.Some? then Some(DateUtc(startYear.value, 0, 1, 0, 0, 0, 0)) else None,
        if endYear.Some? then Some(DateUtc(endYear.value, 11, 31, 23, 59, 59, 999)) else None))
  }

  lemma {:induction false} LowerYearBoundIff(y: int, t: int)
    ensures DateUtc(y, 0, 1, 0, 0, 0, 0) <= t <==> CivilOfInstant(t).year >= EffectiveYear(y)
  {
    var ey := EffectiveYear(y);
    YearWindowEnds(y);
    OnOrAfterNewYearIff(ey, t / MsPerDay);
    DayIndexBounds(t, NewYear(ey), t / MsPerDay + 1);
  }

  lemma {:induction false} UpperYearBoundIff(y: int, t: int)
    ensures t <= DateUtc(y, 11, 31, 23, 59, 59, 999) <==> CivilOfInstant(t).year <= EffectiveYear(y)
  {
    var ey := EffectiveYear(y);
    YearWindowEnds(y);
    OnOrAfterNewYearIff(ey + 1, t / MsPerDay);
    DayIndexBounds(t, t / MsPerDay, NewYear(ey + 1));
  }

  /** Each bound of the yearly range compares calendar years: an instant
      passes exactly when its UTC year is within the given years. */
  lemma {:induction false} YearRangeIff(startYear: Option<int>, endYear: Option<int>, t: int)
    ensures InWindow(YearRangeWindow(startYear, endYear), t)
      <==> ((startYear.None? || CivilOfInstant(t).year >= EffectiveYear(startYear.value))
        && (endYear.None? || CivilOfInstant(t).year <= EffectiveYear(endYear.value)))
  {
    if startYear.Some? {
      LowerYearBoundIff(startYear.value, t);
    }
    if endYear.Some? {
      UpperYearBoundIff(endYear.value, t);
    }
  }
}
