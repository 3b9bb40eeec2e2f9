/** UTC calendar arithmetic: JavaScript `Date.UTC` (with its month rollover
    and two-digit-year rule) and the UTC calendar fields that MongoDB's
    `$dateToString` prints as bucket keys. Instants are integer
    milliseconds since 1970-01-01T00:00:00Z; days are counted from the same
    epoch, in the proleptic Gregorian calendar. */
module CivilTime {
  import opened Base
  import opened JsString

  const MsPerDay: int := 86400000

  predicate IsLeapYear(y: int) { y % 4 == 0 && (y % 100 != 0 || y % 400 == 0) }

  function DaysInMonth(y: int, m: int): int
    requires 1 <= m <= 12
  {
    if m == 2 then (if IsLeapYear(y) then 29 else 28)
    else if m == 4 || m == 6 || m == 9 || m == 11 then 30
    else 31
  }

  /** A calendar date; `month` and `day` count from 1. */
  datatype Civil = Civil(year: int, month: int, day: int)

  predicate ValidCivil(c: Civil)
  {
    1 <= c.month <= 12 && 1 <= c.day <= DaysInMonth(c.year, c.month)
  }

  // ---------------------------------------------------------------------
  // Day numbers. Internally a day is located inside a 400-year era whose
  // years start on March 1, so that the leap day is the last day of a year.

  datatype EraDay = EraDay(era: int, yoe: int, doy: int)

  predicate ValidEraDay(e: EraDay)
  {
    0 <= e.yoe < 400 && 0 <= e.doy && (e.doy < 365 || (e.doy == 365 && IsLeapYear(e.yoe + 1)))
  }

  /** Days from the start of the era to March 1 of its year `yoe`. */
  function EraYearStart(yoe: int): int { 365 * yoe + yoe / 4 - yoe / 100 }

  /** Days from March 1 to the first day of month `mp` (0 = March, 11 = February). */
  function MonthOffset(mp: int): int { (153 * mp + 2) / 5 }

  function ShiftedMonth(m: int): int
    requires 1 <= m <= 12
  {
    (m + 9) % 12
  }

  function CalendarMonth(mp: int): int { if mp < 10 then mp + 3 else mp - 9 }

  /** 719468 is the number of days from 0000-03-01 to 1970-01-01. */
  function EraDayNumber(e: EraDay): int
  {
    e.era * 146097 + EraYearStart(e.yoe) + e.doy - 719468
  }

  function ToEraDay(c: Civil): EraDay
    requires 1 <= c.month <= 12
  {
    var y := if c.month <= 2 then c.year - 1 else c.year;
    EraDay(y / 400, y % 400, MonthOffset(ShiftedMonth(c.month)) + c.day - 1)
  }

  function FromEraDay(e: EraDay): Civil
  {
    var mp := (5 * e.doy + 2) / 153;
    var m := CalendarMonth(mp);
    Civil(e.era * 400 + e.yoe + (if m <= 2 then 1 else 0), m, e.doy - MonthOffset(mp) + 1)
  }

  /** Splits a day of an era into the year of the era and the day of that year. */
  function SplitEraDay(era: int, doe: int): EraDay
  {
    var cen := if doe / 36524 < 3 then doe / 36524 else 3;
    var r := doe - 36524 * cen;
    var y1 := if r % 1461 / 365 < 3 then r % 1461 / 365 else 3;
    EraDay(era, 100 * cen + 4 * (r / 1461) + y1, r % 1461 - 365 * y1)
  }

  function SplitDays(z: int): EraDay
  {
    SplitEraDay((z + 719468) / 146097, (z + 719468) % 146097)
  }

  /** The day number of a calendar date (days since 1970-01-01). */
  function DaysFromCivil(c: Civil): int
    requires 1 <= c.month <= 12
  {
    EraDayNumber(ToEraDay(c))
  }

  /** The calendar date of a day number. */
  function CivilFromDays(z: int): Civil
  {
    FromEraDay(SplitDays(z))
  }

  lemma {:induction false} SplitEraDayCorrect(era: int, doe: int)
    requires 0 <= doe < 146097
    ensures ValidEraDay(SplitEraDay(era, doe))
    ensures SplitEraDay(era, doe).era == era
    ensures EraYearStart(SplitEraDay(era, doe).yoe) + SplitEraDay(era, doe).doy == doe
  {
    var cen := if doe / 36524 < 3 then doe / 36524 else 3;
    var r := doe - 36524 * cen;
    CenturySplit(doe);
    var q := r / 1461;
    var r2 := r % 1461;
    QuadSplit(r);
    var y1 := if r2 / 365 < 3 then r2 / 365 else 3;
    YearSplit(r2);
    assert SplitEraDay(era, doe) == EraDay(era, 100 * cen + 4 * q + y1, r2 - 365 * y1);
    SplitAssemble(era, doe, cen, q, r2, y1);
  }

  /** The linear part of `SplitEraDayCorrect`, once the divisions are done. */
  lemma {:induction false} SplitAssemble(era: int, doe: int, cen: int, q: int, r2: int, y1: int)
    requires 0 <= cen <= 3 && 0 <= q <= 24 && 0 <= y1 <= 3 && 0 <= r2 < 1461
    requires doe == 36524 * cen + 1461 * q + r2
    requires 0 <= r2 - 365 * y1 <= 365
    requires r2 - 365 * y1 == 365 ==> y1 == 3 && r2 == 1460
    requires q == 24 && r2 == 1460 ==> cen == 3
    ensures var e := EraDay(era, 100 * cen + 4 * q + y1, r2 - 365 * y1);
      ValidEraDay(e) && EraYearStart(e.yoe) + e.doy == doe
  {
    var yoe := 100 * cen + 4 * q + y1;
    YearOfEraDivs(cen, q, y1);
    assert EraYearStart(yoe) == 365 * yoe + 24 * cen + q;
    if r2 - 365 * y1 == 365 {
      Mod4Of(yoe + 1, 25 * cen + q + 1, 0);
      if cen == 3 && q == 24 {
        Mod100Of(yoe + 1, 4, 0);
        Mod400Of(yoe + 1, 1, 0);
      } else {
        Mod100Of(yoe + 1, cen, 4 * q + 4);
      }
    }
  }

  lemma {:induction false} CenturySplit(doe: int)
    requires 0 <= doe < 146097
    ensures var cen := if doe / 36524 < 3 then doe / 36524 else 3;
      0 <= cen <= 3 && 0 <= doe - 36524 * cen <= 36524
      && (doe - 36524 * cen == 36524 ==> cen == 3)
  {
  }

  lemma {:induction false} QuadSplit(r: int)
    requires 0 <= r <= 36524
    ensures 0 <= r / 1461 <= 24 && r == 1461 * (r / 1461) + r % 1461 && 0 <= r % 1461 < 1461
    ensures r / 1461 == 24 && r % 1461 == 1460 ==> r == 36524
  {
  }

  lemma {:induction false} YearSplit(r2: int)
    requires 0 <= r2 < 1461
    ensures var y1 := if r2 / 365 < 3 then r2 / 365 else 3;
      0 <= y1 <= 3 && 0 <= r2 - 365 * y1 <= 365 && (r2 - 365 * y1 == 365 ==> y1 == 3 && r2 == 1460)
  {
  }

  lemma {:induction false} YearOfEraDivs(cen: int, q: int, y1: int)
    requires 0 <= cen <= 3 && 0 <= q <= 24 && 0 <= y1 <= 3
    ensures (100 * cen + 4 * q + y1) / 4 == 25 * cen + q
    ensures (100 * cen + 4 * q + y1) / 100 == cen
    ensures 0 <= 100 * cen + 4 * q + y1 < 400
  {
    Div4Of(100 * cen + 4 * q + y1, 25 * cen + q, y1);
    Div100Of(100 * cen + 4 * q + y1, cen, 4 * q + y1);
  }

  // Division by the calendar's constant divisors, stated once each.

  lemma {:induction false} Div4Of(n: int, q: int, r: int)
    requires n == 4 * q + r && 0 <= r < 4
    ensures n / 4 == q && n % 4 == r
  {
  }

  lemma {:induction false} Div100Of(n: int, q: int, r: int)
    requires n == 100 * q + r && 0 <= r < 100
    ensures n / 100 == q && n % 100 == r
  {
  }

  lemma {:induction false} Mod4Of(n: int, q: int, r: int)
    requires n == 4 * q + r && 0 <= r < 4
    ensures n % 4 == r
  {
    Div4Of(n, q, r);
  }

  lemma {:induction false} Mod100Of(n: int, q: int, r: int)
    requires n == 100 * q + r && 0 <= r < 100
    ensures n % 100 == r
  {
    Div100Of(n, q, r);
  }

  lemma {:induction false} Mod400Of(n: int, q: int, r: int)
    requires n == 400 * q + r && 0 <= r < 400
    ensures n % 400 == r
  {
    DivModUnique400(n, q, r);
  }

  lemma {:induction false} EraYearLength(k: int)
    requires 0 <= k < 399
    ensures EraYearStart(k + 1) - EraYearStart(k) == if IsLeapYear(k + 1) then 366 else 365
  {
    var k4 := k / 4;
    var k100 := k / 100;
    Div4Of(k, k4, k % 4);
    Div100Of(k, k100, k % 100);
    if k % 4 == 3 {
      Div4Of(k + 1, k4 + 1, 0);
    } else {
      Div4Of(k + 1, k4, k % 4 + 1);
    }
    if k % 100 == 99 {
      Div100Of(k + 1, k100 + 1, 0);
    } else {
      Div100Of(k + 1, k100, k % 100 + 1);
    }
    Mod400Of(k + 1, 0, k + 1);
  }

  lemma {:induction false} EraYearStartMonotone(a: int, b: int)
    requires 0 <= a < b <= 400
    ensures EraYearStart(a + 1) <= EraYearStart(b)
  {
  }

  lemma {:induction false} EraDayBefore(a: EraDay, b: EraDay)
    requires ValidEraDay(a) && ValidEraDay(b) && a.yoe < b.yoe
    ensures EraYearStart(a.yoe) + a.doy < EraYearStart(b.yoe) + b.doy
  {
    EraYearLength(a.yoe);
    if a.yoe + 1 < b.yoe {
      EraYearStartMonotone(a.yoe, b.yoe);
    }
  }

  /** Two valid era days of one era with the same day count are equal. */
  lemma {:induction false} EraDayInjective(e: EraDay, f: EraDay)
    requires ValidEraDay(e) && ValidEraDay(f) && e.era == f.era
    requires EraYearStart(e.yoe) + e.doy == EraYearStart(f.yoe) + f.doy
    ensures e == f
  {
    if f.yoe < e.yoe {
      EraDayBefore(f, e);
    } else if e.yoe < f.yoe {
      EraDayBefore(e, f);
    }
  }

  /** The day count of a valid era day lies inside the era. */
  lemma {:induction false} EraDayInRange(e: EraDay)
    requires ValidEraDay(e)
    ensures 0 <= EraYearStart(e.yoe) + e.doy < 146097
  {
    if e.yoe < 399 {
      EraDayBefore(e, EraDay(e.era, 399, 0));
    }
  }

  /** A valid era day is the only split of its own day count. */
  lemma {:induction false} SplitEraDayUnique(e: EraDay)
    requires ValidEraDay(e)
    ensures SplitEraDay(e.era, EraYearStart(e.yoe) + e.doy) == e
  {
    var doe := EraYearStart(e.yoe) + e.doy;
    EraDayInRange(e);
    SplitEraDayCorrect(e.era, doe);
    EraDayInjective(SplitEraDay(e.era, doe), e);
  }

  lemma {:induction false} DivModUniqueEra(n: int, q: int, r: int)
    requires n == 146097 * q + r && 0 <= r < 146097
    ensures n / 146097 == q && n % 146097 == r
  {
  }

  lemma {:induction false} DivModUnique400(n: int, q: int, r: int)
    requires n == 400 * q + r && 0 <= r < 400
    ensures n / 400 == q && n % 400 == r
  {
  }

  lemma {:induction false} LeapPeriodic(era: int, k: int)
    ensures IsLeapYear(era * 400 + k) == IsLeapYear(k)
  {
    var n := era * 400 + k;
    Div4Of(k, k / 4, k % 4);
    Div100Of(k, k / 100, k % 100);
    DivModUnique400(k, k / 400, k % 400);
    Mod4Of(n, era * 100 + k / 4, k % 4);
    Mod100Of(n, era * 4 + k / 100, k % 100);
    Mod400Of(n, era + k / 400, k % 400);
  }

  /** Months of the March-based year, read from the day of the year. */
  lemma {:induction false} MonthOfDayOfYear(mp: int, d: int, leap: bool)
    requires 0 <= mp < 12
    requires 1 <= d && (if mp == 11 then d <= (if leap then 29 else 28)
                        else d <= MonthOffset(mp + 1) - MonthOffset(mp))
    ensures (5 * (MonthOffset(mp) + d - 1) + 2) / 153 == mp
    ensures MonthOffset(mp) + d - 1 < 365 || (MonthOffset(mp) + d - 1 == 365 && leap)
  {
  }

  lemma {:induction false} DayOfYearMonth(doy: int, leap: bool)
    requires 0 <= doy && (doy < 365 || (doy == 365 && leap))
    ensures var mp := (5 * doy + 2) / 153;
      0 <= mp < 12 && 1 <= doy - MonthOffset(mp) + 1
      && (if mp == 11 then doy - MonthOffset(mp) + 1 <= (if leap then 29 else 28)
          else doy - MonthOffset(mp) + 1 <= MonthOffset(mp + 1) - MonthOffset(mp))
  {
  }

  lemma {:induction false} FromEraDayValid(e: EraDay)
    requires ValidEraDay(e)
    ensures ValidCivil(FromEraDay(e))
    ensures ToEraDay(FromEraDay(e)) == e
  {
    var leap := IsLeapYear(e.yoe + 1);
    DayOfYearMonth(e.doy, leap);
    var mp := (5 * e.doy + 2) / 153;
    var c := FromEraDay(e);
    var y := e.era * 400 + e.yoe;
    assert c == Civil(y + (if mp >= 10 then 1 else 0), CalendarMonth(mp), e.doy - MonthOffset(mp) + 1);
    assert mp == 11 ==> IsLeapYear(c.year) == leap by {
      LeapPeriodic(e.era, e.yoe + 1);
    }
    CalendarMonthDays(mp, c.day, leap, c.year);
    DivModUnique400(y, e.era, e.yoe);
  }

  /** Reading a March-based month back as a calendar month. */
  lemma {:induction false} CalendarMonthDays(mp: int, d: int, leap: bool, y: int)
    requires 0 <= mp < 12 && 1 <= d
    requires if mp == 11 then d <= (if leap then 29 else 28)
             else d <= MonthOffset(mp + 1) - MonthOffset(mp)
    requires mp == 11 ==> IsLeapYear(y) == leap
    ensures 1 <= CalendarMonth(mp) <= 12 && ShiftedMonth(CalendarMonth(mp)) == mp
    ensures CalendarMonth(mp) <= 2 <==> mp >= 10
    ensures d <= DaysInMonth(y, CalendarMonth(mp))
  {
  }

  lemma {:induction false} ToEraDayValid(c: Civil)
    requires ValidCivil(c)
    ensures ValidEraDay(ToEraDay(c))
    ensures FromEraDay(ToEraDay(c)) == c
  {
    var e := ToEraDay(c);
    var y := if c.month <= 2 then c.year - 1 else c.year;
    var mp := ShiftedMonth(c.month);
    assert e == EraDay(y / 400, y % 400, MonthOffset(mp) + c.day - 1);
    assert y == e.era * 400 + e.yoe && 0 <= e.yoe < 400;
    var leap := IsLeapYear(e.yoe + 1);
    assert c.month == 2 ==> IsLeapYear(c.year) == leap by {
      LeapPeriodic(e.era, e.yoe + 1);
    }
    ShiftedMonthDays(c.month, c.day, leap);
    MonthOfDayOfYear(ShiftedMonth(c.month), c.day, leap);
    var r := FromEraDay(e);
    assert r.month == c.month;
    assert r.day == c.day;
  }

  /** The day of a month fits the length of its month in the March-based year. */
  lemma {:induction false} ShiftedMonthDays(m: int, d: int, leap: bool)
    requires 1 <= m <= 12 && 1 <= d
    requires if m == 2 then d <= (if leap then 29 else 28) else d <= DaysInMonth(0, m)
    ensures var mp := ShiftedMonth(m);
      0 <= mp < 12
      && (if mp == 11 then d <= (if leap then 29 else 28)
          else d <= MonthOffset(mp + 1) - MonthOffset(mp))
  {
  }

  lemma {:induction false} SplitDaysCorrect(z: int)
    ensures ValidEraDay(SplitDays(z))
    ensures EraDayNumber(SplitDays(z)) == z
  {
    var era := (z + 719468) / 146097;
    var doe := (z + 719468) % 146097;
    SplitEraDayCorrect(era, doe);
    assert z + 719468 == era * 146097 + doe;
  }

  lemma {:induction false} SplitDaysUnique(e: EraDay)
    requires ValidEraDay(e)
    ensures SplitDays(EraDayNumber(e)) == e
  {
    var doe := EraYearStart(e.yoe) + e.doy;
    EraDayInRange(e);
    var z := EraDayNumber(e) + 719468;
    assert z == e.era * 146097 + doe;
    DivModUniqueEra(z, e.era, doe);
    assert SplitDays(EraDayNumber(e)) == SplitEraDay(e.era, doe);
    SplitEraDayUnique(e);
  }

  /** Every day number names a valid calendar date, and converting that date
      back gives the same day number. */
  lemma {:induction false} CivilFromDaysValid(z: int)
    ensures ValidCivil(CivilFromDays(z))
    ensures DaysFromCivil(CivilFromDays(z)) == z
  {
    SplitDaysCorrect(z);
    FromEraDayValid(SplitDays(z));
  }

  /** Every valid calendar date is recovered from its day number. */
  lemma {:induction false} DaysFromCivilInverse(c: Civil)
    requires ValidCivil(c)
    ensures CivilFromDays(DaysFromCivil(c)) == c
  {
    ToEraDayValid(c);
    SplitDaysUnique(ToEraDay(c));
  }

  /** Consecutive days of a month have consecutive day numbers. */
  lemma {:induction false} DaysFromCivilStep(y: int, m: int, d: int)
    requires 1 <= m <= 12
    ensures DaysFromCivil(Civil(y, m, d)) == DaysFromCivil(Civil(y, m, 1)) + d - 1
  {
  }

  function NextMonth(y: int, m: int): Civil
  {
    if m == 12 then Civil(y + 1, 1, 1) else Civil(y, m + 1, 1)
  }

  lemma {:induction false} FebruaryLength(y: int)
    ensures DaysFromCivil(Civil(y, 3, 1)) == DaysFromCivil(Civil(y, 2, 1)) + DaysInMonth(y, 2)
  {
    var e := ToEraDay(Civil(y, 2, 1));
    DivModUnique400(y - 1, (y - 1) / 400, (y - 1) % 400);
    LeapPeriodic(e.era, e.yoe + 1);
    assert y == e.era * 400 + e.yoe + 1;
    if e.yoe < 399 {
      DivModUnique400(y, e.era, e.yoe + 1);
      EraYearLength(e.yoe);
    } else {
      DivModUnique400(y, e.era + 1, 0);
    }
  }

  lemma {:induction false} OtherMonthLength(y: int, m: int)
    requires 1 <= m <= 12 && m != 2
    ensures DaysFromCivil(NextMonth(y, m)) == DaysFromCivil(Civil(y, m, 1)) + DaysInMonth(y, m)
  {
    var e := ToEraDay(Civil(y, m, 1));
    var f := ToEraDay(NextMonth(y, m));
    assert f.era == e.era && f.yoe == e.yoe;
    assert f.doy == e.doy + DaysInMonth(y, m);
  }

  /** The first of the next month comes `DaysInMonth` days after the first of this one. */
  lemma {:induction false} MonthLength(y: int, m: int)
    requires 1 <= m <= 12
    ensures DaysFromCivil(NextMonth(y, m)) == DaysFromCivil(Civil(y, m, 1)) + DaysInMonth(y, m)
  {
    if m == 2 {
      FebruaryLength(y);
    } else {
      OtherMonthLength(y, m);
    }
  }

  // ---------------------------------------------------------------------
  // Date.UTC

  /** ECMAScript MakeDay: the month may be any integer and rolls over into
      neighbouring years; the date may be any integer too (0 is the last day
      of the previous month). */
  function MakeDay(year: int, month0: int, date: int): int
  {
    DaysFromCivil(Civil(year + month0 / 12, month0 % 12 + 1, 1)) + date - 1
  }

  /** `Date.UTC(year, month0, date, h, min, s, ms)`: a year from 0 to 99 means 1900 + year. */
  function DateUtc(year: int, month0: int, date: int, h: int, min: int, s: int, ms: int): int
  {
    var y := if 0 <= year <= 99 then 1900 + year else year;
    MakeDay(y, month0, date) * MsPerDay + h * 3600000 + min * 60000 + s * 1000 + ms
  }

  /** For a date that exists and a time of day in range, `Date.UTC` names
      that date, at that time of day: its UTC calendar date is month
      `month0 % 12 + 1` of year `month0 / 12` after the year (a year 0..99
      meaning 19xx), and its remainder within the day is the time given. */
  lemma {:induction false} DateUtcOnDate(year: int, month0: int, date: int, h: int, min: int, s: int, ms: int)
    requires 0 <= h < 24 && 0 <= min < 60 && 0 <= s < 60 && 0 <= ms < 1000
    requires var y := if 0 <= year <= 99 then 1900 + year else year;
      ValidCivil(Civil(y + month0 / 12, month0 % 12 + 1, date))
    ensures var y := if 0 <= year <= 99 then 1900 + year else year;
      var t := DateUtc(year, month0, date, h, min, s, ms);
      && CivilOfInstant(t) == Civil(y + month0 / 12, month0 % 12 + 1, date)
      && t % MsPerDay == h * 3600000 + min * 60000 + s * 1000 + ms
  {
    var y := if 0 <= year <= 99 then 1900 + year else year;
    var c := Civil(y + month0 / 12, month0 % 12 + 1, date);
    var tod := h * 3600000 + min * 60000 + s * 1000 + ms;
    var z := DaysFromCivil(c);
    var t := DateUtc(year, month0, date, h, min, s, ms);
    DateUtcParts(year, month0, date, h, min, s, ms, c);
    DayOfInstant(z, tod);
    assert t / MsPerDay == z;
    DaysFromCivilInverse(c);
    assert CivilOfInstant(t) == CivilFromDays(z);
  }

  lemma {:induction false} DateUtcParts(year: int, month0: int, date: int, h: int, min: int, s: int, ms: int, c: Civil)
    requires 0 <= h < 24 && 0 <= min < 60 && 0 <= s < 60 && 0 <= ms < 1000
    requires c == Civil((if 0 <= year <= 99 then 1900 + year else year) + month0 / 12, month0 % 12 + 1, date)
    ensures 0 <= h * 3600000 + min * 60000 + s * 1000 + ms < MsPerDay
    ensures DateUtc(year, month0, date, h, min, s, ms)
      == DaysFromCivil(c) * MsPerDay + (h * 3600000 + min * 60000 + s * 1000 + ms)
  {
    var y := if 0 <= year <= 99 then 1900 + year else year;
    DaysFromCivilStep(c.year, c.month, date);
    assert MakeDay(y, month0, date) == DaysFromCivil(c);
  }

  lemma {:induction false} DayOfInstant(z: int, tod: int)
    requires 0 <= tod < MsPerDay
    ensures (z * MsPerDay + tod) / MsPerDay == z && (z * MsPerDay + tod) % MsPerDay == tod
  {
  }

  /** The UTC calendar date of an instant. */
  function CivilOfInstant(t: int): Civil
  {
    CivilFromDays(t / MsPerDay)
  }

  /** First millisecond of a calendar month. */
  function MonthStartMs(y: int, m: int): int
    requires 1 <= m <= 12
  {
    DaysFromCivil(Civil(y, m, 1)) * MsPerDay
  }

  lemma {:induction false} DayIndexBounds(t: int, a: int, b: int)
    ensures (a * MsPerDay <= t < b * MsPerDay) <==> (a <= t / MsPerDay < b)
  {
  }

  lemma {:induction false} InMonthFromDay(y: int, m: int, z: int)
    requires 1 <= m <= 12
    requires DaysFromCivil(Civil(y, m, 1)) <= z < DaysFromCivil(Civil(y, m, 1)) + DaysInMonth(y, m)
    ensures CivilFromDays(z).year == y && CivilFromDays(z).month == m
  {
    var d := z - DaysFromCivil(Civil(y, m, 1)) + 1;
    DaysFromCivilStep(y, m, d);
    DaysFromCivilInverse(Civil(y, m, d));
  }

  lemma {:induction false} DayFromInMonth(y: int, m: int, z: int)
    requires 1 <= m <= 12
    requires CivilFromDays(z).year == y && CivilFromDays(z).month == m
    ensures DaysFromCivil(Civil(y, m, 1)) <= z < DaysFromCivil(Civil(y, m, 1)) + DaysInMonth(y, m)
  {
    var c := CivilFromDays(z);
    CivilFromDaysValid(z);
    DaysFromCivilStep(y, m, c.day);
    assert c == Civil(y, m, c.day);
  }

  /** An instant lies in `[start of month, start of next month)` exactly when
      its UTC calendar month is that month. */
  lemma {:induction false} InMonthIff(y: int, m: int, t: int)
    requires 1 <= m <= 12
    ensures (MonthStartMs(y, m) <= t < DaysFromCivil(NextMonth(y, m)) * MsPerDay)
        <==> (CivilOfInstant(t).year == y && CivilOfInstant(t).month == m)
  {
    var first := DaysFromCivil(Civil(y, m, 1));
    MonthLength(y, m);
    DayIndexBounds(t, first, first + DaysInMonth(y, m));
    if first <= t / MsPerDay < first + DaysInMonth(y, m) {
      InMonthFromDay(y, m, t / MsPerDay);
    }
    if CivilOfInstant(t).year == y && CivilOfInstant(t).month == m {
      DayFromInMonth(y, m, t / MsPerDay);
    }
  }

  function NewYear(y: int): int
  {
    DaysFromCivil(Civil(y, 1, 1))
  }

  lemma {:induction false} NewYearBeforeMonth(y: int, m: int)
    requires 1 <= m <= 12
    ensures NewYear(y) <= DaysFromCivil(Civil(y, m, 1))
    ensures DaysFromCivil(NextMonth(y, m)) <= NewYear(y + 1)
  {
    MonthAfterNewYear(y, m);
    NextMonthBeforeNewYear(y, m);
  }

  lemma {:induction false} MonthAfterNewYear(y: int, m: int)
    requires 1 <= m <= 12
    ensures NewYear(y) <= DaysFromCivil(Civil(y, m, 1))
    decreases m
  {
    if m > 1 {
      MonthAfterNewYear(y, m - 1);
      MonthLength(y, m - 1);
      assert NextMonth(y, m - 1) == Civil(y, m, 1);
    }
  }

  lemma {:induction false} NextMonthBeforeNewYear(y: int, m: int)
    requires 1 <= m <= 12
    ensures DaysFromCivil(NextMonth(y, m)) <= NewYear(y + 1)
    decreases 12 - m
  {
    if m < 12 {
      NextMonthBeforeNewYear(y, m + 1);
      MonthLength(y, m + 1);
      assert DaysInMonth(y, m + 1) >= 0;
      assert NextMonth(y, m) == Civil(y, m + 1, 1);
      assert DaysFromCivil(Civil(y, m + 1, 1)) <= DaysFromCivil(NextMonth(y, m + 1));
    }
  }

  /** A day between the first of month `m` and the next New Year lies in year `y`. */
  lemma {:induction false} YearOfLateDay(y: int, m: int, z: int)
    requires 1 <= m <= 12
    requires DaysFromCivil(Civil(y, m, 1)) <= z < NewYear(y + 1)
    ensures CivilFromDays(z).year == y
    decreases 12 - m
  {
    MonthLength(y, m);
    if z < DaysFromCivil(NextMonth(y, m)) {
      InMonthFromDay(y, m, z);
    } else {
      YearOfLateDay(y, m + 1, z);
    }
  }

  /** A day lies in `[New Year of y, New Year of y + 1)` exactly when its year is `y`. */
  lemma {:induction false} InYearIffDays(y: int, z: int)
    ensures (NewYear(y) <= z < NewYear(y + 1)) <==> CivilFromDays(z).year == y
  {
    if NewYear(y) <= z < NewYear(y + 1) {
      YearOfLateDay(y, 1, z);
    }
    if CivilFromDays(z).year == y {
      InYearOfDay(y, z);
    }
  }

  lemma {:induction false} InYearOfDay(y: int, z: int)
    requires CivilFromDays(z).year == y
    ensures NewYear(y) <= z < NewYear(y + 1)
  {
    var c := CivilFromDays(z);
    CivilFromDaysValid(z);
    var m := c.month;
    NewYearBeforeMonth(y, m);
    DayFromInMonth(y, m, z);
    MonthLength(y, m);
  }

  lemma {:induction false} NewYearStep(y: int)
    ensures NewYear(y) < NewYear(y + 1)
  {
    NewYearBeforeMonth(y, 12);
    MonthLength(y, 12);
  }

  lemma {:induction false} NewYearMonotone(a: int, b: int)
    requires a < b
    ensures NewYear(a) < NewYear(b)
    decreases b - a
  {
    NewYearStep(a);
    if a + 1 < b {
      NewYearMonotone(a + 1, b);
    }
  }

  /** A day comes on or after New Year of `y` exactly when its year is `y` or later. */
  lemma {:induction false} OnOrAfterNewYearIff(y: int, z: int)
    ensures NewYear(y) <= z <==> CivilFromDays(z).year >= y
  {
    var c := CivilFromDays(z);
    InYearIffDays(c.year, z);
    if c.year < y {
      if c.year + 1 < y { NewYearMonotone(c.year + 1, y); }
    } else if c.year > y {
      NewYearMonotone(y, c.year);
    }
  }

  // ---------------------------------------------------------------------
  // $dateToString keys

  /** `%Y`: the year as four digits (a leading minus sign before year 0). */
  function YearText(y: int): string
  {
    if y >= 0 then PadDecimal(y, 4) else "-" + PadDecimal(-y, 4)
  }

  function TwoDigits(n: int): string
  {
    if 0 <= n then PadDecimal(n, 2) else "00"
  }

  /** `%Y` of an instant in UTC. */
  function YearKey(t: int): string
  {
    YearText(CivilOfInstant(t).year)
  }

  /** `%Y-%m` of an instant in UTC. */
  function MonthKey(t: int): string
  {
    var c := CivilOfInstant(t);
    YearText(c.year) + "-" + TwoDigits(c.month)
  }

  /** `%Y-%m-%d` of an instant in UTC. */
  function DayKey(t: int): string
  {
    var c := CivilOfInstant(t);
    YearText(c.year) + "-" + TwoDigits(c.month) + "-" + TwoDigits(c.day)
  }

  /** For a year from 0 on, `split("-")` of a `%Y-%m-%d` key gives back the
      year, month and day of the instant. */
  lemma {:induction false} DayKeyParts(t: int)
    requires CivilOfInstant(t).year >= 0
    ensures var c := CivilOfInstant(t);
      var parts := Split(DayKey(t), '-');
      && |parts| == 3
      && NumberValue(parts[0]) == Some(c.year)
      && NumberValue(parts[1]) == Some(c.month)
      && NumberValue(parts[2]) == Some(c.day)
  {
    var c := CivilOfInstant(t);
    CivilFromDaysValid(t / MsPerDay);
    assert DayKey(t) == PadDecimal(c.year, 4) + "-" + PadDecimal(c.month, 2) + "-" + PadDecimal(c.day, 2);
    PaddedDateParts(c.year, c.month, c.day);
  }

  lemma {:induction false} PaddedDateParts(y: nat, m: nat, d: nat)
    ensures var parts := Split(PadDecimal(y, 4) + "-" + PadDecimal(m, 2) + "-" + PadDecimal(d, 2), '-');
      && |parts| == 3
      && NumberValue(parts[0]) == Some(y)
      && NumberValue(parts[1]) == Some(m)
      && NumberValue(parts[2]) == Some(d)
  {
    var a := PadDecimal(y, 4);
    var b := PadDecimal(m, 2);
    var e := PadDecimal(d, 2);
    DigitsHaveNoDash(a);
    DigitsHaveNoDash(b);
    DigitsHaveNoDash(e);
    assert a + "-" + b + "-" + e == JoinWith([a, b, e], '-') by {
      assert [a, b, e][1..] == [b, e];
      assert [b, e][1..] == [e];
      assert JoinWith([b, e], '-') == b + "-" + e;
      assert JoinWith([a, b, e], '-') == a + "-" + (b + "-" + e);
    }
    SplitOfJoin([a, b, e], '-');
    NumberOfPadded(y, 4);
    NumberOfPadded(m, 2);
    NumberOfPadded(d, 2);
  }

  /** For a year from 0 on, `split("-")` of a `%Y-%m` key gives back the
      year and month of the instant. */
  lemma {:induction false} MonthKeyParts(t: int)
    requires CivilOfInstant(t).year >= 0
    ensures var c := CivilOfInstant(t);
      var parts := Split(MonthKey(t), '-');
      && |parts| == 2
      && NumberValue(parts[0]) == Some(c.year)
      && NumberValue(parts[1]) == Some(c.month)
  {
    var c := CivilOfInstant(t);
    CivilFromDaysValid(t / MsPerDay);
    assert MonthKey(t) == PadDecimal(c.year, 4) + "-" + PadDecimal(c.month, 2);
    PaddedMonthParts(c.year, c.month);
  }

  lemma {:induction false} PaddedMonthParts(y: nat, m: nat)
    ensures var parts := Split(PadDecimal(y, 4) + "-" + PadDecimal(m, 2), '-');
      && |parts| == 2
      && NumberValue(parts[0]) == Some(y)
      && NumberValue(parts[1]) == Some(m)
  {
    var a := PadDecimal(y, 4);
    var b := PadDecimal(m, 2);
    DigitsHaveNoDash(a);
    DigitsHaveNoDash(b);
    assert a + "-" + b == JoinWith([a, b], '-') by {
      assert [a, b][1..] == [b];
    }
    SplitOfJoin([a, b], '-');
    NumberOfPadded(y, 4);
    NumberOfPadded(m, 2);
  }

  /** Two instants share a daily bucket exactly when they fall on the same
      UTC day. */
  lemma {:induction false} DayKeyIff(a: int, b: int)
    requires CivilOfInstant(a).year >= 0 && CivilOfInstant(b).year >= 0
    ensures DayKey(a) == DayKey(b) <==> a / MsPerDay == b / MsPerDay
  {
    if DayKey(a) == DayKey(b) {
      DayKeyParts(a);
      DayKeyParts(b);
      SameCivilSameDay(a, b);
    }
  }

  /** Two instants share a monthly bucket exactly when they fall in the same
      UTC year and month. */
  lemma {:induction false} MonthKeyIff(a: int, b: int)
    requires CivilOfInstant(a).year >= 0 && CivilOfInstant(b).year >= 0
    ensures MonthKey(a) == MonthKey(b) <==>
      (CivilOfInstant(a).year == CivilOfInstant(b).year && CivilOfInstant(a).month == CivilOfInstant(b).month)
  {
    if MonthKey(a) == MonthKey(b) {
      MonthKeyParts(a);
      MonthKeyParts(b);
    }
  }

  /** Two instants share a yearly bucket exactly when they fall in the same
      UTC year. */
  lemma {:induction false} YearKeyIff(a: int, b: int)
    requires CivilOfInstant(a).year >= 0 && CivilOfInstant(b).year >= 0
    ensures YearKey(a) == YearKey(b) <==> CivilOfInstant(a).year == CivilOfInstant(b).year
  {
    var ya := CivilOfInstant(a).year;
    var yb := CivilOfInstant(b).year;
    assert YearKey(a) == PadDecimal(ya, 4);
    assert YearKey(b) == PadDecimal(yb, 4);
    NumberOfPadded(ya, 4);
    NumberOfPadded(yb, 4);
  }

  lemma {:induction false} SameCivilSameDay(a: int, b: int)
    requires CivilOfInstant(a) == CivilOfInstant(b)
    ensures a / MsPerDay == b / MsPerDay
  {
    CivilFromDaysValid(a / MsPerDay);
    CivilFromDaysValid(b / MsPerDay);
  }
}
