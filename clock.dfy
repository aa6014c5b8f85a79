/**
 * Time as integer milliseconds since 1970-01-01T00:00:00Z and the proleptic Gregorian
 * calendar over it, as the browser's `Date` computes it. Local time is taken to be UTC:
 * no timezone offset and no daylight saving. Months are numbered 0..11 as `getMonth()`
 * returns them, dates 1..31 as `getDate()`, weekdays 0 (Sunday) .. 6 as `getDay()`.
 */
module Clock {

  const SecondMs: int := 1000
  const MinuteMs: int := 60 * SecondMs
  const HourMs: int := 60 * MinuteMs
  const DayMs: int := 24 * HourMs

  /** The day number of an instant (day 0 is 1970-01-01); Dafny's `/` floors for a positive divisor. */
  function DayOf(t: int): int {
    t / DayMs
  }

  /** Milliseconds elapsed since midnight of `t`'s day. */
  function TimeOfDay(t: int): (r: int)
    ensures 0 <= r < DayMs
    ensures t == DayOf(t) * DayMs + r
  {
    t % DayMs
  }

  /** Scaling by the length of a day keeps the order of day numbers. */
  lemma DayScaleOrder(a: int, b: int)
    ensures a * DayMs <= b * DayMs <==> a <= b
  {
    assert DayMs == 86400000;
  }

  /** An instant a time of day past midnight of day `d` lies on day `d`. */
  lemma DayOfScaled(d: int, r: int)
    requires 0 <= r < DayMs
    ensures DayOf(d * DayMs + r) == d
    ensures TimeOfDay(d * DayMs + r) == r
  {
    assert DayMs == 86400000;
  }

  /** Moving an instant by whole days moves its day number by as many. */
  lemma DayOfShift(t: int, k: int)
    ensures DayOf(t + k * DayMs) == DayOf(t) + k
  {
    var r := TimeOfDay(t);
    assert t + k * DayMs == (DayOf(t) + k) * DayMs + r;
    DayOfScaled(DayOf(t) + k, r);
  }

  /** Midnight of day `d` lies on day `d`. */
  lemma DayOfMidnight(d: int)
    ensures DayOf(d * DayMs) == d
  {
    DayOfScaled(d, 0);
  }

  /** An instant is at or after midnight of day `d`, or by the last millisecond of `d`, by its day number. */
  lemma DayBounds(t: int, d: int)
    ensures d * DayMs <= t <==> d <= DayOf(t)
    ensures t <= d * DayMs + DayMs - 1 <==> DayOf(t) <= d
  {
    assert DayMs == 86400000;
  }

  /** `getDay()`: 1970-01-01 was a Thursday (4). */
  function Weekday(d: int): (r: int)
    ensures 0 <= r < 7
  {
    (d + 4) % 7
  }

  predicate IsLeapYear(y: int) {
    y % 4 == 0 && (y % 100 != 0 || y % 400 == 0)
  }

  function DaysInYear(y: int): int {
    if IsLeapYear(y) then 366 else 365
  }

  function DaysInMonth(y: int, m: int): (r: int)
    requires 0 <= m < 12
    ensures 28 <= r <= 31
  {
    if m == 1 then (if IsLeapYear(y) then 29 else 28)
    else if m == 3 || m == 5 || m == 8 || m == 10 then 30
    else 31
  }

  /** Days of year `y` before the first of month `m` (m == 12: the whole year). */
  function DaysBeforeMonth(y: int, m: int): int
    requires 0 <= m <= 12
  {
    if m == 0 then 0 else DaysBeforeMonth(y, m - 1) + DaysInMonth(y, m - 1)
  }

  /** Day number of January 1st of year `y`. */
  function YearStart(y: int): int
    decreases if y >= 1970 then y - 1970 else 1970 - y
  {
    if y == 1970 then 0
    else if y > 1970 then YearStart(y - 1) + DaysInYear(y - 1)
    else YearStart(y + 1) - DaysInYear(y)
  }

  /** Day number of the first of month `m` of year `y`. */
  function MonthStart(y: int, m: int): int
    requires 0 <= m <= 12
  {
    YearStart(y) + DaysBeforeMonth(y, m)
  }

  /** A calendar date as `getFullYear()`, `getMonth()` and `getDate()` report it. */
  datatype Civil = Civil(year: int, month: int, date: int)

  predicate ValidCivil(c: Civil) {
    0 <= c.month < 12 && 1 <= c.date <= DaysInMonth(c.year, c.month)
  }

  /**
   * ECMAScript's MakeDay: the day number of `new Date(y, m, date)`; a month outside 0..11
   * carries into the year and a date outside the month carries into the neighbouring months.
   */
  function MakeDay(y: int, m: int, date: int): int {
    if 0 <= m < 12 then MonthStart(y, m) + date - 1
    else MonthStart(y + m / 12, m % 12) + date - 1
  }

  lemma YearStartStep(y: int)
    ensures YearStart(y + 1) == YearStart(y) + DaysInYear(y)
  {
  }

  lemma MonthStartStep(y: int, m: int)
    requires 0 <= m < 12
    ensures MonthStart(y, m + 1) == MonthStart(y, m) + DaysInMonth(y, m)
  {
  }

  /** The twelve months fill the year. */
  lemma MonthsFillYear(y: int)
    ensures DaysBeforeMonth(y, 12) == DaysInYear(y)
  {
    assert DaysBeforeMonth(y, 1) == 31;
    assert DaysBeforeMonth(y, 2) == 31 + DaysInMonth(y, 1);
    assert DaysBeforeMonth(y, 3) == DaysBeforeMonth(y, 2) + 31;
    assert DaysBeforeMonth(y, 4) == DaysBeforeMonth(y, 3) + 30;
    assert DaysBeforeMonth(y, 5) == DaysBeforeMonth(y, 4) + 31;
    assert DaysBeforeMonth(y, 6) == DaysBeforeMonth(y, 5) + 30;
    assert DaysBeforeMonth(y, 7) == DaysBeforeMonth(y, 6) + 31;
    assert DaysBeforeMonth(y, 8) == DaysBeforeMonth(y, 7) + 31;
    assert DaysBeforeMonth(y, 9) == DaysBeforeMonth(y, 8) + 30;
    assert DaysBeforeMonth(y, 10) == DaysBeforeMonth(y, 9) + 31;
    assert DaysBeforeMonth(y, 11) == DaysBeforeMonth(y, 10) + 30;
    assert DaysBeforeMonth(y, 12) == DaysBeforeMonth(y, 11) + 31;
  }

  lemma MonthStartOfNewYear(y: int)
    ensures MonthStart(y, 12) == YearStart(y + 1) == MonthStart(y + 1, 0)
  {
    YearStartStep(y);
    MonthsFillYear(y);
  }

  /** Later years start later. */
  lemma {:induction false} YearStartMonotonic(a: int, b: int)
    requires a < b
    ensures YearStart(a + 1) <= YearStart(b)
    decreases b - a
  {
    if a + 1 < b {
      YearStartMonotonic(a + 1, b);
      YearStartStep(a + 1);
    }
  }

  lemma {:induction false} MonthStartMonotonic(y: int, a: int, b: int)
    requires 0 <= a < b <= 12
    ensures MonthStart(y, a) < MonthStart(y, b)
    decreases b
  {
    if a < b - 1 {
      MonthStartMonotonic(y, a, b - 1);
    }
  }

  /** The first year at or after `y` whose successor starts after day `d`. */
  function YearUp(d: int, y: int): (r: int)
    requires YearStart(y) <= d
    ensures YearStart(r) <= d < YearStart(r + 1)
    decreases d - YearStart(y)
  {
    YearStartStep(y);
    if d < YearStart(y + 1) then y else YearUp(d, y + 1)
  }

  /** The last year at or before `y` that starts no later than day `d`. */
  function YearDown(d: int, y: int): (r: int)
    requires d < YearStart(y + 1)
    ensures YearStart(r) <= d < YearStart(r + 1)
    decreases YearStart(y + 1) - d
  {
    YearStartStep(y);
    YearStartStep(y - 1);
    if YearStart(y) <= d then y else YearDown(d, y - 1)
  }

  /** The year that contains day `d`. */
  function YearOfDay(d: int): (r: int)
    ensures YearStart(r) <= d < YearStart(r + 1)
  {
    if d >= 0 then YearUp(d, 1970) else YearDown(d, 1969)
  }

  /** The month of year `y`, from `m` on, that contains day `d`. */
  function MonthFrom(y: int, d: int, m: int): (r: int)
    requires 0 <= m < 12
    requires MonthStart(y, m) <= d < YearStart(y + 1)
    ensures m <= r < 12
    ensures MonthStart(y, r) <= d < MonthStart(y, r + 1)
    decreases 12 - m
  {
    MonthStartOfNewYear(y);
    MonthStartStep(y, m);
    if d < MonthStart(y, m + 1) then m else MonthFrom(y, d, m + 1)
  }

  /** The calendar date of day number `d`. */
  function CivilOfDay(d: int): (c: Civil)
    ensures ValidCivil(c)
    ensures MakeDay(c.year, c.month, c.date) == d
  {
    var y := YearOfDay(d);
    var m := MonthFrom(y, d, 0);
    MonthStartStep(y, m);
    Civil(y, m, d - MonthStart(y, m) + 1)
  }

  /** The day of a valid calendar date lies within its year. */
  lemma CivilWithinYear(c: Civil)
    requires ValidCivil(c)
    ensures MakeDay(c.year, c.month, c.date) == MonthStart(c.year, c.month) + c.date - 1
    ensures YearStart(c.year) <= MakeDay(c.year, c.month, c.date) < YearStart(c.year + 1)
  {
    assert c.month / 12 == 0 && c.month % 12 == c.month;
    MonthStartStep(c.year, c.month);
    MonthStartOfNewYear(c.year);
    if c.month + 1 < 12 { MonthStartMonotonic(c.year, c.month + 1, 12); }
    assert MonthStart(c.year, c.month + 1) <= YearStart(c.year + 1);
    if 0 < c.month { MonthStartMonotonic(c.year, 0, c.month); }
  }

  /** Distinct valid dates have distinct day numbers. */
  lemma CivilInjective(a: Civil, b: Civil)
    requires ValidCivil(a) && ValidCivil(b)
    requires MakeDay(a.year, a.month, a.date) == MakeDay(b.year, b.month, b.date)
    ensures a == b
  {
    CivilWithinYear(a);
    CivilWithinYear(b);
    if a.year < b.year {
      YearStartMonotonic(a.year, b.year);
      assert false;
    } else if b.year < a.year {
      YearStartMonotonic(b.year, a.year);
      assert false;
    }
    MonthStartStep(a.year, a.month);
    MonthStartStep(a.year, b.month);
    if a.month < b.month {
      if a.month + 1 < b.month { MonthStartMonotonic(a.year, a.month + 1, b.month); }
      assert false;
    } else if b.month < a.month {
      if b.month + 1 < a.month { MonthStartMonotonic(a.year, b.month + 1, a.month); }
      assert false;
    }
  }

  /** A valid date read back from its day number is itself. */
  lemma CivilRoundTrip(c: Civil)
    requires ValidCivil(c)
    ensures CivilOfDay(MakeDay(c.year, c.month, c.date)) == c
  {
    var d := MakeDay(c.year, c.month, c.date);
    var c' := CivilOfDay(d);
    CivilInjective(c, c');
  }

  /** A day number that is the day of a valid date reads back as that date. */
  lemma CivilOfDayIs(d: int, c: Civil)
    requires ValidCivil(c) && d == MakeDay(c.year, c.month, c.date)
    ensures CivilOfDay(d) == c
  {
    CivilRoundTrip(c);
  }

  /** Stepping the date by `k` moves the day number by `k`, across month and year ends. */
  lemma MakeDayShiftDate(y: int, m: int, date: int, k: int)
    ensures MakeDay(y, m, date + k) == MakeDay(y, m, date) + k
  {
  }

  /** Dates the same way: the date `0` of the next month is the last date of month `m`. */
  lemma LastDayOfMonth(y: int, m: int)
    requires 0 <= m < 12
    ensures MakeDay(y, m + 1, 0) == MakeDay(y, m, DaysInMonth(y, m))
    ensures CivilOfDay(MakeDay(y, m + 1, 0)) == Civil(y, m, DaysInMonth(y, m))
  {
    var last := DaysInMonth(y, m);
    assert MakeDay(y, m + 1, 0) == MakeDay(y, m, last) by {
      MonthStartStep(y, m);
      assert m / 12 == 0 && m % 12 == m;
      if m == 11 {
        MonthStartOfNewYear(y);
        assert MakeDay(y, m + 1, 0) == MonthStart(y + 1, 0) - 1;
      } else {
        assert (m + 1) / 12 == 0 && (m + 1) % 12 == m + 1;
        assert MakeDay(y, m + 1, 0) == MonthStart(y, m + 1) - 1;
      }
    }
    CivilOfDayIs(MakeDay(y, m + 1, 0), Civil(y, m, last));
  }

  /** `getFullYear()`, `getMonth()`, `getDate()` of instant `t`. */
  function CivilOf(t: int): (c: Civil)
    ensures ValidCivil(c)
  {
    CivilOfDay(DayOf(t))
  }

  /** Same calendar date iff same day number. */
  lemma SameCivilIffSameDay(d1: int, d2: int)
    ensures CivilOfDay(d1) == CivilOfDay(d2) <==> d1 == d2
  {
  }

  /** `new Date(y, m, date, h, mi, s, ms)` read as UTC. */
  function MakeTime(y: int, m: int, date: int, h: int, mi: int, s: int, ms: int): int {
    MakeDay(y, m, date) * DayMs + h * HourMs + mi * MinuteMs + s * SecondMs + ms
  }

  /**
   * `date.setDate(date.getDate() + k)`: with no daylight saving, the same time of day on the
   * day `k` days later. `SetDateIsDayShift` shows this is what the calendar arithmetic of
   * `setDate` produces.
   */
  function AddDays(t: int, k: int): (r: int)
    ensures DayOf(r) == DayOf(t) + k
    ensures TimeOfDay(r) == TimeOfDay(t)
  {
    var r := t + k * DayMs;
    assert r == (DayOf(t) + k) * DayMs + TimeOfDay(t);
    DayOfScaled(DayOf(t) + k, TimeOfDay(t));
    r
  }

  /** Setting the date `k` past the current one, in the month of `t`, lands on `AddDays(t, k)`. */
  lemma SetDateIsDayShift(t: int, k: int)
    ensures var c := CivilOf(t);
      MakeDay(c.year, c.month, c.date + k) * DayMs + TimeOfDay(t) == AddDays(t, k)
  {
    var c := CivilOf(t);
    var d := DayOf(t);
    assert MakeDay(c.year, c.month, c.date) == d;
    MakeDayShiftDate(c.year, c.month, c.date, k);
    var r := TimeOfDay(t);
    assert (d + k) * DayMs + r == t + k * DayMs by {
      assert (d + k) * DayMs == d * DayMs + k * DayMs;
    }
  }

  /** `date.setMonth(date.getMonth() + k)`: same date and time of day, `k` months on. */
  function AddMonths(t: int, k: int): int {
    var c := CivilOf(t);
    MakeDay(c.year, c.month + k, c.date) * DayMs + TimeOfDay(t)
  }

  /**
   * When the date exists in the target month, `AddMonths` lands on that same date in the
   * month `k` months on (with the year carried), keeping the time of day.
   */
  lemma AddMonthsLandsOnSameDate(t: int, k: int, y': int, m': int)
    requires y' == CivilOf(t).year + (CivilOf(t).month + k) / 12 && m' == (CivilOf(t).month + k) % 12
    requires CivilOf(t).date <= DaysInMonth(y', m')
    ensures CivilOf(AddMonths(t, k)) == Civil(y', m', CivilOf(t).date)
    ensures TimeOfDay(AddMonths(t, k)) == TimeOfDay(t)
  {
    var c := CivilOf(t);
    AddMonthsParts(t, k, c);
    MakeDayCarriesMonth(c.year, c.month + k, c.date);
    CivilOfDayIs(DayOf(AddMonths(t, k)), Civil(y', m', c.date));
  }

  /** A month index outside 0..11 is carried into the year, as ECMAScript's MakeDay does. */
  lemma MakeDayCarriesMonth(y: int, mm: int, date: int)
    ensures MakeDay(y, mm, date) == MakeDay(y + mm / 12, mm % 12, date)
  {
    if 0 <= mm < 12 {
      assert mm / 12 == 0 && mm % 12 == mm;
    }
  }

  /** `AddMonths` lands on the day `MakeDay` gives for the shifted month, at the same time of day. */
  lemma AddMonthsParts(t: int, k: int, c: Civil)
    requires c == CivilOf(t)
    ensures DayOf(AddMonths(t, k)) == MakeDay(c.year, c.month + k, c.date)
    ensures TimeOfDay(AddMonths(t, k)) == TimeOfDay(t)
  {
    DayOfScaled(MakeDay(c.year, c.month + k, c.date), TimeOfDay(t));
  }

  // ---------------------------------------------------------------------------------------
  // Bounds of a month, as the pages compute them

  /** `new Date(year, month + 1, 0).getDate()`: the date of the day before the next month's first. */
  function MonthLengthByDayZero(y: int, m: int): (r: int)
    requires 0 <= m < 12
    ensures r == DaysInMonth(y, m)
  {
    LastDayOfMonth(y, m);
    CivilOfDay(MakeDay(y, m + 1, 0)).date
  }

  /** Day numbers of the first and of the last day of month `m` of year `y`. */
  function FirstDay(y: int, m: int): int
    requires 0 <= m < 12
  {
    MakeDay(y, m, 1)
  }

  function LastDay(y: int, m: int): (r: int)
    requires 0 <= m < 12
    ensures r == FirstDay(y, m) + DaysInMonth(y, m) - 1
  {
    LastDayOfMonth(y, m);
    MakeDayShiftDate(y, m, 1, DaysInMonth(y, m) - 1);
    MakeDay(y, m + 1, 0)
  }

  /** `monthStart` and `monthEnd` (23:59:59.999 of the last day) as instants. */
  function MonthStartMs(y: int, m: int): int
    requires 0 <= m < 12
  {
    FirstDay(y, m) * DayMs
  }

  function MonthEndMs(y: int, m: int): int
    requires 0 <= m < 12
  {
    LastDay(y, m) * DayMs + DayMs - 1
  }
}
