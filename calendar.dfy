/**
 * The calendar page (`static/calendar.js`): a day, week or month view of the tasks that
 * have a due time, the month grid with its padding from the neighbouring months, and
 * moving the shown period back and forth.
 */
module Calendar {
  import opened Basics
  import opened ClientTask
  import Clock
  import DueOrder

  // ---------------------------------------------------------------------------------------
  // Instants of the shown period

  /** `d.setHours(h, mi, s, ms)` on a copy of `t`: the same day, at the given time. */
  function SetHours(t: int, h: int, mi: int, s: int, ms: int): int {
    Clock.DayOf(t) * Clock.DayMs + h * Clock.HourMs + mi * Clock.MinuteMs + s * Clock.SecondMs + ms
  }

  /** A due time, and it lies within `[lo, hi]`. */
  predicate DueWithin(t: ClientTask, lo: int, hi: int) {
    HasDue(t) && lo <= t.dueAt.ms <= hi
  }

  /** `tasks.filter(...)` with the range test the three views share. */
  function DueBetween(tasks: seq<ClientTask>, lo: int, hi: int): seq<ClientTask> {
    Filter(tasks, t => DueWithin(t, lo, hi))
  }

  lemma DueBetweenMembers(tasks: seq<ClientTask>, lo: int, hi: int, t: ClientTask)
    ensures t in DueBetween(tasks, lo, hi) <==> t in tasks && DueWithin(t, lo, hi)
  {
    FilterMembers(tasks, t => DueWithin(t, lo, hi), t);
  }

  /** Every task the range filter keeps has a due time. */
  lemma DueBetweenDated(tasks: seq<ClientTask>, lo: int, hi: int)
    ensures forall k :: 0 <= k < |DueBetween(tasks, lo, hi)| ==> HasDue(DueBetween(tasks, lo, hi)[k])
  {
    forall k | 0 <= k < |DueBetween(tasks, lo, hi)| ensures HasDue(DueBetween(tasks, lo, hi)[k]) {
      DueBetweenMembers(tasks, lo, hi, DueBetween(tasks, lo, hi)[k]);
    }
  }

  /** `dayStart` and `dayEnd` of the day view: 00:00:00.000 and 23:59:59.999 of that day. */
  function DayStartMs(currentDate: int): int {
    SetHours(currentDate, 0, 0, 0, 0)
  }

  function DayEndMs(currentDate: int): int {
    SetHours(currentDate, 23, 59, 59, 999)
  }

  /** The day view keeps a task exactly when it is due on the shown day. */
  lemma DayRangeIsOneDay(t: ClientTask, currentDate: int)
    ensures DueWithin(t, DayStartMs(currentDate), DayEndMs(currentDate)) <==>
      HasDue(t) && Clock.DayOf(t.dueAt.ms) == Clock.DayOf(currentDate)
  {
    SetHoursBounds(currentDate);
    if HasDue(t) {
      Clock.DayBounds(t.dueAt.ms, Clock.DayOf(currentDate));
    }
  }

  /** The shown date's day number minus its weekday: the Sunday that starts its week. */
  function WeekStartDay(currentDate: int): int {
    var d := Clock.DayOf(currentDate);
    d - Clock.Weekday(d)
  }

  /**
   * `weekStart`: `setDate(getDate() - getDay())`, then `setHours(0, 0, 0, 0)`; `weekEnd`:
   * six days later, at 23:59:59.999.
   */
  function WeekStartMs(currentDate: int): int {
    SetHours(Clock.AddDays(currentDate, -Clock.Weekday(Clock.DayOf(currentDate))), 0, 0, 0, 0)
  }

  function WeekEndMs(currentDate: int): int {
    SetHours(Clock.AddDays(WeekStartMs(currentDate), 6), 23, 59, 59, 999)
  }

  /** Midnight and the last millisecond of the day of `t`, as `setHours` makes them. */
  lemma SetHoursBounds(t: int)
    ensures SetHours(t, 0, 0, 0, 0) == Clock.DayOf(t) * Clock.DayMs
    ensures SetHours(t, 23, 59, 59, 999) == Clock.DayOf(t) * Clock.DayMs + Clock.DayMs - 1
  {
    assert Clock.SecondMs == 1000 && Clock.MinuteMs == 60000;
    assert Clock.HourMs == 3600000 && Clock.DayMs == 86400000;
  }

  /** Stepping back by its weekday from any day reaches a Sunday, at most six days before. */
  lemma SundayOnOrBefore(d: int)
    ensures Clock.Weekday(d - Clock.Weekday(d)) == 0
    ensures d - 6 <= d - Clock.Weekday(d) <= d
  {
    var w := Clock.Weekday(d);
    assert d + 4 == 7 * ((d + 4) / 7) + w;
    assert d - w + 4 == 7 * ((d + 4) / 7);
  }

  /** The week starts at midnight of the Sunday on or before the shown day. */
  lemma WeekStartBounds(currentDate: int)
    ensures WeekStartMs(currentDate) == WeekStartDay(currentDate) * Clock.DayMs
    ensures Clock.DayOf(WeekStartMs(currentDate)) == WeekStartDay(currentDate)
    ensures Clock.Weekday(WeekStartDay(currentDate)) == 0
    ensures WeekStartDay(currentDate) <= Clock.DayOf(currentDate) <= WeekStartDay(currentDate) + 6
  {
    var d := Clock.DayOf(currentDate);
    var w := Clock.Weekday(d);
    var shifted := Clock.AddDays(currentDate, -w);
    SetHoursBounds(shifted);
    Clock.DayOfMidnight(d - w);
    SundayOnOrBefore(d);
  }

  /** The week runs from midnight of a Sunday to the last millisecond of the Saturday after. */
  lemma WeekBounds(currentDate: int)
    ensures WeekStartMs(currentDate) == WeekStartDay(currentDate) * Clock.DayMs
    ensures WeekEndMs(currentDate) == (WeekStartDay(currentDate) + 6) * Clock.DayMs + Clock.DayMs - 1
    ensures Clock.Weekday(WeekStartDay(currentDate)) == 0
    ensures WeekStartDay(currentDate) <= Clock.DayOf(currentDate) <= WeekStartDay(currentDate) + 6
  {
    WeekStartBounds(currentDate);
    var last := Clock.AddDays(WeekStartMs(currentDate), 6);
    SetHoursBounds(last);
  }

  /** The `i`-th day of the shown week, `weekStart` moved on by `i` days, has weekday `i`. */
  lemma WeekDayDate(currentDate: int, i: int)
    requires 0 <= i < 7
    ensures Clock.DayOf(Clock.AddDays(WeekStartMs(currentDate), i)) == WeekStartDay(currentDate) + i
    ensures Clock.Weekday(Clock.DayOf(Clock.AddDays(WeekStartMs(currentDate), i))) == i
  {
    WeekStartBounds(currentDate);
    WeekdayFromSunday(WeekStartDay(currentDate), i);
  }

  /** The `n`-th day on from a Sunday falls on weekday `n % 7`. */
  lemma WeekdayFromSunday(start: int, n: nat)
    requires Clock.Weekday(start) == 0
    ensures Clock.Weekday(start + n) == n % 7
  {
    var q := (start + 4) / 7;
    assert start + 4 == 7 * q;
    assert start + n + 4 == 7 * (q + n / 7) + n % 7;
  }

  /** The week view keeps a task exactly when it is due on one of the seven days of the week. */
  lemma WeekRangeIsSevenDays(t: ClientTask, currentDate: int)
    ensures DueWithin(t, WeekStartMs(currentDate), WeekEndMs(currentDate)) <==>
      HasDue(t) && WeekStartDay(currentDate) <= Clock.DayOf(t.dueAt.ms) <= WeekStartDay(currentDate) + 6
  {
    WeekBounds(currentDate);
    if HasDue(t) {
      Clock.DayBounds(t.dueAt.ms, WeekStartDay(currentDate));
      Clock.DayBounds(t.dueAt.ms, WeekStartDay(currentDate) + 6);
    }
  }

  /** The month view's range: `new Date(year, month, 1)` to the last day at 23:59:59.999. */
  predicate InMonth(t: ClientTask, y: int, m: int)
    requires 0 <= m < 12
  {
    DueWithin(t, Clock.MonthStartMs(y, m), Clock.MonthEndMs(y, m))
  }

  /** The day number `d` lies in month `m` of year `y` exactly when its calendar date says so. */
  lemma DayInMonthIffCivil(d: int, y: int, m: int)
    requires 0 <= m < 12
    ensures Clock.FirstDay(y, m) <= d <= Clock.LastDay(y, m) <==>
      Clock.CivilOfDay(d).year == y && Clock.CivilOfDay(d).month == m
    ensures Clock.FirstDay(y, m) <= d <= Clock.LastDay(y, m) ==>
      Clock.CivilOfDay(d).date == d - Clock.FirstDay(y, m) + 1
  {
    var c := Clock.CivilOfDay(d);
    if Clock.FirstDay(y, m) <= d <= Clock.LastDay(y, m) {
      DayOfMonthIsCivil(d, y, m);
    }
    if c.year == y && c.month == m {
      Clock.MakeDayShiftDate(y, m, 1, c.date - 1);
    }
  }

  /** A day number within the month is the calendar date it counts to from the 1st. */
  lemma DayOfMonthIsCivil(d: int, y: int, m: int)
    requires 0 <= m < 12 && Clock.FirstDay(y, m) <= d <= Clock.LastDay(y, m)
    ensures Clock.CivilOfDay(d) == Clock.Civil(y, m, d - Clock.FirstDay(y, m) + 1)
  {
    var k := d - Clock.FirstDay(y, m) + 1;
    assert 1 <= k <= Clock.DaysInMonth(y, m);
    assert Clock.MakeDay(y, m, k) == d by {
      Clock.MakeDayShiftDate(y, m, 1, k - 1);
    }
    Clock.CivilOfDayIs(d, Clock.Civil(y, m, k));
  }

  /** A task is in the month view exactly when its due time falls in that calendar month. */
  lemma MonthRangeIsCalendarMonth(t: ClientTask, y: int, m: int)
    requires 0 <= m < 12
    ensures InMonth(t, y, m) <==>
      HasDue(t) && Clock.CivilOf(t.dueAt.ms).year == y && Clock.CivilOf(t.dueAt.ms).month == m
  {
    if HasDue(t) {
      var d := Clock.DayOf(t.dueAt.ms);
      Clock.DayBounds(t.dueAt.ms, Clock.FirstDay(y, m));
      Clock.DayBounds(t.dueAt.ms, Clock.LastDay(y, m));
      DayInMonthIffCivil(d, y, m);
    }
  }

  /** `monthTasks`: the tasks due within month `m` of year `y`. */
  function MonthTasks(tasks: seq<ClientTask>, y: int, m: int): seq<ClientTask>
    requires 0 <= m < 12
  {
    DueBetween(tasks, Clock.MonthStartMs(y, m), Clock.MonthEndMs(y, m))
  }

  // ---------------------------------------------------------------------------------------
  // The day and week views

  /**
   * What the day view lists: exactly the tasks due on the shown day, all dated, in
   * ascending due time with ties in list order, each as often as in the day's filter.
   */
  ghost predicate DayViewShows(tasks: seq<ClientTask>, currentDate: int, dayTasks: seq<ClientTask>) {
    var lo, hi := DayStartMs(currentDate), DayEndMs(currentDate);
    && (forall i :: 0 <= i < |dayTasks| ==> HasDue(dayTasks[i]))
    && (forall i, j :: 0 <= i < j < |dayTasks| && HasDue(dayTasks[i]) && HasDue(dayTasks[j]) ==>
          dayTasks[i].dueAt.ms <= dayTasks[j].dueAt.ms)
    && multiset(dayTasks) == multiset(DueBetween(tasks, lo, hi))
    && DueOrder.KeepsTieOrder(dayTasks, DueBetween(tasks, lo, hi))
    && forall t :: t in dayTasks <==>
      t in tasks && HasDue(t) && Clock.DayOf(t.dueAt.ms) == Clock.DayOf(currentDate)
  }

  /**
   * `renderDayView`: the tasks due on the shown day, sorted by due time, which on these
   * dated tasks is `DueOrder.SortByDue`.
   */
  method RenderDayView(tasks: seq<ClientTask>, currentDate: int) returns (dayTasks: seq<ClientTask>)
    ensures DayViewShows(tasks, currentDate, dayTasks)
  {
    var lo, hi := DayStartMs(currentDate), DayEndMs(currentDate);
    var filtered := DueBetween(tasks, lo, hi);
    dayTasks := DueOrder.SortByDue(filtered);
    DueBetweenDated(tasks, lo, hi);
    forall t ensures t in dayTasks <==> t in tasks && HasDue(t) && Clock.DayOf(t.dueAt.ms) == Clock.DayOf(currentDate) {
      assert t in dayTasks <==> t in multiset(filtered);
      DueBetweenMembers(tasks, lo, hi, t);
      DayRangeIsOneDay(t, currentDate);
    }
    forall i | 0 <= i < |dayTasks| ensures HasDue(dayTasks[i]) {
      assert dayTasks[i] in multiset(filtered);
      DueBetweenMembers(tasks, lo, hi, dayTasks[i]);
    }
  }

  /** The dated tasks of `s` whose due day has weekday `w`, in order. */
  function OnWeekday(s: seq<ClientTask>, w: int): seq<ClientTask> {
    if s == [] then []
    else
      var last := s[|s| - 1];
      OnWeekday(s[..|s| - 1], w)
        + (if HasDue(last) && Clock.Weekday(Clock.DayOf(last.dueAt.ms)) == w then [last] else [])
  }

  lemma {:induction false} OnWeekdayMembers(s: seq<ClientTask>, w: int, t: ClientTask)
    ensures t in OnWeekday(s, w) <==> t in s && HasDue(t) && Clock.Weekday(Clock.DayOf(t.dueAt.ms)) == w
  {
    if s != [] {
      var init := s[..|s| - 1];
      OnWeekdayMembers(init, w, t);
      assert s == init + [s[|s| - 1]];
    }
  }

  /**
   * A task lands in the bucket of weekday `i` of the week view exactly when it is due on
   * the `i`-th day of the shown week; so every task of the week is in exactly one bucket.
   */
  lemma WeekBucketMembers(tasks: seq<ClientTask>, currentDate: int, i: int, t: ClientTask)
    requires 0 <= i < 7
    ensures var weekTasks := DueBetween(tasks, WeekStartMs(currentDate), WeekEndMs(currentDate));
      t in OnWeekday(weekTasks, i) <==>
        t in tasks && HasDue(t) && Clock.DayOf(t.dueAt.ms) == WeekStartDay(currentDate) + i
  {
    var weekTasks := DueBetween(tasks, WeekStartMs(currentDate), WeekEndMs(currentDate));
    var start := WeekStartDay(currentDate);
    OnWeekdayMembers(weekTasks, i, t);
    DueBetweenMembers(tasks, WeekStartMs(currentDate), WeekEndMs(currentDate), t);
    WeekRangeIsSevenDays(t, currentDate);
    WeekBounds(currentDate);
    if HasDue(t) && start <= Clock.DayOf(t.dueAt.ms) <= start + 6 {
      var k := Clock.DayOf(t.dueAt.ms) - start;
      WeekdayFromSunday(start, k);
      assert k % 7 == k;
    }
  }

  /**
   * What the week view shows: seven buckets, bucket `i` holding, in list order, the tasks
   * of the week due on its `i`-th day, and exactly those.
   */
  ghost predicate WeekViewShows(tasks: seq<ClientTask>, currentDate: int, buckets: seq<seq<ClientTask>>) {
    && |buckets| == 7
    && (forall i :: 0 <= i < 7 ==>
          buckets[i] == OnWeekday(DueBetween(tasks, WeekStartMs(currentDate), WeekEndMs(currentDate)), i))
    && forall i, t :: 0 <= i < 7 ==>
      (t in buckets[i] <==> t in tasks && HasDue(t) && Clock.DayOf(t.dueAt.ms) == WeekStartDay(currentDate) + i)
  }

  /**
   * `renderWeekView`: the tasks of the week, then for each of the seven days of the week
   * those whose due day has that day's weekday, in list order.
   */
  method RenderWeekView(tasks: seq<ClientTask>, currentDate: int) returns (buckets: seq<seq<ClientTask>>)
    ensures WeekViewShows(tasks, currentDate, buckets)
  {
    var weekStart := WeekStartMs(currentDate);
    var weekEnd := WeekEndMs(currentDate);
    var weekTasks := DueBetween(tasks, weekStart, weekEnd);
    buckets := [];
    var i := 0;
    while i < 7
      invariant 0 <= i <= 7
      invariant |buckets| == i
      invariant forall k :: 0 <= k < i ==> buckets[k] == OnWeekday(weekTasks, k)
    {
      var dayDate := Clock.AddDays(weekStart, i);
      WeekDayDate(currentDate, i);
      buckets := buckets + [OnWeekday(weekTasks, Clock.Weekday(Clock.DayOf(dayDate)))];
      i := i + 1;
    }
    forall i, t | 0 <= i < 7
      ensures t in buckets[i] <==> t in tasks && HasDue(t) && Clock.DayOf(t.dueAt.ms) == WeekStartDay(currentDate) + i
    {
      WeekBucketMembers(tasks, currentDate, i, t);
    }
  }

  // ---------------------------------------------------------------------------------------
  // The month grid

  /** `Math.ceil(n / 7)`: the fewest whole weeks that hold `n` days. */
  function CeilWeeks(n: nat): (r: nat)
    ensures n <= 7 * r < n + 7
  {
    if n % 7 == 0 then n / 7 else n / 7 + 1
  }

  /** `totalCells`: the padding and the month's days, rounded up to whole weeks. */
  function TotalCells(daysInMonth: nat, firstDay: nat): (r: nat)
    ensures r % 7 == 0
    ensures daysInMonth + firstDay <= r < daysInMonth + firstDay + 7
  {
    CeilWeeks(daysInMonth + firstDay) * 7
  }

  /** `daysFromNextMonth`: the cells left over in the last week. */
  function DaysFromNextMonth(daysInMonth: nat, firstDay: nat): (r: nat)
    ensures r <= 6
    ensures (daysInMonth + firstDay + r) % 7 == 0
  {
    TotalCells(daysInMonth, firstDay) - daysInMonth - firstDay
  }

  /** `new Date(year, month, 1).getDay()`: the column of the month's first day. */
  function FirstWeekday(y: int, m: int): (r: nat)
    requires 0 <= m < 12
    ensures r < 7
  {
    Clock.Weekday(Clock.FirstDay(y, m))
  }

  /** The month before month `m` of year `y`, as a year and a month. */
  function PrevYear(y: int, m: int): int {
    if m == 0 then y - 1 else y
  }

  function PrevMonth(m: int): int {
    if m == 0 then 11 else m - 1
  }

  /** The month after month `m` of year `y`. */
  function NextYear(y: int, m: int): int {
    if m == 11 then y + 1 else y
  }

  function NextMonth(m: int): int {
    if m == 11 then 0 else m + 1
  }

  /** Date 0 of a month is the last day of the month before, across a year end too. */
  lemma DayZeroIsPrevMonthEnd(y: int, m: int)
    requires 0 <= m < 12
    ensures Clock.MakeDay(y, m, 0) == Clock.MakeDay(PrevYear(y, m), PrevMonth(m), Clock.DaysInMonth(PrevYear(y, m), PrevMonth(m)))
    ensures Clock.MakeDay(y, m, 0) == Clock.FirstDay(y, m) - 1
  {
    var py, pm := PrevYear(y, m), PrevMonth(m);
    Clock.LastDayOfMonth(py, pm);
    if m == 0 {
      assert py == y - 1 && pm == 11;
      assert Clock.MakeDay(y - 1, 12, 0) == Clock.MonthStart(y, 0) - 1;
    } else {
      assert py == y && pm + 1 == m;
    }
  }

  /** `new Date(year, month, 0).getDate()`: the number of days of the month before. */
  function PrevMonthLastDay(y: int, m: int): (r: int)
    requires 0 <= m < 12
    ensures r == Clock.DaysInMonth(PrevYear(y, m), PrevMonth(m))
  {
    DayZeroIsPrevMonthEnd(y, m);
    Clock.LastDayOfMonth(PrevYear(y, m), PrevMonth(m));
    var py, pm := PrevYear(y, m), PrevMonth(m);
    assert Clock.CivilOfDay(Clock.MakeDay(py, pm + 1, 0)) == Clock.Civil(py, pm, Clock.DaysInMonth(py, pm));
    assert Clock.MakeDay(py, pm + 1, 0) == Clock.MakeDay(py, pm, Clock.DaysInMonth(py, pm));
    Clock.CivilOfDay(Clock.MakeDay(y, m, 0)).date
  }

  /** Day 1 of the next month follows the last day of this one, across a year end too. */
  lemma NextMonthStart(y: int, m: int, k: int)
    requires 0 <= m < 12
    ensures Clock.MakeDay(NextYear(y, m), NextMonth(m), k) == Clock.LastDay(y, m) + k
  {
    assert Clock.LastDay(y, m) == Clock.MakeDay(y, m + 1, 0);
    if m == 11 {
      assert NextYear(y, m) == y + 1 && NextMonth(m) == 0;
      assert Clock.MakeDay(y, 12, 0) == Clock.MonthStart(y + 1, 0) - 1;
    } else {
      assert NextYear(y, m) == y && NextMonth(m) == m + 1;
    }
  }

  /** The day number shown in the first cell of the grid: the Sunday on or before the 1st. */
  function GridStart(y: int, m: int): int
    requires 0 <= m < 12
  {
    Clock.FirstDay(y, m) - FirstWeekday(y, m)
  }

  /** Column `n % 7` of the grid is headed by the weekday the `n`-th cell falls on. */
  lemma GridColumnIsWeekday(y: int, m: int, n: nat)
    requires 0 <= m < 12
    ensures Clock.Weekday(GridStart(y, m) + n) == n % 7
  {
    var f := Clock.FirstDay(y, m);
    SundayOnOrBefore(f);
    WeekdayFromSunday(GridStart(y, m), n);
  }

  /** The calendar date of the `n`-th cell of the grid. */
  function CellCivil(y: int, m: int, n: int): Clock.Civil
    requires 0 <= m < 12
  {
    Clock.CivilOfDay(GridStart(y, m) + n)
  }

  /** The day of the `i`-th padding cell from the right is date `prevMonthLastDay - i` of the month before. */
  lemma PaddingCellDay(y: int, m: int, i: int)
    requires 0 <= m < 12
    ensures GridStart(y, m) + (FirstWeekday(y, m) - 1 - i) ==
      Clock.MakeDay(PrevYear(y, m), PrevMonth(m), PrevMonthLastDay(y, m) - i)
  {
    DayZeroIsPrevMonthEnd(y, m);
  }

  /** Each leading padding cell shows `prevMonthLastDay - i`: a date of the month before. */
  lemma PaddingCellDate(y: int, m: int, i: int)
    requires 0 <= m < 12 && 0 <= i < FirstWeekday(y, m)
    ensures CellCivil(y, m, FirstWeekday(y, m) - 1 - i) ==
      Clock.Civil(PrevYear(y, m), PrevMonth(m), PrevMonthLastDay(y, m) - i)
  {
    var c := Clock.Civil(PrevYear(y, m), PrevMonth(m), PrevMonthLastDay(y, m) - i);
    assert Clock.ValidCivil(c) by {
      assert 0 <= PrevMonth(m) < 12;
      assert PrevMonthLastDay(y, m) == Clock.DaysInMonth(PrevYear(y, m), PrevMonth(m));
    }
    PaddingCellDay(y, m, i);
    Clock.CivilOfDayIs(GridStart(y, m) + (FirstWeekday(y, m) - 1 - i), c);
  }

  /** The cells after the padding show the month's own dates 1 to `daysInMonth`. */
  lemma MonthCellDate(y: int, m: int, day: int)
    requires 0 <= m < 12 && 1 <= day <= Clock.DaysInMonth(y, m)
    ensures CellCivil(y, m, FirstWeekday(y, m) + day - 1) == Clock.Civil(y, m, day)
  {
    assert GridStart(y, m) + (FirstWeekday(y, m) + day - 1) == Clock.MakeDay(y, m, day);
    Clock.CivilOfDayIs(GridStart(y, m) + (FirstWeekday(y, m) + day - 1), Clock.Civil(y, m, day));
  }

  /** The trailing cells show dates 1, 2, ... of the month after. */
  lemma NextCellDate(y: int, m: int, day: int)
    requires 0 <= m < 12 && 1 <= day <= 6
    ensures CellCivil(y, m, FirstWeekday(y, m) + Clock.DaysInMonth(y, m) + day - 1) ==
      Clock.Civil(NextYear(y, m), NextMonth(m), day)
  {
    var n := FirstWeekday(y, m) + Clock.DaysInMonth(y, m) + day - 1;
    assert GridStart(y, m) + n == Clock.MakeDay(NextYear(y, m), NextMonth(m), day) by {
      NextMonthStart(y, m, day);
    }
    Clock.CivilOfDayIs(GridStart(y, m) + n, Clock.Civil(NextYear(y, m), NextMonth(m), day));
  }

  /** One cell of the grid: the date it shows, greyed out or not, and the tasks listed in it. */
  datatype Cell = Cell(date: int, otherMonth: bool, tasks: seq<ClientTask>)

  /** `tasksByDay[day]`, or no tasks when the month has none on that day. */
  function TasksOf(tasksByDay: map<int, seq<ClientTask>>, day: int): seq<ClientTask> {
    if day in tasksByDay then tasksByDay[day] else []
  }

  /** `cell`, in position `n`, shows the date of its day and is greyed out exactly off the month. */
  predicate ShowsDate(y: int, m: int, cell: Cell, n: int)
    requires 0 <= m < 12
  {
    var c := CellCivil(y, m, n);
    cell.date == c.date && (cell.otherMonth <==> !(c.year == y && c.month == m))
  }

  /** ... and lists no tasks when greyed out, the tasks grouped under its date otherwise. */
  predicate ShowsItsDay(y: int, m: int, tasksByDay: map<int, seq<ClientTask>>, cell: Cell, n: int)
    requires 0 <= m < 12
  {
    ShowsDate(y, m, cell, n) &&
    cell.tasks == if cell.otherMonth then [] else TasksOf(tasksByDay, cell.date)
  }

  /**
   * What the three loops of `renderMonthView` put in cell `n`: `prevMonthLastDay - i` for
   * the `firstDay` padding cells, then the month's days 1, 2, ..., then 1, 2, ... again.
   */
  function GridCell(firstDay: int, daysInMonth: int, prevMonthLastDay: int,
                    tasksByDay: map<int, seq<ClientTask>>, n: int): Cell
  {
    if n < firstDay then Cell(prevMonthLastDay - (firstDay - 1 - n), true, [])
    else if n < firstDay + daysInMonth then Cell(n - firstDay + 1, false, TasksOf(tasksByDay, n - firstDay + 1))
    else Cell(n - firstDay - daysInMonth + 1, true, [])
  }

  /** The cell the loops put at position `n` of the grid of month `m` of year `y`. */
  function GridCellOf(y: int, m: int, tasksByDay: map<int, seq<ClientTask>>, n: int): Cell
    requires 0 <= m < 12
  {
    GridCell(FirstWeekday(y, m), Clock.DaysInMonth(y, m), PrevMonthLastDay(y, m), tasksByDay, n)
  }

  /** A padding cell of the grid shows its own day, greyed out. */
  lemma PaddingCellRight(y: int, m: int, tasksByDay: map<int, seq<ClientTask>>, n: int)
    requires 0 <= m < 12 && 0 <= n < FirstWeekday(y, m)
    ensures ShowsItsDay(y, m, tasksByDay, GridCellOf(y, m, tasksByDay, n), n)
  {
    var i := FirstWeekday(y, m) - 1 - n;
    assert GridCellOf(y, m, tasksByDay, n) == Cell(PrevMonthLastDay(y, m) - i, true, []);
    PaddingCellDate(y, m, i);
    assert CellCivil(y, m, n) == Clock.Civil(PrevYear(y, m), PrevMonth(m), PrevMonthLastDay(y, m) - i);
    assert PrevMonth(m) != m;
  }

  /** A cell of the month's own days shows its day and the tasks grouped under it. */
  lemma MonthCellRight(y: int, m: int, tasksByDay: map<int, seq<ClientTask>>, n: int)
    requires 0 <= m < 12 && FirstWeekday(y, m) <= n < FirstWeekday(y, m) + Clock.DaysInMonth(y, m)
    ensures ShowsItsDay(y, m, tasksByDay, GridCellOf(y, m, tasksByDay, n), n)
  {
    var day := n - FirstWeekday(y, m) + 1;
    assert GridCellOf(y, m, tasksByDay, n) == Cell(day, false, TasksOf(tasksByDay, day));
    MonthCellDate(y, m, day);
    assert CellCivil(y, m, n) == Clock.Civil(y, m, day);
  }

  /** A trailing cell shows its day of the month after, greyed out. */
  lemma NextCellRight(y: int, m: int, tasksByDay: map<int, seq<ClientTask>>, n: int)
    requires 0 <= m < 12
    requires FirstWeekday(y, m) + Clock.DaysInMonth(y, m) <= n < FirstWeekday(y, m) + Clock.DaysInMonth(y, m) + 6
    ensures ShowsItsDay(y, m, tasksByDay, GridCellOf(y, m, tasksByDay, n), n)
  {
    var day := n - FirstWeekday(y, m) - Clock.DaysInMonth(y, m) + 1;
    assert GridCellOf(y, m, tasksByDay, n) == Cell(day, true, []);
    NextCellDate(y, m, day);
    assert CellCivil(y, m, n) == Clock.Civil(NextYear(y, m), NextMonth(m), day);
    assert NextMonth(m) != m;
  }

  /** Every cell of the grid, in every one of its three parts, shows its own day. */
  lemma GridCellRight(y: int, m: int, tasksByDay: map<int, seq<ClientTask>>, n: int)
    requires 0 <= m < 12
    requires 0 <= n < FirstWeekday(y, m) + Clock.DaysInMonth(y, m) + 6
    ensures ShowsItsDay(y, m, tasksByDay, GridCellOf(y, m, tasksByDay, n), n)
  {
    if n < FirstWeekday(y, m) {
      PaddingCellRight(y, m, tasksByDay, n);
    } else if n < FirstWeekday(y, m) + Clock.DaysInMonth(y, m) {
      MonthCellRight(y, m, tasksByDay, n);
    } else {
      NextCellRight(y, m, tasksByDay, n);
    }
  }

  /**
   * The three loops of `renderMonthView` that build the grid: the tail of the month before,
   * the month's own days with their tasks, and the head of the month after.
   */
  method BuildGrid(firstDay: nat, daysInMonth: nat, prevMonthLastDay: int, daysFromNextMonth: nat,
                   tasksByDay: map<int, seq<ClientTask>>) returns (cells: seq<Cell>)
    ensures |cells| == firstDay + daysInMonth + daysFromNextMonth
    ensures forall n :: 0 <= n < |cells| ==>
      cells[n] == GridCell(firstDay, daysInMonth, prevMonthLastDay, tasksByDay, n)
  {
    cells := [];
    var i := firstDay as int - 1;
    while i >= 0
      invariant -1 <= i < firstDay
      invariant |cells| == firstDay - 1 - i
      invariant forall n :: 0 <= n < |cells| ==> cells[n] == GridCell(firstDay, daysInMonth, prevMonthLastDay, tasksByDay, n)
    {
      cells := cells + [Cell(prevMonthLastDay - i, true, [])];
      i := i - 1;
    }

    var day := 1;
    while day <= daysInMonth
      invariant 1 <= day <= daysInMonth + 1
      invariant |cells| == firstDay + day - 1
      invariant forall n :: 0 <= n < |cells| ==> cells[n] == GridCell(firstDay, daysInMonth, prevMonthLastDay, tasksByDay, n)
    {
      cells := cells + [Cell(day, false, TasksOf(tasksByDay, day))];
      day := day + 1;
    }

    day := 1;
    while day <= daysFromNextMonth
      invariant 1 <= day <= daysFromNextMonth + 1
      invariant |cells| == firstDay + daysInMonth + day - 1
      invariant forall n :: 0 <= n < |cells| ==> cells[n] == GridCell(firstDay, daysInMonth, prevMonthLastDay, tasksByDay, n)
    {
      cells := cells + [Cell(day, true, [])];
      day := day + 1;
    }
  }

  /**
   * The grid of `renderMonthView` for month `m` of year `y`: whole weeks, every cell showing
   * the calendar date of its position, so each column is one weekday.
   */
  method RenderMonthGrid(y: int, m: int, tasksByDay: map<int, seq<ClientTask>>) returns (cells: seq<Cell>)
    requires 0 <= m < 12
    ensures |cells| == TotalCells(Clock.DaysInMonth(y, m), FirstWeekday(y, m))
    ensures forall n :: 0 <= n < |cells| ==> ShowsItsDay(y, m, tasksByDay, cells[n], n)
  {
    var firstDay := FirstWeekday(y, m);
    var daysInMonth := Clock.MonthLengthByDayZero(y, m);
    var daysFromNextMonth := DaysFromNextMonth(daysInMonth, firstDay);
    var prevMonthLastDay := PrevMonthLastDay(y, m);
    cells := BuildGrid(firstDay, daysInMonth, prevMonthLastDay, daysFromNextMonth, tasksByDay);
    forall n | 0 <= n < |cells| ensures ShowsItsDay(y, m, tasksByDay, cells[n], n) {
      assert cells[n] == GridCellOf(y, m, tasksByDay, n);
      GridCellRight(y, m, tasksByDay, n);
    }
  }

  /** The tasks of `s` due on date `d` of their month, in order. */
  function DueOnDate(s: seq<ClientTask>, d: int): seq<ClientTask> {
    if s == [] then []
    else
      var last := s[|s| - 1];
      DueOnDate(s[..|s| - 1], d) + (if HasDue(last) && Clock.CivilOf(last.dueAt.ms).date == d then [last] else [])
  }

  lemma {:induction false} DueOnDateMembers(s: seq<ClientTask>, d: int, t: ClientTask)
    ensures t in DueOnDate(s, d) <==> t in s && HasDue(t) && Clock.CivilOf(t.dueAt.ms).date == d
  {
    if s != [] {
      var init := s[..|s| - 1];
      DueOnDateMembers(init, d, t);
      assert s == init + [s[|s| - 1]];
    }
  }

  lemma DueOnDateSnoc(s: seq<ClientTask>, i: nat, d: int)
    requires i < |s|
    ensures DueOnDate(s[..i + 1], d) ==
      DueOnDate(s[..i], d) + (if HasDue(s[i]) && Clock.CivilOf(s[i].dueAt.ms).date == d then [s[i]] else [])
  {
    assert s[..i + 1][..i] == s[..i];
  }

  /**
   * The `forEach` that fills `tasksByDay`: each task is appended under the date of its due
   * time, so each date holds its tasks in list order and only dates with tasks are keys.
   */
  method GroupByDay(monthTasks: seq<ClientTask>) returns (tasksByDay: map<int, seq<ClientTask>>)
    requires forall k :: 0 <= k < |monthTasks| ==> HasDue(monthTasks[k])
    ensures forall d :: d in tasksByDay <==> DueOnDate(monthTasks, d) != []
    ensures forall d :: TasksOf(tasksByDay, d) == DueOnDate(monthTasks, d)
  {
    tasksByDay := map[];
    var i := 0;
    while i < |monthTasks|
      invariant 0 <= i <= |monthTasks|
      invariant forall d :: d in tasksByDay <==> DueOnDate(monthTasks[..i], d) != []
      invariant forall d :: TasksOf(tasksByDay, d) == DueOnDate(monthTasks[..i], d)
    {
      var task := monthTasks[i];
      var day := Clock.CivilOf(task.dueAt.ms).date;
      ghost var before := tasksByDay;
      if day !in tasksByDay {
        tasksByDay := tasksByDay[day := []];
      }
      tasksByDay := tasksByDay[day := tasksByDay[day] + [task]];
      forall d
        ensures d in tasksByDay <==> DueOnDate(monthTasks[..i + 1], d) != []
        ensures TasksOf(tasksByDay, d) == DueOnDate(monthTasks[..i + 1], d)
      {
        DueOnDateSnoc(monthTasks, i, d);
        if d != day {
          assert TasksOf(tasksByDay, d) == TasksOf(before, d);
        } else {
          assert TasksOf(tasksByDay, d) == TasksOf(before, d) + [task];
        }
      }
      i := i + 1;
    }
    assert monthTasks[..i] == monthTasks;
  }

  /** The tasks a month cell lists are exactly those due on that date of that month. */
  lemma MonthCellTasks(tasks: seq<ClientTask>, y: int, m: int, day: int, t: ClientTask)
    requires 0 <= m < 12
    ensures t in DueOnDate(MonthTasks(tasks, y, m), day) <==>
      t in tasks && HasDue(t) && Clock.CivilOf(t.dueAt.ms) == Clock.Civil(y, m, day)
  {
    DueOnDateMembers(MonthTasks(tasks, y, m), day, t);
    DueBetweenMembers(tasks, Clock.MonthStartMs(y, m), Clock.MonthEndMs(y, m), t);
    MonthRangeIsCalendarMonth(t, y, m);
  }

  /**
   * What the month view shows: whole weeks of cells, each showing the date of its day;
   * the cells of other months are empty, and each cell of the month lists, in list order,
   * exactly the tasks due on its date.
   */
  ghost predicate MonthViewShows(tasks: seq<ClientTask>, currentDate: int, cells: seq<Cell>) {
    var c := Clock.CivilOf(currentDate);
    && |cells| % 7 == 0
    && (forall n :: 0 <= n < |cells| ==> ShowsDate(c.year, c.month, cells[n], n))
    && (forall n :: 0 <= n < |cells| && cells[n].otherMonth ==> cells[n].tasks == [])
    && (forall n :: 0 <= n < |cells| && !cells[n].otherMonth ==>
          cells[n].tasks == DueOnDate(MonthTasks(tasks, c.year, c.month), cells[n].date))
    && forall n, t :: 0 <= n < |cells| && !cells[n].otherMonth ==>
      (t in cells[n].tasks <==>
        t in tasks && HasDue(t) && Clock.CivilOf(t.dueAt.ms) == Clock.Civil(c.year, c.month, cells[n].date))
  }

  /**
   * `renderMonthView` for the month of `currentDate`: whole weeks of cells, each showing
   * the date of its day, the month's own cells listing the tasks due on their date.
   */
  method RenderMonthView(tasks: seq<ClientTask>, currentDate: int) returns (cells: seq<Cell>)
    ensures MonthViewShows(tasks, currentDate, cells)
  {
    var c := Clock.CivilOf(currentDate);
    var y, m := c.year, c.month;
    var monthTasks := MonthTasks(tasks, y, m);
    DueBetweenDated(tasks, Clock.MonthStartMs(y, m), Clock.MonthEndMs(y, m));
    var tasksByDay := GroupByDay(monthTasks);
    cells := RenderMonthGrid(y, m, tasksByDay);
    GridShowsMonthTasks(tasks, y, m, tasksByDay, cells);
  }

  /** Cells showing their days over the month's tasks grouped by day list those tasks by date. */
  lemma GridShowsMonthTasks(tasks: seq<ClientTask>, y: int, m: int, tasksByDay: map<int, seq<ClientTask>>,
                            cells: seq<Cell>)
    requires 0 <= m < 12
    requires forall d :: TasksOf(tasksByDay, d) == DueOnDate(MonthTasks(tasks, y, m), d)
    requires forall n :: 0 <= n < |cells| ==> ShowsItsDay(y, m, tasksByDay, cells[n], n)
    ensures forall n :: 0 <= n < |cells| ==> ShowsDate(y, m, cells[n], n)
    ensures forall n :: 0 <= n < |cells| && cells[n].otherMonth ==> cells[n].tasks == []
    ensures forall n :: 0 <= n < |cells| && !cells[n].otherMonth ==>
      cells[n].tasks == DueOnDate(MonthTasks(tasks, y, m), cells[n].date)
    ensures forall n, t :: 0 <= n < |cells| && !cells[n].otherMonth ==>
      (t in cells[n].tasks <==>
        t in tasks && HasDue(t) && Clock.CivilOf(t.dueAt.ms) == Clock.Civil(y, m, cells[n].date))
  {
    var monthTasks := MonthTasks(tasks, y, m);
    forall n | 0 <= n < |cells|
      ensures ShowsDate(y, m, cells[n], n)
      ensures cells[n].otherMonth ==> cells[n].tasks == []
      ensures !cells[n].otherMonth ==> cells[n].tasks == DueOnDate(monthTasks, cells[n].date)
    {
      assert ShowsItsDay(y, m, tasksByDay, cells[n], n);
    }
    forall n, t | 0 <= n < |cells| && !cells[n].otherMonth
      ensures t in cells[n].tasks <==>
        t in tasks && HasDue(t) && Clock.CivilOf(t.dueAt.ms) == Clock.Civil(y, m, cells[n].date)
    {
      MonthCellTasks(tasks, y, m, cells[n].date, t);
    }
  }

  // ---------------------------------------------------------------------------------------
  // Dates

  /** `isSameDay(date1, date2)`: same year, month and date. */
  predicate IsSameDay(date1: int, date2: int) {
    var a, b := Clock.CivilOf(date1), Clock.CivilOf(date2);
    a.year == b.year && a.month == b.month && a.date == b.date
  }

  /** Two instants are on the same day exactly when they share a day number. */
  lemma SameDayIffSameDayNumber(date1: int, date2: int)
    ensures IsSameDay(date1, date2) <==> Clock.DayOf(date1) == Clock.DayOf(date2)
  {
    Clock.SameCivilIffSameDay(Clock.DayOf(date1), Clock.DayOf(date2));
  }

  /** So `isSameDay` is reflexive, symmetric and transitive. */
  lemma SameDayIsEquivalence(a: int, b: int, c: int)
    ensures IsSameDay(a, a)
    ensures IsSameDay(a, b) ==> IsSameDay(b, a)
    ensures IsSameDay(a, b) && IsSameDay(b, c) ==> IsSameDay(a, c)
  {
    SameDayIffSameDayNumber(a, b);
    SameDayIffSameDayNumber(b, c);
    SameDayIffSameDayNumber(a, c);
  }

  // ---------------------------------------------------------------------------------------
  // The page's state

  /** `currentView`: 'day', 'week', or (anything else) the month view. */
  datatype View = DayView | WeekView | MonthView

  /** What one render of the calendar shows, by view. */
  datatype Rendering = DayTasks(dayTasks: seq<ClientTask>)
                     | WeekBuckets(buckets: seq<seq<ClientTask>>)
                     | MonthCells(cells: seq<Cell>)

  /** The date `navigatePeriod(direction)` moves to from `t` in view `view`. */
  function Navigated(view: View, t: int, direction: int): int {
    match view
    case DayView => Clock.AddDays(t, direction)
    case WeekView => Clock.AddDays(t, 7 * direction)
    case MonthView => Clock.AddMonths(t, direction)
  }

  /**
   * In the day and week views navigation moves by whole days and keeps the time of day;
   * in the month view it keeps the date and the time of day whenever the target month has
   * that date.
   */
  lemma NavigatedMoves(view: View, t: int, direction: int)
    ensures view == DayView ==> Navigated(view, t, direction) == t + direction * Clock.DayMs
    ensures view == WeekView ==> Navigated(view, t, direction) == t + 7 * direction * Clock.DayMs
    ensures view == MonthView ==>
      var c := Clock.CivilOf(t);
      var y', m' := c.year + (c.month + direction) / 12, (c.month + direction) % 12;
      c.date <= Clock.DaysInMonth(y', m') ==>
        Clock.CivilOf(Navigated(view, t, direction)) == Clock.Civil(y', m', c.date) &&
        Clock.TimeOfDay(Navigated(view, t, direction)) == Clock.TimeOfDay(t)
  {
    if view == MonthView {
      var c := Clock.CivilOf(t);
      var y', m' := c.year + (c.month + direction) / 12, (c.month + direction) % 12;
      if c.date <= Clock.DaysInMonth(y', m') {
        Clock.AddMonthsLandsOnSameDate(t, direction, y', m');
      }
    }
  }

  class CalendarPage {
    /** The date whose day, week or month is shown. */
    var currentDate: int
    var currentView: View

    /** The page opens on today, in the month view. */
    constructor(now: int)
      ensures currentDate == now && currentView == MonthView
    {
      currentDate := now;
      currentView := MonthView;
    }

    /** `switchView(view)`: the date stays, the view changes. */
    method SwitchView(view: View)
      modifies this
      ensures currentView == view && currentDate == old(currentDate)
    {
      currentView := view;
    }

    /** `navigatePeriod(direction)`: a day, a week or a month back or forth, by view. */
    method NavigatePeriod(direction: int)
      modifies this
      ensures currentView == old(currentView)
      ensures currentDate == Navigated(old(currentView), old(currentDate), direction)
    {
      if currentView == DayView {
        currentDate := Clock.AddDays(currentDate, direction);
      } else if currentView == WeekView {
        currentDate := Clock.AddDays(currentDate, 7 * direction);
      } else {
        currentDate := Clock.AddMonths(currentDate, direction);
      }
    }

    /** `goToToday`. */
    method GoToToday(now: int)
      modifies this
      ensures currentDate == now && currentView == old(currentView)
    {
      currentDate := now;
    }

    /**
     * `renderCalendar` once the task list has arrived: the view in force decides, and the
     * rendering is what that view's own render promises.
     */
    method RenderCalendar(tasks: seq<ClientTask>) returns (r: Rendering)
      ensures currentView == DayView <==> r.DayTasks?
      ensures currentView == WeekView <==> r.WeekBuckets?
      ensures r.DayTasks? ==> DayViewShows(tasks, currentDate, r.dayTasks)
      ensures r.WeekBuckets? ==> WeekViewShows(tasks, currentDate, r.buckets)
      ensures r.MonthCells? ==> MonthViewShows(tasks, currentDate, r.cells)
    {
      if currentView == DayView {
        var dayTasks := RenderDayView(tasks, currentDate);
        r := DayTasks(dayTasks);
      } else if currentView == WeekView {
        var buckets := RenderWeekView(tasks, currentDate);
        r := WeekBuckets(buckets);
      } else {
        var cells := RenderMonthView(tasks, currentDate);
        r := MonthCells(cells);
      }
    }
  }
}
