/**
 * The Gantt page (`static/gantt.js`): open tasks with a due time whose span touches the
 * shown month, one row per task with a cell per day of the month, and the task's bar in
 * one cell: as written, the cell of the creation day; corrected, the cell where the span
 * starts within the month. Month navigation.
 */
module Gantt {
  import opened Basics
  import opened ClientTask
  import Clock
  import DueOrder

  // ---------------------------------------------------------------------------------------
  // loadTasks

  predicate IsOpen(t: ClientTask) {
    !IsCompleted(t)
  }

  /** `data.filter(task => !task.completedAt)`: the tasks without a completion time. */
  function OpenTasks(data: seq<ClientTask>): (r: seq<ClientTask>)
    ensures forall t :: t in r <==> t in data && !IsCompleted(t)
  {
    var r := Filter(data, IsOpen);
    forall t ensures t in r <==> t in data && !IsCompleted(t) {
      FilterMembers(data, IsOpen, t);
    }
    r
  }

  // ---------------------------------------------------------------------------------------
  // The shown month

  /** `relevantTasks`' test: a due time, and due this month or created by its end and due after its start. */
  predicate IsRelevant(t: ClientTask, y: int, m: int)
    requires 0 <= m < 12
  {
    HasDue(t) &&
    var due := t.dueAt.ms;
    (Clock.MonthStartMs(y, m) <= due <= Clock.MonthEndMs(y, m)) ||
    (t.createdAt <= Clock.MonthEndMs(y, m) && due >= Clock.MonthStartMs(y, m))
  }

  /** `tasks.filter(...)` with the relevance test for month `m` of year `y`. */
  function RelevantTasks(tasks: seq<ClientTask>, y: int, m: int): seq<ClientTask>
    requires 0 <= m < 12
  {
    Filter(tasks, t => IsRelevant(t, y, m))
  }

  /**
   * In days: a task is relevant exactly when it is due on or after the first of the month
   * and either it is due by the last day or it was created by the last day.
   */
  lemma RelevantByDays(t: ClientTask, y: int, m: int)
    requires 0 <= m < 12
    ensures IsRelevant(t, y, m) <==>
      HasDue(t) && Clock.FirstDay(y, m) <= Clock.DayOf(t.dueAt.ms) &&
      (Clock.DayOf(t.dueAt.ms) <= Clock.LastDay(y, m) || Clock.DayOf(t.createdAt) <= Clock.LastDay(y, m))
  {
    if HasDue(t) {
      Clock.DayBounds(t.dueAt.ms, Clock.FirstDay(y, m));
      Clock.DayBounds(t.dueAt.ms, Clock.LastDay(y, m));
    }
    Clock.DayBounds(t.createdAt, Clock.LastDay(y, m));
  }

  // ---------------------------------------------------------------------------------------
  // The bar helpers

  /** `new Date(d.getFullYear(), d.getMonth(), d.getDate())`: midnight of the day of `t`. */
  function DateOnly(t: int): (r: int)
    ensures r == Clock.DayOf(t) * Clock.DayMs
  {
    var c := Clock.CivilOf(t);
    Clock.MakeDay(c.year, c.month, c.date) * Clock.DayMs
  }

  /** `shouldShowTaskBar(task, date)`: the date lies between creation and due date, by day. */
  predicate ShouldShowTaskBar(t: ClientTask, date: int)
    requires HasDue(t)
  {
    DateOnly(t.createdAt) <= DateOnly(date) <= DateOnly(t.dueAt.ms)
  }

  lemma ShouldShowByDays(t: ClientTask, date: int)
    requires HasDue(t)
    ensures ShouldShowTaskBar(t, date) <==>
      Clock.DayOf(t.createdAt) <= Clock.DayOf(date) <= Clock.DayOf(t.dueAt.ms)
  {
    Clock.DayScaleOrder(Clock.DayOf(t.createdAt), Clock.DayOf(date));
    Clock.DayScaleOrder(Clock.DayOf(date), Clock.DayOf(t.dueAt.ms));
  }

  /** `calculateBarWidth`: a duration clipped to the month, in percent of one cell. */
  function CalculateBarWidth(t: ClientTask, y: int, m: int, daysInMonth: int): int
    requires HasDue(t)
  {
    var created := Clock.CivilOf(t.createdAt);
    var due := Clock.CivilOf(t.dueAt.ms);
    var startDate := if created.month == m && created.year == y then created.date else 1;
    var endDate := if due.month == m && due.year == y then due.date else daysInMonth;
    var duration := if endDate - startDate + 1 > 1 then endDate - startDate + 1 else 1;
    if duration * 100 < 100 then duration * 100 else 100
  }

  /** The duration is at least one day, so every bar is exactly one cell wide. */
  lemma BarWidthIsOneCell(t: ClientTask, y: int, m: int, daysInMonth: int)
    requires HasDue(t)
    ensures CalculateBarWidth(t, y, m, daysInMonth) == 100
  {
  }

  /** `calculateBarPosition(task, cellDate)`: 0 on the task's creation date, -1 elsewhere. */
  function CalculateBarPosition(t: ClientTask, cellDate: int): (r: int)
    ensures r == 0 || r == -1
  {
    if Clock.CivilOf(t.createdAt) == Clock.CivilOf(cellDate) then 0 else -1
  }

  lemma BarPositionZeroIffCreationDay(t: ClientTask, cellDate: int)
    ensures CalculateBarPosition(t, cellDate) == 0 <==> Clock.DayOf(t.createdAt) == Clock.DayOf(cellDate)
  {
    Clock.SameCivilIffSameDay(Clock.DayOf(t.createdAt), Clock.DayOf(cellDate));
  }

  // ---------------------------------------------------------------------------------------
  // Which cell of a row holds the bar

  /** The cell of day `day` (1-based) of the shown month, as an instant. */
  function CellDate(y: int, m: int, day: int): int {
    Clock.MakeDay(y, m, day) * Clock.DayMs
  }

  lemma CellDateDay(y: int, m: int, day: int)
    requires 0 <= m < 12
    ensures Clock.DayOf(CellDate(y, m, day)) == Clock.FirstDay(y, m) + day - 1
  {
    Clock.MakeDayShiftDate(y, m, 1, day - 1);
    Clock.DayOfScaled(Clock.MakeDay(y, m, day), 0);
  }

  /** As written: a bar is drawn where `shouldShowTaskBar` holds and the position is 0. */
  predicate AsWrittenBarShown(t: ClientTask, y: int, m: int, day: int)
    requires HasDue(t)
  {
    var date := CellDate(y, m, day);
    ShouldShowTaskBar(t, date) && CalculateBarPosition(t, date) == 0
  }

  /** As written, in days: the bar sits in the cell of the creation day, if that day is not after the due day. */
  lemma AsWrittenBarByDays(t: ClientTask, y: int, m: int, day: int)
    requires 0 <= m < 12 && HasDue(t)
    ensures AsWrittenBarShown(t, y, m, day) <==>
      Clock.DayOf(t.createdAt) == Clock.FirstDay(y, m) + day - 1 && Clock.DayOf(t.createdAt) <= Clock.DayOf(t.dueAt.ms)
  {
    CellDateDay(y, m, day);
    BarPositionZeroIffCreationDay(t, CellDate(y, m, day));
    ShouldShowByDays(t, CellDate(y, m, day));
  }

  /**
   * As written, a relevant task that was created before the shown month gets no bar at
   * all, on any day of the month, although its span covers the month's first day.
   */
  lemma AsWrittenNoBarWhenCreatedEarlier(t: ClientTask, y: int, m: int, day: int)
    requires 0 <= m < 12 && HasDue(t)
    requires Clock.DayOf(t.createdAt) < Clock.FirstDay(y, m)
    requires 1 <= day
    ensures !AsWrittenBarShown(t, y, m, day)
  {
    AsWrittenBarByDays(t, y, m, day);
  }

  /**
   * For any month after January: a task created on the last day of the month before and
   * due on the 10th is relevant to the month, yet as written no cell of the month draws it.
   */
  lemma AsWrittenMissesCarriedOverTask(y: int, m: int)
    requires 1 <= m < 12
    ensures var t := ClientTask("a", "report", "1w", CellDate(y, m, 0), Undefined, At(CellDate(y, m, 10)), []);
      IsRelevant(t, y, m) &&
      forall day :: 1 <= day <= Clock.MonthLengthByDayZero(y, m) ==> !AsWrittenBarShown(t, y, m, day)
  {
    var t := ClientTask("a", "report", "1w", CellDate(y, m, 0), Undefined, At(CellDate(y, m, 10)), []);
    CellDateDay(y, m, 0);
    CellDateDay(y, m, 10);
    RelevantByDays(t, y, m);
    forall day | 1 <= day <= Clock.MonthLengthByDayZero(y, m) ensures !AsWrittenBarShown(t, y, m, day) {
      AsWrittenNoBarWhenCreatedEarlier(t, y, m, day);
    }
  }

  /**
   * As written, a relevant task whose span runs forward from creation has a bar in the
   * month exactly when it was created within the month, and then only on its creation day.
   */
  lemma AsWrittenBarIffCreatedInMonth(t: ClientTask, y: int, m: int)
    requires 0 <= m < 12 && IsRelevant(t, y, m)
    requires Clock.DayOf(t.createdAt) <= Clock.DayOf(t.dueAt.ms)
    ensures (exists day :: 1 <= day <= Clock.DaysInMonth(y, m) && AsWrittenBarShown(t, y, m, day))
      <==> Clock.FirstDay(y, m) <= Clock.DayOf(t.createdAt)
  {
    RelevantByDays(t, y, m);
    var c := Clock.DayOf(t.createdAt);
    if Clock.FirstDay(y, m) <= c {
      var day := c - Clock.FirstDay(y, m) + 1;
      AsWrittenBarByDays(t, y, m, day);
    } else {
      forall day | 1 <= day <= Clock.DaysInMonth(y, m) ensures !AsWrittenBarShown(t, y, m, day) {
        AsWrittenBarByDays(t, y, m, day);
      }
    }
  }

  /** The day the bar should start on: creation, or the first of the month when created earlier. */
  function BarStartDay(t: ClientTask, y: int, m: int): int
    requires 0 <= m < 12
  {
    var c := Clock.DayOf(t.createdAt);
    if c < Clock.FirstDay(y, m) then Clock.FirstDay(y, m) else c
  }

  /** Corrected: the bar is drawn in the cell of the day its clipped span starts. */
  predicate BarShown(t: ClientTask, y: int, m: int, day: int)
    requires 0 <= m < 12 && HasDue(t)
  {
    var date := CellDate(y, m, day);
    ShouldShowTaskBar(t, date) && Clock.DayOf(date) == BarStartDay(t, y, m)
  }

  /**
   * Corrected: every relevant task whose span runs forward from creation has its bar in
   * exactly one cell of the month, the cell of its start day; in particular a bar is drawn
   * for every such task, whenever it was created.
   */
  lemma {:induction false} BarInExactlyOneCell(t: ClientTask, y: int, m: int, day: int)
    requires 0 <= m < 12 && IsRelevant(t, y, m)
    requires Clock.DayOf(t.createdAt) <= Clock.DayOf(t.dueAt.ms)
    requires 1 <= day <= Clock.DaysInMonth(y, m)
    ensures BarShown(t, y, m, day) <==> day == BarStartDay(t, y, m) - Clock.FirstDay(y, m) + 1
    ensures 1 <= BarStartDay(t, y, m) - Clock.FirstDay(y, m) + 1 <= Clock.DaysInMonth(y, m)
  {
    RelevantByDays(t, y, m);
    CellDateDay(y, m, day);
    ShouldShowByDays(t, CellDate(y, m, day));
  }

  /** Where the bar is drawn anyway, the corrected choice agrees with the code. */
  lemma CorrectedAgreesWithinMonth(t: ClientTask, y: int, m: int, day: int)
    requires 0 <= m < 12 && HasDue(t)
    requires Clock.FirstDay(y, m) <= Clock.DayOf(t.createdAt)
    ensures BarShown(t, y, m, day) <==> AsWrittenBarShown(t, y, m, day)
  {
    BarPositionZeroIffCreationDay(t, CellDate(y, m, day));
  }

  // ---------------------------------------------------------------------------------------
  // renderGantt

  datatype Bar = Bar(widthPercent: int, overdue: bool)

  /** One day cell of a task row: weekend and today shading, and the bar if any. */
  datatype Cell = Cell(weekend: bool, today: bool, bar: Option<Bar>)

  predicate IsWeekend(y: int, m: int, day: int) {
    var w := Clock.Weekday(Clock.MakeDay(y, m, day));
    w == 0 || w == 6
  }

  predicate IsToday(y: int, m: int, day: int, now: int) {
    var c := Clock.CivilOf(now);
    c.year == y && c.month == m && c.date == day
  }

  /**
   * Which cell gets the bar: as written, the cell where the bar position is 0
   * (`AsWrittenBarShown`); corrected, the cell where the clipped span starts (`BarShown`).
   */
  datatype Placement = AsWrittenPlacement | ClippedStart

  predicate BarIn(placement: Placement, t: ClientTask, y: int, m: int, day: int)
    requires 0 <= m < 12 && HasDue(t)
  {
    if placement.AsWrittenPlacement? then AsWrittenBarShown(t, y, m, day) else BarShown(t, y, m, day)
  }

  /** The bar of a task: its width, and red when past due and not completed. */
  function BarOf(t: ClientTask, y: int, m: int, daysInMonth: int, now: int): Bar
    requires 0 <= m < 12 && HasDue(t)
  {
    Bar(CalculateBarWidth(t, y, m, daysInMonth), t.dueAt.ms < now && !IsCompleted(t))
  }

  /** The cell of day `day` in the row of `t`. */
  function CellOf(t: ClientTask, y: int, m: int, daysInMonth: int, day: int, now: int, placement: Placement): Cell
    requires 0 <= m < 12 && HasDue(t)
  {
    var bar := if BarIn(placement, t, y, m, day) then Some(BarOf(t, y, m, daysInMonth, now)) else None;
    Cell(IsWeekend(y, m, day), IsToday(y, m, day, now), bar)
  }

  /** The cells of days 1 to `count` of the row of `t`, in order: cell `k` is day `k + 1`. */
  function RowCells(t: ClientTask, y: int, m: int, daysInMonth: int, now: int, count: nat, placement: Placement)
    : (r: seq<Cell>)
    requires 0 <= m < 12 && HasDue(t)
    ensures |r| == count
  {
    if count == 0 then []
    else RowCells(t, y, m, daysInMonth, now, count - 1, placement) + [CellOf(t, y, m, daysInMonth, count, now, placement)]
  }

  /** Cell `k` of a row is the cell of day `k + 1`: shading of that day, and the bar where it is placed. */
  lemma {:induction false} RowCellAt(t: ClientTask, y: int, m: int, daysInMonth: int, now: int, count: nat,
                                     placement: Placement, k: nat)
    requires 0 <= m < 12 && HasDue(t) && k < count
    ensures var c := RowCells(t, y, m, daysInMonth, now, count, placement)[k];
      && c.weekend == IsWeekend(y, m, k + 1) && c.today == IsToday(y, m, k + 1, now)
      && (c.bar.Some? <==> BarIn(placement, t, y, m, k + 1))
      && (c.bar.Some? ==> c.bar.value == BarOf(t, y, m, daysInMonth, now))
  {
    RowCellIsCellOf(t, y, m, daysInMonth, now, count, placement, k);
  }

  lemma {:induction false} RowCellIsCellOf(t: ClientTask, y: int, m: int, daysInMonth: int, now: int, count: nat,
                                           placement: Placement, k: nat)
    requires 0 <= m < 12 && HasDue(t) && k < count
    ensures RowCells(t, y, m, daysInMonth, now, count, placement)[k] == CellOf(t, y, m, daysInMonth, k + 1, now, placement)
  {
    var prev := RowCells(t, y, m, daysInMonth, now, count - 1, placement);
    var last := CellOf(t, y, m, daysInMonth, count, now, placement);
    assert RowCells(t, y, m, daysInMonth, now, count, placement) == prev + [last];
    if k < count - 1 {
      RowCellIsCellOf(t, y, m, daysInMonth, now, count - 1, placement, k);
      assert (prev + [last])[k] == prev[k];
    } else {
      assert k + 1 == count;
      assert (prev + [last])[k] == last;
    }
  }

  /**
   * As written, the row of a relevant task created before the shown month has no bar in
   * any of its cells.
   */
  lemma AsWrittenRowWithoutBar(t: ClientTask, y: int, m: int, now: int, k: nat)
    requires 0 <= m < 12 && HasDue(t)
    requires Clock.DayOf(t.createdAt) < Clock.FirstDay(y, m)
    requires k < Clock.DaysInMonth(y, m)
    ensures var n := Clock.DaysInMonth(y, m);
      RowCells(t, y, m, n, now, n, AsWrittenPlacement)[k].bar.None?
  {
    var n := Clock.DaysInMonth(y, m);
    RowCellAt(t, y, m, n, now, n, AsWrittenPlacement, k);
    AsWrittenNoBarWhenCreatedEarlier(t, y, m, k + 1);
  }

  /**
   * Corrected, the row of every relevant task whose span runs forward from creation holds
   * its bar in exactly one cell: the cell of the day its clipped span starts.
   */
  lemma CorrectedRowHasOneBar(t: ClientTask, y: int, m: int, now: int, k: nat)
    requires 0 <= m < 12 && IsRelevant(t, y, m)
    requires Clock.DayOf(t.createdAt) <= Clock.DayOf(t.dueAt.ms)
    requires k < Clock.DaysInMonth(y, m)
    ensures var n := Clock.DaysInMonth(y, m);
      && BarStartDay(t, y, m) - Clock.FirstDay(y, m) < n
      && (RowCells(t, y, m, n, now, n, ClippedStart)[k].bar.Some? <==> k == BarStartDay(t, y, m) - Clock.FirstDay(y, m))
  {
    var n := Clock.DaysInMonth(y, m);
    RowCellAt(t, y, m, n, now, n, ClippedStart, k);
    BarInExactlyOneCell(t, y, m, k + 1);
  }

  /** The inner `for` loop: one cell per day of the month, in order. */
  method RenderRow(t: ClientTask, y: int, m: int, daysInMonth: nat, now: int, placement: Placement)
    returns (row: seq<Cell>)
    requires 0 <= m < 12 && HasDue(t)
    ensures row == RowCells(t, y, m, daysInMonth, now, daysInMonth, placement)
  {
    row := [];
    var day := 1;
    while day <= daysInMonth
      invariant 1 <= day <= daysInMonth + 1
      invariant row == RowCells(t, y, m, daysInMonth, now, day - 1, placement)
    {
      var cell := CellOf(t, y, m, daysInMonth, day, now, placement);
      row := row + [cell];
      day := day + 1;
    }
  }

  /** `relevantTasks` after its sort: the relevant tasks, ordered by due time. */
  method SelectRelevant(tasks: seq<ClientTask>, y: int, m: int) returns (shown: seq<ClientTask>)
    requires 0 <= m < 12
    ensures multiset(shown) == multiset(RelevantTasks(tasks, y, m))
    ensures forall i :: 0 <= i < |shown| ==> IsRelevant(shown[i], y, m)
    ensures forall i :: 0 <= i < |shown| ==> HasDue(shown[i])
    ensures forall i, j :: 0 <= i < j < |shown| ==> shown[i].dueAt.ms <= shown[j].dueAt.ms
    ensures DueOrder.KeepsTieOrder(shown, RelevantTasks(tasks, y, m))
  {
    var relevant := RelevantTasks(tasks, y, m);
    shown := DueOrder.SortByDue(relevant);
    forall i | 0 <= i < |shown| ensures IsRelevant(shown[i], y, m) {
      assert shown[i] in multiset(relevant);
      FilterMembers(tasks, t => IsRelevant(t, y, m), shown[i]);
    }
  }

  /** The `forEach` over the relevant tasks: one row of cells per task, in order. */
  method RenderRows(shown: seq<ClientTask>, y: int, m: int, daysInMonth: nat, now: int, placement: Placement)
    returns (rows: seq<seq<Cell>>)
    requires 0 <= m < 12
    requires forall i :: 0 <= i < |shown| ==> HasDue(shown[i])
    ensures |rows| == |shown|
    ensures forall i :: 0 <= i < |rows| ==>
      rows[i] == RowCells(shown[i], y, m, daysInMonth, now, daysInMonth, placement)
  {
    rows := [];
    var i := 0;
    while i < |shown|
      invariant 0 <= i <= |shown|
      invariant |rows| == i
      invariant forall j :: 0 <= j < i ==> rows[j] == RowCells(shown[j], y, m, daysInMonth, now, daysInMonth, placement)
    {
      var row := RenderRow(shown[i], y, m, daysInMonth, now, placement);
      rows := rows + [row];
      i := i + 1;
    }
  }

  /**
   * `renderGantt` for the month of `currentDate`: the relevant open tasks sorted by due
   * time, each with its row of cells. No tasks means the empty-month message. The page as
   * written is `placement == AsWrittenPlacement`.
   */
  method RenderGantt(tasks: seq<ClientTask>, currentDate: int, now: int, placement: Placement)
    returns (shown: seq<ClientTask>, rows: seq<seq<Cell>>)
    ensures var c := Clock.CivilOf(currentDate);
      && multiset(shown) == multiset(RelevantTasks(tasks, c.year, c.month))
      && (forall i :: 0 <= i < |shown| ==> IsRelevant(shown[i], c.year, c.month))
      && (forall i, j :: 0 <= i < j < |shown| ==> shown[i].dueAt.ms <= shown[j].dueAt.ms)
      && DueOrder.KeepsTieOrder(shown, RelevantTasks(tasks, c.year, c.month))
      && |rows| == |shown|
      && forall i :: 0 <= i < |rows| ==>
        var n := Clock.DaysInMonth(c.year, c.month);
        rows[i] == RowCells(shown[i], c.year, c.month, n, now, n, placement)
  {
    var c := Clock.CivilOf(currentDate);
    var y, m := c.year, c.month;
    var daysInMonth := Clock.MonthLengthByDayZero(y, m);
    shown := SelectRelevant(tasks, y, m);
    rows := RenderRows(shown, y, m, daysInMonth, now, placement);
  }

  // ---------------------------------------------------------------------------------------
  // Navigation

  /** The page's state: the date whose month is shown. */
  class GanttView {
    var currentDate: int

    constructor(now: int)
      ensures currentDate == now
    {
      currentDate := now;
    }

    /** `currentDate.setMonth(currentDate.getMonth() + direction)`. */
    method NavigateMonth(direction: int)
      modifies this
      ensures currentDate == Clock.AddMonths(old(currentDate), direction)
    {
      currentDate := Clock.AddMonths(currentDate, direction);
    }

    /** `currentDate = new Date()`. */
    method GoToToday(now: int)
      modifies this
      ensures currentDate == now
    {
      currentDate := now;
    }
  }
}
