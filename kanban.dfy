/**
 * The kanban page (`static/kanban.js`): the four columns a dated task can fall into, each
 * card's overdue flag, and the "Due in ..." / "Overdue by ..." text of a card. The sort of
 * `loadTasks` is `DueOrder.SortByDue`.
 */
module Kanban {
  import opened Basics
  import opened ClientTask
  import Clock

  // ---------------------------------------------------------------------------------------
  // Decimal numerals, as a template literal prints a count

  function DigitChar(d: nat): (c: char)
    requires d < 10
    ensures '0' <= c <= '9'
  {
    "0123456789"[d]
  }

  function DigitValue(c: char): nat
    requires '0' <= c <= '9'
  {
    (c as int - '0' as int) as nat
  }

  /** `${n}` for a non-negative integer: its decimal digits, without leading zeros. */
  function NatToString(n: nat): (r: string)
    ensures |r| >= 1
    ensures forall k :: 0 <= k < |r| ==> '0' <= r[k] <= '9'
    ensures r[0] == '0' ==> n == 0 && |r| == 1
  {
    if n < 10 then [DigitChar(n)] else NatToString(n / 10) + [DigitChar(n % 10)]
  }

  /** The number a string of decimal digits denotes. */
  function DigitsValue(s: string): nat
    requires forall k :: 0 <= k < |s| ==> '0' <= s[k] <= '9'
  {
    if s == [] then 0 else DigitsValue(s[..|s| - 1]) * 10 + DigitValue(s[|s| - 1])
  }

  /** The numeral reads back as the number it was printed from. */
  lemma {:induction false} NatToStringRoundTrip(n: nat)
    ensures DigitsValue(NatToString(n)) == n
  {
    var r := NatToString(n);
    if n < 10 {
      DigitRoundTrip(n);
    } else {
      NatToStringRoundTrip(n / 10);
      assert r == NatToString(n / 10) + [DigitChar(n % 10)];
      assert r[..|r| - 1] == NatToString(n / 10);
      DigitRoundTrip(n % 10);
    }
  }

  /** A digit character reads back as its digit. */
  lemma DigitRoundTrip(d: nat)
    requires d < 10
    ensures DigitValue(DigitChar(d)) == d
  {
    assert "0123456789"[d] as int - '0' as int == d;
  }

  // ---------------------------------------------------------------------------------------
  // getDueText

  function Abs(x: int): nat {
    if x < 0 then -x else x
  }

  /** Whole days, then hours and minutes of the remainder, of a time difference. */
  datatype Parts = Parts(days: nat, hours: nat, minutes: nat)

  /** What is left of `a` past whole hours is what is left past whole days, then whole hours. */
  lemma SplitRemainder(a: nat)
    ensures a % Clock.HourMs == (a % Clock.DayMs) % Clock.HourMs
    ensures a == (a / Clock.DayMs) * Clock.DayMs + ((a % Clock.DayMs) / Clock.HourMs) * Clock.HourMs
      + ((a % Clock.HourMs) / Clock.MinuteMs) * Clock.MinuteMs + (a % Clock.HourMs) % Clock.MinuteMs
  {
    var rd := a % 86400000;
    var h := rd / 3600000;
    var rh := rd % 3600000;
    assert a == (a / 86400000) * 86400000 + rd;
    assert rd == h * 3600000 + rh;
    assert a == ((a / 86400000) * 24 + h) * 3600000 + rh;
    assert a % 3600000 == rh;
    assert rh == (rh / 60000) * 60000 + rh % 60000;
  }

  /** The three `Math.floor` expressions of `getDueText` over `Math.abs(diffMs)`. */
  function Decompose(diffMs: int): (p: Parts)
    ensures p.hours < 24 && p.minutes < 60
    ensures var total := p.days * Clock.DayMs + p.hours * Clock.HourMs + p.minutes * Clock.MinuteMs;
      total <= Abs(diffMs) < total + Clock.MinuteMs
  {
    var a := Abs(diffMs);
    var p := Parts(a / Clock.DayMs, (a % Clock.DayMs) / Clock.HourMs, (a % Clock.HourMs) / Clock.MinuteMs);
    SplitRemainder(a);
    p
  }

  datatype Unit = Day | Hour | Minute

  /** What a card's due text says: which way, how many, of what. */
  datatype DueText = DueText(overdue: bool, count: nat, unit: Unit)

  /** The largest non-zero unit wins; minutes are used when both larger ones are zero. */
  function Describe(diffMs: int): DueText {
    var p := Decompose(diffMs);
    if p.days > 0 then DueText(diffMs < 0, p.days, Day)
    else if p.hours > 0 then DueText(diffMs < 0, p.hours, Hour)
    else DueText(diffMs < 0, p.minutes, Minute)
  }

  function UnitName(u: Unit): string {
    match u
    case Day => "day"
    case Hour => "hour"
    case Minute => "minute"
  }

  function Render(t: DueText): string {
    (if t.overdue then "Overdue by " else "Due in ") + NatToString(t.count) + " " + UnitName(t.unit)
      + (if t.count > 1 then "s" else "")
  }

  /** `getDueText(dueAt)` at instant `now`: empty without a due time. */
  function GetDueText(dueAt: JsTime, now: int): string {
    if !Truthy(dueAt) then "" else Render(Describe(dueAt.ms - now))
  }

  /** The unit follows the size of the difference; the count is whole units, rounded down. */
  lemma DescribeUnit(diffMs: int)
    ensures var t := Describe(diffMs);
      && (t.unit == Day <==> Abs(diffMs) >= Clock.DayMs)
      && (t.unit == Hour <==> Clock.HourMs <= Abs(diffMs) < Clock.DayMs)
      && (t.unit == Minute <==> Abs(diffMs) < Clock.HourMs)
      && (t.unit == Day ==> t.count == Abs(diffMs) / Clock.DayMs)
      && (t.unit == Hour ==> t.count == Abs(diffMs) / Clock.HourMs)
      && (t.unit == Minute ==> t.count == Abs(diffMs) / Clock.MinuteMs)
      && (t.overdue <==> diffMs < 0)
  {
    var a := Abs(diffMs);
    if a < Clock.DayMs {
      assert a % Clock.DayMs == a;
    }
    if a < Clock.HourMs {
      assert a % Clock.HourMs == a;
    }
  }

  /** A text is empty exactly when there is no due time. */
  lemma {:induction false} DueTextEmptyIffNoDue(dueAt: JsTime, now: int)
    ensures GetDueText(dueAt, now) == "" <==> !Truthy(dueAt)
  {
    if Truthy(dueAt) {
      var t := Describe(dueAt.ms - now);
      var prefix := if t.overdue then "Overdue by " else "Due in ";
      assert |Render(t)| >= |prefix|;
    }
  }

  /** A rendered text starts with "Overdue by" exactly when it describes an overdue task. */
  lemma RenderOverduePrefix(t: DueText)
    ensures "Overdue by" <= Render(t) <==> t.overdue
  {
    var text := Render(t);
    if t.overdue {
      assert text[..10] == "Overdue by" by {
        forall i | 0 <= i < 10 ensures text[i] == "Overdue by "[i] { }
      }
    } else {
      assert text[0] == "Due in "[0] == 'D';
    }
  }

  /** The text starts with "Overdue by" exactly when the due time has passed. */
  lemma OverdueIffPast(due: int, now: int)
    ensures "Overdue by" <= GetDueText(At(due), now) <==> due < now
  {
    RenderOverduePrefix(Describe(due - now));
  }

  /** The text ends in "s" exactly when the count is more than one. */
  lemma {:induction false} PluralIffMoreThanOne(dueAt: JsTime, now: int)
    requires Truthy(dueAt)
    ensures var text := GetDueText(dueAt, now);
      text[|text| - 1] == 's' <==> Describe(dueAt.ms - now).count > 1
  {
    var t := Describe(dueAt.ms - now);
    var text := GetDueText(dueAt, now);
    var name := UnitName(t.unit);
    if t.count <= 1 {
      assert text[|text| - 1] == name[|name| - 1];
    }
  }

  /** Due right now reads "Due in 0 minute". */
  lemma DueNowText(now: int)
    ensures GetDueText(At(now), now) == "Due in 0 minute"
  {
    assert Decompose(0) == Parts(0, 0, 0);
  }

  // ---------------------------------------------------------------------------------------
  // The columns of renderKanban

  datatype Column = Upcoming | Today | Overdue | Completed

  /** `new Date(y, m, d, 23, 59, 59)` for today's date: one second before the next midnight. */
  function EndOfToday(now: int): (r: int)
    ensures r == Clock.DayOf(now) * Clock.DayMs + Clock.DayMs - Clock.SecondMs
  {
    var c := Clock.CivilOf(now);
    Clock.CivilRoundTrip(c);
    Clock.MakeTime(c.year, c.month, c.date, 23, 59, 59, 0)
  }

  /** The column of a task, if any: completed first, then overdue, today, upcoming. */
  function ColumnOf(t: ClientTask, now: int): Option<Column> {
    if !HasDue(t) then None
    else if IsCompleted(t) then Some(Completed)
    else if t.dueAt.ms < now then Some(Overdue)
    else if t.dueAt.ms <= EndOfToday(now) then Some(Today)
    else Some(Upcoming)
  }

  /**
   * An open task is in the Today column exactly when it is due from now until 23:59:59.000
   * of today's date; a due time in the last second of the day goes to Upcoming.
   */
  lemma TodayColumnMeaning(t: ClientTask, now: int)
    requires HasDue(t) && !IsCompleted(t)
    ensures ColumnOf(t, now) == Some(Today) <==>
      now <= t.dueAt.ms && Clock.DayOf(t.dueAt.ms) == Clock.DayOf(now) &&
      Clock.TimeOfDay(t.dueAt.ms) <= Clock.DayMs - Clock.SecondMs
  {
    var d := t.dueAt.ms;
    var _ := Clock.TimeOfDay(d);
    var _ := Clock.TimeOfDay(now);
  }

  /** The tasks of one column, in list order. */
  function InColumn(ts: seq<ClientTask>, c: Column, now: int): seq<ClientTask> {
    if ts == [] then []
    else
      var last := ts[|ts| - 1];
      InColumn(ts[..|ts| - 1], c, now) + (if ColumnOf(last, now) == Some(c) then [last] else [])
  }

  /** The tasks that have a due time, in list order. */
  function Dated(ts: seq<ClientTask>): seq<ClientTask> {
    if ts == [] then [] else Dated(ts[..|ts| - 1]) + (if HasDue(ts[|ts| - 1]) then [ts[|ts| - 1]] else [])
  }

  /** A column holds exactly the listed tasks that classify into it. */
  lemma {:induction false} InColumnMembers(ts: seq<ClientTask>, c: Column, now: int, t: ClientTask)
    ensures t in InColumn(ts, c, now) <==> t in ts && ColumnOf(t, now) == Some(c)
  {
    if ts != [] {
      var init := ts[..|ts| - 1];
      InColumnMembers(init, c, now, t);
      assert ts == init + [ts[|ts| - 1]];
    }
  }

  /** The four columns together hold every dated task exactly once, and nothing else. */
  lemma {:induction false} ColumnsPartitionDated(ts: seq<ClientTask>, now: int)
    ensures multiset(InColumn(ts, Upcoming, now)) + multiset(InColumn(ts, Today, now))
      + multiset(InColumn(ts, Overdue, now)) + multiset(InColumn(ts, Completed, now))
      == multiset(Dated(ts))
  {
    if ts != [] {
      ColumnsPartitionDated(ts[..|ts| - 1], now);
    }
  }

  lemma InColumnSnoc(ts: seq<ClientTask>, i: nat, c: Column, now: int)
    requires i < |ts|
    ensures InColumn(ts[..i + 1], c, now) ==
      InColumn(ts[..i], c, now) + (if ColumnOf(ts[i], now) == Some(c) then [ts[i]] else [])
  {
    assert ts[..i + 1][..i] == ts[..i];
  }

  /** `renderKanban`'s `forEach`: each dated task is pushed onto the column it classifies into. */
  method RenderKanban(tasks: seq<ClientTask>, now: int)
    returns (upcoming: seq<ClientTask>, today: seq<ClientTask>, overdue: seq<ClientTask>, completed: seq<ClientTask>)
    ensures upcoming == InColumn(tasks, Upcoming, now)
    ensures today == InColumn(tasks, Today, now)
    ensures overdue == InColumn(tasks, Overdue, now)
    ensures completed == InColumn(tasks, Completed, now)
  {
    upcoming, today, overdue, completed := [], [], [], [];
    var endOfToday := EndOfToday(now);
    var i := 0;
    while i < |tasks|
      invariant 0 <= i <= |tasks|
      invariant upcoming == InColumn(tasks[..i], Upcoming, now)
      invariant today == InColumn(tasks[..i], Today, now)
      invariant overdue == InColumn(tasks[..i], Overdue, now)
      invariant completed == InColumn(tasks[..i], Completed, now)
    {
      var task := tasks[i];
      InColumnSnoc(tasks, i, Upcoming, now);
      InColumnSnoc(tasks, i, Today, now);
      InColumnSnoc(tasks, i, Overdue, now);
      InColumnSnoc(tasks, i, Completed, now);
      if Truthy(task.dueAt) {
        var dueDate := task.dueAt.ms;
        if Truthy(task.completedAt) {
          completed := completed + [task];
        } else if dueDate < now {
          overdue := overdue + [task];
        } else if dueDate <= endOfToday {
          today := today + [task];
        } else {
          upcoming := upcoming + [task];
        }
      }
      i := i + 1;
    }
    assert tasks[..i] == tasks;
  }

  /** `createKanbanCard`'s overdue flag: a due time, not completed, and already past. */
  predicate IsCardOverdue(t: ClientTask, now: int) {
    HasDue(t) && !IsCompleted(t) && t.dueAt.ms < now
  }

  /** A card is flagged overdue exactly when, at the same instant, it sits in the Overdue column. */
  lemma CardOverdueIffOverdueColumn(t: ClientTask, now: int)
    ensures IsCardOverdue(t, now) <==> ColumnOf(t, now) == Some(Overdue)
  {
  }
}
