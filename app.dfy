/**
 * The list page (`static/app.js`): its cycle table and overdue test, the guard on new task
 * text, which rows `renderTasks` shows, and the page's local copy of the task list, which
 * repeats the server's completion and deletion rules after each successful request.
 *
 * The page tests completion with `completedAt !== null` (`IsTaskCompleted`), but a task the
 * server holds open arrives with no `completedAt` at all. Each operation that tests
 * completion therefore takes a `Reading`: `AsWritten` is the page as it stands,
 * `ByTruthiness` the reading that agrees with the server.
 */
module App {
  import opened Basics
  import opened ClientTask
  import ServerStore
  import ServerStoreTs
  import Sorting
  import Clock

  // ---------------------------------------------------------------------------------------
  // Cycles and overdue status

  /** `convertCycleToMilliseconds`: the recognised tokens' durations, 0 for anything else. */
  function ConvertCycleToMilliseconds(cycle: string): (r: int)
    ensures r >= 0
  {
    var minuteMs := 60 * 1000;
    var hourMs := 60 * minuteMs;
    var dayMs := 24 * hourMs;
    var weekMs := 7 * dayMs;
    var monthMs := 30 * dayMs;
    if cycle == "5m" then 5 * minuteMs
    else if cycle == "1h" then hourMs
    else if cycle == "4h" then 4 * hourMs
    else if cycle == "12h" then 12 * hourMs
    else if cycle == "1d" then dayMs
    else if cycle == "3d" then 3 * dayMs
    else if cycle == "1w" then weekMs
    else if cycle == "1m" then monthMs
    else if cycle == "3m" then 3 * monthMs
    else 0
  }

  /**
   * The page's table agrees with the `main-ts.go` server's on every token the server knows
   * (including "", which both map to 0), and is 0 exactly off that table or on "".
   */
  lemma CycleTablesAgree(cycle: string)
    ensures cycle in ServerStoreTs.CycleDurations ==>
      ConvertCycleToMilliseconds(cycle) == ServerStoreTs.CycleDurations[cycle]
    ensures ConvertCycleToMilliseconds(cycle) == 0 <==>
      cycle == "" || cycle !in ServerStoreTs.CycleDurations
  {
    ServerStoreTs.CycleDurationsInMs();
    if cycle in ServerStoreTs.CycleDurations {
      assert cycle in {"5m", "1h", "4h", "12h", "1d", "3d", "1w", "1m", "3m", ""};
    }
  }

  /** `isTaskOverdue`: a task with a cycle is overdue once more than its cycle has elapsed. */
  predicate IsTaskOverdue(task: ClientTask, now: int) {
    task.cycle != "" && now - task.createdAt > ConvertCycleToMilliseconds(task.cycle)
  }

  /**
   * For a token the server recognises, the page's overdue test is "past the due time the
   * `main-ts.go` server computes", strictly.
   */
  lemma OverdueIffPastServerDue(task: ClientTask, now: int)
    requires task.cycle != "" && task.cycle in ServerStoreTs.CycleDurations
    ensures ServerStoreTs.CalculateDueAt(task.createdAt, task.cycle).Some?
    ensures IsTaskOverdue(task, now) <==>
      now > ServerStoreTs.CalculateDueAt(task.createdAt, task.cycle).value
  {
    CycleTablesAgree(task.cycle);
  }

  /**
   * For a token neither table knows, the page calls a task overdue as soon as any time has
   * passed, while the `main-ts.go` server gives it a day.
   */
  lemma UnknownCycleOverdueAtOnce(task: ClientTask, now: int)
    requires task.cycle != "" && task.cycle !in ServerStoreTs.CycleDurations
    ensures IsTaskOverdue(task, now) <==> now > task.createdAt
    ensures ServerStoreTs.CalculateDueAt(task.createdAt, task.cycle) ==
      Some(task.createdAt + Clock.DayMs)
  {
    CycleTablesAgree(task.cycle);
  }

  /** `isTaskCompleted` as written: anything but an explicit `null` counts as completed. */
  predicate IsTaskCompleted(task: ClientTask) {
    task.completedAt != Null
  }

  /**
   * As written, every task received from the server counts as completed, whatever its
   * state there: an incomplete task's `completedAt` key is absent, not `null`.
   */
  lemma {:induction false} ReceivedTasksCountCompleted(ts: seq<ServerStore.Task>, k: nat)
    requires k < |ts| && ts[k].completedAt.None?
    ensures IsTaskCompleted(FromServer(ts[k]))
    ensures !IsCompleted(FromServer(ts[k]))
  {
  }

  /** Read by truthiness, a received task is completed exactly when the server says so. */
  lemma ReceivedCompletionByTruthiness(t: ServerStore.Task)
    ensures IsCompleted(FromServer(t)) <==> t.completedAt.Some?
    ensures IsCompleted(FromServer(t)) <==> IsTaskCompleted(FromServer(t)) && t.completedAt.Some?
  {
  }

  /**
   * How the page decides that a task is completed: as written, by `completedAt !== null`
   * (`IsTaskCompleted`), or by the truthiness of `completedAt` (`IsCompleted`), which is what
   * the server's own state means.
   */
  datatype Reading = AsWritten | ByTruthiness

  predicate CompletedUnder(reading: Reading, t: ClientTask) {
    if reading.AsWritten? then IsTaskCompleted(t) else IsCompleted(t)
  }

  /** The overdue badge: a cycle, not completed, and overdue. */
  predicate ShowsOverdueBadge(task: ClientTask, now: int, reading: Reading) {
    task.cycle != "" && !CompletedUnder(reading, task) && IsTaskOverdue(task, now)
  }

  /**
   * As written, no received task ever shows the badge. Read by truthiness, a received task
   * shows it exactly when the server holds it open past its cycle.
   */
  lemma BadgeOfReceivedTask(t: ServerStore.Task, now: int)
    ensures !ShowsOverdueBadge(FromServer(t), now, AsWritten)
    ensures ShowsOverdueBadge(FromServer(t), now, ByTruthiness) <==>
      t.cycle != "" && t.completedAt.None? && now - t.createdAt > ConvertCycleToMilliseconds(t.cycle)
  {
  }

  // ---------------------------------------------------------------------------------------
  // The guard on new task text

  /** ECMAScript white space and line terminators: what `String.prototype.trim` removes. */
  predicate IsJsSpace(c: char) {
    c == '\U{0009}' || c == '\U{000B}' || c == '\U{000C}' || c == ' ' || c == '\U{00A0}'
    || c == '\U{FEFF}' || c == '\U{000A}' || c == '\U{000D}' || c == '\U{2028}' || c == '\U{2029}'
    || c == '\U{1680}' || ('\U{2000}' <= c <= '\U{200A}') || c == '\U{202F}' || c == '\U{205F}'
    || c == '\U{3000}'
  }

  /** Where `s.trim()` starts: the first index at or after `i` that is not white space. */
  function TrimStartIndex(s: string, i: nat): (r: nat)
    requires i <= |s|
    ensures i <= r <= |s|
    ensures forall k :: i <= k < r ==> IsJsSpace(s[k])
    ensures r < |s| ==> !IsJsSpace(s[r])
    decreases |s| - i
  {
    if i < |s| && IsJsSpace(s[i]) then TrimStartIndex(s, i + 1) else i
  }

  /** Where `s.trim()` ends: white space stepped back over from `j`, down to `a` at most. */
  function TrimEndIndex(s: string, a: nat, j: nat): (r: nat)
    requires a <= j <= |s|
    ensures a <= r <= j
    ensures forall k :: r <= k < j ==> IsJsSpace(s[k])
    ensures a < r ==> !IsJsSpace(s[r - 1])
  {
    if a < j && IsJsSpace(s[j - 1]) then TrimEndIndex(s, a, j - 1) else j
  }

  /** `s.trim()`: `s` without its leading and trailing white space. */
  function Trim(s: string): string {
    var a := TrimStartIndex(s, 0);
    s[a..TrimEndIndex(s, a, |s|)]
  }

  /**
   * `s.trim()` is the slice of `s` left between leading and trailing runs of white space,
   * and it neither starts nor ends with white space.
   */
  lemma TrimIsSlice(s: string)
    ensures var a, r := TrimStartIndex(s, 0), Trim(s);
      && a + |r| <= |s| && r == s[a..a + |r|]
      && (forall k :: 0 <= k < a ==> IsJsSpace(s[k]))
      && (forall k :: a + |r| <= k < |s| ==> IsJsSpace(s[k]))
      && (r != [] ==> !IsJsSpace(r[0]) && !IsJsSpace(r[|r| - 1]))
  {
    var a := TrimStartIndex(s, 0);
    var e := TrimEndIndex(s, a, |s|);
    assert Trim(s) == s[a..e];
    if a < e {
      assert Trim(s)[0] == s[a];
      assert Trim(s)[e - a - 1] == s[e - 1];
    }
  }

  /** `s.trim()` is empty exactly when `s` is all white space. */
  lemma TrimEmptyIffAllSpace(s: string)
    ensures Trim(s) == [] <==> forall k :: 0 <= k < |s| ==> IsJsSpace(s[k])
  {
    var a := TrimStartIndex(s, 0);
    var e := TrimEndIndex(s, a, |s|);
    assert Trim(s) == s[a..e];
    if a < |s| {
      assert !IsJsSpace(s[a]);
      assert a < e;
    }
  }

  /**
   * `handleAddTask` and the subtask form submit `input.trim()`, and only when it is not
   * empty: exactly when the input holds a character that is not white space.
   */
  function TextToSubmit(input: string): (r: Option<string>)
    ensures r.Some? <==> exists k :: 0 <= k < |input| && !IsJsSpace(input[k])
    ensures r.Some? ==> r.value == Trim(input) && r.value != []
  {
    TrimEmptyIffAllSpace(input);
    var text := Trim(input);
    if text != [] then Some(text) else None
  }

  // ---------------------------------------------------------------------------------------
  // The rows `renderTasks` shows

  /** One rendered row: a task, or a subtask under its parent. */
  datatype Row = Row(task: ClientTask, isSubtask: bool)

  /** Shown when completed tasks are shown, or when it is not completed. */
  predicate Visible(t: ClientTask, showCompleted: bool, reading: Reading) {
    showCompleted || !CompletedUnder(reading, t)
  }

  /** The rows of a parent's visible subtasks, in order. */
  function SubRows(subs: seq<ClientTask>, showCompleted: bool, reading: Reading): seq<Row> {
    if subs == [] then []
    else
      var last := subs[|subs| - 1];
      SubRows(subs[..|subs| - 1], showCompleted, reading) +
        (if Visible(last, showCompleted, reading) then [Row(last, true)] else [])
  }

  /** A visible task's row followed by its visible subtasks' rows; nothing for a hidden task. */
  function TaskRows(t: ClientTask, showCompleted: bool, reading: Reading): seq<Row> {
    if Visible(t, showCompleted, reading) then [Row(t, false)] + SubRows(t.subtasks, showCompleted, reading)
    else []
  }

  /** All rows, task by task. */
  function Rows(ts: seq<ClientTask>, showCompleted: bool, reading: Reading): seq<Row> {
    if ts == [] then []
    else Rows(ts[..|ts| - 1], showCompleted, reading) + TaskRows(ts[|ts| - 1], showCompleted, reading)
  }

  lemma {:induction false} SubRowsMembers(subs: seq<ClientTask>, showCompleted: bool, reading: Reading, r: Row)
    ensures r in SubRows(subs, showCompleted, reading) <==>
      r.isSubtask && r.task in subs && Visible(r.task, showCompleted, reading)
  {
    if subs != [] {
      var init := subs[..|subs| - 1];
      SubRowsMembers(init, showCompleted, reading, r);
      assert subs == init + [subs[|subs| - 1]];
    }
  }

  /** Row `r` belongs to task `t`: `t` itself, or a visible subtask of `t`, with `t` visible. */
  predicate ShownFor(t: ClientTask, showCompleted: bool, reading: Reading, r: Row) {
    Visible(t, showCompleted, reading) &&
    (r == Row(t, false) || (r.isSubtask && r.task in t.subtasks && Visible(r.task, showCompleted, reading)))
  }

  lemma TaskRowsMembers(t: ClientTask, showCompleted: bool, reading: Reading, r: Row)
    ensures r in TaskRows(t, showCompleted, reading) <==> ShownFor(t, showCompleted, reading, r)
  {
    SubRowsMembers(t.subtasks, showCompleted, reading, r);
  }

  /**
   * A row is shown exactly for a visible task, or for a visible subtask of a visible task:
   * hiding a completed task hides all of its subtasks with it.
   */
  lemma {:induction false} RowsMembers(ts: seq<ClientTask>, showCompleted: bool, reading: Reading, r: Row)
    ensures r in Rows(ts, showCompleted, reading) <==>
      exists k :: 0 <= k < |ts| && ShownFor(ts[k], showCompleted, reading, r)
  {
    if r in Rows(ts, showCompleted, reading) {
      var k := RowOwner(ts, showCompleted, reading, r);
    }
    if exists k :: 0 <= k < |ts| && ShownFor(ts[k], showCompleted, reading, r) {
      var k :| 0 <= k < |ts| && ShownFor(ts[k], showCompleted, reading, r);
      RowOfOwner(ts, showCompleted, reading, r, k);
    }
  }

  /** Every shown row has a task it belongs to. */
  lemma {:induction false} RowOwner(ts: seq<ClientTask>, showCompleted: bool, reading: Reading, r: Row)
    returns (k: nat)
    requires r in Rows(ts, showCompleted, reading)
    ensures k < |ts| && ShownFor(ts[k], showCompleted, reading, r)
  {
    var n := |ts| - 1;
    var init := ts[..n];
    TaskRowsMembers(ts[n], showCompleted, reading, r);
    if r in Rows(init, showCompleted, reading) {
      k := RowOwner(init, showCompleted, reading, r);
      assert init[k] == ts[k];
    } else {
      k := n;
    }
  }

  /** Every row that belongs to a task is shown. */
  lemma {:induction false} RowOfOwner(ts: seq<ClientTask>, showCompleted: bool, reading: Reading, r: Row, k: nat)
    requires k < |ts| && ShownFor(ts[k], showCompleted, reading, r)
    ensures r in Rows(ts, showCompleted, reading)
  {
    var n := |ts| - 1;
    var init := ts[..n];
    assert Rows(ts, showCompleted, reading) == Rows(init, showCompleted, reading) + TaskRows(ts[n], showCompleted, reading);
    if k < n {
      assert init[k] == ts[k];
      RowOfOwner(init, showCompleted, reading, r, k);
    } else {
      TaskRowsMembers(ts[n], showCompleted, reading, r);
    }
  }

  /**
   * As written, with completed tasks hidden, the page shows nothing at all of a list it
   * received: every received task, open ones included, passes `completedAt !== null`.
   */
  lemma AsWrittenHidesReceivedList(s: seq<ServerStore.Task>)
    ensures Rows(FromServerList(s), false, AsWritten) == []
  {
    var ts := FromServerList(s);
    if Rows(ts, false, AsWritten) != [] {
      var r := Rows(ts, false, AsWritten)[0];
      var k := RowOwner(ts, false, AsWritten, r);
      assert false;
    }
  }

  /**
   * Read by truthiness, with completed tasks hidden, a received task has its row exactly
   * when the server holds it open.
   */
  lemma ReceivedRowsByTruthiness(s: seq<ServerStore.Task>, k: nat)
    requires k < |s|
    ensures Row(FromServer(s[k]), false) in Rows(FromServerList(s), false, ByTruthiness) <==>
      s[k].completedAt.None?
  {
    var ts := FromServerList(s);
    var r := Row(FromServer(s[k]), false);
    RowsMembers(ts, false, ByTruthiness, r);
    if r in Rows(ts, false, ByTruthiness) {
      var p :| 0 <= p < |ts| && ShownFor(ts[p], false, ByTruthiness, r);
      assert ts[p] == FromServer(s[k]);
    } else {
      assert !ShownFor(ts[k], false, ByTruthiness, r);
    }
  }

  lemma RowsSnoc(ts: seq<ClientTask>, i: nat, showCompleted: bool, reading: Reading)
    requires i < |ts|
    ensures Rows(ts[..i + 1], showCompleted, reading) ==
      Rows(ts[..i], showCompleted, reading) + TaskRows(ts[i], showCompleted, reading)
  {
    assert ts[..i + 1][..i] == ts[..i];
  }

  lemma SubRowsSnoc(subs: seq<ClientTask>, j: nat, showCompleted: bool, reading: Reading)
    requires j < |subs|
    ensures SubRows(subs[..j + 1], showCompleted, reading) ==
      SubRows(subs[..j], showCompleted, reading) +
        (if Visible(subs[j], showCompleted, reading) then [Row(subs[j], true)] else [])
  {
    assert subs[..j + 1][..j] == subs[..j];
  }

  /** The inner `forEach` of `renderTasks`: a shown task's visible subtasks, in order. */
  method RenderSubtasks(subs: seq<ClientTask>, showCompleted: bool, reading: Reading) returns (rows: seq<Row>)
    ensures rows == SubRows(subs, showCompleted, reading)
  {
    rows := [];
    var j := 0;
    while j < |subs|
      invariant 0 <= j <= |subs|
      invariant rows == SubRows(subs[..j], showCompleted, reading)
    {
      SubRowsSnoc(subs, j, showCompleted, reading);
      if Visible(subs[j], showCompleted, reading) {
        rows := rows + [Row(subs[j], true)];
      }
      j := j + 1;
    }
    assert subs[..j] == subs;
  }

  /**
   * `renderTasks`: walks the list, emitting each shown task's row and then its subtasks'.
   * The page as written is `reading == AsWritten`.
   */
  method RenderTasks(ts: seq<ClientTask>, showCompleted: bool, reading: Reading) returns (rows: seq<Row>)
    ensures rows == Rows(ts, showCompleted, reading)
  {
    rows := [];
    var i := 0;
    while i < |ts|
      invariant 0 <= i <= |ts|
      invariant rows == Rows(ts[..i], showCompleted, reading)
    {
      var task := ts[i];
      RowsSnoc(ts, i, showCompleted, reading);
      if Visible(task, showCompleted, reading) {
        var subRows := RenderSubtasks(task.subtasks, showCompleted, reading);
        assert TaskRows(task, showCompleted, reading) == [Row(task, false)] + subRows;
        rows := rows + ([Row(task, false)] + subRows);
      } else {
        assert TaskRows(task, showCompleted, reading) == [];
      }
      i := i + 1;
    }
    assert ts[..i] == ts;
  }

  // ---------------------------------------------------------------------------------------
  // The page's local copy of the list

  /** `array.findIndex(t => t.id === id)`: the first match, or -1. */
  function FindIndex(s: seq<ClientTask>, id: string): (r: int)
    ensures -1 <= r < |s|
    ensures r >= 0 ==> s[r].id == id
    ensures forall k :: 0 <= k < |s| && (r == -1 || k < r) ==> s[k].id != id
  {
    if s == [] then -1
    else if s[0].id == id then 0
    else
      var k := FindIndex(s[1..], id);
      if k == -1 then -1 else k + 1
  }

  /** Where `updateTaskCompletionStatus` finds an identifier. */
  datatype Location = Top(i: nat) | Sub(i: nat, j: nat) | Missing

  /** Each task is tested before its own subtasks, and both before the next task. */
  function LocateFrom(ts: seq<ClientTask>, id: string, k: nat): (r: Location)
    requires k <= |ts|
    ensures r.Top? ==> k <= r.i < |ts| && ts[r.i].id == id
    ensures r.Sub? ==> k <= r.i < |ts| && ts[r.i].id != id && FindIndex(ts[r.i].subtasks, id) == r.j >= 0
    ensures r.Missing? ==> forall p :: k <= p < |ts| ==> ts[p].id != id && FindIndex(ts[p].subtasks, id) == -1
    ensures !r.Missing? ==> forall p :: k <= p < r.i ==> ts[p].id != id && FindIndex(ts[p].subtasks, id) == -1
    decreases |ts| - k
  {
    if k == |ts| then Missing
    else if ts[k].id == id then Top(k)
    else
      var j := FindIndex(ts[k].subtasks, id);
      if j >= 0 then Sub(k, j) else LocateFrom(ts, id, k + 1)
  }

  /** `completedAt` after a local toggle: the current instant, or `null`. */
  function Stamp(completed: bool, now: int): JsTime {
    if completed then At(now) else Null
  }

  /** The `every` test on a parent's subtasks. */
  predicate AllCompleted(s: seq<ClientTask>, reading: Reading) {
    forall k :: 0 <= k < |s| ==> CompletedUnder(reading, s[k])
  }

  /**
   * `updateTaskCompletionStatus` as a function of the list; an unknown id changes nothing.
   * The page as written is `reading == AsWritten`.
   */
  function LocalSetCompletion(ts: seq<ClientTask>, id: string, completed: bool, now: int, reading: Reading)
    : seq<ClientTask>
  {
    match LocateFrom(ts, id, 0)
    case Missing => ts
    case Top(i) => ts[i := ts[i].(completedAt := Stamp(completed, now))]
    case Sub(i, j) =>
      var subs := ts[i].subtasks[j := ts[i].subtasks[j].(completedAt := Stamp(completed, now))];
      ts[i := ts[i].(subtasks := subs, completedAt := if AllCompleted(subs, reading) then At(now) else Null)]
  }

  /** The first task from `k` on having a subtask with `id`. */
  function SubOwnerFrom(ts: seq<ClientTask>, id: string, k: nat): (r: Option<nat>)
    requires k <= |ts|
    ensures r.Some? ==> k <= r.value < |ts| && FindIndex(ts[r.value].subtasks, id) >= 0
    ensures forall p :: k <= p < |ts| && (r.None? || p < r.value) ==> FindIndex(ts[p].subtasks, id) == -1
    decreases |ts| - k
  {
    if k == |ts| then None
    else if FindIndex(ts[k].subtasks, id) >= 0 then Some(k)
    else SubOwnerFrom(ts, id, k + 1)
  }

  /**
   * `removeTaskFromLocalData` as a function of the list: a top-level match anywhere wins;
   * only then is the first subtask match removed; no match changes nothing.
   */
  function LocalRemove(ts: seq<ClientTask>, id: string): seq<ClientTask> {
    var i := FindIndex(ts, id);
    if i >= 0 then ts[..i] + ts[i + 1..]
    else match SubOwnerFrom(ts, id, 0)
      case None => ts
      case Some(k) =>
        var subs := ts[k].subtasks;
        var j := FindIndex(subs, id);
        ts[k := ts[k].(subtasks := subs[..j] + subs[j + 1..])]
  }

  /** The local merge after `addSubtask`: push onto the first top-level task with `parentId`. */
  function LocalAttach(ts: seq<ClientTask>, parentId: string, sub: ClientTask): seq<ClientTask> {
    var i := FindIndex(ts, parentId);
    if i >= 0 then ts[i := ts[i].(subtasks := ts[i].subtasks + [sub])] else ts
  }

  /** A local toggle of a task changes only its `completedAt`; its subtasks stay. */
  lemma LocalSetCompletionOfTask(ts: seq<ClientTask>, id: string, completed: bool, now: int, reading: Reading)
    requires LocateFrom(ts, id, 0).Top?
    ensures var i := LocateFrom(ts, id, 0).i;
      var r := LocalSetCompletion(ts, id, completed, now, reading);
      && |r| == |ts| && ts[i].id == id
      && (CompletedUnder(reading, r[i]) <==> completed)
      && r[i] == ts[i].(completedAt := r[i].completedAt)
      && (forall k :: 0 <= k < |ts| && k != i ==> r[k] == ts[k])
  {
  }

  /**
   * A local toggle of a subtask changes only that subtask, and then its parent is completed
   * exactly when all of the parent's subtasks are, under the same reading. As written, that
   * is: the parent's `completedAt` is non-null exactly when every subtask's is.
   */
  lemma LocalSetCompletionOfSubtask(ts: seq<ClientTask>, id: string, completed: bool, now: int, reading: Reading)
    requires LocateFrom(ts, id, 0).Sub?
    ensures var i, j := LocateFrom(ts, id, 0).i, LocateFrom(ts, id, 0).j;
      var r := LocalSetCompletion(ts, id, completed, now, reading);
      && |r| == |ts| && j < |ts[i].subtasks| && ts[i].subtasks[j].id == id
      && |r[i].subtasks| == |ts[i].subtasks|
      && (CompletedUnder(reading, r[i].subtasks[j]) <==> completed)
      && r[i].subtasks[j] == ts[i].subtasks[j].(completedAt := r[i].subtasks[j].completedAt)
      && (forall q :: 0 <= q < |ts[i].subtasks| && q != j ==> r[i].subtasks[q] == ts[i].subtasks[q])
      && (CompletedUnder(reading, r[i]) <==> AllCompleted(r[i].subtasks, reading))
      && (reading.AsWritten? ==>
            (r[i].completedAt != Null <==>
             forall q :: 0 <= q < |r[i].subtasks| ==> r[i].subtasks[q].completedAt != Null))
      && r[i] == ts[i].(subtasks := r[i].subtasks, completedAt := r[i].completedAt)
      && (forall k :: 0 <= k < |ts| && k != i ==> r[k] == ts[k])
  {
  }

  /** An identifier found nowhere leaves the local list as it was. */
  lemma LocalSetCompletionOfUnknown(ts: seq<ClientTask>, id: string, completed: bool, now: int, reading: Reading)
    requires forall k :: 0 <= k < |ts| ==> ts[k].id != id && forall q :: 0 <= q < |ts[k].subtasks| ==> ts[k].subtasks[q].id != id
    ensures LocalSetCompletion(ts, id, completed, now, reading) == ts
  {
  }

  /**
   * Local removal of a top-level match: it goes (with its subtasks) wherever it is, before
   * any subtask is considered; the other tasks keep their order.
   */
  lemma LocalRemoveTop(ts: seq<ClientTask>, id: string)
    requires FindIndex(ts, id) >= 0
    ensures var i := FindIndex(ts, id);
      var r := LocalRemove(ts, id);
      && ts[i].id == id && |r| == |ts| - 1
      && (forall k :: 0 <= k < i ==> r[k] == ts[k])
      && (forall k :: i <= k < |r| ==> r[k] == ts[k + 1])
  {
  }

  /** With no top-level match, the first matching subtask goes; everything else stays. */
  lemma LocalRemoveSub(ts: seq<ClientTask>, id: string)
    requires FindIndex(ts, id) == -1 && SubOwnerFrom(ts, id, 0).Some?
    ensures var i := SubOwnerFrom(ts, id, 0).value;
      var j := FindIndex(ts[i].subtasks, id);
      var r := LocalRemove(ts, id);
      && ts[i].subtasks[j].id == id && |r| == |ts|
      && r[i] == ts[i].(subtasks := r[i].subtasks)
      && |r[i].subtasks| == |ts[i].subtasks| - 1
      && (forall q :: 0 <= q < j ==> r[i].subtasks[q] == ts[i].subtasks[q])
      && (forall q :: j <= q < |r[i].subtasks| ==> r[i].subtasks[q] == ts[i].subtasks[q + 1])
      && (forall k :: 0 <= k < |ts| && k != i ==> r[k] == ts[k])
  {
  }

  /** An identifier matching nothing leaves the local list as it was. */
  lemma LocalRemoveUnknown(ts: seq<ClientTask>, id: string)
    requires FindIndex(ts, id) == -1 && SubOwnerFrom(ts, id, 0).None?
    ensures LocalRemove(ts, id) == ts
  {
  }

  /**
   * The local merge after `addSubtask`: with no top-level parent the list stays; otherwise
   * exactly the first parent gains the subtask at the end of its list, and nothing else moves.
   */
  lemma LocalAttachEffect(ts: seq<ClientTask>, parentId: string, sub: ClientTask)
    ensures var i := FindIndex(ts, parentId);
      var r := LocalAttach(ts, parentId, sub);
      && (i == -1 ==> r == ts && forall k :: 0 <= k < |ts| ==> ts[k].id != parentId)
      && (i >= 0 ==>
            && ts[i].id == parentId && |r| == |ts|
            && (forall k :: 0 <= k < i ==> ts[k].id != parentId)
            && r[i] == ts[i].(subtasks := ts[i].subtasks + [sub])
            && (forall k :: 0 <= k < |ts| && k != i ==> r[k] == ts[k]))
  {
  }

  // ---------------------------------------------------------------------------------------
  // The local copy agrees with the `main.go` server on completion

  /** Same identifier, and completed by truthiness exactly when the server has a time. */
  predicate SameEntity(c: ClientTask, s: ServerStore.Task) {
    c.id == s.id && (IsCompleted(c) <==> s.completedAt.Some?)
  }

  /** The local list matches the server's, task by task and subtask by subtask. */
  predicate Mirrors(c: seq<ClientTask>, s: seq<ServerStore.Task>) {
    |c| == |s| &&
    forall i :: 0 <= i < |c| ==>
      SameEntity(c[i], s[i]) && |c[i].subtasks| == |s[i].subtasks| &&
      forall j :: 0 <= j < |c[i].subtasks| ==> SameEntity(c[i].subtasks[j], s[i].subtasks[j])
  }

  /** The list the page builds from a response mirrors that response, task by task. */
  lemma ReceivedListMirrors(s: seq<ServerStore.Task>)
    ensures Mirrors(FromServerList(s), s)
  {
    var c := FromServerList(s);
    forall i | 0 <= i < |c|
      ensures SameEntity(c[i], s[i]) && |c[i].subtasks| == |s[i].subtasks|
      ensures forall j :: 0 <= j < |c[i].subtasks| ==> SameEntity(c[i].subtasks[j], s[i].subtasks[j])
    {
      assert c[i] == FromServer(s[i]);
    }
  }

  /** Over lists with the same identifiers, the page searches exactly as the server does. */
  lemma {:induction false} SameSearch(c: seq<ClientTask>, s: seq<ServerStore.Task>, id: string, k: nat)
    requires Mirrors(c, s) && k <= |c|
    ensures match LocateFrom(c, id, k)
      case Missing => ServerStore.LocateFrom(s, id, k).Missing?
      case Top(i) => ServerStore.LocateFrom(s, id, k) == ServerStore.Top(i)
      case Sub(i, j) => ServerStore.LocateFrom(s, id, k) == ServerStore.Sub(i, j)
    decreases |c| - k
  {
    if k < |c| && c[k].id != id {
      SameSubSearch(c[k].subtasks, s[k].subtasks, id);
      if FindIndex(c[k].subtasks, id) < 0 {
        SameSearch(c, s, id, k + 1);
      }
    }
  }

  lemma SameSubSearch(c: seq<ClientTask>, s: seq<ServerStore.Task>, id: string)
    requires |c| == |s| && forall j :: 0 <= j < |c| ==> c[j].id == s[j].id
    ensures FindIndex(c, id) == -1 <==> ServerStore.IndexOf(s, id).None?
    ensures FindIndex(c, id) >= 0 ==> ServerStore.IndexOf(s, id) == Some(FindIndex(c, id))
  {
  }

  /** A local toggle of a task keeps the mirror of the server's toggle of it. */
  lemma MirrorTaskToggle(c: seq<ClientTask>, s: seq<ServerStore.Task>, i: nat, completed: bool,
                         now: int, serverNow: int)
    requires Mirrors(c, s) && i < |c|
    ensures Mirrors(c[i := c[i].(completedAt := Stamp(completed, now))],
                    s[i := s[i].(completedAt := ServerStore.Stamp(completed, serverNow))])
  {
  }

  /** A local toggle of a subtask, with its parent re-derived, mirrors the server's. */
  lemma MirrorSubtaskToggle(c: seq<ClientTask>, s: seq<ServerStore.Task>, i: nat, j: nat,
                            completed: bool, now: int, serverNow: int)
    requires Mirrors(c, s) && i < |c| && j < |c[i].subtasks|
    ensures var cs := c[i].subtasks[j := c[i].subtasks[j].(completedAt := Stamp(completed, now))];
      var ss := s[i].subtasks[j := s[i].subtasks[j].(completedAt := ServerStore.Stamp(completed, serverNow))];
      Mirrors(c[i := c[i].(subtasks := cs, completedAt := if AllCompleted(cs, ByTruthiness) then At(now) else Null)],
              s[i := s[i].(subtasks := ss, completedAt := if ServerStore.AllComplete(ss) then Some(serverNow) else None)])
  {
    var cs := c[i].subtasks[j := c[i].subtasks[j].(completedAt := Stamp(completed, now))];
    var ss := s[i].subtasks[j := s[i].subtasks[j].(completedAt := ServerStore.Stamp(completed, serverNow))];
    assert forall q :: 0 <= q < |cs| ==> SameEntity(cs[q], ss[q]);
    assert AllCompleted(cs, ByTruthiness) <==> ServerStore.AllComplete(ss);
  }

  /**
   * After `addSubtask` succeeds, the subtask the server sends back is pushed onto the same
   * parent the `main.go` server attached it to, so the copy stays a mirror; when the server
   * finds no parent, neither does the page.
   */
  lemma MirrorAttachInOrder(c: seq<ClientTask>, s: seq<ServerStore.Task>, parentId: string, sub: ServerStore.Task)
    requires Mirrors(c, s)
    ensures var served := ServerStore.AttachSubtask(s, parentId, sub);
      && (served.None? <==> LocalAttach(c, parentId, FromServer(sub)) == c && FindIndex(c, parentId) == -1)
      && Mirrors(LocalAttach(c, parentId, FromServer(sub)), if served.Some? then served.value else s)
  {
    SameSubSearch(c, s, parentId);
  }

  /**
   * With completion read by truthiness, the page's local toggle keeps its copy in step with
   * the server's: the same entity changes, and every parent ends completed on both sides
   * or on neither.
   */
  lemma LocalToggleMirrorsInOrder(c: seq<ClientTask>, s: seq<ServerStore.Task>, id: string,
                                  completed: bool, now: int, serverNow: int)
    requires Mirrors(c, s)
    ensures var served := ServerStore.SetCompletion(s, id, completed, serverNow);
      Mirrors(LocalSetCompletion(c, id, completed, now, ByTruthiness), if served.Some? then served.value else s)
  {
    SameSearch(c, s, id, 0);
    match LocateFrom(c, id, 0)
    case Missing =>
    case Top(i) =>
      MirrorTaskToggle(c, s, i, completed, now, serverNow);
    case Sub(i, j) =>
      MirrorSubtaskToggle(c, s, i, j, completed, now, serverNow);
  }

  // ---------------------------------------------------------------------------------------
  // The local copy agrees with the `main.go` store, whose order differs

  /**
   * The page's list mirrors the stored one up to the order of the top-level tasks: task by
   * task, it mirrors some reordering of the store. GetAllTasks hands the list out sorted
   * while the store keeps insertion order, and the page then changes its copy in place.
   */
  ghost predicate MirrorsStore(c: seq<ClientTask>, s: seq<ServerStore.Task>) {
    exists p :: multiset(p) == multiset(s) && Mirrors(c, p)
  }

  /** What the page loads from GetAllTasks' sorted copy mirrors the store. */
  lemma LoadedListMirrors(s: seq<ServerStore.Task>)
    ensures MirrorsStore(FromServerList(Sorting.StableSort(s, ServerStore.DisplayRank)), s)
  {
    var sent := Sorting.StableSort(s, ServerStore.DisplayRank);
    ReceivedListMirrors(sent);
    assert multiset(sent) == multiset(s) && Mirrors(FromServerList(sent), sent);
  }

  /**
   * After `addSubtask` succeeds the page's copy still mirrors the store, whatever order the
   * page holds the tasks in; the page finds no parent exactly when the server fails.
   * Identifiers are unique, as the server's generated ones are.
   */
  lemma MirrorAttach(c: seq<ClientTask>, s: seq<ServerStore.Task>, parentId: string, sub: ServerStore.Task)
    requires MirrorsStore(c, s) && ServerStore.UniqueIds(s)
    ensures var served := ServerStore.AttachSubtask(s, parentId, sub);
      var local := LocalAttach(c, parentId, FromServer(sub));
      && (served.None? <==> local == c && FindIndex(c, parentId) == -1)
      && MirrorsStore(local, if served.Some? then served.value else s)
  {
    var p :| multiset(p) == multiset(s) && Mirrors(c, p);
    MirrorAttachInOrder(c, p, parentId, sub);
    ServerStore.AttachSubtaskPermuted(p, s, parentId, sub);
    var mine := ServerStore.AttachSubtask(p, parentId, sub);
    var w := if mine.Some? then mine.value else p;
    var served := ServerStore.AttachSubtask(s, parentId, sub);
    assert multiset(w) == multiset(if served.Some? then served.value else s);
    assert Mirrors(LocalAttach(c, parentId, FromServer(sub)), w);
  }

  /**
   * With completion read by truthiness, the page's local toggle keeps its copy a mirror of
   * the store after the server's toggle, whatever order the page holds the tasks in.
   * Identifiers are unique, as the server's generated ones are.
   */
  lemma LocalToggleMirrorsServer(c: seq<ClientTask>, s: seq<ServerStore.Task>, id: string,
                                 completed: bool, now: int, serverNow: int)
    requires MirrorsStore(c, s) && ServerStore.UniqueIds(s)
    ensures var served := ServerStore.SetCompletion(s, id, completed, serverNow);
      MirrorsStore(LocalSetCompletion(c, id, completed, now, ByTruthiness), if served.Some? then served.value else s)
  {
    var p :| multiset(p) == multiset(s) && Mirrors(c, p);
    LocalToggleMirrorsInOrder(c, p, id, completed, now, serverNow);
    ServerStore.SetCompletionPermuted(p, s, id, completed, serverNow);
    var mine := ServerStore.SetCompletion(p, id, completed, serverNow);
    var w := if mine.Some? then mine.value else p;
    var served := ServerStore.SetCompletion(s, id, completed, serverNow);
    assert multiset(w) == multiset(if served.Some? then served.value else s);
    assert Mirrors(LocalSetCompletion(c, id, completed, now, ByTruthiness), w);
  }

  /**
   * As written the page tests `completedAt !== null` in `every`, and the copy drifts: one
   * received incomplete subtask and a freshly completed sibling make the page stamp the
   * parent completed while the server leaves it open.
   */
  lemma AsWrittenToggleDrifts()
    ensures var open := ServerStore.Task("a", "", 0, None, "", []);
      var other := ServerStore.Task("b", "", 0, None, "", []);
      var s := [ServerStore.Task("p", "", 0, None, "", [open, other])];
      var c := FromServerList(s);
      var served := ServerStore.SetCompletion(s, "b", true, 9).value;
      var local := LocalSetCompletion(c, "b", true, 9, AsWritten);
      && ServerStore.Locate(s, "b") == ServerStore.Sub(0, 1)
      && local[0].completedAt == At(9)
      && !ServerStore.AllComplete(served[0].subtasks)
      && served[0].completedAt.None?
      && !Mirrors(local, served)
  {
    var open := ServerStore.Task("a", "", 0, None, "", []);
    var other := ServerStore.Task("b", "", 0, None, "", []);
    var s := [ServerStore.Task("p", "", 0, None, "", [open, other])];
    assert ServerStore.IndexOf(s[0].subtasks, "b") == Some(1);
    assert ServerStore.LocateFrom(s, "b", 0) == ServerStore.Sub(0, 1);
    var served := ServerStore.SetCompletion(s, "b", true, 9).value;
    assert served[0].subtasks[0].completedAt.None?;
    var c := FromServerList(s);
    assert c[0] == FromServer(s[0]);
    assert c[0].subtasks[0] == FromServer(open);
    assert c[0].subtasks[1] == FromServer(other);
    assert LocateFrom(c, "b", 0) == Sub(0, 1);
    var local := LocalSetCompletion(c, "b", true, 9, AsWritten);
    assert !SameEntity(local[0], served[0]);
  }

  class TaskList {
    /** The page's module-level `tasks` array. */
    var tasks: seq<ClientTask>

    /** `loadTasks`: the list as received. */
    constructor(loaded: seq<ClientTask>)
      ensures tasks == loaded
    {
      tasks := loaded;
    }

    /** After `addTask` succeeds, the created task is pushed. */
    method AddTask(task: ClientTask)
      modifies this
      ensures tasks == old(tasks) + [task]
    {
      tasks := tasks + [task];
    }

    /** After `addSubtask` succeeds, the subtask is pushed onto its parent if the page has it. */
    method AddSubtask(parentId: string, sub: ClientTask)
      modifies this
      ensures tasks == LocalAttach(old(tasks), parentId, sub)
    {
      var i := FindIndex(tasks, parentId);
      if i >= 0 {
        tasks := tasks[i := tasks[i].(subtasks := tasks[i].subtasks + [sub])];
      }
    }

    /** `updateTaskCompletionStatus`; the page as written is `reading == AsWritten`. */
    method UpdateTaskCompletionStatus(id: string, completed: bool, now: int, reading: Reading)
      modifies this
      ensures tasks == LocalSetCompletion(old(tasks), id, completed, now, reading)
    {
      var i := 0;
      while i < |tasks|
        invariant 0 <= i <= |tasks|
        invariant tasks == old(tasks)
        invariant LocateFrom(tasks, id, i) == LocateFrom(tasks, id, 0)
      {
        if tasks[i].id == id {
          tasks := tasks[i := tasks[i].(completedAt := Stamp(completed, now))];
          return;
        }
        var subs := tasks[i].subtasks;
        var j := 0;
        while j < |subs|
          invariant 0 <= j <= |subs|
          invariant forall q :: 0 <= q < j ==> subs[q].id != id
        {
          if subs[j].id == id {
            subs := subs[j := subs[j].(completedAt := Stamp(completed, now))];
            var parentAt := if AllCompleted(subs, reading) then At(now) else Null;
            tasks := tasks[i := tasks[i].(subtasks := subs, completedAt := parentAt)];
            return;
          }
          j := j + 1;
        }
        i := i + 1;
      }
    }

    /** `removeTaskFromLocalData`: `findIndex` over the tasks, then a walk over their subtasks. */
    method RemoveTaskFromLocalData(id: string)
      modifies this
      ensures tasks == LocalRemove(old(tasks), id)
    {
      var taskIndex := FindIndex(tasks, id);
      if taskIndex != -1 {
        tasks := tasks[..taskIndex] + tasks[taskIndex + 1..];
        return;
      }
      var i := 0;
      while i < |tasks|
        invariant 0 <= i <= |tasks|
        invariant tasks == old(tasks)
        invariant SubOwnerFrom(tasks, id, i) == SubOwnerFrom(tasks, id, 0)
      {
        var subs := tasks[i].subtasks;
        var subtaskIndex := FindIndex(subs, id);
        if subtaskIndex != -1 {
          tasks := tasks[i := tasks[i].(subtasks := subs[..subtaskIndex] + subs[subtaskIndex + 1..])];
          return;
        }
        i := i + 1;
      }
    }
  }
}
