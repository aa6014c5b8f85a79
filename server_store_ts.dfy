/**
 * The task store of the `main-ts.go` server, a variant of the `main.go` store. New tasks and
 * subtasks get a due time derived from their cycle. Subtasks are addressed by their
 * parent's identifier together with their own, and completing a subtask never changes its
 * parent. Listing returns the stored order unchanged.
 */
module ServerStoreTs {
  import opened Basics
  import Clock

  /** The recognised cycle tokens and their durations in milliseconds; "" has none. */
  const CycleDurations: map<string, int> := map[
    "5m" := 5 * Clock.MinuteMs,
    "1h" := 1 * Clock.HourMs,
    "4h" := 4 * Clock.HourMs,
    "12h" := 12 * Clock.HourMs,
    "1d" := 24 * Clock.HourMs,
    "3d" := 72 * Clock.HourMs,
    "1w" := 7 * 24 * Clock.HourMs,
    "1m" := 30 * 24 * Clock.HourMs,
    "3m" := 90 * 24 * Clock.HourMs,
    "" := 0]

  /** The duration a due time is computed with when the token is not in the table. */
  const DefaultDuration: int := 24 * Clock.HourMs

  /** One task or subtask, now with an optional due time. */
  datatype Task = Task(
    id: string,
    text: string,
    createdAt: int,
    completedAt: Option<int>,
    cycle: string,
    dueAt: Option<int>,
    subtasks: seq<Task>)

  /** The due time of a task created at `createdAt` with `cycle`. */
  function CalculateDueAt(createdAt: int, cycle: string): (r: Option<int>)
    ensures r.None? <==> cycle == ""
    ensures cycle in CycleDurations && cycle != "" ==> r == Some(createdAt + CycleDurations[cycle])
    ensures cycle !in CycleDurations ==> r == Some(createdAt + DefaultDuration)
    ensures r.Some? ==> r.value > createdAt
  {
    if cycle == "" then None
    else
      var duration := if cycle in CycleDurations then CycleDurations[cycle] else DefaultDuration;
      if duration == 0 then None
      else Some(createdAt + duration)
  }

  /** The table in plain milliseconds: exactly ten tokens, and only "" maps to zero. */
  lemma CycleDurationsInMs()
    ensures CycleDurations.Keys == {"5m", "1h", "4h", "12h", "1d", "3d", "1w", "1m", "3m", ""}
    ensures CycleDurations["5m"] == 300000 && CycleDurations["1h"] == 3600000
    ensures CycleDurations["4h"] == 14400000 && CycleDurations["12h"] == 43200000
    ensures CycleDurations["1d"] == 86400000 && CycleDurations["3d"] == 259200000
    ensures CycleDurations["1w"] == 604800000 && CycleDurations["1m"] == 2592000000
    ensures CycleDurations["3m"] == 7776000000 && CycleDurations[""] == 0
    ensures forall c :: c in CycleDurations && c != "" ==> CycleDurations[c] > 0
  {
  }

  /** The first position of a task with identifier `id` in a flat list. */
  function IndexOf(s: seq<Task>, id: string): (r: Option<nat>)
    ensures r.Some? ==> r.value < |s| && s[r.value].id == id
    ensures forall k :: 0 <= k < |s| && (r.None? || k < r.value) ==> s[k].id != id
  {
    if s == [] then None
    else if s[0].id == id then Some(0)
    else match IndexOf(s[1..], id)
      case None => None
      case Some(k) => Some(k + 1)
  }

  // ---------------------------------------------------------------------------------------
  // The operations as functions of the stored list

  /** A new record as AddTask and AddSubtask build it: one `createdAt` for both fields. */
  function NewTask(id: string, text: string, cycle: string, now: int): Task {
    Task(id, text, now, None, cycle, CalculateDueAt(now, cycle), [])
  }

  /** AddSubtask: append `sub` to the first top-level task with `parentId`, if there is one. */
  function AttachSubtask(ts: seq<Task>, parentId: string, sub: Task): Option<seq<Task>> {
    match IndexOf(ts, parentId)
    case None => None
    case Some(i) => Some(ts[i := ts[i].(subtasks := ts[i].subtasks + [sub])])
  }

  /** UpdateTaskStatus: set or clear `completedAt` of the first top-level task with `id`. */
  function SetTaskCompletion(ts: seq<Task>, id: string, complete: bool, now: int): Option<seq<Task>> {
    match IndexOf(ts, id)
    case None => None
    case Some(i) => Some(ts[i := ts[i].(completedAt := if complete then Some(now) else None)])
  }

  /**
   * UpdateSubtaskStatus: the first top-level task with `parentId` decides; within it, the
   * first subtask with `subId` is set or cleared.
   */
  function SetSubtaskCompletion(ts: seq<Task>, parentId: string, subId: string, complete: bool, now: int)
    : Result<seq<Task>>
  {
    match IndexOf(ts, parentId)
    case None => Failure(ParentNotFound)
    case Some(i) =>
      match IndexOf(ts[i].subtasks, subId)
      case None => Failure(SubtaskNotFound)
      case Some(j) =>
        var subs := ts[i].subtasks;
        var stamped := subs[j].(completedAt := if complete then Some(now) else None);
        Success(ts[i := ts[i].(subtasks := subs[j := stamped])])
  }

  /** DeleteTask: remove the first top-level task with `id` (subtask identifiers are not searched). */
  function DeleteTop(ts: seq<Task>, id: string): Option<seq<Task>> {
    match IndexOf(ts, id)
    case None => None
    case Some(i) => Some(ts[..i] + ts[i + 1..])
  }

  /** DeleteSubtask: as SetSubtaskCompletion, but the subtask is removed. */
  function DeleteSub(ts: seq<Task>, parentId: string, subId: string): Result<seq<Task>> {
    match IndexOf(ts, parentId)
    case None => Failure(ParentNotFound)
    case Some(i) =>
      match IndexOf(ts[i].subtasks, subId)
      case None => Failure(SubtaskNotFound)
      case Some(j) =>
        var subs := ts[i].subtasks;
        Success(ts[i := ts[i].(subtasks := subs[..j] + subs[j + 1..])])
  }

  // ---------------------------------------------------------------------------------------
  // What the operations do

  /** A new record is incomplete, has no subtasks, and is due exactly when it has a cycle. */
  lemma NewTaskShape(id: string, text: string, cycle: string, now: int)
    ensures var t := NewTask(id, text, cycle, now);
      && t.createdAt == now && t.completedAt.None? && t.subtasks == []
      && (t.dueAt.Some? <==> cycle != "")
      && (t.dueAt.Some? ==> t.dueAt.value > t.createdAt)
  {
  }

  /** AddSubtask fails exactly when no top-level task is the parent; otherwise one parent grows. */
  lemma AttachSubtaskEffect(ts: seq<Task>, parentId: string, sub: Task)
    ensures AttachSubtask(ts, parentId, sub).None? <==> forall k :: 0 <= k < |ts| ==> ts[k].id != parentId
    ensures AttachSubtask(ts, parentId, sub).Some? ==>
      var r := AttachSubtask(ts, parentId, sub).value;
      var i := IndexOf(ts, parentId).value;
      && |r| == |ts|
      && r[i] == ts[i].(subtasks := ts[i].subtasks + [sub])
      && (forall k :: 0 <= k < |ts| && k != i ==> r[k] == ts[k])
  {
  }

  /**
   * UpdateTaskStatus finds only top-level tasks and changes only that task's `completedAt`:
   * its subtasks and every other task stay as they were.
   */
  lemma SetTaskCompletionEffect(ts: seq<Task>, id: string, complete: bool, now: int)
    ensures SetTaskCompletion(ts, id, complete, now).None? <==> forall k :: 0 <= k < |ts| ==> ts[k].id != id
    ensures SetTaskCompletion(ts, id, complete, now).Some? ==>
      var r := SetTaskCompletion(ts, id, complete, now).value;
      var i := IndexOf(ts, id).value;
      && |r| == |ts|
      && (r[i].completedAt.Some? <==> complete)
      && r[i] == ts[i].(completedAt := r[i].completedAt)
      && (forall k :: 0 <= k < |ts| && k != i ==> r[k] == ts[k])
  {
  }

  /**
   * UpdateSubtaskStatus reports a missing parent and a missing subtask differently, and on
   * success changes only that subtask's `completedAt`: the parent's own fields stay.
   */
  lemma SetSubtaskCompletionEffect(ts: seq<Task>, parentId: string, subId: string, complete: bool, now: int)
    ensures SetSubtaskCompletion(ts, parentId, subId, complete, now) == Failure(ParentNotFound) <==>
      forall k :: 0 <= k < |ts| ==> ts[k].id != parentId
    ensures SetSubtaskCompletion(ts, parentId, subId, complete, now) == Failure(SubtaskNotFound) <==>
      IndexOf(ts, parentId).Some? &&
      forall q :: 0 <= q < |ts[IndexOf(ts, parentId).value].subtasks| ==>
        ts[IndexOf(ts, parentId).value].subtasks[q].id != subId
    ensures SetSubtaskCompletion(ts, parentId, subId, complete, now).Success? ==>
      var r := SetSubtaskCompletion(ts, parentId, subId, complete, now).value;
      var i := IndexOf(ts, parentId).value;
      var j := IndexOf(ts[i].subtasks, subId).value;
      && |r| == |ts|
      && r[i].completedAt == ts[i].completedAt
      && |r[i].subtasks| == |ts[i].subtasks|
      && (r[i].subtasks[j].completedAt.Some? <==> complete)
      && r[i].subtasks[j] == ts[i].subtasks[j].(completedAt := r[i].subtasks[j].completedAt)
      && (forall q :: 0 <= q < |ts[i].subtasks| && q != j ==> r[i].subtasks[q] == ts[i].subtasks[q])
      && r[i] == ts[i].(subtasks := r[i].subtasks)
      && (forall k :: 0 <= k < |ts| && k != i ==> r[k] == ts[k])
  {
  }

  /**
   * A subtask whose parent is not the first top-level task with that identifier is never
   * reached: the search stops at the first parent match.
   */
  lemma FirstParentDecides()
    ensures var sub := Task("s", "", 0, None, "", None, []);
      var ts := [Task("p", "", 0, None, "", None, []), Task("p", "", 0, None, "", None, [sub])];
      SetSubtaskCompletion(ts, "p", "s", true, 1) == Failure(SubtaskNotFound)
  {
    var sub := Task("s", "", 0, None, "", None, []);
    var ts := [Task("p", "", 0, None, "", None, []), Task("p", "", 0, None, "", None, [sub])];
    assert IndexOf(ts, "p") == Some(0);
  }

  /** DeleteTask removes one top-level task and keeps the rest in order. */
  lemma DeleteTopEffect(ts: seq<Task>, id: string)
    ensures DeleteTop(ts, id).None? <==> forall k :: 0 <= k < |ts| ==> ts[k].id != id
    ensures DeleteTop(ts, id).Some? ==>
      var r := DeleteTop(ts, id).value;
      var i := IndexOf(ts, id).value;
      && |r| == |ts| - 1
      && (forall k :: 0 <= k < i ==> r[k] == ts[k])
      && (forall k :: i <= k < |r| ==> r[k] == ts[k + 1])
  {
    match IndexOf(ts, id)
    case None =>
    case Some(i) =>
      assert DeleteTop(ts, id) == Some(ts[..i] + ts[i + 1..]);
      RemoveAt(ts, i);
  }

  /** DeleteSubtask removes one subtask of one parent and keeps its siblings in order. */
  lemma DeleteSubEffect(ts: seq<Task>, parentId: string, subId: string)
    ensures DeleteSub(ts, parentId, subId) == Failure(ParentNotFound) <==>
      forall k :: 0 <= k < |ts| ==> ts[k].id != parentId
    ensures DeleteSub(ts, parentId, subId) == Failure(SubtaskNotFound) <==>
      IndexOf(ts, parentId).Some? &&
      forall q :: 0 <= q < |ts[IndexOf(ts, parentId).value].subtasks| ==>
        ts[IndexOf(ts, parentId).value].subtasks[q].id != subId
    ensures DeleteSub(ts, parentId, subId).Success? ==>
      var r := DeleteSub(ts, parentId, subId).value;
      var i := IndexOf(ts, parentId).value;
      var j := IndexOf(ts[i].subtasks, subId).value;
      && |r| == |ts|
      && r[i] == ts[i].(subtasks := r[i].subtasks)
      && |r[i].subtasks| == |ts[i].subtasks| - 1
      && (forall q :: 0 <= q < j ==> r[i].subtasks[q] == ts[i].subtasks[q])
      && (forall q :: j <= q < |r[i].subtasks| ==> r[i].subtasks[q] == ts[i].subtasks[q + 1])
      && (forall k :: 0 <= k < |ts| && k != i ==> r[k] == ts[k])
  {
    match IndexOf(ts, parentId)
    case None =>
    case Some(i) =>
      match IndexOf(ts[i].subtasks, subId)
      case None =>
      case Some(j) =>
        var subs := ts[i].subtasks;
        var rest := subs[..j] + subs[j + 1..];
        assert DeleteSub(ts, parentId, subId).value[i].subtasks == rest;
        RemoveAt(subs, j);
  }

  // ---------------------------------------------------------------------------------------
  // The store

  class TaskStore {
    /** The top-level tasks, in insertion order; each holds its own subtasks. */
    var tasks: seq<Task>

    /** A store over tasks already loaded from disk. */
    constructor(loaded: seq<Task>)
      ensures tasks == loaded
    {
      tasks := loaded;
    }

    /** A new task, due according to its cycle, goes to the end of the list. */
    method AddTask(text: string, cycle: string, id: string, now: int) returns (task: Task)
      modifies this
      ensures task == NewTask(id, text, cycle, now)
      ensures tasks == old(tasks) + [task]
    {
      var dueAt := CalculateDueAt(now, cycle);
      task := Task(id, text, now, None, cycle, dueAt, []);
      tasks := tasks + [task];
    }

    /** The new subtask goes to the first top-level task named `parentId`; none is an error. */
    method AddSubtask(parentId: string, text: string, cycle: string, id: string, now: int)
      returns (r: Result<Task>)
      modifies this
      ensures var sub := NewTask(id, text, cycle, now);
        match AttachSubtask(old(tasks), parentId, sub)
        case None => r == Failure(ParentNotFound) && tasks == old(tasks)
        case Some(updated) => r == Success(sub) && tasks == updated
    {
      var dueAt := CalculateDueAt(now, cycle);
      var sub := Task(id, text, now, None, cycle, dueAt, []);
      var found := false;
      var i := 0;
      while i < |tasks|
        invariant 0 <= i <= |tasks|
        invariant tasks == old(tasks)
        invariant forall k :: 0 <= k < i ==> tasks[k].id != parentId
      {
        if tasks[i].id == parentId {
          tasks := tasks[i := tasks[i].(subtasks := tasks[i].subtasks + [sub])];
          found := true;
          break;
        }
        i := i + 1;
      }
      if !found {
        return Failure(ParentNotFound);
      }
      r := Success(sub);
    }

    /** The stored list itself, in insertion order. */
    method GetAllTasks() returns (r: seq<Task>)
      ensures r == tasks
    {
      r := tasks;
    }

    /** Sets or clears `completedAt` of a top-level task; subtasks are not searched. */
    method UpdateTaskStatus(id: string, complete: bool, now: int) returns (o: Outcome)
      modifies this
      ensures match SetTaskCompletion(old(tasks), id, complete, now)
        case None => o == Fail(TaskNotFound) && tasks == old(tasks)
        case Some(updated) => o == Pass && tasks == updated
    {
      var i := 0;
      while i < |tasks|
        invariant 0 <= i <= |tasks|
        invariant tasks == old(tasks)
        invariant forall k :: 0 <= k < i ==> tasks[k].id != id
      {
        if tasks[i].id == id {
          tasks := tasks[i := tasks[i].(completedAt := if complete then Some(now) else None)];
          return Pass;
        }
        i := i + 1;
      }
      return Fail(TaskNotFound);
    }

    /** Sets or clears `completedAt` of one subtask of one parent; the parent is left alone. */
    method UpdateSubtaskStatus(parentId: string, subId: string, complete: bool, now: int) returns (o: Outcome)
      modifies this
      ensures match SetSubtaskCompletion(old(tasks), parentId, subId, complete, now)
        case Failure(e) => o == Fail(e) && tasks == old(tasks)
        case Success(updated) => o == Pass && tasks == updated
    {
      var i := 0;
      while i < |tasks|
        invariant 0 <= i <= |tasks|
        invariant tasks == old(tasks)
        invariant forall k :: 0 <= k < i ==> tasks[k].id != parentId
      {
        if tasks[i].id == parentId {
          var subs := tasks[i].subtasks;
          var j := 0;
          while j < |subs|
            invariant 0 <= j <= |subs|
            invariant forall q :: 0 <= q < j ==> subs[q].id != subId
          {
            if subs[j].id == subId {
              var stamped := subs[j].(completedAt := if complete then Some(now) else None);
              tasks := tasks[i := tasks[i].(subtasks := subs[j := stamped])];
              return Pass;
            }
            j := j + 1;
          }
          return Fail(SubtaskNotFound);
        }
        i := i + 1;
      }
      return Fail(ParentNotFound);
    }

    /** Removes a top-level task with its subtasks; subtask identifiers are not searched. */
    method DeleteTask(id: string) returns (o: Outcome)
      modifies this
      ensures match DeleteTop(old(tasks), id)
        case None => o == Fail(TaskNotFound) && tasks == old(tasks)
        case Some(updated) => o == Pass && tasks == updated
    {
      var i := 0;
      while i < |tasks|
        invariant 0 <= i <= |tasks|
        invariant tasks == old(tasks)
        invariant forall k :: 0 <= k < i ==> tasks[k].id != id
      {
        if tasks[i].id == id {
          tasks := tasks[..i] + tasks[i + 1..];
          return Pass;
        }
        i := i + 1;
      }
      return Fail(TaskNotFound);
    }

    /** Removes one subtask of one parent, reporting a missing parent and subtask apart. */
    method DeleteSubtask(parentId: string, subId: string) returns (o: Outcome)
      modifies this
      ensures match DeleteSub(old(tasks), parentId, subId)
        case Failure(e) => o == Fail(e) && tasks == old(tasks)
        case Success(updated) => o == Pass && tasks == updated
    {
      var i := 0;
      while i < |tasks|
        invariant 0 <= i <= |tasks|
        invariant tasks == old(tasks)
        invariant forall k :: 0 <= k < i ==> tasks[k].id != parentId
      {
        if tasks[i].id == parentId {
          var subs := tasks[i].subtasks;
          var j := 0;
          while j < |subs|
            invariant 0 <= j <= |subs|
            invariant forall q :: 0 <= q < j ==> subs[q].id != subId
          {
            if subs[j].id == subId {
              tasks := tasks[i := tasks[i].(subtasks := subs[..j] + subs[j + 1..])];
              return Pass;
            }
            j := j + 1;
          }
          return Fail(SubtaskNotFound);
        }
        i := i + 1;
      }
      return Fail(ParentNotFound);
    }
  }
}
