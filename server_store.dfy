/**
 * The task store of the `main.go` server: an ordered list of top-level tasks, each owning an
 * ordered list of subtasks. Completing or reopening a subtask recomputes its parent's
 * completion from all of the parent's subtasks. Listing returns a copy stably sorted with
 * incomplete tasks first and older tasks first within each group.
 */
module ServerStore {
  import opened Basics
  import Sorting

  /** One task or subtask (main.go uses the same record for both). */
  datatype Task = Task(
    id: string,
    text: string,
    createdAt: int,
    completedAt: Option<int>,
    cycle: string,
    subtasks: seq<Task>)

  /** `CompletedAt` after a toggle: the current instant when completing, nil when reopening. */
  function Stamp(complete: bool, now: int): Option<int> {
    if complete then Some(now) else None
  }

  predicate AllComplete(s: seq<Task>) {
    forall k :: 0 <= k < |s| ==> s[k].completedAt.Some?
  }

  /** The first position of a task with identifier `id` in a flat list. */
  function IndexOf(s: seq<Task>, id: string): (r: Option<nat>)
    ensures r.Some? ==> r.value < |s| && s[r.value].id == id
    ensures forall k :: 0 <= k < |s| && (r.None? || k < r.value) ==> s[k].id != id
  {
    if s == [] then None
    else if s[0].id == id then Some(0)
    else match IndexOf(s[1..], id)
      case None => None
      case Some(k) => Some(k + 1)
  }

  /** Where an identifier was found: a top-level task, a subtask of one, or nowhere. */
  datatype Location = Top(i: nat) | Sub(i: nat, j: nat) | Missing

  /** Neither task `t` nor any of its subtasks carries `id`. */
  predicate NoMatchIn(t: Task, id: string) {
    t.id != id && IndexOf(t.subtasks, id).None?
  }

  /**
   * The search order of main.go, from position `k` on: each top-level task is tested
   * before its own subtasks, and both before the next top-level task.
   */
  function LocateFrom(ts: seq<Task>, id: string, k: nat): (r: Location)
    requires k <= |ts|
    ensures r.Top? ==> k <= r.i < |ts| && ts[r.i].id == id
    ensures r.Sub? ==> k <= r.i < |ts| && ts[r.i].id != id && IndexOf(ts[r.i].subtasks, id) == Some(r.j)
    ensures r.Missing? ==> forall p :: k <= p < |ts| ==> NoMatchIn(ts[p], id)
    ensures !r.Missing? ==> forall p :: k <= p < r.i ==> NoMatchIn(ts[p], id)
    decreases |ts| - k
  {
    if k == |ts| then Missing
    else if ts[k].id == id then Top(k)
    else match IndexOf(ts[k].subtasks, id)
      case Some(j) => Sub(k, j)
      case None => LocateFrom(ts, id, k + 1)
  }

  function Locate(ts: seq<Task>, id: string): Location {
    LocateFrom(ts, id, 0)
  }

  // ---------------------------------------------------------------------------------------
  // Identifiers

  /** The identifiers of a flat list of tasks, in order. */
  function SubIds(s: seq<Task>): seq<string> {
    if s == [] then [] else [s[0].id] + SubIds(s[1..])
  }

  /** The identifiers a task contributes: its own, then those of its subtasks. */
  function TaskIds(t: Task): seq<string> {
    [t.id] + SubIds(t.subtasks)
  }

  /** The identifiers of all tasks and subtasks, in search order. */
  function AllIds(ts: seq<Task>): seq<string> {
    if ts == [] then [] else TaskIds(ts[0]) + AllIds(ts[1..])
  }

  function SubBag(s: seq<Task>): multiset<string> {
    multiset(SubIds(s))
  }

  function TaskBag(t: Task): multiset<string> {
    multiset(TaskIds(t))
  }

  /** The identifiers of all tasks and subtasks, counted with multiplicity. */
  function IdBag(ts: seq<Task>): multiset<string> {
    multiset(AllIds(ts))
  }

  /** No identifier is used twice across tasks and subtasks. */
  ghost predicate UniqueIds(ts: seq<Task>) {
    forall x :: IdBag(ts)[x] <= 1
  }

  // ---------------------------------------------------------------------------------------
  // The operations as functions of the stored list

  /** AddSubtask: append `sub` to the first top-level task with `parentId`, if there is one. */
  function AttachSubtask(ts: seq<Task>, parentId: string, sub: Task): Option<seq<Task>> {
    match IndexOf(ts, parentId)
    case None => None
    case Some(i) => Some(ts[i := ts[i].(subtasks := ts[i].subtasks + [sub])])
  }

  /**
   * A toggle seen from the top-level task that carries `id`: the task itself when it is the
   * match, otherwise its first matching subtask, with the task re-derived from its subtasks.
   */
  function Toggled(t: Task, id: string, complete: bool, now: int): Task {
    if t.id == id then t.(completedAt := Stamp(complete, now))
    else match IndexOf(t.subtasks, id)
      case None => t
      case Some(j) =>
        var subs := t.subtasks[j := t.subtasks[j].(completedAt := Stamp(complete, now))];
        t.(subtasks := subs, completedAt := if AllComplete(subs) then Some(now) else None)
  }

  /** UpdateTaskStatus: toggle the entity found by `id`; a subtask's parent is recomputed. */
  function SetCompletion(ts: seq<Task>, id: string, complete: bool, now: int): Option<seq<Task>> {
    match Locate(ts, id)
    case Missing => None
    case Top(i) => Some(ts[i := Toggled(ts[i], id, complete, now)])
    case Sub(i, _) => Some(ts[i := Toggled(ts[i], id, complete, now)])
  }

  /** DeleteTask: remove the entity found by `id` (a top-level task takes its subtasks along). */
  function Delete(ts: seq<Task>, id: string): Option<seq<Task>> {
    match Locate(ts, id)
    case Missing => None
    case Top(i) => Some(ts[..i] + ts[i + 1..])
    case Sub(i, j) =>
      var subs := ts[i].subtasks;
      Some(ts[i := ts[i].(subtasks := subs[..j] + subs[j + 1..])])
  }

  /** The key of GetAllTasks' comparator: incomplete (0) before complete (1), then older first. */
  function DisplayRank(t: Task): Sorting.Rank {
    Sorting.Rank(if t.completedAt.Some? then 1 else 0, t.createdAt)
  }

  // ---------------------------------------------------------------------------------------
  // What the operations do

  lemma {:induction false} SubIdsConcat(a: seq<Task>, b: seq<Task>)
    ensures SubIds(a + b) == SubIds(a) + SubIds(b)
  {
    if a != [] {
      SubIdsConcat(a[1..], b);
      var c := a + b;
      assert c[1..] == a[1..] + b;
      assert SubIds(c) == [c[0].id] + SubIds(c[1..]);
    } else {
      assert a + b == b;
    }
  }

  lemma {:induction false} AllIdsConcat(a: seq<Task>, b: seq<Task>)
    ensures AllIds(a + b) == AllIds(a) + AllIds(b)
  {
    if a != [] {
      AllIdsConcat(a[1..], b);
      var c := a + b;
      assert c[1..] == a[1..] + b;
      assert AllIds(c) == TaskIds(c[0]) + AllIds(c[1..]);
    } else {
      assert a + b == b;
    }
  }

  lemma SubBagConcat(a: seq<Task>, b: seq<Task>)
    ensures SubBag(a + b) == SubBag(a) + SubBag(b)
  {
    SubIdsConcat(a, b);
  }

  lemma IdBagConcat(a: seq<Task>, b: seq<Task>)
    ensures IdBag(a + b) == IdBag(a) + IdBag(b)
  {
    AllIdsConcat(a, b);
  }

  lemma IdBagSplit(ts: seq<Task>, i: nat)
    requires i < |ts|
    ensures IdBag(ts) == IdBag(ts[..i]) + TaskBag(ts[i]) + IdBag(ts[i + 1..])
  {
    assert ts == ts[..i] + [ts[i]] + ts[i + 1..];
    AllIdsConcat(ts[..i] + [ts[i]], ts[i + 1..]);
    AllIdsConcat(ts[..i], [ts[i]]);
    assert AllIds([ts[i]]) == TaskIds(ts[i]) + AllIds([ts[i]][1..]);
    assert [ts[i]][1..] == [];
  }

  lemma SubBagSplit(s: seq<Task>, j: nat)
    requires j < |s|
    ensures SubBag(s) == SubBag(s[..j]) + multiset{s[j].id} + SubBag(s[j + 1..])
  {
    assert s == s[..j] + [s[j]] + s[j + 1..];
    SubIdsConcat(s[..j] + [s[j]], s[j + 1..]);
    SubIdsConcat(s[..j], [s[j]]);
    assert SubIds([s[j]]) == [s[j].id] + SubIds([s[j]][1..]);
    assert [s[j]][1..] == [];
  }

  /** Replacing one task changes the identifiers by exactly that task's contribution. */
  lemma IdBagUpdate(ts: seq<Task>, i: nat, t: Task)
    requires i < |ts|
    ensures IdBag(ts[i := t]) == IdBag(ts) - TaskBag(ts[i]) + TaskBag(t)
  {
    IdBagSplit(ts, i);
    IdBagSplit(ts[i := t], i);
    assert ts[i := t][..i] == ts[..i];
    assert ts[i := t][i + 1..] == ts[i + 1..];
  }

  lemma {:induction false} IndexOfNoneIffAbsent(s: seq<Task>, id: string)
    ensures IndexOf(s, id).None? <==> id !in SubBag(s)
  {
    if s != [] {
      IndexOfNoneIffAbsent(s[1..], id);
    }
  }

  lemma {:induction false} LocateFromMissingIffAbsent(ts: seq<Task>, id: string, k: nat)
    requires k <= |ts|
    ensures LocateFrom(ts, id, k).Missing? <==> id !in IdBag(ts[k..])
    decreases |ts| - k
  {
    if k < |ts| {
      LocateFromMissingIffAbsent(ts, id, k + 1);
      IndexOfNoneIffAbsent(ts[k].subtasks, id);
      assert ts[k..][1..] == ts[k + 1..];
    }
  }

  /** The search fails exactly when no task or subtask carries the identifier. */
  lemma MissingIffAbsent(ts: seq<Task>, id: string)
    ensures Locate(ts, id).Missing? <==> id !in IdBag(ts)
  {
    LocateFromMissingIffAbsent(ts, id, 0);
    assert ts[0..] == ts;
  }

  /** AddTask with a fresh identifier keeps identifiers unique. */
  lemma AppendKeepsUniqueIds(ts: seq<Task>, t: Task)
    requires UniqueIds(ts) && t.id !in IdBag(ts) && t.subtasks == []
    ensures UniqueIds(ts + [t])
    ensures IdBag(ts + [t]) == IdBag(ts) + multiset{t.id}
  {
    IdBagConcat(ts, [t]);
    assert [t][1..] == [];
    assert AllIds([t]) == TaskIds(t) + AllIds([]);
    assert TaskIds(t) == [t.id];
  }

  /** Replacing a task by one with the same identifiers leaves all identifiers as they were. */
  lemma {:induction false} AllIdsUpdateSame(ts: seq<Task>, i: nat, t: Task)
    requires i < |ts| && TaskIds(t) == TaskIds(ts[i])
    ensures AllIds(ts[i := t]) == AllIds(ts)
  {
    if i > 0 {
      AllIdsUpdateSame(ts[1..], i - 1, t);
      assert ts[i := t][1..] == ts[1..][i - 1 := t];
    }
  }

  /** Replacing a subtask by one with the same identifier leaves the subtask identifiers alone. */
  lemma {:induction false} SubIdsUpdateSame(s: seq<Task>, j: nat, x: Task)
    requires j < |s| && x.id == s[j].id
    ensures SubIds(s[j := x]) == SubIds(s)
  {
    if j > 0 {
      SubIdsUpdateSame(s[1..], j - 1, x);
      assert s[j := x][1..] == s[1..][j - 1 := x];
    }
  }

  /** Replacing one task by another that contributes `extra` more identifiers. */
  lemma ReplaceTaskBag(ts: seq<Task>, i: nat, t: Task, extra: multiset<string>)
    requires i < |ts| && TaskBag(t) == TaskBag(ts[i]) + extra
    ensures IdBag(ts[i := t]) == IdBag(ts) + extra
  {
    IdBagSplit(ts, i);
    IdBagSplit(ts[i := t], i);
    assert ts[i := t][..i] == ts[..i];
    assert ts[i := t][i + 1..] == ts[i + 1..];
  }

  /** A new subtask adds exactly its own identifier to its parent's contribution. */
  lemma TaskBagAppendSub(t: Task, sub: Task)
    ensures TaskBag(t.(subtasks := t.subtasks + [sub])) == TaskBag(t) + multiset{sub.id}
  {
    SubIdsConcat(t.subtasks, [sub]);
    assert SubIds([sub]) == [sub.id] + SubIds([sub][1..]);
    assert [sub][1..] == [];
  }

  /**
   * AddSubtask looks for the parent among top-level tasks only. If found, exactly that
   * parent gains `sub` at the end of its subtasks; otherwise nothing changes.
   */
  lemma AttachSubtaskEffect(ts: seq<Task>, parentId: string, sub: Task)
    ensures AttachSubtask(ts, parentId, sub).None? <==> forall k :: 0 <= k < |ts| ==> ts[k].id != parentId
    ensures AttachSubtask(ts, parentId, sub).Some? ==>
      var r := AttachSubtask(ts, parentId, sub).value;
      var i := IndexOf(ts, parentId).value;
      && |r| == |ts|
      && r[i].id == parentId
      && r[i] == ts[i].(subtasks := ts[i].subtasks + [sub])
      && (forall k :: 0 <= k < |ts| && k != i ==> r[k] == ts[k])
  {
  }

  /** A successful AddSubtask adds exactly the new subtask's identifier. */
  lemma AttachSubtaskIds(ts: seq<Task>, parentId: string, sub: Task)
    requires AttachSubtask(ts, parentId, sub).Some?
    ensures IdBag(AttachSubtask(ts, parentId, sub).value) == IdBag(ts) + multiset{sub.id}
  {
    var i := IndexOf(ts, parentId).value;
    TaskBagAppendSub(ts[i], sub);
    ReplaceTaskBag(ts, i, ts[i].(subtasks := ts[i].subtasks + [sub]), multiset{sub.id});
  }

  /** AddSubtask with a fresh identifier keeps identifiers unique. */
  lemma AttachKeepsUniqueIds(ts: seq<Task>, parentId: string, sub: Task)
    requires UniqueIds(ts) && sub.id !in IdBag(ts) && AttachSubtask(ts, parentId, sub).Some?
    ensures UniqueIds(AttachSubtask(ts, parentId, sub).value)
  {
    AttachSubtaskIds(ts, parentId, sub);
  }

  /** Toggling a top-level task changes its `completedAt` only; its subtasks are untouched. */
  lemma SetCompletionOfTask(ts: seq<Task>, id: string, complete: bool, now: int)
    requires Locate(ts, id).Top?
    ensures var i := Locate(ts, id).i;
      && SetCompletion(ts, id, complete, now).Some?
      && var r := SetCompletion(ts, id, complete, now).value;
      && |r| == |ts|
      && ts[i].id == id
      && (r[i].completedAt.Some? <==> complete)
      && (complete ==> r[i].completedAt == Some(now))
      && r[i] == ts[i].(completedAt := r[i].completedAt)
      && (forall k :: 0 <= k < |ts| && k != i ==> r[k] == ts[k])
  {
  }

  /**
   * Toggling a subtask sets or clears that subtask only; afterwards its parent is complete
   * exactly when every one of its subtasks is, and no other task changes.
   */
  lemma SetCompletionOfSubtask(ts: seq<Task>, id: string, complete: bool, now: int)
    requires Locate(ts, id).Sub?
    ensures var i, j := Locate(ts, id).i, Locate(ts, id).j;
      && SetCompletion(ts, id, complete, now).Some?
      && var r := SetCompletion(ts, id, complete, now).value;
      && |r| == |ts|
      && j < |ts[i].subtasks| && ts[i].subtasks[j].id == id
      && |r[i].subtasks| == |ts[i].subtasks|
      && (r[i].subtasks[j].completedAt.Some? <==> complete)
      && r[i].subtasks[j] == ts[i].subtasks[j].(completedAt := r[i].subtasks[j].completedAt)
      && (forall q :: 0 <= q < |ts[i].subtasks| && q != j ==> r[i].subtasks[q] == ts[i].subtasks[q])
      && (r[i].completedAt.Some? <==> forall q :: 0 <= q < |r[i].subtasks| ==> r[i].subtasks[q].completedAt.Some?)
      && r[i] == ts[i].(subtasks := r[i].subtasks, completedAt := r[i].completedAt)
      && (forall k :: 0 <= k < |ts| && k != i ==> r[k] == ts[k])
  {
  }

  /** An identifier that matches nothing is an error; toggling never changes identifiers. */
  lemma SetCompletionIds(ts: seq<Task>, id: string, complete: bool, now: int)
    ensures SetCompletion(ts, id, complete, now).None? <==> id !in IdBag(ts)
    ensures SetCompletion(ts, id, complete, now).Some? ==>
      AllIds(SetCompletion(ts, id, complete, now).value) == AllIds(ts)
  {
    MissingIffAbsent(ts, id);
    match Locate(ts, id)
    case Missing =>
    case Top(i) =>
      AllIdsUpdateSame(ts, i, ts[i].(completedAt := Stamp(complete, now)));
    case Sub(i, j) =>
      var s := ts[i].subtasks;
      var s' := s[j := s[j].(completedAt := Stamp(complete, now))];
      SubIdsUpdateSame(s, j, s'[j]);
      var t := ts[i].(subtasks := s', completedAt := if AllComplete(s') then Some(now) else None);
      assert TaskIds(t) == TaskIds(ts[i]);
      AllIdsUpdateSame(ts, i, t);
  }

  /**
   * Deleting a top-level task removes it with its subtasks, keeping the others in order;
   * deleting a subtask removes only it, keeping its siblings in order; an identifier that
   * matches nothing is an error.
   */
  lemma DeleteEffect(ts: seq<Task>, id: string)
    ensures Delete(ts, id).None? <==> id !in IdBag(ts)
    ensures Locate(ts, id).Top? ==>
      var i := Locate(ts, id).i;
      && Delete(ts, id).Some?
      && var r := Delete(ts, id).value;
      && |r| == |ts| - 1
      && (forall k :: 0 <= k < i ==> r[k] == ts[k])
      && (forall k :: i <= k < |r| ==> r[k] == ts[k + 1])
    ensures Locate(ts, id).Sub? ==>
      var i, j := Locate(ts, id).i, Locate(ts, id).j;
      && Delete(ts, id).Some?
      && var r := Delete(ts, id).value;
      && |r| == |ts|
      && r[i] == ts[i].(subtasks := r[i].subtasks)
      && |r[i].subtasks| == |ts[i].subtasks| - 1
      && (forall q :: 0 <= q < j ==> r[i].subtasks[q] == ts[i].subtasks[q])
      && (forall q :: j <= q < |r[i].subtasks| ==> r[i].subtasks[q] == ts[i].subtasks[q + 1])
      && (forall k :: 0 <= k < |ts| && k != i ==> r[k] == ts[k])
  {
    MissingIffAbsent(ts, id);
    match Locate(ts, id)
    case Missing =>
    case Top(i) =>
      assert Delete(ts, id) == Some(ts[..i] + ts[i + 1..]);
      RemoveAt(ts, i);
    case Sub(i, j) =>
      var subs := ts[i].subtasks;
      assert Delete(ts, id) == Some(ts[i := ts[i].(subtasks := subs[..j] + subs[j + 1..])]);
      RemoveAt(subs, j);
  }

  /** Removing a top-level task takes away exactly its own and its subtasks' identifiers. */
  lemma RemoveTaskBag(ts: seq<Task>, i: nat)
    requires i < |ts|
    ensures IdBag(ts[..i] + ts[i + 1..]) + TaskBag(ts[i]) == IdBag(ts)
  {
    IdBagSplit(ts, i);
    IdBagConcat(ts[..i], ts[i + 1..]);
  }

  /** Removing a subtask takes away exactly its identifier from its parent's contribution. */
  lemma RemoveSubBag(t: Task, j: nat)
    requires j < |t.subtasks|
    ensures TaskBag(t.(subtasks := t.subtasks[..j] + t.subtasks[j + 1..])) + multiset{t.subtasks[j].id}
      == TaskBag(t)
  {
    var s := t.subtasks;
    SubBagSplit(s, j);
    SubBagConcat(s[..j], s[j + 1..]);
  }

  /**
   * A successful delete takes away exactly the identifiers of what it removed: the task and
   * its subtasks, or the one subtask.
   */
  lemma DeleteIds(ts: seq<Task>, id: string)
    requires Delete(ts, id).Some?
    ensures Locate(ts, id).Top? ==>
      IdBag(Delete(ts, id).value) + TaskBag(ts[Locate(ts, id).i]) == IdBag(ts)
    ensures Locate(ts, id).Sub? ==>
      IdBag(Delete(ts, id).value) + multiset{id} == IdBag(ts)
  {
    match Locate(ts, id)
    case Top(i) =>
      assert Delete(ts, id) == Some(ts[..i] + ts[i + 1..]);
      RemoveTaskBag(ts, i);
    case Sub(i, j) =>
      var s := ts[i].subtasks;
      var t := ts[i].(subtasks := s[..j] + s[j + 1..]);
      assert Delete(ts, id) == Some(ts[i := t]);
      RemoveSubBag(ts[i], j);
      ShrinkTaskBag(ts, i, t, multiset{id});
  }

  /** Replacing one task by another that contributes `gone` fewer identifiers. */
  lemma ShrinkTaskBag(ts: seq<Task>, i: nat, t: Task, gone: multiset<string>)
    requires i < |ts| && TaskBag(t) + gone == TaskBag(ts[i])
    ensures IdBag(ts[i := t]) + gone == IdBag(ts)
  {
    IdBagSplit(ts, i);
    IdBagSplit(ts[i := t], i);
    assert ts[i := t][..i] == ts[..i];
    assert ts[i := t][i + 1..] == ts[i + 1..];
  }

  /** Taking identifiers away from a bag without repeats leaves none repeated, and none of those taken. */
  lemma ShrinkUnique(small: multiset<string>, taken: multiset<string>, big: multiset<string>, id: string)
    requires small + taken == big && (forall x :: big[x] <= 1) && id in taken
    ensures forall x :: small[x] <= 1
    ensures id !in small
  {
    assert forall x :: small[x] + taken[x] == big[x];
  }

  /** With unique identifiers, a successful delete leaves no entity with that identifier. */
  lemma DeleteRemovesIdentifier(ts: seq<Task>, id: string)
    requires UniqueIds(ts) && Delete(ts, id).Some?
    ensures UniqueIds(Delete(ts, id).value)
    ensures id !in IdBag(Delete(ts, id).value)
  {
    DeleteIds(ts, id);
    var r := Delete(ts, id).value;
    match Locate(ts, id)
    case Top(i) =>
      assert id in TaskBag(ts[i]);
      ShrinkUnique(IdBag(r), TaskBag(ts[i]), IdBag(ts), id);
    case Sub(i, j) =>
      ShrinkUnique(IdBag(r), multiset{id}, IdBag(ts), id);
  }

  // ---------------------------------------------------------------------------------------
  // With unique identifiers the order of the top-level tasks does not matter
  //
  // GetAllTasks hands out the list reordered while the store keeps its own order, so what a
  // client holds is the stored tasks in another order.

  /** Taking one task out of a list takes out that task and its identifiers. */
  lemma RemoveOneTask(p: seq<Task>, a: nat)
    requires a < |p|
    ensures multiset(p[..a] + p[a + 1..]) == multiset(p) - multiset{p[a]}
    ensures IdBag(p) == IdBag(p[..a] + p[a + 1..]) + TaskBag(p[a])
  {
    assert p == p[..a] + [p[a]] + p[a + 1..];
    assert multiset(p) == multiset(p[..a]) + multiset{p[a]} + multiset(p[a + 1..]);
    IdBagSplit(p, a);
    IdBagConcat(p[..a], p[a + 1..]);
  }

  /** The first task of a list, taken out. */
  lemma RemoveFirstTask(s: seq<Task>)
    requires s != []
    ensures multiset(s[1..]) == multiset(s) - multiset{s[0]}
    ensures IdBag(s) == IdBag(s[1..]) + TaskBag(s[0])
  {
    assert s == [s[0]] + s[1..];
    assert AllIds(s) == TaskIds(s[0]) + AllIds(s[1..]);
  }

  /** Two lists holding the same top-level tasks carry the same identifiers. */
  lemma {:induction false} PermutedIdBag(p: seq<Task>, s: seq<Task>)
    requires multiset(p) == multiset(s)
    ensures IdBag(p) == IdBag(s)
    decreases |s|
  {
    if s == [] {
      assert p == [] by {
        assert |p| == |multiset(p)|;
      }
    } else {
      var a: nat :| a < |p| && p[a] == s[0] by {
        assert s[0] in multiset(p);
      }
      var restP := p[..a] + p[a + 1..];
      assert multiset(restP) == multiset(p) - multiset{s[0]}
        && IdBag(p) == IdBag(restP) + TaskBag(s[0]) by {
        RemoveOneTask(p, a);
      }
      RemoveFirstTask(s);
      PermutedIdBag(restP, s[1..]);
    }
  }

  /** Two top-level tasks that both carry `x` put it into the list's identifiers twice. */
  lemma TwoCarriers(ts: seq<Task>, a: nat, b: nat, x: string)
    requires a < b < |ts| && x in TaskBag(ts[a]) && x in TaskBag(ts[b])
    ensures IdBag(ts)[x] >= 2
  {
    var rest := ts[a + 1..];
    assert IdBag(rest)[x] >= 1 by {
      IdBagSplit(rest, b - a - 1);
      assert rest[b - a - 1] == ts[b];
    }
    IdBagSplit(ts, a);
  }

  /** With unique identifiers, one top-level task at most carries a given identifier. */
  lemma OneCarrier(ts: seq<Task>, a: nat, b: nat, x: string)
    requires UniqueIds(ts) && a < |ts| && b < |ts| && x in TaskBag(ts[a]) && x in TaskBag(ts[b])
    ensures a == b
  {
    if a < b {
      TwoCarriers(ts, a, b, x);
      assert false;
    } else if b < a {
      TwoCarriers(ts, b, a, x);
      assert false;
    }
  }

  /** The top-level task the search lands on carries the identifier. */
  lemma LocatedCarries(ts: seq<Task>, id: string)
    requires !Locate(ts, id).Missing?
    ensures Locate(ts, id).i < |ts| && id in TaskBag(ts[Locate(ts, id).i])
  {
    var at := Locate(ts, id);
    if at.Sub? {
      IndexOfNoneIffAbsent(ts[at.i].subtasks, id);
    }
  }

  /** With unique identifiers, the search lands on the one task that carries the identifier. */
  lemma LocateFindsCarrier(ts: seq<Task>, id: string, a: nat)
    requires UniqueIds(ts) && a < |ts| && id in TaskBag(ts[a])
    ensures !Locate(ts, id).Missing? && Locate(ts, id).i == a
  {
    IdBagSplit(ts, a);
    MissingIffAbsent(ts, id);
    LocatedCarries(ts, id);
    OneCarrier(ts, Locate(ts, id).i, a, id);
  }

  /**
   * UpdateTaskStatus on two orderings of the same tasks with unique identifiers: both fail
   * or both succeed, and then they hold the same tasks again.
   */
  lemma SetCompletionPermuted(p: seq<Task>, s: seq<Task>, id: string, complete: bool, now: int)
    requires multiset(p) == multiset(s) && UniqueIds(s)
    ensures SetCompletion(p, id, complete, now).None? <==> SetCompletion(s, id, complete, now).None?
    ensures SetCompletion(s, id, complete, now).Some? ==>
      multiset(SetCompletion(p, id, complete, now).value) == multiset(SetCompletion(s, id, complete, now).value)
  {
    PermutedIdBag(p, s);
    MissingIffAbsent(p, id);
    MissingIffAbsent(s, id);
    if !Locate(s, id).Missing? {
      var i := Locate(s, id).i;
      LocatedCarries(s, id);
      assert s[i] in multiset(p);
      var a :| 0 <= a < |p| && p[a] == s[i];
      LocateFindsCarrier(p, id, a);
      var t := Toggled(s[i], id, complete, now);
      assert multiset(p[a := t]) == multiset(p) - multiset{s[i]} + multiset{t};
      assert multiset(s[i := t]) == multiset(s) - multiset{s[i]} + multiset{t};
    }
  }

  /**
   * AddSubtask on two orderings of the same tasks with unique identifiers: both fail or
   * both succeed, and then they hold the same tasks again.
   */
  lemma AttachSubtaskPermuted(p: seq<Task>, s: seq<Task>, parentId: string, sub: Task)
    requires multiset(p) == multiset(s) && UniqueIds(s)
    ensures AttachSubtask(p, parentId, sub).None? <==> AttachSubtask(s, parentId, sub).None?
    ensures AttachSubtask(s, parentId, sub).Some? ==>
      multiset(AttachSubtask(p, parentId, sub).value) == multiset(AttachSubtask(s, parentId, sub).value)
  {
    PermutedIdBag(p, s);
    AttachSubtaskEffect(p, parentId, sub);
    AttachSubtaskEffect(s, parentId, sub);
    if IndexOf(s, parentId).Some? {
      var i := IndexOf(s, parentId).value;
      assert s[i] in multiset(p);
      var a :| 0 <= a < |p| && p[a] == s[i];
      var b := IndexOf(p, parentId).value;
      OneCarrier(p, a, b, parentId);
      var t := s[i].(subtasks := s[i].subtasks + [sub]);
      assert multiset(p[a := t]) == multiset(p) - multiset{s[i]} + multiset{t};
      assert multiset(s[i := t]) == multiset(s) - multiset{s[i]} + multiset{t};
    } else {
      forall k | 0 <= k < |p|
        ensures p[k].id != parentId
      {
        assert p[k] in multiset(s);
      }
    }
  }

  // ---------------------------------------------------------------------------------------
  // Parent completion is only re-derived when a subtask is toggled

  /** Every parent with subtasks is complete exactly when all of its subtasks are. */
  ghost predicate ParentsConsistent(ts: seq<Task>) {
    forall i :: 0 <= i < |ts| && ts[i].subtasks != [] ==>
      (ts[i].completedAt.Some? <==> AllComplete(ts[i].subtasks))
  }

  /** Adding an incomplete subtask to a complete parent leaves the parent marked complete. */
  lemma AttachCanDesynchronize()
    ensures var done := Task("s", "", 0, Some(1), "", []);
      var ts := [Task("p", "", 0, Some(1), "", [done])];
      var r := AttachSubtask(ts, "p", Task("n", "", 2, None, "", []));
      && ParentsConsistent(ts)
      && r.Some? && !ParentsConsistent(r.value)
  {
    var done := Task("s", "", 0, Some(1), "", []);
    var ts := [Task("p", "", 0, Some(1), "", [done])];
    var r := AttachSubtask(ts, "p", Task("n", "", 2, None, "", [])).value;
    assert !AllComplete(r[0].subtasks) by { assert r[0].subtasks[1].completedAt.None?; }
  }

  /** Reopening a parent directly leaves its subtasks complete. */
  lemma ToggleParentCanDesynchronize()
    ensures var done := Task("s", "", 0, Some(1), "", []);
      var ts := [Task("p", "", 0, Some(1), "", [done])];
      var r := SetCompletion(ts, "p", false, 5);
      && ParentsConsistent(ts)
      && r.Some? && !ParentsConsistent(r.value)
  {
    var done := Task("s", "", 0, Some(1), "", []);
    var ts := [Task("p", "", 0, Some(1), "", [done])];
    assert Locate(ts, "p") == Top(0);
    var r := SetCompletion(ts, "p", false, 5).value;
    assert r[0].completedAt.None? && r[0].subtasks == [done];
    assert AllComplete(r[0].subtasks);
  }

  /** Deleting the one incomplete subtask leaves the parent marked incomplete. */
  lemma DeleteCanDesynchronize()
    ensures var done := Task("s", "", 0, Some(1), "", []);
      var open := Task("o", "", 0, None, "", []);
      var ts := [Task("p", "", 0, None, "", [done, open])];
      var r := Delete(ts, "o");
      && ParentsConsistent(ts)
      && r.Some? && !ParentsConsistent(r.value)
  {
    var done := Task("s", "", 0, Some(1), "", []);
    var open := Task("o", "", 0, None, "", []);
    var ts := [Task("p", "", 0, None, "", [done, open])];
    assert !AllComplete(ts[0].subtasks) by { assert ts[0].subtasks[1].completedAt.None?; }
    assert IndexOf(ts[0].subtasks, "o") == Some(1);
    assert Locate(ts, "o") == Sub(0, 1);
    var r := Delete(ts, "o").value;
    assert r[0].subtasks == [done];
  }

  // ---------------------------------------------------------------------------------------
  // The store

  /** The `allComplete` scan of main.go: true exactly when no subtask lacks `completedAt`. */
  method ScanAllComplete(subs: seq<Task>) returns (allComplete: bool)
    ensures allComplete == AllComplete(subs)
  {
    allComplete := true;
    var q := 0;
    while q < |subs|
      invariant 0 <= q <= |subs|
      invariant forall p :: 0 <= p < q ==> subs[p].completedAt.Some?
    {
      if subs[q].completedAt.None? {
        allComplete := false;
        break;
      }
      q := q + 1;
    }
  }

  class TaskStore {
    /** The top-level tasks, in insertion order; each holds its own subtasks. */
    var tasks: seq<Task>

    /** A store over tasks already loaded from disk. */
    constructor(loaded: seq<Task>)
      ensures tasks == loaded
    {
      tasks := loaded;
    }

    /** A new incomplete task with no subtasks goes to the end of the list. */
    method AddTask(text: string, cycle: string, id: string, now: int) returns (task: Task)
      requires id !in IdBag(tasks)
      modifies this
      ensures task == Task(id, text, now, None, cycle, [])
      ensures tasks == old(tasks) + [task]
      ensures old(UniqueIds(tasks)) ==> UniqueIds(tasks)
    {
      task := Task(id, text, now, None, cycle, []);
      if UniqueIds(tasks) {
        AppendKeepsUniqueIds(tasks, task);
      }
      tasks := tasks + [task];
    }

    /** The new subtask goes to the first top-level task named `parentId`; none is an error. */
    method AddSubtask(parentId: string, text: string, cycle: string, id: string, now: int)
      returns (r: Result<Task>)
      requires id !in IdBag(tasks)
      modifies this
      ensures var sub := Task(id, text, now, None, cycle, []);
        match AttachSubtask(old(tasks), parentId, sub)
        case None => r == Failure(ParentNotFound) && tasks == old(tasks)
        case Some(updated) => r == Success(sub) && tasks == updated
      ensures old(UniqueIds(tasks)) ==> UniqueIds(tasks)
    {
      var sub := Task(id, text, now, None, cycle, []);
      var found := false;
      var i := 0;
      while i < |tasks|
        invariant 0 <= i <= |tasks|
        invariant tasks == old(tasks)
        invariant forall k :: 0 <= k < i ==> tasks[k].id != parentId
      {
        if tasks[i].id == parentId {
          if old(UniqueIds(tasks)) {
            AttachKeepsUniqueIds(tasks, parentId, sub);
          }
          tasks := tasks[i := tasks[i].(subtasks := tasks[i].subtasks + [sub])];
          found := true;
          break;
        }
        i := i + 1;
      }
      if !found {
        return Failure(ParentNotFound);
      }
      r := Success(sub);
    }

    /**
     * Sets or clears `completedAt` on the entity with `id`, searching each top-level task
     * before its subtasks; a toggled subtask makes its parent complete exactly when all of
     * the parent's subtasks are.
     */
    method UpdateTaskStatus(id: string, complete: bool, now: int) returns (o: Outcome)
      modifies this
      ensures match SetCompletion(old(tasks), id, complete, now)
        case None => o == Fail(TaskNotFound) && tasks == old(tasks)
        case Some(updated) => o == Pass && tasks == updated
    {
      var i := 0;
      while i < |tasks|
        invariant 0 <= i <= |tasks|
        invariant tasks == old(tasks)
        invariant LocateFrom(tasks, id, i) == Locate(tasks, id)
      {
        if tasks[i].id == id {
          tasks := tasks[i := tasks[i].(completedAt := Stamp(complete, now))];
          return Pass;
        }
        var subs := tasks[i].subtasks;
        var j := 0;
        while j < |subs|
          invariant 0 <= j <= |subs|
          invariant forall q :: 0 <= q < j ==> subs[q].id != id
        {
          if subs[j].id == id {
            subs := subs[j := subs[j].(completedAt := Stamp(complete, now))];
            var allComplete := ScanAllComplete(subs);
            var parentAt := if allComplete then Some(now) else None;
            tasks := tasks[i := tasks[i].(subtasks := subs, completedAt := parentAt)];
            return Pass;
          }
          j := j + 1;
        }
        i := i + 1;
      }
      return Fail(TaskNotFound);
    }

    /** Removes the entity with `id`, searching as UpdateTaskStatus does. */
    method DeleteTask(id: string) returns (o: Outcome)
      modifies this
      ensures match Delete(old(tasks), id)
        case None => o == Fail(TaskNotFound) && tasks == old(tasks)
        case Some(updated) => o == Pass && tasks == updated
    {
      var i := 0;
      while i < |tasks|
        invariant 0 <= i <= |tasks|
        invariant tasks == old(tasks)
        invariant LocateFrom(tasks, id, i) == Locate(tasks, id)
      {
        if tasks[i].id == id {
          tasks := tasks[..i] + tasks[i + 1..];
          return Pass;
        }
        var subs := tasks[i].subtasks;
        var j := 0;
        while j < |subs|
          invariant 0 <= j <= |subs|
          invariant forall q :: 0 <= q < j ==> subs[q].id != id
        {
          if subs[j].id == id {
            tasks := tasks[i := tasks[i].(subtasks := subs[..j] + subs[j + 1..])];
            return Pass;
          }
          j := j + 1;
        }
        i := i + 1;
      }
      return Fail(TaskNotFound);
    }

    /**
     * A copy of the list, stably sorted: incomplete before complete, then older first,
     * with ties in stored order; the store itself is not reordered.
     */
    method GetAllTasks() returns (r: seq<Task>)
      ensures multiset(r) == multiset(tasks)
      ensures forall i, j :: 0 <= i < j < |r| && r[i].completedAt.Some? ==> r[j].completedAt.Some?
      ensures forall i, j :: 0 <= i < j < |r| && r[i].completedAt.Some? == r[j].completedAt.Some? ==>
        r[i].createdAt <= r[j].createdAt
      ensures forall k :: Sorting.WithKey(r, DisplayRank, k) == Sorting.WithKey(tasks, DisplayRank, k)
    {
      r := Sorting.StableSort(tasks, DisplayRank);
      Sorting.SortOrdered(tasks, DisplayRank);
      forall k ensures Sorting.WithKey(r, DisplayRank, k) == Sorting.WithKey(tasks, DisplayRank, k) {
        Sorting.SortStable(tasks, DisplayRank, k);
      }
      assert forall i, j :: 0 <= i < j < |r| ==> !Sorting.Precedes(DisplayRank(r[j]), DisplayRank(r[i]));
    }
  }
}
