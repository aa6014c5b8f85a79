/**
 * The sort by due time that three pages apply: `loadTasks` of the kanban board
 * (`static/kanban.js`), `relevantTasks` of the Gantt chart (`static/gantt.js`) and
 * `renderDayView` of the calendar (`static/calendar.js`). The kanban comparator puts tasks
 * without a due time last; the other two only ever sort tasks that have one, on which all
 * three compare by due time alone.
 */
module DueOrder {
  import opened ClientTask
  import Sorting

  /** The comparator's key: dated tasks by due time, all undated ones after them, tied. */
  function DueRank(t: ClientTask): Sorting.Rank {
    if HasDue(t) then Sorting.Rank(0, t.dueAt.ms) else Sorting.Rank(1, 0)
  }

  /**
   * For every key, the tasks carrying it (the tasks due at one instant, or all the undated
   * ones) appear in `r` in the order they have in `data`.
   */
  ghost predicate KeepsTieOrder(r: seq<ClientTask>, data: seq<ClientTask>) {
    forall k :: Sorting.WithKey(r, DueRank, k) == Sorting.WithKey(data, DueRank, k)
  }

  /**
   * `data.sort((a, b) => aDue - bDue)` with `Infinity` for a missing due time. Two undated
   * tasks compare as NaN, which the sort treats as equal; the sort is stable.
   */
  method SortByDue(data: seq<ClientTask>) returns (r: seq<ClientTask>)
    ensures multiset(r) == multiset(data)
    ensures forall i, j :: 0 <= i < j < |r| && HasDue(r[j]) ==> HasDue(r[i])
    ensures forall i, j :: 0 <= i < j < |r| && HasDue(r[i]) && HasDue(r[j]) ==> r[i].dueAt.ms <= r[j].dueAt.ms
    ensures KeepsTieOrder(r, data)
  {
    r := Sorting.StableSort(data, DueRank);
    Sorting.SortOrdered(data, DueRank);
    forall k ensures Sorting.WithKey(r, DueRank, k) == Sorting.WithKey(data, DueRank, k) {
      Sorting.SortStable(data, DueRank, k);
    }
    assert forall i, j :: 0 <= i < j < |r| ==> !Sorting.Precedes(DueRank(r[j]), DueRank(r[i]));
  }
}
