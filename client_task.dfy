/**
 * A task as the browser scripts see it after `JSON.parse` of a server response. The Go
 * servers tag `completedAt` and `dueAt` with `omitempty`, so a nil time is an ABSENT key
 * (`undefined` in the browser), while the list page's own updates store `null`. A present
 * time is an ISO string, which is always truthy; it is held here as the instant it names.
 */
module ClientTask {
  import opened Basics
  import ServerStore
  import ServerStoreTs

  /** A JSON time field: key absent, explicit `null`, or an instant in milliseconds. */
  datatype JsTime = Undefined | Null | At(ms: int)

  datatype ClientTask = ClientTask(
    id: string,
    text: string,
    cycle: string,
    createdAt: int,
    completedAt: JsTime,
    dueAt: JsTime,
    subtasks: seq<ClientTask>)

  /** JavaScript truthiness of a time field: only a present time is truthy. */
  predicate Truthy(t: JsTime) {
    t.At?
  }

  /** `task.completedAt` is truthy: the test kanban.js and gantt.js use. */
  predicate IsCompleted(t: ClientTask) {
    Truthy(t.completedAt)
  }

  /** A present `dueAt`, as `task.dueAt ? ... : ...` tests it. */
  predicate HasDue(t: ClientTask) {
    Truthy(t.dueAt)
  }

  /** How an `omitempty` pointer to a time arrives in the browser. */
  function Wire(t: Option<int>): (r: JsTime)
    ensures r != Null
    ensures Truthy(r) <==> t.Some?
    ensures t.Some? ==> r == At(t.value)
  {
    match t
    case None => Undefined
    case Some(ms) => At(ms)
  }

  /** A list of tasks (the top-level list, or a task's subtasks) is encoded element by element. */
  function FromServerList(s: seq<ServerStore.Task>): (r: seq<ClientTask>)
    ensures |r| == |s|
    ensures forall k :: 0 <= k < |s| ==> r[k] == FromServer(s[k])
    decreases s, 0
  {
    if s == [] then [] else [FromServer(s[0])] + FromServerList(s[1..])
  }

  /** A `main.go` task as the browser receives it (that server sends no `dueAt`). */
  function FromServer(t: ServerStore.Task): (r: ClientTask)
    decreases t, 1
  {
    ClientTask(t.id, t.text, t.cycle, t.createdAt, Wire(t.completedAt), Undefined,
      FromServerList(t.subtasks))
  }

  /** A `main-ts.go` task as the browser receives it, with its due time. */
  function FromServerTs(t: ServerStoreTs.Task): (r: ClientTask)
    decreases t, 1
  {
    ClientTask(t.id, t.text, t.cycle, t.createdAt, Wire(t.completedAt), Wire(t.dueAt),
      FromServerTsSubs(t.subtasks))
  }

  function FromServerTsSubs(s: seq<ServerStoreTs.Task>): (r: seq<ClientTask>)
    ensures |r| == |s|
    ensures forall k :: 0 <= k < |s| ==> r[k] == FromServerTs(s[k])
    decreases s, 0
  {
    if s == [] then [] else [FromServerTs(s[0])] + FromServerTsSubs(s[1..])
  }
}
