# deku task tracker: a verified model of the task store and the page logic

deku is a small self-hosted task tracker. A Go server keeps a list of tasks. Each task may
carry a recurrence *cycle* ("5m", "1h", … "3m"), a creation time, a completion time and a
list of subtasks. Four browser pages read that list:

- the task list (`static/app.js`);
- a kanban board (`static/kanban.js`);
- a monthly Gantt chart (`static/gantt.js`);
- a day/week/month calendar (`static/calendar.js`).

This project models the core of all of them in Dafny:

- `server_store.dfy` (module `ServerStore`) is the `main.go` store.
  - The class `TaskStore` holds the top-level tasks in a `seq`.
  - Its methods follow the Go loops. Each is proved against a function on the list:
    `AttachSubtask`, `SetCompletion` or `Delete`.
  - Lemmas state what each operation changes and what it leaves alone.
  - They also prove the identifier bookkeeping (every identifier counted once, delete removes
    exactly what it finds) and parent auto-completion.
  - `GetAllTasks` is a stable sort by (completed, created).
- `server_store_ts.dfy` (module `ServerStoreTs`) is the alternative `main-ts.go` store. It adds:
  - the cycle-to-duration table and `calculateDueAt`;
  - separate subtask status and subtask deletion operations, keyed by parent and subtask;
  - no parent propagation.
- `sorting.dfy` holds the stable insertion sort over a two-level key, with its order and
  stability proved. This sort stands in for Go's `sort.SliceStable` and for
  `Array.prototype.sort` (stable since ECMAScript 2019).
- `due_order.dfy` (module `DueOrder`) is the sort by due time that the kanban, Gantt and
  calendar pages each apply, with its order and its tie order stated.
- `client_task.dfy` is the task record as the browser sees it. A Go `nil` time with
  `omitempty` arrives as an absent key, so a time field is `Undefined`, `Null` or an instant.
- `app.dfy` covers the task list page:
  - the cycle table and the overdue test;
  - `trim` and the add guard;
  - the rows `renderTasks` shows;
  - the local copy the page keeps in step with the server (class `TaskList`).
  - The page tests completion with `completedAt !== null`, but an open task arrives with no
    `completedAt` key. Every operation that tests completion takes a `Reading`: `AsWritten`
    is the page as it stands, `ByTruthiness` the reading that agrees with the server. Under
    the second, the local copy is proved to mirror the `main.go` store through its toggles
    and subtask additions. The page holds the tasks in the order GetAllTasks sorted them,
    and the store keeps insertion order, so the mirror is stated up to the order of the
    top-level tasks, for stores whose identifiers are unique.
- `kanban.dfy` covers the due text (day/hour/minute decomposition, prefix, plural), the
  four-column classification and the cards' overdue flag.
- `gantt.dfy` covers:
  - the open-task filter;
  - month relevance;
  - bar membership, width and position;
  - the rows and cells of the chart, with the bar placed as written or, corrected, where the
    task's span starts in the month (a `Placement` parameter);
  - month navigation.
- `calendar.dfy` covers:
  - the day, week and month range filters;
  - the weekday buckets;
  - the month grid (padding, whole weeks, the date shown in every cell);
  - grouping by date, `navigatePeriod` and `isSameDay`.
- `clock.dfy` models the part of JavaScript `Date` the pages use. It reads time as UTC
  milliseconds since 1970 in the proleptic Gregorian calendar. It provides:
  - day numbers;
  - ECMAScript `MakeDay`, with month and date overflow;
  - the calendar date of a day number, with a proved round trip;
  - `setDate` and `setMonth`;
  - the first and last day and instant of a month, as the Gantt and calendar pages compute
    them.
- `locking.dfy` (module `Locking`) is the `sync.RWMutex` discipline of the stores' mutators,
  seen from one call.

Time (`now`) and fresh identifiers (`uuid.New()`) are parameters. An added task's identifier
must not already be in use.

## Model

| member | source | states |
|---|---|---|
| ServerStore.IndexOf | main.go:132-146 | the first position whose identifier matches, or none exactly when no element matches |
| ServerStore.LocateFrom | main.go:163-205 | the search order of the store: each top-level task is tested before its subtasks, and both before the next task; found positions really carry the identifier, and nothing before them does |
| ServerStore.MissingIffAbsent | main.go:158-208 | the search fails exactly when no task or subtask carries the identifier |
| ServerStore.AppendKeepsUniqueIds | main.go:98-117 | adding a task with a fresh identifier keeps every identifier unique and adds exactly that one |
| ServerStore.AttachSubtaskEffect | main.go:120-155 | AddSubtask fails exactly when no top-level task has the parent identifier; otherwise exactly the first such parent gains the subtask at the end and nothing else changes |
| ServerStore.AttachSubtaskIds | main.go:132-146 | a successful AddSubtask adds exactly the new subtask's identifier |
| ServerStore.AttachKeepsUniqueIds | main.go:120-155 | AddSubtask with a fresh identifier keeps identifiers unique |
| ServerStore.SetCompletionOfTask | main.go:163-172 | toggling a top-level task sets `CompletedAt` to now or clears it on that task only; its subtasks and all other tasks are unchanged |
| ServerStore.SetCompletionOfSubtask | main.go:175-203 | toggling a subtask sets or clears that subtask only; afterwards its parent is complete exactly when every one of its subtasks is; no other task changes |
| ServerStore.SetCompletionIds | main.go:158-208 | an unknown identifier is "task not found"; a toggle never changes the identifiers |
| ServerStore.DeleteEffect | main.go:211-234 | deleting a top-level task removes it with its subtasks and keeps the others in order; deleting a subtask removes only it and keeps its siblings in order; an unknown identifier is an error |
| ServerStore.DeleteIds | main.go:211-234 | a successful delete takes away exactly the identifiers of what it removed |
| ServerStore.DeleteRemovesIdentifier | main.go:211-234 | with unique identifiers, after a delete no entity carries the identifier and identifiers stay unique |
| ServerStore.AttachCanDesynchronize | main.go:120-155 | adding an incomplete subtask to a completed parent leaves the parent completed: auto-completion only runs on a subtask toggle |
| ServerStore.ToggleParentCanDesynchronize | main.go:163-172 | reopening a parent directly leaves its subtasks completed |
| ServerStore.DeleteCanDesynchronize | main.go:223-230 | deleting the one open subtask leaves the parent open although all remaining subtasks are complete |
| ServerStore.PermutedIdBag | main.go:237-256 | a reordered copy of the tasks carries exactly the same identifiers as the store |
| ServerStore.LocateFindsCarrier | main.go:163-205 | with unique identifiers, the search lands on the one top-level task that carries the identifier, itself or in a subtask, wherever that task stands |
| ServerStore.SetCompletionPermuted | main.go:158-208 | with unique identifiers, UpdateTaskStatus on two orderings of the same tasks fails on both or on neither, and afterwards they again hold the same tasks |
| ServerStore.AttachSubtaskPermuted | main.go:120-155 | with unique identifiers, AddSubtask on two orderings of the same tasks fails on both or on neither, and afterwards they again hold the same tasks |
| ServerStore.ScanAllComplete | main.go:186-192 | the `allComplete` loop returns true exactly when every subtask has a completion time |
| ServerStore.TaskStore.constructor | main.go:42-77 | the store holds the loaded tasks |
| ServerStore.TaskStore.AddTask | main.go:98-117 | a new open task with no subtasks, created now, is appended; unique identifiers stay unique |
| ServerStore.TaskStore.AddSubtask | main.go:120-155 | the parent loop over top-level tasks: success with the stored subtask exactly as AttachSubtask says, else "parent task not found" and no change |
| ServerStore.TaskStore.UpdateTaskStatus | main.go:158-208 | the two nested loops and the `allComplete` recomputation reach exactly SetCompletion's list; unknown identifier: "task not found", no change |
| ServerStore.TaskStore.DeleteTask | main.go:211-234 | the loops reach exactly Delete's list; unknown identifier: "task not found", no change |
| ServerStore.TaskStore.GetAllTasks | main.go:237-256 | the result is a permutation of the stored tasks; open tasks come before completed ones, and within each group creation times do not decrease; tasks with equal keys keep their stored order; the store is not reordered |
| Sorting.StableSort | main.go:246-253 | the sort's result is a permutation of its input |
| Sorting.PrecedesIsStrictTotal | main.go:246-253 | the comparator (by major key, then minor key) is a strict total order on keys |
| Sorting.SortOrdered | main.go:246-253 | the sort's result is ordered: no element is followed by one whose key precedes it |
| Sorting.SortStable | main.go:246-253 | the elements sharing any key keep their relative input order |
| ServerStoreTs.CycleDurationsInMs | main-ts.go:16-27 | the table holds exactly the ten tokens with durations 5 min, 1 h, 4 h, 12 h, 24 h, 72 h, 168 h, 720 h, 2160 h, and 0 for "" |
| ServerStoreTs.CalculateDueAt | main-ts.go:99-116 | no due time exactly for the empty cycle; creation plus the table's duration for a known token; creation plus 24 h for an unknown one; a due time is always after creation |
| ServerStoreTs.IndexOf | main-ts.go:160-172 | the first position with the identifier, or none exactly when there is none |
| ServerStoreTs.NewTaskShape | main-ts.go:123-132 | a new record is created now, open, without subtasks, and due, after creation, exactly when it has a cycle |
| ServerStoreTs.AttachSubtaskEffect | main-ts.go:236-273 | AddSubtask fails exactly when no top-level task is the parent; otherwise only the first parent gains the subtask at the end |
| ServerStoreTs.SetTaskCompletionEffect | main-ts.go:156-173 | only top-level identifiers are found; only that task's `CompletedAt` changes, its subtasks are untouched |
| ServerStoreTs.SetSubtaskCompletionEffect | main-ts.go:176-198 | a missing parent and a missing subtask are distinct errors; success changes only that subtask's `CompletedAt`, never the parent's |
| ServerStoreTs.FirstParentDecides | main-ts.go:180-197 | the search stops at the first parent match: a subtask under a later parent with the same identifier is reported missing |
| ServerStoreTs.DeleteTopEffect | main-ts.go:201-213 | DeleteTask finds only top-level identifiers and removes that task, keeping the rest in order |
| ServerStoreTs.DeleteSubEffect | main-ts.go:216-233 | DeleteSubtask reports a missing parent and a missing subtask apart, and removes only the subtask, keeping its siblings in order |
| ServerStoreTs.TaskStore.constructor | main-ts.go:45-85 | the store holds the loaded tasks |
| ServerStoreTs.TaskStore.AddTask | main-ts.go:119-141 | the new record, due by its cycle from the same creation instant, is appended |
| ServerStoreTs.TaskStore.AddSubtask | main-ts.go:236-273 | the parent loop yields AttachSubtask's list and the new record, or "parent task not found" with no change |
| ServerStoreTs.TaskStore.GetAllTasks | main-ts.go:144-153 | the stored list in insertion order, unsorted |
| ServerStoreTs.TaskStore.UpdateTaskStatus | main-ts.go:156-173 | the loop yields SetTaskCompletion's list, or "task not found" with no change |
| ServerStoreTs.TaskStore.UpdateSubtaskStatus | main-ts.go:176-198 | the nested loops yield SetSubtaskCompletion's list, or its error with no change |
| ServerStoreTs.TaskStore.DeleteTask | main-ts.go:201-213 | the loop yields DeleteTop's list, or "task not found" with no change |
| ServerStoreTs.TaskStore.DeleteSubtask | main-ts.go:216-233 | the nested loops yield DeleteSub's list, or its error with no change |
| ClientTask.Wire | main.go:25-32 | a `nil` time sent with `omitempty` arrives as an absent key (never `null`), and a set time arrives as that instant |
| ClientTask.FromServerTsSubs | main-ts.go:29-37 | subtasks of the alternative store arrive element by element, in order |
| App.ConvertCycleToMilliseconds | static/app.js:290-309 | the table's durations, and 0 for anything else; never negative |
| App.CycleTablesAgree | static/app.js:290-309 | the page's table equals the `main-ts.go` table on every token it has, and is 0 exactly on "" or an unknown token |
| App.OverdueIffPastServerDue | static/app.js:280-288 | for a known cycle, overdue exactly when now is strictly past the due time the `main-ts.go` server computes |
| App.UnknownCycleOverdueAtOnce | static/app.js:280-288 | for an unknown cycle the page calls a task overdue as soon as any time has passed, while the `main-ts.go` server gives it a day |
| App.ReceivedTasksCountCompleted | static/app.js:276-278 | as written, every open task received from the server counts as completed, although by truthiness it is open |
| App.ReceivedCompletionByTruthiness | static/app.js:276-278 | read by truthiness, a received task is completed exactly when the server holds a completion time |
| App.BadgeOfReceivedTask | static/app.js:93-95 | as written, no received task ever shows the overdue badge; corrected (by truthiness), a received task shows it exactly when it has a cycle, is open on the server and more than its cycle has elapsed |
| App.TrimStartIndex | static/app.js:116 | the first index not preceded only by white space |
| App.TrimEndIndex | static/app.js:116 | the end after stepping back over trailing white space |
| App.TrimIsSlice | static/app.js:116 | `trim()` is the slice between the leading and trailing white space, and neither starts nor ends with white space |
| App.TrimEmptyIffAllSpace | static/app.js:116-119 | the trimmed text is empty exactly when the input is all white space |
| App.TextToSubmit | static/app.js:113-123 | text is submitted, trimmed, exactly when the input holds a character that is not white space |
| App.SubRowsMembers | static/app.js:52-59 | under either reading of completion, the subtask rows are exactly the visible subtasks |
| App.TaskRowsMembers | static/app.js:40-61 | under either reading, one task's rows are exactly itself and its visible subtasks, and none when it is hidden |
| App.RowsMembers | static/app.js:37-62 | under either reading, a row is shown exactly for a visible task or a visible subtask of a visible task: hiding a completed task hides its subtasks too |
| App.AsWrittenHidesReceivedList | static/app.js:41 | as written, with completed tasks hidden, no row at all is shown for a list received from the server |
| App.ReceivedRowsByTruthiness | static/app.js:41 | corrected (by truthiness), with completed tasks hidden, a received task has its row exactly when the server holds it open |
| App.RenderSubtasks | static/app.js:52-59 | the subtask loop emits the subtask rows in order, under the reading given (`AsWritten` is the page) |
| App.RenderTasks | static/app.js:37-62 | the task loop emits all rows, task by task, each followed by its subtasks, under the reading given (`AsWritten` is the page) |
| App.FindIndex | static/app.js:249 | `findIndex`: the first match, or -1 exactly when there is none |
| App.LocateFrom | static/app.js:211-233 | the page's search: each task before its subtasks, both before the next task |
| App.SubOwnerFrom | static/app.js:256-264 | the first task that has a subtask with the identifier |
| App.LocalSetCompletionOfTask | static/app.js:213-217 | a local toggle of a task changes only its `completedAt`, which then reads completed exactly when the toggle asked for it |
| App.LocalSetCompletionOfSubtask | static/app.js:219-231 | a local toggle of a subtask changes only that subtask; then the parent is completed exactly when all its subtasks are, under the same reading; as written, the parent's `completedAt` is non-null exactly when every subtask's is |
| App.LocalSetCompletionOfUnknown | static/app.js:211-233 | an unknown identifier changes nothing |
| App.LocalRemoveTop | static/app.js:249-253 | a top-level match anywhere is removed first, with its subtasks, the rest in order |
| App.LocalRemoveSub | static/app.js:255-264 | without a top-level match, the first matching subtask is removed and nothing else changes |
| App.LocalRemoveUnknown | static/app.js:247-265 | an identifier matching nothing changes nothing |
| App.LocalAttachEffect | static/app.js:181-190 | with no top-level task carrying the parent identifier the list stays; otherwise exactly the first such task gains the subtask at the end of its list, and every other task is unchanged |
| ClientTask.FromServerList | static/app.js:27-35 | the loaded list, and every subtask list, is the server's, element by element in order |
| App.ReceivedListMirrors | static/app.js:27-35 | the list built from a response mirrors that response, task by task and subtask by subtask |
| App.LoadedListMirrors | static/app.js:27-35 | the list loaded from GetAllTasks' sorted copy mirrors the store up to the order of the top-level tasks |
| App.SameSearch | static/app.js:211-233 | over mirrored lists the page finds exactly what the `main.go` store finds |
| App.SameSubSearch | static/app.js:249 | `findIndex` and the store's search agree on lists with the same identifiers |
| App.MirrorTaskToggle | static/app.js:213-217 | a local task toggle mirrors the server's |
| App.MirrorSubtaskToggle | static/app.js:219-231 | corrected (by truthiness): a local subtask toggle with the parent re-derived mirrors the server's |
| App.MirrorAttachInOrder | static/app.js:181-190 | over lists mirrored task by task, pushing the subtask the server returns mirrors AddSubtask, and the page finds no parent exactly when the server fails |
| App.LocalToggleMirrorsInOrder | static/app.js:211-233 | corrected (by truthiness): over lists mirrored task by task, the local toggle mirrors the server's |
| App.MirrorAttach | static/app.js:181-190 | with unique identifiers, pushing the subtask the server returns keeps the page's copy a mirror of the `main.go` store after AddSubtask, whatever order the page holds the tasks in, and the page finds no parent exactly when the server fails |
| App.LocalToggleMirrorsServer | static/app.js:211-233 | corrected: with completion read by truthiness and unique identifiers, the local toggle keeps the page's copy a mirror of the `main.go` store after its toggle, whatever order the page holds the tasks in |
| App.AsWrittenToggleDrifts | static/app.js:226 | as written (`!== null`), one received open subtask and a freshly completed sibling make the local toggle stamp the parent, which the server leaves open, so the copies no longer mirror each other |
| App.TaskList.constructor | static/app.js:27-35 | the page holds the loaded list |
| App.TaskList.AddTask | static/app.js:134-137 | the created task is pushed at the end |
| App.TaskList.AddSubtask | static/app.js:181-190 | the new list is LocalAttach's, whose effect and mirror lemmas state what changes |
| App.TaskList.UpdateTaskCompletionStatus | static/app.js:211-233 | the nested loops reach exactly LocalSetCompletion's list, under the reading given (`AsWritten` is the page) |
| App.TaskList.RemoveTaskFromLocalData | static/app.js:247-265 | `findIndex`/`splice`, then the walk over subtasks, reach exactly LocalRemove's list |
| Kanban.NatToStringRoundTrip | static/kanban.js:198-209 | the printed count reads back as the number |
| Kanban.Decompose | static/kanban.js:191-194 | hours below 24 and minutes below 60; days, hours and minutes make up `abs(diffMs)` to within one minute |
| Kanban.DescribeUnit | static/kanban.js:196-210 | days when at least a day, else hours when at least an hour, else minutes; the count is the whole number of units; overdue exactly when `diffMs < 0` |
| Kanban.DueTextEmptyIffNoDue | static/kanban.js:186-187 | the text is empty exactly when there is no due time |
| Kanban.RenderOverduePrefix | static/kanban.js:196-210 | a rendered text starts with "Overdue by" exactly when it describes an overdue task |
| Kanban.OverdueIffPast | static/kanban.js:191-210 | the text starts with "Overdue by" exactly when the due time has passed |
| Kanban.PluralIffMoreThanOne | static/kanban.js:197-209 | the text ends in "s" exactly when the count is more than one |
| Kanban.DueNowText | static/kanban.js:208-209 | due right now reads "Due in 0 minute" |
| Kanban.EndOfToday | static/kanban.js:130 | today at 23:59:59.000: one second before the next midnight |
| Kanban.TodayColumnMeaning | static/kanban.js:141-146 | an open task is in Today exactly when due from now until 23:59:59.000 today |
| Kanban.InColumnMembers | static/kanban.js:132-151 | a column holds exactly the listed tasks that classify into it |
| Kanban.ColumnsPartitionDated | static/kanban.js:132-151 | the four columns together hold every dated task exactly once, and no undated task |
| Kanban.RenderKanban | static/kanban.js:132-151 | the loop pushes each task onto exactly its column, in list order |
| Kanban.CardOverdueIffOverdueColumn | static/kanban.js:170 | a card is flagged overdue exactly when it sits in the Overdue column |
| DueOrder.SortByDue | static/kanban.js:101-105 | a permutation with dated tasks first, in ascending due order, then the undated ones, each key group in input order |
| Gantt.OpenTasks | static/gantt.js:121 | exactly the tasks without a truthy completion time |
| Clock.MonthLengthByDayZero | static/gantt.js:141 | date 0 of the next month is the number of days of the month |
| Clock.LastDay | static/gantt.js:144-146 | the month's last day is its first day plus its length minus one |
| Gantt.RelevantByDays | static/gantt.js:148-158 | relevant exactly when it has a due time on or after the 1st, and is due or created by the last day |
| Gantt.DateOnly | static/gantt.js:259-261 | midnight of the instant's day |
| Gantt.ShouldShowByDays | static/gantt.js:254-265 | the cell's day lies between the creation day and the due day |
| Gantt.BarWidthIsOneCell | static/gantt.js:267-286 | every bar is 100% of one cell wide |
| Gantt.CalculateBarPosition | static/gantt.js:288-295 | the position is 0 or -1 |
| Gantt.BarPositionZeroIffCreationDay | static/gantt.js:288-295 | 0 exactly on the creation day |
| Gantt.CellDateDay | static/gantt.js:216 | the cell of date `day` is that day of the month |
| Gantt.AsWrittenBarByDays | static/gantt.js:223-233 | as written, a bar is drawn only in the cell of the creation day, and only when that day is not after the due day |
| Gantt.AsWrittenNoBarWhenCreatedEarlier | static/gantt.js:223-233 | as written, a task created before the month gets no bar on any day |
| Gantt.AsWrittenMissesCarriedOverTask | static/gantt.js:148-158 | a task created the day before the month and due on the 10th is relevant yet gets no bar |
| Gantt.AsWrittenBarIffCreatedInMonth | static/gantt.js:223-233 | as written, a relevant task has a bar exactly when it was created within the month |
| Gantt.BarInExactlyOneCell | static/gantt.js:223-233 | corrected: every relevant task has its bar in exactly one cell of the month, the one where its clipped span starts |
| Gantt.CorrectedAgreesWithinMonth | static/gantt.js:223-233 | for tasks created within the month the corrected bar is the written one |
| Gantt.RowCells | static/gantt.js:215-237 | a row has one cell per day |
| Gantt.RowCellAt | static/gantt.js:215-237 | cell k of a row is day k + 1: its weekend and today shading, and the task's bar exactly where the placement puts it |
| Gantt.AsWrittenRowWithoutBar | static/gantt.js:223-233 | as written, the row of a task created before the month has no bar in any cell |
| Gantt.CorrectedRowHasOneBar | static/gantt.js:223-233 | corrected: the row of a relevant task whose span runs forward has its bar in exactly one cell, that of its clipped start day |
| Gantt.RenderRow | static/gantt.js:215-237 | the day loop emits the row's cells in day order, with the placement given (`AsWrittenPlacement` is the page) |
| Gantt.SelectRelevant | static/gantt.js:148-161 | a permutation of the relevant tasks, sorted by ascending due time, tasks due at the same instant in list order |
| Gantt.RenderRows | static/gantt.js:200-240 | one row per relevant task, in order, with the placement given |
| Gantt.RenderGantt | static/gantt.js:135-243 | the relevant open tasks of the shown month, sorted by due time with ties in list order, each with its row; `AsWrittenPlacement` is the page |
| Gantt.GanttView.constructor | static/gantt.js:14 | the chart opens on today |
| Gantt.GanttView.NavigateMonth | static/gantt.js:91-94 | `setMonth(getMonth() + direction)` |
| Gantt.GanttView.GoToToday | static/gantt.js:96-99 | the shown date becomes now |
| Clock.TimeOfDay | static/calendar.js:136-140 | an instant is its day's midnight plus a time of day below one day |
| Clock.DayOfShift | static/calendar.js:74-78 | moving by whole days moves the day number by as many |
| Clock.DayBounds | static/calendar.js:143-147 | an instant lies between midnight and the last millisecond of a day exactly when it is on that day |
| Clock.Weekday | static/calendar.js:177 | `getDay()` lies in 0..6 |
| Clock.DaysInMonth | static/calendar.js:233 | every month has 28 to 31 days |
| Clock.MonthsFillYear | static/calendar.js:233 | the twelve months fill the year |
| Clock.MonthStartMonotonic | static/calendar.js:243-245 | later months start later |
| Clock.YearOfDay | static/calendar.js:226 | the year containing a day number |
| Clock.MonthFrom | static/calendar.js:227 | the month containing a day number |
| Clock.CivilOfDay | static/calendar.js:342-346 | the calendar date of a day number is valid and maps back to it |
| Clock.CivilInjective | static/calendar.js:342-346 | distinct valid dates have distinct day numbers |
| Clock.CivilRoundTrip | static/calendar.js:342-346 | a valid date read back from its day number is itself |
| Clock.SameCivilIffSameDay | static/calendar.js:342-346 | same calendar date exactly when same day number |
| Clock.MakeDayShiftDate | static/calendar.js:76-78 | moving the date by k moves the day number by k, across month and year ends |
| Clock.LastDayOfMonth | static/calendar.js:233 | date 0 of the next month is the last date of the month |
| Clock.AddDays | static/calendar.js:76-78 | `setDate(getDate() + k)` keeps the time of day and moves the day by k |
| Clock.SetDateIsDayShift | static/calendar.js:76-78 | the calendar arithmetic of `setDate` is exactly a shift by whole days |
| Clock.AddMonthsLandsOnSameDate | static/calendar.js:79-80 | when the target month has the date, `setMonth` lands on that date, the year carried, at the same time of day |
| Clock.MakeDayCarriesMonth | static/calendar.js:79-80 | a month index outside 0..11 is carried into the year, as `setMonth` does |
| Calendar.DueBetweenMembers | static/calendar.js:143-147 | the range filter keeps exactly the listed tasks due within the range |
| Calendar.DayRangeIsOneDay | static/calendar.js:135-147 | the day view keeps a task exactly when it is due on the shown day |
| Calendar.SetHoursBounds | static/calendar.js:136-140 | `setHours(0,0,0,0)` and `setHours(23,59,59,999)` are the day's first and last millisecond |
| Calendar.SundayOnOrBefore | static/calendar.js:176-178 | stepping back by the weekday reaches a Sunday at most six days earlier |
| Calendar.WeekStartBounds | static/calendar.js:176-178 | the week starts at midnight of the Sunday on or before the shown day |
| Calendar.WeekBounds | static/calendar.js:176-182 | the week runs from Sunday midnight to the last millisecond of the following Saturday |
| Calendar.WeekDayDate | static/calendar.js:195-197 | the i-th day of the week has weekday i |
| Calendar.WeekdayFromSunday | static/calendar.js:195-202 | the n-th day after a Sunday has weekday n mod 7 |
| Calendar.WeekRangeIsSevenDays | static/calendar.js:184-189 | the week view keeps a task exactly when it is due on one of the week's seven days |
| Calendar.DayInMonthIffCivil | static/calendar.js:243-245 | a day lies in the month's range exactly when its calendar date is in that month, with the matching date |
| Calendar.DayOfMonthIsCivil | static/calendar.js:243-245 | a day number within the month is the calendar date it counts to from the 1st |
| Calendar.MonthRangeIsCalendarMonth | static/calendar.js:243-252 | the month view keeps a task exactly when it is due in that calendar month |
| Calendar.RenderDayView | static/calendar.js:135-173 | exactly the tasks due on the shown day, in ascending due order with ties in list order, a permutation of the filtered list |
| Calendar.OnWeekdayMembers | static/calendar.js:199-202 | a bucket holds exactly the dated tasks whose due day has that weekday |
| Calendar.WeekBucketMembers | static/calendar.js:195-202 | bucket i holds exactly the tasks due on the i-th day of the week, so each week task is in exactly one bucket |
| Calendar.RenderWeekView | static/calendar.js:175-223 | seven buckets, bucket i holding exactly the tasks due on day i of the week, in list order |
| Calendar.CeilWeeks | static/calendar.js:239 | `Math.ceil(n / 7)` whole weeks hold n days with fewer than seven to spare |
| Calendar.TotalCells | static/calendar.js:239 | the cell count is a multiple of 7, at least the padding plus the month's days, and less than a week more |
| Calendar.DaysFromNextMonth | static/calendar.js:240 | at most six trailing cells, and they complete the last week |
| Calendar.FirstWeekday | static/calendar.js:230 | the first day's column lies in 0..6 |
| Calendar.DayZeroIsPrevMonthEnd | static/calendar.js:281 | date 0 of a month is the last day of the month before, across a year end too |
| Calendar.PrevMonthLastDay | static/calendar.js:281 | the last date of the previous month is its number of days |
| Calendar.NextMonthStart | static/calendar.js:312-314 | the next month's days follow the month's last day |
| Calendar.GridColumnIsWeekday | static/calendar.js:270-278 | the cell in column n mod 7 falls on that weekday |
| Calendar.PaddingCellDay | static/calendar.js:282-285 | the i-th padding cell from the right is day `prevMonthLastDay - i` of the month before |
| Calendar.PaddingCellDate | static/calendar.js:282-285 | the leading cells show the previous month's last `firstDay` dates, in ascending order |
| Calendar.MonthCellDate | static/calendar.js:289-309 | after the padding the cells show the month's dates 1 to `daysInMonth` |
| Calendar.NextCellDate | static/calendar.js:312-314 | the trailing cells show dates 1, 2, … of the month after |
| Calendar.PaddingCellRight | static/calendar.js:282-285 | a padding cell shows its own day, greyed out |
| Calendar.MonthCellRight | static/calendar.js:289-309 | a month cell shows its day and the tasks grouped under its date |
| Calendar.NextCellRight | static/calendar.js:312-314 | a trailing cell shows its own day, greyed out |
| Calendar.GridCellRight | static/calendar.js:280-314 | every cell of the grid shows its own day |
| Calendar.BuildGrid | static/calendar.js:280-314 | the three loops emit the padding, the month and the trailing cells in order |
| Calendar.RenderMonthGrid | static/calendar.js:225-318 | whole weeks of cells, each showing the calendar date of its position |
| Calendar.DueOnDateMembers | static/calendar.js:255-264 | a date's group holds exactly the tasks due on that date |
| Calendar.GroupByDay | static/calendar.js:255-264 | each date holds its tasks in list order, and only dates with tasks are keys |
| Calendar.MonthCellTasks | static/calendar.js:243-264 | a month cell lists exactly the tasks due on that date of that month |
| Calendar.RenderMonthView | static/calendar.js:225-318 | whole weeks; every cell shows its date; greyed cells list nothing; a month cell lists the month's tasks due on its date, in list order, which are exactly the tasks due on that civil date |
| Calendar.GridShowsMonthTasks | static/calendar.js:225-318 | a grid whose cells show their days over the month's tasks grouped by day lists, in each month cell, the month's tasks due on its date, exactly the tasks due on that civil date |
| Calendar.SameDayIffSameDayNumber | static/calendar.js:342-346 | same year, month and date exactly when same day number |
| Calendar.SameDayIsEquivalence | static/calendar.js:342-346 | `isSameDay` is reflexive, symmetric and transitive |
| Calendar.NavigatedMoves | static/calendar.js:74-81 | day view moves by d days and week view by 7·d days, keeping the time; month view keeps the date and time when the target month has that date |
| Calendar.CalendarPage.constructor | static/calendar.js:13-14 | the page opens on today, in the month view |
| Calendar.CalendarPage.SwitchView | static/calendar.js:59-72 | the view changes, the date stays |
| Calendar.CalendarPage.NavigatePeriod | static/calendar.js:74-83 | the date moves as `Navigated` says for the view in force; the view stays |
| Calendar.CalendarPage.GoToToday | static/calendar.js:85-88 | the date becomes now, the view stays |
| Calendar.CalendarPage.RenderCalendar | static/calendar.js:100-106 | the view in force picks the rendering, and each carries its view's full promise: the day's tasks sorted with ties in list order; the seven weekday buckets and their members; the month grid's dates and each cell's tasks |
| Locking.Apply | main.go:80-82 | `Lock` goes through only when no writer and no reader hold the mutex, `RLock` only when no writer does |
| Locking.AsWrittenMutatorBlocks | main.go:98-111 | as written, a `main.go` mutator never returns: its `Save` asks for the read lock while the same call holds the write lock |
| Locking.UnlockedSaveMutatorCompletes | main-ts.go:119-136 | with a `Save` that takes no lock, as in `main-ts.go`, a mutator on a free mutex returns and leaves it free |
| Locking.SaveAloneCompletes | main.go:80-82 | `Save` called with no writer holding the mutex, as at start-up, takes and returns the read lock |

## Left out

- HTTP handlers, routing, JSON request parsing, status codes and templates (`main.go` from
  line 259) are left out. So is the server-sent-events reconnection in the pages. All of this
  is I/O plumbing.
- Persistence is left out:
  - `NewTaskStore` reading the JSON file is not modelled. The constructors take the loaded
    tasks.
  - `Save` is modelled as always succeeding. The error a failed write would return from
    AddTask, AddSubtask, UpdateTaskStatus and DeleteTask is not modelled.
- The store models take each method as atomic. The `sync.RWMutex` is modelled only in
  `locking.dfy`, for one call at a time; other goroutines waiting on the mutex are not.
- `uuid.New()` and `time.Now()`/`new Date()` are parameters. An added task's identifier is
  required to be unused.
- ServerStore.TaskStore.UpdateTaskStatus: the subtask stamp and the parent stamp are two
  clock reads in the source. The model uses one `now` for both.
- App.TaskList.UpdateTaskCompletionStatus: the subtask stamp and the parent stamp are two
  `new Date()` reads in the source (app.js:223, 227). The model uses one `now` for both, in
  App.LocalSetCompletion too.
- App.MirrorAttach and App.LocalToggleMirrorsServer: proved for stores whose identifiers are
  unique, as `uuid.New()` makes them. With a repeated identifier the page and the store may
  search different orders and reach different entities, and no mirror is claimed.
- ServerStore.TaskStore.GetAllTasks: the Go copy shares `*Task` pointers with the store, so a
  caller mutating a returned task would mutate the store. Tasks here are values, so that
  aliasing is not modelled.
- DOM building, HTML strings, the theme and sidebar toggles, and `localStorage` are left out.
- The locale formatting of dates and times (`formatDate`, `formatTime`, `updatePeriodDisplay`,
  month names) is left out.
- The 25-character truncation of Gantt labels is left out. So are the Gantt header row and
  the empty-month message; `RenderGantt` returns no rows instead.
- `Date` is read in UTC, with no time zone and no daylight saving, over the proleptic
  Gregorian calendar. In a zone with daylight saving, `setDate` and `setHours` can differ by
  an hour from the model.
- `Date` is also read without the ±8.64e15 ms range limit.
- App.TrimStartIndex: `trim()` removes the ECMAScript white space and line terminator
  characters. Characters outside the Basic Multilingual Plane are not considered.
- Calendar.CalendarPage.SwitchView: the view is a three-valued datatype. Any string other
  than 'day' or 'week' behaves as the month view, as `navigatePeriod` and `renderCalendar`
  treat it, so such strings are not kept apart.
- The calendar's "today" highlight and completed-task styling are not modelled. The month
  cells carry only their date, whether they are greyed out, and their tasks. Gantt cells do
  carry weekend and today shading, but nothing is proved about it beyond its definition.
- App.TaskList: the page's `find` for a parent and `findIndex` for a removal are modelled as
  first-match searches. Both servers tag `Subtasks` with `omitempty` (main.go:31,
  main-ts.go:36), so a task without subtasks arrives with no `subtasks` key. The model
  represents that absent key as `[]`, which makes the page's `subtasks = []` (app.js:185-187)
  a no-op.

## Findings

| source | as written | input that shows it | evidently intended | confidence | as-written member | corrected member |
|---|---|---|---|---|---|---|
| static/app.js:41, 53, 87, 93, 226, 277 | a task counts as completed when `completedAt !== null` | the `main.go` server omits a `nil` `completedAt` (`omitempty`), so an open task arrives with the key absent (`undefined`), which is `!== null` | completed exactly when `completedAt` is truthy, as kanban.js:138 and gantt.js:121 test it | not executed | App.ReceivedTasksCountCompleted, App.AsWrittenHidesReceivedList, App.BadgeOfReceivedTask, App.AsWrittenToggleDrifts | App.ReceivedCompletionByTruthiness, App.ReceivedRowsByTruthiness, App.BadgeOfReceivedTask, App.LocalToggleMirrorsServer |
| static/gantt.js:223-233, 288-295 | a bar is drawn only in the cell whose date is the creation date | a task created on the last day of the previous month and due on the 10th is relevant but gets no bar in any cell | the bar starts at the first shown day of the task's span (creation, or the 1st when created earlier) | not executed | Gantt.AsWrittenBarByDays, Gantt.AsWrittenMissesCarriedOverTask, Gantt.AsWrittenRowWithoutBar | Gantt.BarInExactlyOneCell, Gantt.CorrectedRowHasOneBar |
| main.go:81-82, 99-100, 121-122, 159-160, 212-213 | each mutator holds the write lock (released by `defer`) when it calls `Save`, and `Save` takes the read lock of the same non-reentrant `sync.RWMutex` | any AddTask, AddSubtask, UpdateTaskStatus or DeleteTask call that reaches `Save` | `Save` runs under the lock the caller already holds and takes none itself, as `main-ts.go` does | not executed | Locking.AsWrittenMutatorBlocks | Locking.UnlockedSaveMutatorCompletes |
