# Task-management backend: task rules, business rules and persistence in Dafny

This project models the core of a small task-management backend. The backend is an
Express + Prisma service in TypeScript whose single entity is a *task*. The task has a
title, an optional description, a completion flag, a priority (LOW, MEDIUM or HIGH), an
optional due date, an optional `pixel_reward` string and two server timestamps. The core
has three layers, and each one is a Dafny module here:

- `TaskModel` (TaskModel.dfy) models `src/models/Task.ts`. It holds the pure validators for
  title, due date and priority, the derived values `isOverdue`, `canBeDeleted` and
  `getPriorityWeight`, the derived fields of `formatForResponse`, and `parseCreateData`.
  They are all functions.
- `Repository` (Repository.dfy) models `src/repositories/TaskRepository.ts` over an
  in-memory table. The table is a `seq<Task>` in insertion order, owned by the class
  `TaskRepository`. `create`, `update`, `delete` and `bulkUpdateCompleted` are methods that
  change the table. `findById`, `findAll`, `count`, `findByTitle` and
  `findCompletedInPeriod` are functions of the table. The `where` objects the source builds
  for Prisma are values of `Where`, and `Satisfies` says how the database evaluates them.
  `findAll` and `count` share one `BuildWhere`. In the source they build the same object
  in two copies of the same code.
- `Service` (Service.dfy) models `src/services/TaskService.ts`. The class `TaskService`
  holds a reference to the repository and changes the table only through it. A thrown
  `Error` becomes `Failure(e)` with a `TaskError`; a `null` result becomes `None`.

Supporting modules:
- `Wrappers` holds `Option`, `Result` and `Outcome`.
- `Text` holds JavaScript's `trim` over the ECMAScript whitespace set, and ASCII
  case-insensitive equality.
- `TaskTypes` holds the record shapes of `src/types/task.ts` and
  `src/repositories/interfaces/ITaskRepository.ts`, and the error messages.

Conventions:
- Instants are integers. The clock is never read: `now` and `startOfToday` (local midnight)
  are parameters.
- A field that may be absent or `null` is an `Option<Option<_>>`. `None` means absent and
  `Some(None)` means `null`.
- Ids are naturals drawn from a counter.

Behaviour of the code worth knowing:
- There is no length check on `description` or `pixel_reward`.
- The duplicate's title suffix is `" (Cópia)"`.
- `updateTask({completed: false})` reopens a completed task.
- `updateTask` ignores `pixel_reward`.
- The duplicate-title check of `createTask` looks at one lookup result only. The lemma
  `Service.DuplicateCheckSeesFirstMatchOnly` shows that an earlier completed task with the
  same title can let a second pending task with that title through. The source does this
  whenever the database returns the completed row; the model always returns the earliest
  row (see `Repository.FindByTitle` under "## Left out").
- `duplicateTask` never validates the title it builds. The lemma
  `Service.DuplicateSkipsTitleValidation` shows that a copy of a 255-character title is 263
  characters long.

`Service.BuyMilkScenario` is a verified client. It creates "Buy milk" with priority HIGH,
finds it among the pending tasks, completes it, and shows that deleting it then fails.

## Model

| member | source | states |
|---|---|---|
| `Text.Trim` | src/models/Task.ts:8-18 | `trim()` cuts only whitespace from both ends; the result is empty exactly for whitespace-only input and otherwise starts and ends with a non-whitespace character |
| `Text.TrimIdempotent` | src/models/Task.ts:85 | a trimmed string (a stored title) is unchanged by trimming again |
| `Text.TrimOfTrimmed` | src/models/Task.ts:8-18 | a string with non-whitespace ends is its own trim |
| `Text.ToLower` | src/repositories/TaskRepository.ts:106-115 | lower-casing keeps the length, leaves no ASCII capital and changes nothing but capitals |
| `Text.EqualsIgnoreCase` | src/repositories/TaskRepository.ts:109-112 | the `mode: "insensitive"` title comparison: equal strings match, and matching strings have equal length |
| `Text.EqualsIgnoreCaseCharwise` | src/repositories/TaskRepository.ts:106-115 | `mode: "insensitive"` equality holds iff the lengths agree and every position agrees up to case |
| `TaskModel.ValidateTitle` | src/models/Task.ts:7-19 | passes iff the trimmed length is in 3..255; "required" exactly for empty or whitespace-only titles; "too short" exactly for 1 or 2 trimmed characters; "too long" exactly for more than 255 |
| `TaskModel.ValidateDueDate` | src/models/Task.ts:21-28 | fails iff the date is strictly before the start of today, so an earlier instant of today passes |
| `TaskModel.ParsePriority` | src/models/Task.ts:86 | the cast yields the priority whose name is the string, and nothing for any other string |
| `TaskModel.ValidatePriority` | src/models/Task.ts:30-35 | passes exactly for the names of the three priorities |
| `TaskModel.PriorityNameRoundTrip` | src/models/Task.ts:30-35 | every priority's name is accepted and parses back to that priority |
| `TaskModel.IsOverdue` | src/models/Task.ts:38-40 | false without a due date and for completed tasks; otherwise due date before `now` and pending |
| `TaskModel.CanBeDeleted` | src/models/Task.ts:42-45 | true iff the task is not completed |
| `TaskModel.OverdueCanBeDeleted` | src/models/Task.ts:38-45 | an overdue task can always be deleted |
| `TaskModel.PriorityWeight` | src/models/Task.ts:47-50 | the weight lies in 1..3, and is 2 exactly for MEDIUM |
| `TaskModel.PriorityWeightOrder` | src/models/Task.ts:47-50 | the weight is monotone and injective in LOW < MEDIUM < HIGH |
| `TaskModel.FormatForResponse` | src/models/Task.ts:53-67 | copies the stored fields; `isOverdue` is `IsOverdue`, `canBeDeleted` is `!completed`, `priorityWeight` is `getPriorityWeight(priority)`, and an overdue task is deletable |
| `TaskModel.KeptTrimmed` | src/models/Task.ts:89-100 | an optional text is kept, trimmed and non-empty, exactly when it is present and not blank |
| `TaskModel.ParseCreateData` | src/models/Task.ts:70-103 | succeeds iff title, non-empty priority and given due date all validate; errors in source order: the title's own error, then "invalid priority", then "due date in the past"; on success: trimmed title of length 3..255, the given priority or MEDIUM, description and `pixel_reward` only when non-blank and trimmed, due date only when given |
| `Repository.BuildWhere` | src/repositories/TaskRepository.ts:38-50 | the `where` object is satisfied exactly by rows meeting each given filter: `completed`, `priority`, and pending with due date before `now` when `overdue` is true |
| `Repository.Matching` | src/repositories/TaskRepository.ts:52-55 | the rows returned are exactly the table's rows satisfying the `where` object, each as often as in the table (a multiset filter) |
| `Repository.NothingSatisfiesMatchesNothing` | src/repositories/TaskRepository.ts:52-55 | when no row satisfies the `where` object, nothing is returned |
| `Repository.CountWhere` | src/repositories/TaskRepository.ts:103 | the database count under a `where` object never exceeds the table size, and is 0 exactly when no row satisfies the object |
| `Repository.CountWhereIsMatchingLength` | src/repositories/TaskRepository.ts:103 | the database count under a `where` object equals the number of rows it returns |
| `Repository.PrependListed` | src/repositories/TaskRepository.ts:54 | an element that may precede every element of an ordered sequence can be put in front of it |
| `Repository.InsertListed` | src/repositories/TaskRepository.ts:54 | inserting keeps listing order and adds exactly the one element |
| `Repository.SortListed` | src/repositories/TaskRepository.ts:54 | the result is in order `completed` ascending then `createdAt` descending, and is a permutation of the input |
| `Repository.FindAll` | src/repositories/TaskRepository.ts:37-56 | exactly the rows meeting every given filter, as a permutation of the matching rows, pending before completed and newest first |
| `Repository.Count` | src/repositories/TaskRepository.ts:88-104 | `count(filters)` is the number of rows satisfying the same `where` object `findAll` uses |
| `Repository.CountIsFindAllLength` | src/repositories/TaskRepository.ts:88-104 | `count(f)` equals the length of `findAll(f)` for every filter |
| `Repository.CompletedAndOverdueIsEmpty` | src/repositories/TaskRepository.ts:40-50 | filtering on completed = true and overdue = true returns nothing and counts 0 |
| `Repository.CountNoFiltersIsSize` | src/repositories/TaskRepository.ts:88-104 | `count()` without filters is the number of rows |
| `Repository.CountSplitsByCompletion` | src/services/TaskService.ts:96-105 | count() = count(completed) + count(pending), and count(overdue) <= count(pending) |
| `Repository.CountWhereSplits` | src/services/TaskService.ts:96-105 | for `where` objects where every row satisfies the first, the second and third split rows by `completed`, and the fourth admits only pending rows: the counts add up and the fourth is at most the pending count |
| `Repository.FindIndex` | src/repositories/TaskRepository.ts:31-35 | finds the first position holding the id, or reports that no row has it |
| `Repository.FindIndexUnique` | src/repositories/TaskRepository.ts:31-35 | with distinct ids, the position found is the one holding the id |
| `Repository.FindById` | src/repositories/TaskRepository.ts:31-35 | returns a row with that id, or `null` exactly when no row has it |
| `Repository.FirstTitleMatch` | src/repositories/TaskRepository.ts:106-115 | the first position whose title equals the argument ignoring case, or the table length |
| `Repository.FindByTitle` | src/repositories/TaskRepository.ts:106-115 | returns the earliest row whose title equals the argument ignoring case, or `null` exactly when none does |
| `Repository.FindCompletedInPeriod` | src/repositories/TaskRepository.ts:118-128 | exactly the completed rows with `startDate <= updatedAt <= endDate`, both bounds included, each as often as in the table |
| `Repository.EmptyPeriodFindsNothing` | src/repositories/TaskRepository.ts:118-128 | a period whose end precedes its start finds nothing |
| `Repository.NewRecord` | src/repositories/TaskRepository.ts:19-29 | the inserted row: priority defaults to MEDIUM, missing description, due date and `pixel_reward` become `null`, pending, both timestamps `now` |
| `Repository.Patched` | src/repositories/TaskRepository.ts:58-71 | an absent field keeps its old value; a supplied one, including `null`, replaces it |
| `Repository.ApplyUpdate` | src/repositories/TaskRepository.ts:58-71 | only supplied fields change; id and `createdAt` stay; `updatedAt` becomes `now` |
| `Repository.EmptyUpdateKeepsFields` | src/repositories/TaskRepository.ts:58-71 | an update supplying no field changes only `updatedAt` |
| `Repository.RemoveAtDropsId` | src/repositories/TaskRepository.ts:73-86 | after removing a row, no row has its id and ids stay distinct |
| `Repository.TaskRepository.constructor` | src/repositories/TaskRepository.ts:15-17 | the repository starts with an empty, valid table |
| `Repository.TaskRepository.Create` | src/repositories/TaskRepository.ts:19-29 | appends exactly `NewRecord(data)` under a fresh id; the table stays valid |
| `Repository.TaskRepository.Update` | src/repositories/TaskRepository.ts:58-71 | missing id: `null`, table unchanged; otherwise that one row becomes `ApplyUpdate` of it and is returned, every other row unchanged |
| `Repository.TaskRepository.Delete` | src/repositories/TaskRepository.ts:73-86 | true and exactly that row removed when it exists, false and no change otherwise; afterwards no row has the id |
| `Repository.TaskRepository.BulkUpdateCompleted` | src/repositories/TaskRepository.ts:130-141 | sets `completed` on exactly the rows whose id is listed, leaves the others unchanged, returns the number of matched rows |
| `Service.DuplicateCheckRejects` | src/services/TaskService.ts:23-28 | `createTask` rejects exactly when the first table row whose title equals the new one up to case is pending |
| `Service.DuplicateCheckSound` | src/services/TaskService.ts:23-28 | a rejection by the duplicate check always names a pending task with the same title up to case |
| `Service.CompletedTitleIsReusable` | src/services/TaskService.ts:23-28 | when every same-title task is completed, the check lets the title through |
| `Service.DuplicateCheckSeesFirstMatchOnly` | src/services/TaskService.ts:23-28 | an earlier completed "Buy milk" hides a pending "Buy milk", and the check passes |
| `Service.BlankToNull` | src/services/TaskService.ts:57-59 | a description update is the trimmed text, or `null` when it is `null` or blank |
| `Service.BuildUpdateData` | src/services/TaskService.ts:49-76 | accepted iff each supplied title, priority and non-null due date validates; errors in source order: the title's own error, then "invalid priority", then "due date in the past"; supplied fields only, title trimmed and 3..255, `completed` and due date copied, `pixel_reward` never set |
| `Service.UpdateChangesOnlySuppliedFields` | src/services/TaskService.ts:49-78 | an accepted update keeps every absent field and `pixel_reward`; `null` clears description and due date; `completed` is copied |
| `Service.ReopenThroughUpdate` | src/services/TaskService.ts:61-63 | `{completed: false}` is accepted for a completed task and reopens it |
| `Service.DuplicateData` | src/services/TaskService.ts:130-135 | the copy's title is the original's plus `" (Cópia)"`, with no `pixel_reward` |
| `Service.DuplicateRecordFields` | src/services/TaskService.ts:124-136 | the duplicate is pending, titled `"<title> (Cópia)"`, and has the same description, priority and due date, with no `pixel_reward` |
| `Service.DuplicateSkipsTitleValidation` | src/services/TaskService.ts:130-135 | copying a valid 255-character title yields a title `validateTitle` rejects as too long |
| `Service.CreatedTaskFields` | src/services/TaskService.ts:18-32 | a created task has a trimmed title of length 3..255, the given priority or MEDIUM, the optional texts trimmed or `null`, the given due date, and is pending |
| `Service.TaskService.constructor` | src/services/TaskService.ts:14-16 | the service is bound to the repository it is given |
| `Service.TaskService.CreateTask` | src/services/TaskService.ts:18-32 | parse error or pending duplicate: that error and no change; otherwise exactly one new task appended and returned |
| `Service.TaskService.GetTasks` | src/services/TaskService.ts:34-36 | returns `findAll(filters)` |
| `Service.TaskService.GetTaskById` | src/services/TaskService.ts:38-40 | returns a task with that id, or `null` exactly when none exists |
| `Service.TaskService.UpdateTask` | src/services/TaskService.ts:42-79 | missing id: `null` and no change, even for a bad request; validation error: no change; otherwise that one task gets `BuildUpdateData` applied and is returned |
| `Service.TaskService.DeleteTask` | src/services/TaskService.ts:81-93 | missing id: false; completed task: error and no change; pending task: removed, true, and `findById` then returns `null` |
| `Service.TaskService.GetTaskStats` | src/services/TaskService.ts:96-105 | total is the table size and equals completed + pending; overdue <= pending |
| `Service.TaskService.MarkTaskAsCompleted` | src/services/TaskService.ts:107-118 | missing id: `null`; already completed: error; otherwise only that task's `completed` (and `updatedAt`) changes, every other task untouched |
| `Service.TaskService.GetOverdueTasks` | src/services/TaskService.ts:120-122 | returns exactly the tasks `isOverdue` holds of, in listing order |
| `Service.TaskService.DuplicateTask` | src/services/TaskService.ts:124-136 | missing id: a not-found error, not `null`; otherwise the copy is appended under a fresh id, with no duplicate-title check, and the original is untouched |

## Left out

- The HTTP layer is not modelled: `src/controllers/TaskController.ts`, `src/routes/*.ts` and `src/app.ts`. That covers mapping outcomes to status codes and envelopes, the route table and CORS.
- Process configuration is not modelled: `src/env/index.ts` and `src/lib/prisma.ts`.
- Prisma itself is replaced by the in-memory table. Not-found is absence from the table rather than the P2025 error code, and other database errors are not modelled.
- Concurrency is not modelled. The `async` calls, `Promise.all` in `getTaskStats` and the race between the title lookup and the insert in `createTask` all run sequentially here.
- Clock reading is not modelled. `new Date()` and the local-timezone `setHours(0, 0, 0, 0)` become the parameters `now` and `startOfToday`.
- ISO formatting of instants in `formatForResponse` is left out. The response carries the numbers.
- Date strings are not parsed. A request's due date is the instant its ISO string denotes. An empty string is absent for `createTask`, because `parseCreateData` sets a due date only when the string is truthy. It is `null` (`Some(None)`) for `updateTask`, which turns a falsy due date into `null` and so clears the field. An unparseable string (JavaScript's Invalid Date) is not modelled.
- A request field of the wrong JSON type is not modelled, for example a `null` title or a numeric priority. The same holds for a `priority` query filter that is not an enum value.
- `TaskModel.ValidateTitle` measures the trimmed title in Unicode scalar values, whereas JavaScript's `length` counts UTF-16 code units. The two differ only for characters outside the Basic Multilingual Plane.
- `Text.ToLower` folds ASCII letters only, whereas the database's case-insensitive comparison uses its own collation.
- `Repository.FindByTitle` returns the earliest row in the table. The source's `findFirst` has no `orderBy`, so the database may return any matching row.
- `Repository.FindAll` breaks ties in `completed` and `createdAt` by table order. The database promises no order for such ties, so the contract states only the sort keys.
- The database schema (prisma/schema.prisma) is not part of this model. The model assumes `completed` defaults to false, `createdAt` to the insertion instant, and `updatedAt` is refreshed by every `update` and `updateMany`.
- `TaskTypes.Message` only records the Portuguese message of each error. No contract uses it; the model reports errors as `TaskError` values.
- Ids are generated by a counter. The database's generated identifiers are not modelled.
