/**
 * The business-rule layer `TaskService` (src/services/TaskService.ts). The service owns a
 * reference to the repository and changes the task table only through it. A thrown `Error`
 * is a `Failure`; a `null` result is `None`. The clock reaches the service as `now` and
 * `startOfToday`.
 */
module Service {
  import opened Wrappers
  import opened Text
  import opened TaskTypes
  import opened TaskModel
  import opened Repository

  /** What `duplicateTask` appends to the copied title. */
  const CopySuffix: string := " (C\U{00F3}pia)"

  /** The four numbers `getTaskStats` reports. */
  datatype TaskStats = TaskStats(total: nat, completed: nat, pending: nat, overdue: nat)

  /**
   * The duplicate-title rule of `createTask` as written: look up ONE row by case-insensitive
   * title and reject when that row is pending.
   */
  predicate DuplicateCheckRejects(store: seq<Task>, title: string)
    ensures DuplicateCheckRejects(store, title) <==>
              exists i :: 0 <= i < |store| && EqualsIgnoreCase(store[i].title, title) && !store[i].completed
                          && forall j :: 0 <= j < i ==> !EqualsIgnoreCase(store[j].title, title)
  {
    var existing := FindByTitle(store, title);
    existing.Some? && !existing.value.completed
  }

  /** A rejection always points at a pending task with the same title up to case. */
  lemma DuplicateCheckSound(store: seq<Task>, title: string)
    requires DuplicateCheckRejects(store, title)
    ensures exists t :: t in store && !t.completed && EqualsIgnoreCase(t.title, title)
  {
  }

  /** When every task with the same title up to case is completed, the title is free again. */
  lemma CompletedTitleIsReusable(store: seq<Task>, title: string)
    requires forall t :: t in store && EqualsIgnoreCase(t.title, title) ==> t.completed
    ensures !DuplicateCheckRejects(store, title)
  {
  }

  /**
   * The lookup inspects only the first match: an earlier completed task with the same title
   * hides a later pending one, so the check lets the title through.
   */
  lemma DuplicateCheckSeesFirstMatchOnly()
    ensures var done := Task(0, "Buy milk", None, true, MEDIUM, None, None, 0, 0);
            var open := Task(1, "Buy milk", None, false, MEDIUM, None, None, 1, 1);
            && !DuplicateCheckRejects([done, open], "Buy milk")
            && open in [done, open] && !open.completed
  {
  }

  /** `data.description?.trim() || null`: the trimmed text, or `null` when it is `null` or blank. */
  function BlankToNull(s: Option<string>): (r: Option<string>)
    ensures r.Some? <==> s.Some? && !AllWhitespace(s.value)
    ensures r.Some? ==> r.value == Trim(s.value) && r.value != []
  {
    if s.Some? && Trim(s.value) != [] then Some(Trim(s.value)) else None
  }

  /**
   * The `updateData` object `updateTask` assembles from a request: each supplied field is
   * validated (title, then priority, then a non-null due date) and normalised; absent fields
   * stay absent, `null` clears, and `pixel_reward` is never passed on.
   */
  function BuildUpdateData(data: UpdateTaskRequest, startOfToday: int): (r: Result<UpdateTaskData, TaskError>)
    ensures r.Success? <==>
              && (data.title.Some? ==> ValidateTitle(data.title.value).Pass?)
              && (data.priority.Some? ==> ParsePriority(data.priority.value).Some?)
              && (data.dueDate.Some? && data.dueDate.value.Some? ==> startOfToday <= data.dueDate.value.value)
    ensures data.title.Some? && ValidateTitle(data.title.value).Fail? ==>
              r == Failure(ValidateTitle(data.title.value).error)
    ensures (data.title.Some? ==> ValidateTitle(data.title.value).Pass?)
            && data.priority.Some? && ParsePriority(data.priority.value).None? ==>
              r == Failure(InvalidPriority)
    ensures (data.title.Some? ==> ValidateTitle(data.title.value).Pass?)
            && (data.priority.Some? ==> ParsePriority(data.priority.value).Some?)
            && data.dueDate.Some? && data.dueDate.value.Some? && data.dueDate.value.value < startOfToday ==>
              r == Failure(DueDateInPast)
    ensures r.Success? ==>
              var d := r.value;
              && (d.title.Some? <==> data.title.Some?)
              && (d.title.Some? ==> d.title.value == Trim(data.title.value)
                                    && MinTitleLength <= |d.title.value| <= MaxTitleLength)
              && (d.description.Some? <==> data.description.Some?)
              && (d.description.Some? ==> d.description.value == BlankToNull(data.description.value))
              && d.completed == data.completed
              && (d.priority.Some? <==> data.priority.Some?)
              && (d.priority.Some? ==> PriorityName(d.priority.value) == data.priority.value)
              && d.dueDate == data.dueDate
              && d.pixelReward.None?
  {
    if data.title.Some? && ValidateTitle(data.title.value).Fail? then
      Failure(ValidateTitle(data.title.value).error)
    else if data.priority.Some? && ValidatePriority(data.priority.value).Fail? then
      Failure(InvalidPriority)
    else if data.dueDate.Some? && data.dueDate.value.Some?
         && ValidateDueDate(data.dueDate.value.value, startOfToday).Fail? then
      Failure(DueDateInPast)
    else
      Success(UpdateTaskData(
        title := if data.title.Some? then Some(Trim(data.title.value)) else None,
        description := if data.description.Some? then Some(BlankToNull(data.description.value)) else None,
        completed := data.completed,
        dueDate := data.dueDate,
        priority := if data.priority.Some? then ParsePriority(data.priority.value) else None,
        pixelReward := None))
  }

  /**
   * What an accepted update does to a task: fields the request leaves out keep their value,
   * `pixel_reward` never changes, a `null` description or due date clears the field, and
   * `completed` is copied as given.
   */
  lemma UpdateChangesOnlySuppliedFields(t: Task, data: UpdateTaskRequest, startOfToday: int, now: int)
    requires BuildUpdateData(data, startOfToday).Success?
    ensures var u := ApplyUpdate(t, BuildUpdateData(data, startOfToday).value, now);
              && u.id == t.id && u.createdAt == t.createdAt
              && u.pixelReward == t.pixelReward
              && (data.title.None? ==> u.title == t.title)
              && (data.title.Some? ==> u.title == Trim(data.title.value))
              && (data.description.None? ==> u.description == t.description)
              && (data.description == Some(None) ==> u.description.None?)
              && (data.completed.None? ==> u.completed == t.completed)
              && (data.completed.Some? ==> u.completed == data.completed.value)
              && (data.priority.None? ==> u.priority == t.priority)
              && (data.dueDate.None? ==> u.dueDate == t.dueDate)
              && (data.dueDate == Some(None) ==> u.dueDate.None?)
  {
  }

  /** `updateTask` can reopen a completed task: `{ completed: false }` is accepted and applied. */
  lemma ReopenThroughUpdate(t: Task, startOfToday: int, now: int)
    requires t.completed
    ensures var data := UpdateTaskRequest(None, None, Some(false), None, None, None);
              && BuildUpdateData(data, startOfToday).Success?
              && !ApplyUpdate(t, BuildUpdateData(data, startOfToday).value, now).completed
  {
  }

  /** The creation record `duplicateTask` hands to `create`: no `pixel_reward`, the rest copied. */
  function DuplicateData(original: Task): (d: CreateTaskData)
    ensures d.title == original.title + CopySuffix
    ensures d.pixelReward.None?
  {
    CreateTaskData(
      title := original.title + CopySuffix,
      description := Some(original.description),
      dueDate := Some(original.dueDate),
      priority := Some(original.priority),
      pixelReward := None)
  }

  /**
   * A duplicate is a pending task titled `"<title> (Cópia)"` with the original's description,
   * priority and due date, and without `pixel_reward`.
   */
  lemma DuplicateRecordFields(original: Task, id: Id, now: int)
    ensures var copy := NewRecord(DuplicateData(original), id, now);
              && copy.title == original.title + CopySuffix
              && |copy.title| == |original.title| + 8
              && copy.description == original.description
              && copy.priority == original.priority
              && copy.dueDate == original.dueDate
              && copy.pixelReward.None?
              && !copy.completed
  {
  }

  /**
   * The duplicate's title is not validated: a task whose title has the maximum accepted
   * length yields a copy whose title `validateTitle` would reject as too long.
   */
  lemma DuplicateSkipsTitleValidation()
    ensures var title := seq(MaxTitleLength, _ => 'a');
              && ValidateTitle(title).Pass?
              && ValidateTitle(title + CopySuffix) == Fail(TitleTooLong)
  {
  }

  /**
   * A task created from a request that parses: trimmed title of accepted length, the given
   * priority or MEDIUM, description and `pixel_reward` trimmed or `null`, the given due date,
   * pending.
   */
  lemma CreatedTaskFields(data: CreateTaskRequest, startOfToday: int, id: Id, now: int)
    requires ParseCreateData(data, startOfToday).Success?
    ensures var t := NewRecord(ParseCreateData(data, startOfToday).value, id, now);
              && t.title == Trim(data.title)
              && MinTitleLength <= |t.title| <= MaxTitleLength
              && (Truthy(data.priority) ==> PriorityName(t.priority) == data.priority.value)
              && (!Truthy(data.priority) ==> t.priority == MEDIUM)
              && (t.description.Some? <==> data.description.Some? && !AllWhitespace(data.description.value))
              && (t.description.Some? ==> t.description.value == Trim(data.description.value))
              && (t.pixelReward.Some? <==> data.pixelReward.Some? && !AllWhitespace(data.pixelReward.value))
              && (t.pixelReward.Some? ==> t.pixelReward.value == Trim(data.pixelReward.value))
              && t.dueDate == data.dueDate
              && !t.completed && t.createdAt == now
  {
  }

  /** The filters `getOverdueTasks` passes to `findAll`. */
  const OverdueFilters := NoFilters.(overdue := Some(true))

  /** The service: business rules over the repository it was constructed with. */
  class TaskService {
    const repository: TaskRepository

    constructor (repository: TaskRepository)
      ensures this.repository == repository
    {
      this.repository := repository;
    }

    /**
     * `createTask(data)`: fails with the parse error, or with the duplicate error when the
     * title lookup finds a pending task, leaving the table alone; otherwise appends exactly
     * one new task and returns it.
     */
    method CreateTask(data: CreateTaskRequest, now: int, startOfToday: int) returns (r: Result<Task, TaskError>)
      requires repository.Valid()
      modifies repository
      ensures repository.Valid()
      ensures ParseCreateData(data, startOfToday).Failure? ==>
                && r == Failure(ParseCreateData(data, startOfToday).error)
                && repository.tasks == old(repository.tasks) && repository.nextId == old(repository.nextId)
      ensures ParseCreateData(data, startOfToday).Success?
              && DuplicateCheckRejects(old(repository.tasks), ParseCreateData(data, startOfToday).value.title) ==>
                && r == Failure(DuplicatePendingTitle)
                && repository.tasks == old(repository.tasks) && repository.nextId == old(repository.nextId)
      ensures ParseCreateData(data, startOfToday).Success?
              && !DuplicateCheckRejects(old(repository.tasks), ParseCreateData(data, startOfToday).value.title) ==>
                && r == Success(NewRecord(ParseCreateData(data, startOfToday).value, old(repository.nextId), now))
                && FindById(old(repository.tasks), r.value.id).None?
                && repository.tasks == old(repository.tasks) + [r.value]
    {
      var parsed := ParseCreateData(data, startOfToday);
      if parsed.Failure? {
        return Failure(parsed.error);
      }
      var existingTask := FindByTitle(repository.tasks, parsed.value.title);
      if existingTask.Some? && !existingTask.value.completed {
        return Failure(DuplicatePendingTitle);
      }
      var created := repository.Create(parsed.value, now);
      return Success(created);
    }

    /** `getTasks(filters)`: the repository's `findAll`. */
    method GetTasks(filters: TaskFilters, now: int) returns (r: seq<Task>)
      ensures r == FindAll(repository.tasks, filters, now)
    {
      r := FindAll(repository.tasks, filters, now);
    }

    /** `getTaskById(id)`: the task with that id, or `null`. */
    method GetTaskById(id: Id) returns (r: Option<Task>)
      ensures r.Some? ==> r.value in repository.tasks && r.value.id == id
      ensures r.None? <==> forall t :: t in repository.tasks ==> t.id != id
    {
      r := FindById(repository.tasks, id);
    }

    /**
     * `updateTask(id, data)`: `null` and no change for a missing id; the first validation
     * error and no change for a bad request; otherwise that one task receives the assembled
     * update data and is returned.
     */
    method UpdateTask(id: Id, data: UpdateTaskRequest, now: int, startOfToday: int)
      returns (r: Result<Option<Task>, TaskError>)
      requires repository.Valid()
      modifies repository
      ensures repository.Valid() && repository.nextId == old(repository.nextId)
      ensures FindIndex(old(repository.tasks), id).None? ==>
                r == Success(None) && repository.tasks == old(repository.tasks)
      ensures FindIndex(old(repository.tasks), id).Some? && BuildUpdateData(data, startOfToday).Failure? ==>
                && r == Failure(BuildUpdateData(data, startOfToday).error)
                && repository.tasks == old(repository.tasks)
      ensures FindIndex(old(repository.tasks), id).Some? && BuildUpdateData(data, startOfToday).Success? ==>
                var i := FindIndex(old(repository.tasks), id).value;
                var d := BuildUpdateData(data, startOfToday).value;
                && repository.tasks == old(repository.tasks)[i := ApplyUpdate(old(repository.tasks)[i], d, now)]
                && r == Success(Some(repository.tasks[i]))
    {
      var existingTask := FindById(repository.tasks, id);
      if existingTask.None? {
        return Success(None);
      }

      var updateData := UpdateTaskData(None, None, None, None, None, None);

      if data.title.Some? {
        var check := ValidateTitle(data.title.value);
        if check.Fail? {
          return Failure(check.error);
        }
        updateData := updateData.(title := Some(Trim(data.title.value)));
      }

      if data.description.Some? {
        updateData := updateData.(description := Some(BlankToNull(data.description.value)));
      }

      if data.completed.Some? {
        updateData := updateData.(completed := data.completed);
      }

      if data.priority.Some? {
        var check := ValidatePriority(data.priority.value);
        if check.Fail? {
          return Failure(check.error);
        }
        updateData := updateData.(priority := ParsePriority(data.priority.value));
      }

      if data.dueDate.Some? {
        var dueDate := data.dueDate.value;
        if dueDate.Some? {
          var check := ValidateDueDate(dueDate.value, startOfToday);
          if check.Fail? {
            return Failure(check.error);
          }
        }
        updateData := updateData.(dueDate := Some(dueDate));
      }

      assert BuildUpdateData(data, startOfToday) == Success(updateData);
      var updated := repository.Update(id, updateData, now);
      return Success(updated);
    }

    /**
     * `deleteTask(id)`: false for a missing id; an error for a completed task; otherwise the
     * task is removed, true is returned, and a later `findById` returns `null`.
     */
    method DeleteTask(id: Id) returns (r: Result<bool, TaskError>)
      requires repository.Valid()
      modifies repository
      ensures repository.Valid() && repository.nextId == old(repository.nextId)
      ensures FindIndex(old(repository.tasks), id).None? ==>
                r == Success(false) && repository.tasks == old(repository.tasks)
      ensures FindIndex(old(repository.tasks), id).Some?
              && old(repository.tasks)[FindIndex(old(repository.tasks), id).value].completed ==>
                r == Failure(CompletedCannotBeDeleted) && repository.tasks == old(repository.tasks)
      ensures FindIndex(old(repository.tasks), id).Some?
              && !old(repository.tasks)[FindIndex(old(repository.tasks), id).value].completed ==>
                var i := FindIndex(old(repository.tasks), id).value;
                && r == Success(true)
                && repository.tasks == old(repository.tasks)[..i] + old(repository.tasks)[i + 1..]
                && FindById(repository.tasks, id).None?
    {
      var task := FindById(repository.tasks, id);
      if task.None? {
        return Success(false);
      }
      if !CanBeDeleted(task.value) {
        return Failure(CompletedCannotBeDeleted);
      }
      var deleted := repository.Delete(id);
      return Success(deleted);
    }

    /** `getTaskStats()`: four counts, where total splits into completed and pending, and overdue tasks are pending. */
    method GetTaskStats(now: int) returns (stats: TaskStats)
      ensures stats.total == |repository.tasks|
      ensures stats.completed == Count(repository.tasks, NoFilters.(completed := Some(true)), now)
      ensures stats.pending == Count(repository.tasks, NoFilters.(completed := Some(false)), now)
      ensures stats.overdue == Count(repository.tasks, OverdueFilters, now)
      ensures stats.total == stats.completed + stats.pending
      ensures stats.overdue <= stats.pending
    {
      var store := repository.tasks;
      var total := Count(store, NoFilters, now);
      var completed := Count(store, NoFilters.(completed := Some(true)), now);
      var pending := Count(store, NoFilters.(completed := Some(false)), now);
      var overdue := Count(store, OverdueFilters, now);
      CountNoFiltersIsSize(store, now);
      CountSplitsByCompletion(store, now);
      stats := TaskStats(total, completed, pending, overdue);
    }

    /**
     * `markTaskAsCompleted(id)`: `null` for a missing id; an error when the task is already
     * completed; otherwise only that task's `completed` becomes true (and `updatedAt` moves).
     */
    method MarkTaskAsCompleted(id: Id, now: int) returns (r: Result<Option<Task>, TaskError>)
      requires repository.Valid()
      modifies repository
      ensures repository.Valid() && repository.nextId == old(repository.nextId)
      ensures FindIndex(old(repository.tasks), id).None? ==>
                r == Success(None) && repository.tasks == old(repository.tasks)
      ensures FindIndex(old(repository.tasks), id).Some?
              && old(repository.tasks)[FindIndex(old(repository.tasks), id).value].completed ==>
                r == Failure(AlreadyCompleted) && repository.tasks == old(repository.tasks)
      ensures FindIndex(old(repository.tasks), id).Some?
              && !old(repository.tasks)[FindIndex(old(repository.tasks), id).value].completed ==>
                var i := FindIndex(old(repository.tasks), id).value;
                && repository.tasks == old(repository.tasks)[i := old(repository.tasks)[i].(completed := true, updatedAt := now)]
                && r == Success(Some(repository.tasks[i]))
    {
      var task := FindById(repository.tasks, id);
      if task.None? {
        return Success(None);
      }
      if task.value.completed {
        return Failure(AlreadyCompleted);
      }
      var updated := repository.Update(id, UpdateTaskData(None, None, Some(true), None, None, None), now);
      return Success(updated);
    }

    /** `getOverdueTasks()`: exactly the tasks `isOverdue` holds of, in listing order. */
    method GetOverdueTasks(now: int) returns (r: seq<Task>)
      ensures r == FindAll(repository.tasks, OverdueFilters, now)
      ensures forall t :: t in r <==> t in repository.tasks && IsOverdue(t, now)
    {
      r := FindAll(repository.tasks, OverdueFilters, now);
    }

    /**
     * `duplicateTask(id)`: an error (not `null`) for a missing id; otherwise appends a copy
     * built by `DuplicateData` under a fresh id, with no duplicate-title check, and leaves
     * the original as it was.
     */
    method DuplicateTask(id: Id, now: int) returns (r: Result<Task, TaskError>)
      requires repository.Valid()
      modifies repository
      ensures repository.Valid()
      ensures FindIndex(old(repository.tasks), id).None? ==>
                && r == Failure(TaskNotFound)
                && repository.tasks == old(repository.tasks) && repository.nextId == old(repository.nextId)
      ensures FindIndex(old(repository.tasks), id).Some? ==>
                var original := old(repository.tasks)[FindIndex(old(repository.tasks), id).value];
                && r == Success(NewRecord(DuplicateData(original), old(repository.nextId), now))
                && r.value.id != original.id
                && repository.tasks == old(repository.tasks) + [r.value]
    {
      var originalTask := FindById(repository.tasks, id);
      if originalTask.None? {
        return Failure(TaskNotFound);
      }
      var created := repository.Create(DuplicateData(originalTask.value), now);
      return Success(created);
    }
  }

  /**
   * A client of the service: create "Buy milk" with priority HIGH, find it among the pending
   * tasks, complete it, and see that it can no longer be deleted.
   */
  method BuyMilkScenario()
  {
    var repository := new TaskRepository();
    var service := new TaskService(repository);
    var now, startOfToday := 100, 0;

    TrimOfTrimmed("Buy milk");
    TrimOfTrimmed("HIGH");
    var created := service.CreateTask(CreateTaskRequest("Buy milk", None, Some("HIGH"), None, None), now, startOfToday);
    assert created.Success?;
    var task := created.value;
    assert task.priority == HIGH && !task.completed;

    var pending := service.GetTasks(NoFilters.(completed := Some(false)), now);
    assert task in pending;

    var completed := service.MarkTaskAsCompleted(task.id, now);
    assert completed == Success(Some(task.(completed := true, updatedAt := now)));

    var deleted := service.DeleteTask(task.id);
    assert deleted == Failure(CompletedCannotBeDeleted);
  }
}
