/**
 * The task rules of `TaskModel` (src/models/Task.ts): validators, derived values and the
 * parsing of a create request. Every member is a pure function of its arguments; the clock
 * is passed in as `now` (the current instant) and `startOfToday` (local midnight of today).
 */
module TaskModel {
  import opened Wrappers
  import opened Text
  import opened TaskTypes

  const MinTitleLength := 3
  const MaxTitleLength := 255

  /** `validateTitle`: the trimmed title must be non-empty, at most 255 and at least 3 characters long, checked in that order. */
  function ValidateTitle(title: string): (r: Outcome<TaskError>)
    ensures r.Pass? <==> MinTitleLength <= |Trim(title)| <= MaxTitleLength
    ensures r == Fail(TitleRequired) <==> AllWhitespace(title)
    ensures r == Fail(TitleTooShort) <==> 0 < |Trim(title)| < MinTitleLength
    ensures r == Fail(TitleTooLong) <==> |Trim(title)| > MaxTitleLength
    ensures r.Fail? ==> r.error in {TitleRequired, TitleTooLong, TitleTooShort}
  {
    var t := Trim(title);
    if t == [] then Fail(TitleRequired)
    else if |t| > MaxTitleLength then Fail(TitleTooLong)
    else if |t| < MinTitleLength then Fail(TitleTooShort)
    else Pass
  }

  /** `validateDueDate`: a due date before the start of today is rejected; any instant of today, even one already past, is accepted. */
  function ValidateDueDate(dueDate: int, startOfToday: int): (r: Outcome<TaskError>)
    ensures r.Pass? <==> startOfToday <= dueDate
    ensures r.Fail? ==> r.error == DueDateInPast
  {
    if dueDate < startOfToday then Fail(DueDateInPast) else Pass
  }

  /** The enum constant's name, as the client sends it. */
  function PriorityName(p: Priority): string
  {
    match p
    case LOW => "LOW"
    case MEDIUM => "MEDIUM"
    case HIGH => "HIGH"
  }

  /** The `priority as Priority` cast, defined on the strings that name a constant. */
  function ParsePriority(s: string): (r: Option<Priority>)
    ensures r.Some? ==> PriorityName(r.value) == s
    ensures r.None? ==> forall p :: PriorityName(p) != s
  {
    if s == "LOW" then Some(LOW)
    else if s == "MEDIUM" then Some(MEDIUM)
    else if s == "HIGH" then Some(HIGH)
    else None
  }

  /** `validatePriority`: the string must be one of the listed priority names. */
  function ValidatePriority(s: string): (r: Outcome<TaskError>)
    ensures r.Pass? <==> ParsePriority(s).Some?
    ensures r.Fail? ==> r.error == InvalidPriority
  {
    if s in ["LOW", "MEDIUM", "HIGH"] then Pass else Fail(InvalidPriority)
  }

  /** Naming a priority and parsing the name back gives the priority. */
  lemma PriorityNameRoundTrip(p: Priority)
    ensures ParsePriority(PriorityName(p)) == Some(p)
    ensures ValidatePriority(PriorityName(p)).Pass?
  {
  }

  /** `isOverdue`: a task is overdue when it has a due date before `now` and is still pending. */
  function IsOverdue(task: Task, now: int): (r: bool)
    ensures task.dueDate.None? ==> !r
    ensures task.completed ==> !r
    ensures task.dueDate.Some? ==> (r <==> task.dueDate.value < now && !task.completed)
  {
    match task.dueDate
    case None => false
    case Some(due) => due < now && !task.completed
  }

  /** `canBeDeleted`: only pending tasks may be deleted. */
  function CanBeDeleted(task: Task): (r: bool)
    ensures r <==> !task.completed
  {
    !task.completed
  }

  /** Every overdue task can still be deleted. */
  lemma OverdueCanBeDeleted(task: Task, now: int)
    requires IsOverdue(task, now)
    ensures CanBeDeleted(task)
  {
  }

  /** The urgency order LOW < MEDIUM < HIGH, stated without numbers. */
  predicate AtMostAsUrgent(p: Priority, q: Priority)
  {
    p == LOW || q == HIGH || p == q
  }

  /**
   * `getPriorityWeight`: LOW is 1, MEDIUM 2, HIGH 3. The source's fallback `|| 2` is never
   * reached, because every constant has a non-zero weight.
   */
  function PriorityWeight(p: Priority): (w: int)
    ensures 1 <= w <= 3
    ensures p == MEDIUM <==> w == 2
  {
    match p
    case LOW => 1
    case MEDIUM => 2
    case HIGH => 3
  }

  /** The weight is monotone and injective: it orders priorities exactly as their urgency does. */
  lemma PriorityWeightOrder(p: Priority, q: Priority)
    ensures AtMostAsUrgent(p, q) <==> PriorityWeight(p) <= PriorityWeight(q)
    ensures PriorityWeight(p) == PriorityWeight(q) ==> p == q
  {
  }

  /** The object `formatForResponse` builds; instants stay numbers instead of ISO strings. */
  datatype TaskResponse = TaskResponse(
    id: Id,
    title: string,
    description: Option<string>,
    completed: bool,
    priority: Priority,
    dueDate: Option<int>,
    createdAt: int,
    updatedAt: int,
    isOverdue: bool,
    priorityWeight: int,
    canBeDeleted: bool)

  /** `formatForResponse`: the stored fields (without `pixel_reward`) plus the three derived ones. */
  function FormatForResponse(task: Task, now: int): (r: TaskResponse)
    ensures r.id == task.id && r.title == task.title && r.description == task.description
    ensures r.completed == task.completed && r.priority == task.priority && r.dueDate == task.dueDate
    ensures r.createdAt == task.createdAt && r.updatedAt == task.updatedAt
    ensures r.isOverdue <==> IsOverdue(task, now)
    ensures r.canBeDeleted <==> !r.completed
    ensures r.isOverdue ==> r.canBeDeleted
    ensures r.priorityWeight == PriorityWeight(task.priority) && 1 <= r.priorityWeight <= 3
  {
    TaskResponse(
      task.id, task.title, task.description, task.completed, task.priority, task.dueDate,
      task.createdAt, task.updatedAt,
      IsOverdue(task, now), PriorityWeight(task.priority), CanBeDeleted(task))
  }

  /** JavaScript truthiness of an optional string: present and not empty. */
  predicate Truthy(s: Option<string>)
  {
    s.Some? && s.value != []
  }

  /** An optional string field as `parseCreateData` keeps it: trimmed, and only when something is left. */
  function KeptTrimmed(s: Option<string>): (r: Option<Option<string>>)
    ensures r.Some? <==> s.Some? && !AllWhitespace(s.value)
    ensures r.Some? ==> r.value == Some(Trim(s.value)) && r.value.value != []
  {
    if s.Some? && Trim(s.value) != [] then Some(Some(Trim(s.value))) else None
  }

  /**
   * `parseCreateData`: validates title, priority (only when a non-empty one is given) and due
   * date (only when one is given), in that order, then builds the creation record with the
   * trimmed title, the given priority or MEDIUM, and the optional fields only when they carry
   * a value.
   */
  function ParseCreateData(data: CreateTaskRequest, startOfToday: int): (r: Result<CreateTaskData, TaskError>)
    ensures r.Success? <==>
              && ValidateTitle(data.title).Pass?
              && (Truthy(data.priority) ==> ParsePriority(data.priority.value).Some?)
              && (data.dueDate.Some? ==> startOfToday <= data.dueDate.value)
    ensures ValidateTitle(data.title).Fail? ==> r == Failure(ValidateTitle(data.title).error)
    ensures ValidateTitle(data.title).Pass? && Truthy(data.priority) && ParsePriority(data.priority.value).None? ==>
              r == Failure(InvalidPriority)
    ensures ValidateTitle(data.title).Pass? && (Truthy(data.priority) ==> ParsePriority(data.priority.value).Some?)
            && data.dueDate.Some? && data.dueDate.value < startOfToday ==>
              r == Failure(DueDateInPast)
    ensures r.Success? ==>
              && r.value.title == Trim(data.title)
              && Trim(r.value.title) == r.value.title
              && MinTitleLength <= |r.value.title| <= MaxTitleLength
    ensures r.Success? && Truthy(data.priority) ==>
              r.value.priority.Some? && PriorityName(r.value.priority.value) == data.priority.value
    ensures r.Success? && !Truthy(data.priority) ==> r.value.priority == Some(MEDIUM)
    ensures r.Success? ==> r.value.description == KeptTrimmed(data.description)
    ensures r.Success? ==> r.value.pixelReward == KeptTrimmed(data.pixelReward)
    ensures r.Success? ==> (r.value.dueDate.Some? <==> data.dueDate.Some?)
    ensures r.Success? && data.dueDate.Some? ==> r.value.dueDate == Some(data.dueDate)
  {
    var titleCheck := ValidateTitle(data.title);
    if titleCheck.Fail? then Failure(titleCheck.error)
    else if Truthy(data.priority) && ValidatePriority(data.priority.value).Fail? then Failure(InvalidPriority)
    else if data.dueDate.Some? && ValidateDueDate(data.dueDate.value, startOfToday).Fail? then Failure(DueDateInPast)
    else
      TrimIdempotent(data.title);
      Success(CreateTaskData(
        title := Trim(data.title),
        description := KeptTrimmed(data.description),
        dueDate := if data.dueDate.Some? then Some(data.dueDate) else None,
        priority := Some(if Truthy(data.priority) then ParsePriority(data.priority.value).value else MEDIUM),
        pixelReward := KeptTrimmed(data.pixelReward)))
  }
}
