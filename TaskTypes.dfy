/**
 * The record shapes shared by the task rules, the repository and the service
 * (src/types/task.ts and src/repositories/interfaces/ITaskRepository.ts).
 *
 * Conventions: an instant is an `int` (milliseconds since the epoch); `None` is an absent
 * or `null` value; a field that may be absent OR explicitly `null` is an `Option<Option<_>>`,
 * where `None` is "absent" and `Some(None)` is `null`.
 */
module TaskTypes {
  import opened Wrappers

  /** A task identifier. The database generates it; the model draws it from a counter. */
  type Id = nat

  /** The Prisma enum `Priority`. */
  datatype Priority = LOW | MEDIUM | HIGH

  /** A stored task row. */
  datatype Task = Task(
    id: Id,
    title: string,
    description: Option<string>,
    completed: bool,
    priority: Priority,
    dueDate: Option<int>,
    pixelReward: Option<string>,
    createdAt: int,
    updatedAt: int)

  /**
   * `CreateTaskRequest`, the body of a create request as it reaches the service. The
   * priority is the raw string sent by the client; the due date is the instant its ISO
   * string denotes (`None` when the field is absent or empty).
   */
  datatype CreateTaskRequest = CreateTaskRequest(
    title: string,
    description: Option<string>,
    priority: Option<string>,
    dueDate: Option<int>,
    pixelReward: Option<string>)

  /**
   * `UpdateTaskRequest`: every field may be absent; `description`, `dueDate` and `pixel_reward`
   * may also be `null`. A due date sent as an empty string is `null` here (`Some(None)`), since
   * `updateTask` turns a falsy due date into `null` and so clears the field.
   */
  datatype UpdateTaskRequest = UpdateTaskRequest(
    title: Option<string>,
    description: Option<Option<string>>,
    completed: Option<bool>,
    dueDate: Option<Option<int>>,
    priority: Option<string>,
    pixelReward: Option<Option<string>>)

  /** `CreateTaskData`, what the repository's `create` accepts. */
  datatype CreateTaskData = CreateTaskData(
    title: string,
    description: Option<Option<string>>,
    dueDate: Option<Option<int>>,
    priority: Option<Priority>,
    pixelReward: Option<Option<string>>)

  /** `UpdateTaskData`, what the repository's `update` accepts: the fields to overwrite. */
  datatype UpdateTaskData = UpdateTaskData(
    title: Option<string>,
    description: Option<Option<string>>,
    completed: Option<bool>,
    dueDate: Option<Option<int>>,
    priority: Option<Priority>,
    pixelReward: Option<Option<string>>)

  /** `TaskFilters` of `findAll` and `count`. */
  datatype TaskFilters = TaskFilters(
    completed: Option<bool>,
    priority: Option<Priority>,
    overdue: Option<bool>)

  /** `findAll()` / `count()` called without filters. */
  const NoFilters := TaskFilters(None, None, None)

  /** The errors the task rules and the service throw, one per distinct message. */
  datatype TaskError =
    | TitleRequired
    | TitleTooLong
    | TitleTooShort
    | DueDateInPast
    | InvalidPriority
    | DuplicatePendingTitle
    | CompletedCannotBeDeleted
    | AlreadyCompleted
    | TaskNotFound

  /** The message each error carries in the source. */
  function Message(e: TaskError): string
  {
    match e
    case TitleRequired => "T\U{00ED}tulo da tarefa \U{00E9} obrigat\U{00F3}rio"
    case TitleTooLong => "T\U{00ED}tulo deve ter no m\U{00E1}ximo 255 caracteres"
    case TitleTooShort => "T\U{00ED}tulo deve ter pelo menos 3 caracteres"
    case DueDateInPast => "Data de vencimento n\U{00E3}o pode ser no passado"
    case InvalidPriority => "Prioridade inv\U{00E1}lida. Use: LOW, MEDIUM ou HIGH"
    case DuplicatePendingTitle => "J\U{00E1} existe uma tarefa pendente com este t\U{00ED}tulo"
    case CompletedCannotBeDeleted => "Tarefas completadas n\U{00E3}o podem ser deletadas"
    case AlreadyCompleted => "Tarefa j\U{00E1} est\U{00E1} completada"
    case TaskNotFound => "Tarefa n\U{00E3}o encontrada"
  }
}
