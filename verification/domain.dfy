/** The domain entities the handlers and the repository exchange. */
module Domain {
  import opened Basics

  /** A task status is free text on the wire; only three literals are legal. */
  type TaskStatus = string

  const New: TaskStatus := "NEW"
  const InProgress: TaskStatus := "IN_PROGRESS"
  const Done: TaskStatus := "DONE"

  /** The legal statuses. */
  const LegalStatuses: set<TaskStatus> := {New, InProgress, Done}

  /** A task, as the service layer sees it. Optional instants are Go's `*time.Time`. */
  datatype Task = Task(
    id: u64,
    userId: u64,
    title: string,
    description: string,
    status: TaskStatus,
    deadline: Option<Time>,
    createdDate: Time,
    updatedDate: Time,
    deletedDate: Option<Time>)

  /** `domain.Task{}`: every field at Go's zero value. */
  const ZeroTask: Task := Task(0, 0, "", "", "", None, ZeroTime, ZeroTime, None)

  /** The authenticated caller; only its id is consulted. */
  datatype User = User(id: u64)
}
