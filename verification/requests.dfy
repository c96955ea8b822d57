/** The inbound request payload for task creation and its conversion into a task. */
module Requests {
  import opened Basics
  import opened Domain

  /** The JSON body of `POST /tasks`; `deadline` is in epoch seconds, 0 meaning none. */
  datatype TaskRequest = TaskRequest(title: string, description: string, deadline: i64)

  /** The epoch second of an optional deadline, 0 when absent: the wire form of a deadline. */
  function EpochOrZero(deadline: Option<Time>): int
  {
    match deadline
    case None => 0
    case Some(t) => t
  }

  /** Converts a request into a task. The deadline is present exactly when the
      request's deadline is non-zero; every field the request does not carry keeps
      its zero value; no error is ever reported. */
  function ToDomainModel(r: TaskRequest): (res: Fallible<Task, string>)
    ensures !res.Failed()
    ensures res.value.title == r.title && res.value.description == r.description
    ensures res.value.deadline.None? <==> r.deadline == 0
    ensures res.value.deadline.Some? ==> res.value.deadline.value == r.deadline
    ensures res.value.(title := "", description := "", deadline := None) == ZeroTask
  {
    var deadline := if r.deadline != 0 then Some(r.deadline as Time) else None;
    Fallible(Task(0, 0, r.title, r.description, "", deadline, ZeroTime, ZeroTime, None), None)
  }

  /** The deadline survives the conversion: reading it back as epoch seconds
      gives the request's value, 0 included. */
  lemma DeadlineRoundTrip(r: TaskRequest)
    ensures EpochOrZero(ToDomainModel(r).value.deadline) == r.deadline
  {
  }
}
