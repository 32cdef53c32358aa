/**
 * The entities of the task manager: a task is a node of a tree (it owns an
 * ordered sequence of subtasks), a group is a status lane owning an ordered
 * sequence of root tasks, and the forest is the ordered sequence of groups.
 */
module TaskTypes {

  datatype Option<T> = None | Some(value: T)

  /** The four lane / task statuses. */
  datatype Status = Todo | InProgress | Blocked | Done

  /** The creation time. It is only stored and copied, never inspected. */
  datatype Timestamp = Timestamp(millis: int)

  datatype Task = Task(
    id: string,
    title: string,
    status: Status,
    subtasks: seq<Task>,
    isExpanded: bool,
    createdAt: Timestamp)

  datatype TaskGroup = TaskGroup(
    id: string,
    name: string,
    status: Status,
    tasks: seq<Task>,
    isExpanded: bool)

  /** A freshly created task: status todo, no subtasks, collapsed. */
  function NewTask(id: string, title: string, now: Timestamp): Task
  {
    Task(id, title, Todo, [], false, now)
  }
}
