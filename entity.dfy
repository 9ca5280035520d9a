/** The `Todo` table row: its fields, the closed domains of `status` and `priority`,
    and the column defaults a newly inserted row receives. */
module Entity {
  import opened Util

  /** A calendar date as a day number: the column keeps no time of day. */
  type Day = int

  /** The creation timestamp is an opaque value supplied by the store at insertion. */
  type Timestamp = int

  datatype Status = Pending | InProgress | Paused | Done

  datatype Priority = Normal | Medium | High

  /** The value the `status` enum column stores. */
  function StatusName(s: Status): string {
    match s
    case Pending => "pending"
    case InProgress => "in-progress"
    case Paused => "paused"
    case Done => "done"
  }

  /** The value the `priority` enum column stores. */
  function PriorityName(p: Priority): string {
    match p
    case Normal => "normal"
    case Medium => "medium"
    case High => "high"
  }

  /** What the enum column accepts: exactly the names of the four statuses. */
  function ParseStatus(name: string): (r: Option<Status>)
    ensures forall s :: StatusName(s) == name <==> r == Some(s)
  {
    if name == "pending" then Some(Pending)
    else if name == "in-progress" then Some(InProgress)
    else if name == "paused" then Some(Paused)
    else if name == "done" then Some(Done)
    else None
  }

  /** What the enum column accepts: exactly the names of the three priorities. */
  function ParsePriority(name: string): (r: Option<Priority>)
    ensures forall p :: PriorityName(p) == name <==> r == Some(p)
  {
    if name == "normal" then Some(Normal)
    else if name == "medium" then Some(Medium)
    else if name == "high" then Some(High)
    else None
  }

  const DefaultStatus: Status := Pending
  const DefaultPriority: Priority := Normal

  datatype Todo = Todo(
    id: int,
    details: string,
    dueDate: Day,
    status: Status,
    priority: Priority,
    dateOfCreation: Timestamp,
    isActive: bool)

  /** A freshly inserted row: the supplied fields, the generated id and creation time,
      and the column defaults for the rest. */
  function NewTodo(id: int, details: string, dueDate: Day, created: Timestamp): Todo {
    Todo(id, details, dueDate, DefaultStatus, DefaultPriority, created, true)
  }
}
