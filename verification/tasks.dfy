/**
 * The task record shared by the list, the undo stack and the three ordered
 * indexes, and the Option type that stands for a possibly-null task pointer.
 */
module Tasks {

  /** A possibly absent value: `None` plays the role of a null pointer. */
  datatype Option<T> = None | Some(value: T)

  /** Priority levels, stored by the program as the integers 1 (High) to 3 (Low). */
  datatype Priority = High | Medium | Low

  /** Progress of a task, stored as the integers 1 (NotStarted) to 3 (Finished). */
  datatype Status = NotStarted | InProgress | Finished

  /** The integer the program stores and compares for a priority. */
  function PriorityValue(p: Priority): (v: int)
    ensures 1 <= v <= 3
    ensures v == 1 <==> p == High
    ensures v == 3 <==> p == Low
  {
    match p
    case High => 1
    case Medium => 2
    case Low => 3
  }

  /** The priority an in-range integer stands for (the cast applied to a value read between 1 and 3). */
  function PriorityOf(v: int): (p: Priority)
    requires 1 <= v <= 3
    ensures PriorityValue(p) == v
  {
    if v == 1 then High else if v == 2 then Medium else Low
  }

  /** The integer the program stores and compares for a status. */
  function StatusValue(s: Status): (v: int)
    ensures 1 <= v <= 3
    ensures v == 1 <==> s == NotStarted
    ensures v == 3 <==> s == Finished
  {
    match s
    case NotStarted => 1
    case InProgress => 2
    case Finished => 3
  }

  /** The status an in-range integer stands for. */
  function StatusOf(v: int): (s: Status)
    requires 1 <= v <= 3
    ensures StatusValue(s) == v
  {
    if v == 1 then NotStarted else if v == 2 then InProgress else Finished
  }

  /** Casting a priority's stored integer back gives the same priority, so distinct priorities store distinct integers. */
  lemma PriorityRoundTrip(p: Priority)
    ensures PriorityOf(PriorityValue(p)) == p
  {
    match p
    case High =>
    case Medium =>
    case Low =>
  }

  lemma StatusRoundTrip(s: Status)
    ensures StatusOf(StatusValue(s)) == s
  {
    match s
    case NotStarted =>
    case InProgress =>
    case Finished =>
  }

  /**
   * A task. The id is supplied by the user and is not checked for
   * uniqueness when a task is created; only restoring from the undo stack
   * enforces it.
   */
  datatype Task = Task(
    id: int,
    title: string,
    description: string,
    priority: Priority,
    status: Status
  )
}
