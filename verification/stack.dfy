/**
 * The bounded undo stack: a LIFO of removed tasks, each tagged with where it
 * was in the list and, for a middle removal, the id of the task to reinsert
 * it after. At most `Capacity` entries are kept; pushing onto a full stack
 * first discards the oldest (bottom) entry.
 */
module UndoStack {
  import opened Tasks

  const Capacity: nat := 10

  /** Where a removed task was in the list. */
  datatype Position = Head | Middle | End

  datatype Entry = Entry(task: Task, position: Position, targetId: int)

  /** The entries top first: `entries[0]` is the top, the last one the bottom (oldest). */
  datatype Stack = Stack(entries: seq<Entry>)

  /** The capacity bound every stack built by these operations keeps. */
  predicate WithinCapacity(s: Stack) {
    |s.entries| <= Capacity
  }

  function Min(a: int, b: int): int {
    if a <= b then a else b
  }

  /** Number of entries on the stack; a stack built by these operations never holds more than `Capacity`. */
  function Size(s: Stack): (n: nat)
    ensures WithinCapacity(s) ==> n <= Capacity
    ensures n == 0 <==> s.entries == []
  {
    |s.entries|
  }

  function Create(): (s: Stack)
    ensures Size(s) == 0 && IsEmpty(s)
    ensures WithinCapacity(s)
  {
    Stack([])
  }

  function IsEmpty(s: Stack): (r: bool)
    ensures r <==> Size(s) == 0
  {
    s.entries == []
  }

  /**
   * Pushes a task with its position metadata. A null task changes nothing.
   * On a full stack the bottom entry is evicted first, so the new entry sits
   * on top of the newest `Capacity - 1` old entries, in their old order.
   */
  function Push(s: Stack, task: Option<Task>, position: Position, targetId: int): (r: Stack)
    ensures task.None? ==> r == s
    ensures WithinCapacity(s) ==> WithinCapacity(r)
    ensures task.Some? && WithinCapacity(s) ==>
      r.entries == ([Entry(task.value, position, targetId)] + s.entries)[..Min(Size(s) + 1, Capacity)]
    ensures task.Some? && Size(s) == Capacity ==>
      Size(r) == Capacity && r.entries[1..] == s.entries[..Capacity - 1]
  {
    if task.None? then s
    else
      var kept := if |s.entries| >= Capacity then s.entries[..|s.entries| - 1] else s.entries;
      Stack([Entry(task.value, position, targetId)] + kept)
  }

  /**
   * Removes the top entry. On an empty stack the result is `None` and the
   * stack is returned unchanged.
   */
  function Pop(s: Stack): (r: (Option<Entry>, Stack))
    ensures IsEmpty(s) <==> r.0.None?
    ensures IsEmpty(s) ==> r.1 == s
    ensures !IsEmpty(s) ==> [r.0.value] + r.1.entries == s.entries
    ensures Size(r.1) <= Size(s)
  {
    if s.entries == [] then (None, s)
    else (Some(s.entries[0]), Stack(s.entries[1..]))
  }

  /** The top task, without removing it: exactly the task `Pop` would return. */
  function Peek(s: Stack): (r: Option<Task>)
    ensures r.None? <==> Pop(s).0.None?
    ensures r.Some? ==> r.value == Pop(s).0.value.task
  {
    if s.entries == [] then None else Some(s.entries[0].task)
  }

  /** Pops (and discards) entries until the stack is empty. */
  function Clear(s: Stack): (r: Stack)
    ensures IsEmpty(r)
    decreases Size(s)
  {
    if IsEmpty(s) then s else Clear(Pop(s).1)
  }

  /** On a stack that is not full, a push followed by a pop gives back the pushed entry and the old stack. */
  lemma PushPopRoundTrip(s: Stack, t: Task, position: Position, targetId: int)
    requires Size(s) < Capacity
    ensures Pop(Push(s, Some(t), position, targetId)) == (Some(Entry(t, position, targetId)), s)
  {
  }

  /**
   * The size count follows the entries: a push adds one unless the stack is
   * full (an eviction and the push cancel out), and a pop takes one off.
   */
  lemma SizeCounts(s: Stack, t: Task, position: Position, targetId: int)
    requires WithinCapacity(s)
    ensures Size(Push(s, Some(t), position, targetId)) == Min(Size(s) + 1, Capacity)
    ensures !IsEmpty(s) ==> Size(Pop(s).1) + 1 == Size(s)
  {
  }

  /** Pushing onto a full stack loses exactly the bottom entry: popping the new top returns the old stack minus its bottom. */
  lemma PushFullEvictsBottom(s: Stack, t: Task, position: Position, targetId: int)
    requires Size(s) == Capacity
    ensures Pop(Push(s, Some(t), position, targetId)).1.entries + [s.entries[Capacity - 1]] == s.entries
  {
  }
}
