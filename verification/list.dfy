/**
 * The task store: the primary task list, the task counter, the undo stack and
 * the three ordered indexes (by id, priority and status), with the list
 * commands of the program as pure functions from one store to the next.
 *
 * Inserts add the new task to all three indexes; removals push the task on
 * the undo stack and never touch the indexes; restoring pops the stack and
 * reinserts the task where it was recorded to have been.
 */
module TaskList {
  import opened Tasks
  import opened UndoStack
  import TaskTree

  datatype Store = Store(
    tasks: seq<Task>,
    counter: int,
    undo: Stack,
    idTree: TaskTree.Tree,
    priorityTree: TaskTree.Tree,
    statusTree: TaskTree.Tree
  )

  /** Each index has its own key and satisfies the search-tree invariant. */
  predicate IndexesWellFormed(s: Store) {
    && s.idTree.key == TaskTree.ById
    && s.priorityTree.key == TaskTree.ByPriority
    && s.statusTree.key == TaskTree.ByStatus
    && TaskTree.Ordered(s.idTree.root, s.idTree.key)
    && TaskTree.Ordered(s.priorityTree.root, s.priorityTree.key)
    && TaskTree.Ordered(s.statusTree.root, s.statusTree.key)
  }

  /** The invariant the commands keep: the counter is the list length and the stack is within capacity. */
  predicate Valid(s: Store) {
    && s.counter == |s.tasks|
    && WithinCapacity(s.undo)
    && IndexesWellFormed(s)
  }

  /** Every index holds exactly the tasks of the list. */
  predicate Mirrored(s: Store) {
    && multiset(TaskTree.Inorder(s.idTree.root)) == multiset(s.tasks)
    && multiset(TaskTree.Inorder(s.priorityTree.root)) == multiset(s.tasks)
    && multiset(TaskTree.Inorder(s.statusTree.root)) == multiset(s.tasks)
  }

  /**
   * `r`'s indexes are `s`'s with `t` added to each; in a well-formed index `t`
   * lands after every task whose key is not above its own (ties go right).
   */
  predicate AddedToIndexes(s: Store, r: Store, t: Task) {
    && r.idTree.key == s.idTree.key
    && r.priorityTree.key == s.priorityTree.key
    && r.statusTree.key == s.statusTree.key
    && multiset(TaskTree.Inorder(r.idTree.root)) == multiset(TaskTree.Inorder(s.idTree.root)) + multiset{t}
    && multiset(TaskTree.Inorder(r.priorityTree.root)) == multiset(TaskTree.Inorder(s.priorityTree.root)) + multiset{t}
    && multiset(TaskTree.Inorder(r.statusTree.root)) == multiset(TaskTree.Inorder(s.statusTree.root)) + multiset{t}
    && (TaskTree.Ordered(s.idTree.root, s.idTree.key) ==>
          TaskTree.Inorder(r.idTree.root) == TaskTree.InsertSorted(TaskTree.Inorder(s.idTree.root), t, s.idTree.key))
    && (TaskTree.Ordered(s.priorityTree.root, s.priorityTree.key) ==>
          TaskTree.Inorder(r.priorityTree.root) == TaskTree.InsertSorted(TaskTree.Inorder(s.priorityTree.root), t, s.priorityTree.key))
    && (TaskTree.Ordered(s.statusTree.root, s.statusTree.key) ==>
          TaskTree.Inorder(r.statusTree.root) == TaskTree.InsertSorted(TaskTree.Inorder(s.statusTree.root), t, s.statusTree.key))
  }

  predicate IndexesUnchanged(s: Store, r: Store) {
    r.idTree == s.idTree && r.priorityTree == s.priorityTree && r.statusTree == s.statusTree
  }

  /** The state the program starts from: empty list, counter 0, empty stack, three empty indexes. */
  function Init(): (s: Store)
    ensures Valid(s) && Mirrored(s)
    ensures s.tasks == [] && IsEmpty(s.undo)
  {
    Store([], 0, UndoStack.Create(),
          TaskTree.Create(TaskTree.ById), TaskTree.Create(TaskTree.ByPriority), TaskTree.Create(TaskTree.ByStatus))
  }

  // ---------------------------------------------------------------------
  // The task counter
  // ---------------------------------------------------------------------

  /** One down, but never below zero. */
  function Decrement(c: int): (r: int)
    ensures 0 <= c ==> 0 <= r <= c
    ensures 0 < c ==> r + 1 == c
  {
    if c > 0 then c - 1 else c
  }

  // ---------------------------------------------------------------------
  // Walking the list
  // ---------------------------------------------------------------------

  /** Whether some task in the list has this id. */
  function HasId(ts: seq<Task>, id: int): (r: bool)
    ensures r <==> exists i :: 0 <= i < |ts| && ts[i].id == id
  {
    if ts == [] then false
    else if ts[0].id == id then true
    else
      assert forall i :: 1 <= i < |ts| ==> ts[i] == ts[1..][i - 1];
      HasId(ts[1..], id)
  }

  /** Position of the first task with this id. */
  function IndexOf(ts: seq<Task>, id: int): (r: Option<nat>)
    ensures r.None? <==> !HasId(ts, id)
    ensures r.Some? ==> r.value < |ts| && ts[r.value].id == id
    ensures r.Some? ==> forall j :: 0 <= j < r.value ==> ts[j].id != id
  {
    if ts == [] then None
    else if ts[0].id == id then Some(0)
    else
      match IndexOf(ts[1..], id)
      case None => None
      case Some(k) =>
        assert forall j :: 1 <= j < k + 1 ==> ts[j] == ts[1..][j - 1];
        Some(k + 1)
  }

  predicate UniqueIds(ts: seq<Task>) {
    forall i, j :: 0 <= i < j < |ts| ==> ts[i].id != ts[j].id
  }

  function InsertAt(ts: seq<Task>, i: nat, t: Task): seq<Task>
    requires i <= |ts|
  {
    ts[..i] + [t] + ts[i..]
  }

  /** `r` is `ts` with `t` inserted at position `p`. */
  predicate InsertedAt(r: seq<Task>, ts: seq<Task>, p: nat, t: Task) {
    && p <= |ts|
    && |r| == |ts| + 1
    && r[..p] == ts[..p]
    && r[p] == t
    && r[p + 1..] == ts[p..]
  }

  /** What inserting at `p` keeps and adds. */
  lemma InsertAtFacts(ts: seq<Task>, p: nat, t: Task)
    requires p <= |ts|
    ensures InsertedAt(InsertAt(ts, p, t), ts, p, t)
    ensures multiset(InsertAt(ts, p, t)) == multiset(ts) + multiset{t}
  {
    assert ts == ts[..p] + ts[p..];
  }

  function RemoveAt(ts: seq<Task>, i: nat): seq<Task>
    requires i < |ts|
  {
    ts[..i] + ts[i + 1..]
  }

  // ---------------------------------------------------------------------
  // Store updates shared by the commands
  // ---------------------------------------------------------------------

  /** An insertion: the new list, the counter one up, the task added to all three indexes. */
  function Admit(s: Store, tasks: seq<Task>, t: Task): (r: Store)
    ensures r.tasks == tasks && r.counter == s.counter + 1 && r.undo == s.undo
    ensures AddedToIndexes(s, r, t)
    ensures IndexesWellFormed(s) ==> IndexesWellFormed(r)
    ensures Valid(s) && |tasks| == |s.tasks| + 1 ==> Valid(r)
    ensures Mirrored(s) && multiset(tasks) == multiset(s.tasks) + multiset{t} ==> Mirrored(r)
  {
    s.(tasks := tasks, counter := s.counter + 1,
       idTree := TaskTree.Insert(s.idTree, Some(t)),
       priorityTree := TaskTree.Insert(s.priorityTree, Some(t)),
       statusTree := TaskTree.Insert(s.statusTree, Some(t)))
  }

  /** A removal: the new list, the counter one down, the removed task pushed with its metadata. */
  function Detach(s: Store, tasks: seq<Task>, e: Entry): (r: Store)
    ensures r.tasks == tasks && r.counter == Decrement(s.counter)
    ensures r.undo == Push(s.undo, Some(e.task), e.position, e.targetId)
    ensures Pop(r.undo).0 == Some(e)
    ensures IndexesUnchanged(s, r)
  {
    s.(tasks := tasks, counter := Decrement(s.counter),
       undo := Push(s.undo, Some(e.task), e.position, e.targetId))
  }

  // ---------------------------------------------------------------------
  // Adding
  // ---------------------------------------------------------------------

  /** Adds `t` (the task the user filled in) in front of the list. */
  function AddToHead(s: Store, t: Task): (r: Store)
    ensures r.tasks == [t] + s.tasks
    ensures r.counter == s.counter + 1 && r.undo == s.undo
    ensures AddedToIndexes(s, r, t)
    ensures Valid(s) ==> Valid(r)
    ensures Mirrored(s) ==> Mirrored(r)
  {
    Admit(s, [t] + s.tasks, t)
  }

  /** Appends `t`; an empty list is reported as not initialised and left alone. */
  function AddToEnd(s: Store, t: Task): (r: Store)
    ensures s.tasks == [] ==> r == s
    ensures s.tasks != [] ==>
      && r.tasks == s.tasks + [t]
      && r.counter == s.counter + 1 && r.undo == s.undo
      && AddedToIndexes(s, r, t)
    ensures Valid(s) ==> Valid(r)
    ensures Mirrored(s) ==> Mirrored(r)
  {
    if s.tasks == [] then s else Admit(s, s.tasks + [t], t)
  }

  /**
   * Inserts `t` right after the first task whose id is `anchor`. An empty
   * list or an absent anchor leaves the store unchanged.
   */
  function AddToMiddle(s: Store, anchor: int, t: Task): (r: Store)
    ensures !HasId(s.tasks, anchor) ==> r == s
    ensures HasId(s.tasks, anchor) ==>
      && InsertedAt(r.tasks, s.tasks, IndexOf(s.tasks, anchor).value + 1, t)
      && r.counter == s.counter + 1 && r.undo == s.undo
      && AddedToIndexes(s, r, t)
    ensures Valid(s) ==> Valid(r)
    ensures Mirrored(s) ==> Mirrored(r)
  {
    if s.tasks == [] then s
    else
      match IndexOf(s.tasks, anchor)
      case None => s
      case Some(k) =>
        InsertAtFacts(s.tasks, k + 1, t);
        Admit(s, InsertAt(s.tasks, k + 1, t), t)
  }

  // ---------------------------------------------------------------------
  // Removing
  // ---------------------------------------------------------------------

  /** Removes the first task and pushes it as a head removal. */
  function RemoveFromHead(s: Store): (r: Store)
    ensures s.tasks == [] ==> r == s
    ensures s.tasks != [] ==>
      && [s.tasks[0]] + r.tasks == s.tasks
      && r.counter == Decrement(s.counter)
      && r.undo == Push(s.undo, Some(s.tasks[0]), Head, 0)
      && Pop(r.undo).0 == Some(Entry(s.tasks[0], Head, 0))
    ensures IndexesUnchanged(s, r)
    ensures Valid(s) ==> Valid(r)
  {
    if s.tasks == [] then s
    else Detach(s, s.tasks[1..], Entry(s.tasks[0], Head, 0))
  }

  /**
   * Removes the last task. A lone task is pushed as a head removal and
   * leaves the list empty; otherwise the task is pushed as an end removal.
   */
  function RemoveFromEnd(s: Store): (r: Store)
    ensures s.tasks == [] ==> r == s
    ensures |s.tasks| == 1 ==>
      && r.tasks == []
      && r.undo == Push(s.undo, Some(s.tasks[0]), Head, 0)
      && Pop(r.undo).0 == Some(Entry(s.tasks[0], Head, 0))
    ensures |s.tasks| >= 2 ==>
      && r.tasks + [s.tasks[|s.tasks| - 1]] == s.tasks
      && r.undo == Push(s.undo, Some(s.tasks[|s.tasks| - 1]), End, 0)
      && Pop(r.undo).0 == Some(Entry(s.tasks[|s.tasks| - 1], End, 0))
    ensures s.tasks != [] ==> r.counter == Decrement(s.counter)
    ensures IndexesUnchanged(s, r)
    ensures Valid(s) ==> Valid(r)
  {
    if s.tasks == [] then s
    else if |s.tasks| == 1 then Detach(s, [], Entry(s.tasks[0], Head, 0))
    else Detach(s, s.tasks[..|s.tasks| - 1], Entry(s.tasks[|s.tasks| - 1], End, 0))
  }

  /**
   * `RemoveFromEnd` as the program writes it: on a one-task list the
   * function clears only its own copy of the head pointer, so the caller's
   * list still holds the task that was just pushed and counted out.
   */
  function RemoveFromEndAsWritten(s: Store): (r: Store)
    ensures |s.tasks| != 1 ==> r == RemoveFromEnd(s)
    ensures |s.tasks| == 1 ==>
      && r.tasks == s.tasks
      && r.counter == Decrement(s.counter)
      && r.undo == Push(s.undo, Some(s.tasks[0]), Head, 0)
      && Pop(r.undo).0 == Some(Entry(s.tasks[0], Head, 0))
    ensures IndexesUnchanged(s, r)
  {
    if |s.tasks| == 1 then Detach(s, s.tasks, Entry(s.tasks[0], Head, 0))
    else RemoveFromEnd(s)
  }

  /**
   * The scan that looks for the task to remove by id: `cur` is the node whose
   * successor is compared with the target, and `prevId` is updated to `cur`'s id before `cur`
   * advances, so it trails one node behind `cur` rather than being `cur`'s id.
   * Returns the final `cur` and `prevId`.
   */
  function RemovalScan(ts: seq<Task>, target: int, cur: nat, prevId: int): (r: (nat, int))
    requires cur < |ts|
    requires prevId == ts[if cur == 0 then 0 else cur - 1].id
    ensures cur <= r.0 < |ts|
    ensures forall j :: cur < j <= r.0 ==> ts[j].id != target
    ensures r.0 + 1 < |ts| ==> ts[r.0 + 1].id == target
    ensures r.1 == ts[if r.0 == 0 then 0 else r.0 - 1].id
    decreases |ts| - cur
  {
    if cur + 1 < |ts| && ts[cur + 1].id != target then RemovalScan(ts, target, cur + 1, ts[cur].id)
    else (cur, prevId)
  }

  /**
   * Removes the first task with id `target`. A head match is pushed as a head
   * removal. Any other match is pushed as a middle removal whose anchor is the
   * scan's trailing id: the predecessor's id when the task is second in the
   * list, and the id two places before it when it is further along.
   */
  function RemoveById(s: Store, target: int): (r: Store)
    ensures !HasId(s.tasks, target) ==> r == s
    ensures HasId(s.tasks, target) ==>
      var k := IndexOf(s.tasks, target).value;
      && r.tasks == RemoveAt(s.tasks, k)
      && r.counter == Decrement(s.counter)
      && (k == 0 ==> r.undo == Push(s.undo, Some(s.tasks[0]), Head, 0))
      && (k == 1 ==> r.undo == Push(s.undo, Some(s.tasks[1]), Middle, s.tasks[0].id))
      && (k >= 2 ==> r.undo == Push(s.undo, Some(s.tasks[k]), Middle, s.tasks[k - 2].id))
      && (k == 0 ==> Pop(r.undo).0 == Some(Entry(s.tasks[0], Head, 0)))
      && (k == 1 ==> Pop(r.undo).0 == Some(Entry(s.tasks[1], Middle, s.tasks[0].id)))
      && (k >= 2 ==> Pop(r.undo).0 == Some(Entry(s.tasks[k], Middle, s.tasks[k - 2].id)))
    ensures IndexesUnchanged(s, r)
    ensures Valid(s) ==> Valid(r)
  {
    if s.tasks == [] then s
    else if s.tasks[0].id == target then Detach(s, s.tasks[1..], Entry(s.tasks[0], Head, 0))
    else
      var (cur, prevId) := RemovalScan(s.tasks, target, 0, s.tasks[0].id);
      if cur + 1 == |s.tasks| then s
      else
        assert IndexOf(s.tasks, target) == Some(cur + 1);
        Detach(s, RemoveAt(s.tasks, cur + 1), Entry(s.tasks[cur + 1], Middle, prevId))
  }

  /** `RemoveById` with the anchor it evidently means to record: the id of the removed task's predecessor. */
  function RemoveByIdCorrected(s: Store, target: int): (r: Store)
    ensures !HasId(s.tasks, target) ==> r == s
    ensures HasId(s.tasks, target) ==>
      var k := IndexOf(s.tasks, target).value;
      && r.tasks == RemoveAt(s.tasks, k)
      && r.counter == Decrement(s.counter)
      && (k == 0 ==> r.undo == Push(s.undo, Some(s.tasks[0]), Head, 0))
      && (k >= 1 ==> r.undo == Push(s.undo, Some(s.tasks[k]), Middle, s.tasks[k - 1].id))
      && (k == 0 ==> Pop(r.undo).0 == Some(Entry(s.tasks[0], Head, 0)))
      && (k >= 1 ==> Pop(r.undo).0 == Some(Entry(s.tasks[k], Middle, s.tasks[k - 1].id)))
    ensures IndexesUnchanged(s, r)
    ensures Valid(s) ==> Valid(r)
  {
    match IndexOf(s.tasks, target)
    case None => s
    case Some(k) =>
      if k == 0 then Detach(s, s.tasks[1..], Entry(s.tasks[0], Head, 0))
      else Detach(s, RemoveAt(s.tasks, k), Entry(s.tasks[k], Middle, s.tasks[k - 1].id))
  }

  /** The entries that pushing `ts` one by one as head removals puts on an empty stack, top first. */
  function Stacked(ts: seq<Task>): (r: seq<Entry>)
    ensures |r| == |ts|
  {
    if ts == [] then [] else Stacked(ts[1..]) + [Entry(ts[0], Head, 0)]
  }

  /** `Stacked` lists the tasks last first, each tagged as a head removal with anchor 0. */
  lemma {:induction false} StackedReversesList(ts: seq<Task>)
    ensures forall i :: 0 <= i < |ts| ==> Stacked(ts)[i] == Entry(ts[|ts| - 1 - i], Head, 0)
  {
    if ts != [] {
      StackedReversesList(ts[1..]);
      var r := Stacked(ts);
      forall i | 0 <= i < |ts|
        ensures r[i] == Entry(ts[|ts| - 1 - i], Head, 0)
      {
        if i < |ts| - 1 {
          assert r[i] == Stacked(ts[1..])[i];
          assert ts[1..][|ts| - 2 - i] == ts[|ts| - 1 - i];
        }
      }
    }
  }

  /** Pushes `ts` in list order, each as a head removal. */
  function PushEach(st: Stack, ts: seq<Task>): (r: Stack)
    ensures WithinCapacity(st) ==> WithinCapacity(r)
    ensures WithinCapacity(st) ==>
      r.entries == (Stacked(ts) + st.entries)[..Min(|ts| + |st.entries|, Capacity)]
    ensures ts != [] ==> Peek(r) == Some(ts[|ts| - 1])
    decreases |ts|
  {
    if ts == [] then
      assert Stacked(ts) + st.entries == st.entries;
      st
    else
      var st' := Push(st, Some(ts[0]), Head, 0);
      var r := PushEach(st', ts[1..]);
      if WithinCapacity(st) then
        PushEachStep(st, ts, r);
        r
      else r
  }

  /** Regrouping step of `PushEach`: truncating after each push is the same as truncating once. */
  lemma PushEachStep(st: Stack, ts: seq<Task>, r: Stack)
    requires WithinCapacity(st) && ts != []
    requires
      var st' := Push(st, Some(ts[0]), Head, 0);
      r.entries == (Stacked(ts[1..]) + st'.entries)[..Min(|ts| - 1 + |st'.entries|, Capacity)]
    ensures r.entries == (Stacked(ts) + st.entries)[..Min(|ts| + |st.entries|, Capacity)]
  {
    var e := Entry(ts[0], Head, 0);
    var st' := Push(st, Some(ts[0]), Head, 0);
    assert st'.entries == ([e] + st.entries)[..Min(|st.entries| + 1, Capacity)];
    assert Stacked(ts) == Stacked(ts[1..]) + [e];
    Regroup(Stacked(ts[1..]), e, st.entries, |ts|, r.entries);
  }

  lemma Regroup(x: seq<Entry>, e: Entry, es: seq<Entry>, n: nat, r: seq<Entry>)
    requires |es| <= Capacity && n == |x| + 1
    requires
      var m1 := Min(|es| + 1, Capacity);
      r == (x + ([e] + es)[..m1])[..Min(n - 1 + |([e] + es)[..m1]|, Capacity)]
    ensures r == ((x + [e]) + es)[..Min(n + |es|, Capacity)]
  {
    var y := [e] + es;
    var m1 := Min(|es| + 1, Capacity);
    var m2 := Min(n + |es|, Capacity);
    assert |y[..m1]| == m1;
    assert Min(n - 1 + m1, Capacity) == m2;
    TruncateTwice(x, y, m1, m2);
    assert x + y == (x + [e]) + es;
  }

  /** Cutting the tail `y` at `m1` before cutting the whole at `m2` makes no difference when `m2` stays within the first cut. */
  lemma TruncateTwice(x: seq<Entry>, y: seq<Entry>, m1: nat, m2: nat)
    requires m1 <= |y| && m2 <= |x| + m1
    ensures (x + y[..m1])[..m2] == (x + y)[..m2]
  {
    forall i | 0 <= i < m2
      ensures (x + y[..m1])[i] == (x + y)[i]
    {
      if i >= |x| { assert i - |x| < m1; }
    }
  }

  /**
   * Clears the list: every task is pushed, in list order, as a head
   * removal, so the old last task ends up on top; the counter is reset.
   */
  function FreeAll(s: Store): (r: Store)
    ensures r.tasks == [] && r.counter == 0
    ensures s.tasks != [] ==> Peek(r.undo) == Some(s.tasks[|s.tasks| - 1])
    ensures WithinCapacity(s.undo) ==>
      r.undo.entries == (Stacked(s.tasks) + s.undo.entries)[..Min(|s.tasks| + Size(s.undo), Capacity)]
    ensures IndexesUnchanged(s, r)
    ensures Valid(s) ==> Valid(r)
  {
    s.(tasks := [], counter := 0, undo := PushEach(s.undo, s.tasks))
  }

  /**
   * Clears the undo stack: every entry is popped and dropped (the fresh
   * empty stack the program then creates is the same value). The list, the
   * counter and the indexes stay as they are.
   */
  function ClearUndo(s: Store): (r: Store)
    ensures IsEmpty(r.undo) && WithinCapacity(r.undo)
    ensures r.tasks == s.tasks && r.counter == s.counter
    ensures IndexesUnchanged(s, r)
    ensures Valid(s) ==> Valid(r)
    ensures Mirrored(s) ==> Mirrored(r)
  {
    s.(undo := Clear(s.undo))
  }

  // ---------------------------------------------------------------------
  // Restoring
  // ---------------------------------------------------------------------

  /** Whether some answer is an id no task of the list has. */
  predicate SomeFresh(ts: seq<Task>, answers: seq<int>) {
    exists i :: 0 <= i < |answers| && !HasId(ts, answers[i])
  }

  lemma FreshAfterFirst(ts: seq<Task>, answers: seq<int>)
    requires SomeFresh(ts, answers) && HasId(ts, answers[0])
    ensures SomeFresh(ts, answers[1..])
  {
    var i :| 0 <= i < |answers| && !HasId(ts, answers[i]);
    assert answers[1..][i - 1] == answers[i];
  }

  /** The first of the user's successive answers that no task of the list already has. */
  function FirstFresh(ts: seq<Task>, answers: seq<int>): (id: int)
    requires SomeFresh(ts, answers)
    ensures !HasId(ts, id)
    ensures exists i :: 0 <= i < |answers| && answers[i] == id && forall j :: 0 <= j < i ==> HasId(ts, answers[j])
  {
    if !HasId(ts, answers[0]) then answers[0]
    else
      FreshAfterFirst(ts, answers);
      var id := FirstFresh(ts, answers[1..]);
      var i :| 0 <= i < |answers[1..]| && answers[1..][i] == id && forall j :: 0 <= j < i ==> HasId(ts, answers[1..][j]);
      assert answers[i + 1] == id;
      assert forall j :: 0 <= j < i + 1 ==> HasId(ts, answers[j]) by {
        forall j | 0 <= j < i + 1
          ensures HasId(ts, answers[j])
        {
          if j > 0 { assert answers[j] == answers[1..][j - 1]; }
        }
      }
      id
  }

  /** The popped task, with its id replaced by a fresh answer when it clashes with the list. */
  function Resolve(ts: seq<Task>, t: Task, answers: seq<int>): (r: Task)
    requires HasId(ts, t.id) ==> SomeFresh(ts, answers)
    ensures !HasId(ts, r.id)
    ensures r == t.(id := r.id)
    ensures !HasId(ts, t.id) ==> r == t
  {
    if HasId(ts, t.id) then t.(id := FirstFresh(ts, answers)) else t
  }

  /** The popped entry needs a new id: its task's id is already in the list. */
  predicate NeedsNewId(s: Store) {
    Pop(s.undo).0.Some? && HasId(s.tasks, Pop(s.undo).0.value.task.id)
  }

  /**
   * Where a restored entry goes: the front when it was a head removal or the
   * list is empty, the back for an end removal, right after the first task
   * with the anchor id for a middle removal, and the front when that anchor
   * is no longer in the list.
   */
  function Placement(ts: seq<Task>, e: Entry): (p: nat)
    ensures p <= |ts|
  {
    if e.position == Head || ts == [] then 0
    else if e.position == End then |ts|
    else match IndexOf(ts, e.targetId)
      case None => 0
      case Some(k) => k + 1
  }

  /**
   * `r` is `s` after reinserting `t` (the popped task of entry `e`, its id
   * already made fresh) at `e`'s placement, with `rest` as the remaining stack.
   */
  predicate Restored(s: Store, r: Store, e: Entry, rest: Stack, t: Task) {
    && r.undo == rest
    && r.counter == s.counter + 1
    && AddedToIndexes(s, r, t)
    && multiset(r.tasks) == multiset(s.tasks) + multiset{t}
    && InsertedAt(r.tasks, s.tasks, Placement(s.tasks, e), t)
    && (forall i :: 0 <= i < |r.tasks| && r.tasks[i].id == t.id ==> i == Placement(s.tasks, e))
  }

  /**
   * Undo: pops the top entry and reinserts its task. `answers` are the ids
   * the user types, in order, when the task's id is already taken; the first
   * one that is free is used (the program keeps asking until it gets one).
   * An empty stack leaves the store unchanged.
   */
  function RestoreTask(s: Store, answers: seq<int>): (r: Store)
    requires NeedsNewId(s) ==> SomeFresh(s.tasks, answers)
    ensures IsEmpty(s.undo) ==> r == s
    ensures !IsEmpty(s.undo) ==>
      Restored(s, r, Pop(s.undo).0.value, Pop(s.undo).1, Resolve(s.tasks, Pop(s.undo).0.value.task, answers))
    ensures UniqueIds(s.tasks) ==> UniqueIds(r.tasks)
    ensures Valid(s) ==> Valid(r)
    ensures Mirrored(s) ==> Mirrored(r)
  {
    match Pop(s.undo).0
    case None => s
    case Some(e) =>
      var t := Resolve(s.tasks, e.task, answers);
      var p := Placement(s.tasks, e);
      InsertFresh(s.tasks, p, t);
      InsertAtFacts(s.tasks, p, t);
      Admit(s.(undo := Pop(s.undo).1), InsertAt(s.tasks, p, t), t)
  }

  /**
   * Where `RestoreTask` puts the popped task: in front for a head removal or
   * an empty list, at the back for an end removal, right after the first
   * task with the anchor id for a middle removal, and in front when that
   * anchor is gone. The restored task is the only one with its id.
   */
  lemma RestorePlacement(s: Store, answers: seq<int>)
    requires NeedsNewId(s) ==> SomeFresh(s.tasks, answers)
    requires !IsEmpty(s.undo)
    ensures
      var e := Pop(s.undo).0.value;
      var t := Resolve(s.tasks, e.task, answers);
      var r := RestoreTask(s, answers);
      && (e.position == Head || s.tasks == [] ==> r.tasks == [t] + s.tasks)
      && (e.position == End && s.tasks != [] ==> r.tasks == s.tasks + [t])
      && (e.position == Middle && !HasId(s.tasks, e.targetId) ==> r.tasks == [t] + s.tasks)
      && (e.position == Middle && s.tasks != [] && HasId(s.tasks, e.targetId) ==>
            InsertedAt(r.tasks, s.tasks, IndexOf(s.tasks, e.targetId).value + 1, t))
      && (forall i, j :: 0 <= i < j < |r.tasks| && r.tasks[i].id == t.id ==> r.tasks[j].id != t.id)
  {
    var e := Pop(s.undo).0.value;
    var t := Resolve(s.tasks, e.task, answers);
    var r := RestoreTask(s, answers);
    PlacementCases(s.tasks, e, t, r.tasks);
    OnlyOne(r.tasks, t.id, Placement(s.tasks, e));
  }

  lemma PlacementCases(ts: seq<Task>, e: Entry, t: Task, r: seq<Task>)
    requires InsertedAt(r, ts, Placement(ts, e), t)
    ensures e.position == Head || ts == [] ==> r == [t] + ts
    ensures e.position == End && ts != [] ==> r == ts + [t]
    ensures e.position == Middle && !HasId(ts, e.targetId) ==> r == [t] + ts
    ensures e.position == Middle && ts != [] && HasId(ts, e.targetId) ==>
      InsertedAt(r, ts, IndexOf(ts, e.targetId).value + 1, t)
  {
    if e.position == Head || ts == [] {
      InsertedFront(r, ts, t);
    } else if e.position == End {
      InsertedBack(r, ts, t);
    } else if !HasId(ts, e.targetId) {
      InsertedFront(r, ts, t);
    }
  }

  lemma InsertedFront(r: seq<Task>, ts: seq<Task>, t: Task)
    requires InsertedAt(r, ts, 0, t)
    ensures r == [t] + ts
  {
    assert r == r[..1] + r[1..];
  }

  lemma InsertedBack(r: seq<Task>, ts: seq<Task>, t: Task)
    requires InsertedAt(r, ts, |ts|, t)
    ensures r == ts + [t]
  {
    assert r == r[..|ts|] + r[|ts|..];
  }

  lemma OnlyOne(r: seq<Task>, id: int, p: nat)
    requires forall i :: 0 <= i < |r| && r[i].id == id ==> i == p
    ensures forall i, j :: 0 <= i < j < |r| && r[i].id == id ==> r[j].id != id
  {
  }

  /** Inserting a task whose id is not in the list: it is the only task with that id, and unique ids stay unique. */
  lemma InsertFresh(ts: seq<Task>, p: nat, t: Task)
    requires p <= |ts| && !HasId(ts, t.id)
    ensures multiset(InsertAt(ts, p, t)) == multiset(ts) + multiset{t}
    ensures forall i :: 0 <= i < |InsertAt(ts, p, t)| && InsertAt(ts, p, t)[i].id == t.id ==> i == p
    ensures InsertAt(ts, p, t)[p] == t
    ensures UniqueIds(ts) ==> UniqueIds(InsertAt(ts, p, t))
  {
    var r := InsertAt(ts, p, t);
    InsertAtFacts(ts, p, t);
    InsertedElements(r, ts, p, t);
    if UniqueIds(ts) {
      forall i, j | 0 <= i < j < |r|
        ensures r[i].id != r[j].id
      {
        if i != p && j != p {
          assert r[i] == ts[if i < p then i else i - 1];
          assert r[j] == ts[if j < p then j else j - 1];
        }
      }
    }
  }

  /** Where the old tasks sit after an insertion at `p`. */
  lemma InsertedElements(r: seq<Task>, ts: seq<Task>, p: nat, t: Task)
    requires InsertedAt(r, ts, p, t)
    ensures forall i :: 0 <= i < |r| && i != p ==> r[i] == ts[if i < p then i else i - 1]
  {
    forall i | 0 <= i < |r| && i != p
      ensures r[i] == ts[if i < p then i else i - 1]
    {
      if i < p {
        assert r[i] == r[..p][i];
      } else {
        assert r[i] == r[p + 1..][i - p - 1];
      }
    }
  }

  // ---------------------------------------------------------------------
  // Updating
  // ---------------------------------------------------------------------

  /**
   * Sets the priority and status of the first task with id `target` (the
   * values the user picked, each from 1 to 3) and rebuilds the priority and
   * status indexes from the list, in list order. An unknown id or an empty
   * list leaves the store unchanged.
   */
  function UpdateTask(s: Store, target: int, p: Priority, st: Status): (r: Store)
    ensures !HasId(s.tasks, target) ==> r == s
    ensures HasId(s.tasks, target) ==> Updated(s, r, IndexOf(s.tasks, target).value, p, st)
    ensures |r.tasks| == |s.tasks|
    ensures forall i :: 0 <= i < |s.tasks| ==> r.tasks[i].id == s.tasks[i].id
    ensures Valid(s) ==> Valid(r)
  {
    if s.tasks == [] then s
    else
      match IndexOf(s.tasks, target)
      case None => s
      case Some(k) =>
        var r := UpdateAt(s, k, p, st);
        UpdatedKeepsIds(s, r, k, p, st);
        r
  }

  /** An update changes no id. */
  lemma UpdatedKeepsIds(s: Store, r: Store, k: nat, p: Priority, st: Status)
    requires Updated(s, r, k, p, st)
    ensures forall i :: 0 <= i < |s.tasks| ==> r.tasks[i].id == s.tasks[i].id
  {
  }

  /**
   * `r` is `s` with the task at `k` given priority `p` and status `st`, the
   * priority and status indexes rebuilt from the new list in list order, and
   * everything else unchanged.
   */
  predicate Updated(s: Store, r: Store, k: nat, p: Priority, st: Status) {
    && k < |s.tasks|
    && |r.tasks| == |s.tasks|
    && r.tasks[k] == s.tasks[k].(priority := p, status := st)
    && (forall i :: 0 <= i < |s.tasks| && i != k ==> r.tasks[i] == s.tasks[i])
    && r.counter == s.counter && r.undo == s.undo && r.idTree == s.idTree
    && r.priorityTree.key == TaskTree.ByPriority && r.statusTree.key == TaskTree.ByStatus
    && TaskTree.Inorder(r.priorityTree.root) == TaskTree.SortStable(r.tasks, TaskTree.ByPriority)
    && TaskTree.Inorder(r.statusTree.root) == TaskTree.SortStable(r.tasks, TaskTree.ByStatus)
  }

  function UpdateAt(s: Store, k: nat, p: Priority, st: Status): (r: Store)
    requires k < |s.tasks|
    ensures Updated(s, r, k, p, st)
    ensures Valid(s) ==> Valid(r)
  {
    var tasks := s.tasks[k := s.tasks[k].(priority := p, status := st)];
    s.(tasks := tasks,
       priorityTree := TaskTree.Build(tasks, TaskTree.ByPriority),
       statusTree := TaskTree.Build(tasks, TaskTree.ByStatus))
  }
}
