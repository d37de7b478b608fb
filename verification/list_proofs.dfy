/**
 * Properties that relate several commands of the task store: a removal
 * followed by an undo gives the list back, clearing the list and undoing
 * every removal gives it back too, and the two places where the program
 * does not (the lone-task end removal and the anchor recorded by removal
 * by id).
 */
module TaskListProofs {
  import opened Tasks
  import opened UndoStack
  import opened TaskList
  import TaskTree

  // ---------------------------------------------------------------------
  // Facts about positions in a list
  // ---------------------------------------------------------------------

  /** The first position holding `id` is `j` exactly when `j` holds it and no earlier position does. */
  lemma IndexOfIs(ts: seq<Task>, id: int, j: nat)
    requires j < |ts| && ts[j].id == id
    requires forall i :: 0 <= i < j ==> ts[i].id != id
    ensures IndexOf(ts, id) == Some(j)
  {
    assert HasId(ts, id);
  }

  /** Putting a removed task back where it was gives the original list. */
  lemma InsertAtRemoveAt(ts: seq<Task>, k: nat)
    requires k < |ts|
    ensures InsertAt(RemoveAt(ts, k), k, ts[k]) == ts
  {
    var rest := RemoveAt(ts, k);
    assert rest[..k] == ts[..k];
    assert rest[k..] == ts[k + 1..];
    assert ts == ts[..k] + [ts[k]] + ts[k + 1..];
  }

  /** With unique ids, the removed task's id is gone from the list. */
  lemma RemovedIdGone(ts: seq<Task>, k: nat)
    requires k < |ts| && UniqueIds(ts)
    ensures !HasId(RemoveAt(ts, k), ts[k].id)
  {
    var rest := RemoveAt(ts, k);
    forall i | 0 <= i < |rest|
      ensures rest[i].id != ts[k].id
    {
      if i < k {
        assert rest[i] == ts[i];
      } else {
        assert rest[i] == ts[i + 1];
      }
    }
  }

  /** With unique ids, a task before the removed one is still found where it was. */
  lemma EarlierIdStays(ts: seq<Task>, k: nat, j: nat)
    requires j < k < |ts| && UniqueIds(ts)
    ensures IndexOf(RemoveAt(ts, k), ts[j].id) == Some(j)
  {
    var rest := RemoveAt(ts, k);
    assert forall i :: 0 <= i < k ==> rest[i] == ts[i];
    IndexOfIs(rest, ts[j].id, j);
  }

  /** Where a restored task lands, written as an insertion. */
  lemma RestoredAt(s: Store, p: nat)
    requires !IsEmpty(s.undo)
    requires !HasId(s.tasks, Pop(s.undo).0.value.task.id)
    requires p == Placement(s.tasks, Pop(s.undo).0.value)
    ensures RestoreTask(s, []).tasks == InsertAt(s.tasks, p, Pop(s.undo).0.value.task)
    ensures RestoreTask(s, []).counter == s.counter + 1
    ensures RestoreTask(s, []).undo == Pop(s.undo).1
  {
    var e := Pop(s.undo).0.value;
    var r := RestoreTask(s, []);
    assert Resolve(s.tasks, e.task, []) == e.task;
    InsertAtFacts(s.tasks, p, e.task);
    InsertedSame(r.tasks, InsertAt(s.tasks, p, e.task), s.tasks, p, e.task);
  }

  /** An insertion is determined by the list, the position and the task. */
  lemma InsertedSame(a: seq<Task>, b: seq<Task>, ts: seq<Task>, p: nat, t: Task)
    requires InsertedAt(a, ts, p, t) && InsertedAt(b, ts, p, t)
    ensures a == b
  {
    assert a == a[..p] + [a[p]] + a[p + 1..];
    assert b == b[..p] + [b[p]] + b[p + 1..];
  }

  // ---------------------------------------------------------------------
  // Removal followed by undo
  // ---------------------------------------------------------------------

  /**
   * Removing the head and undoing gives back the list and the counter, and
   * the stack too when it was not full. The head's id must not occur
   * further down, or the undo would ask for a new one.
   */
  lemma RemoveFromHeadRestore(s: Store)
    requires Valid(s) && s.tasks != [] && !HasId(s.tasks[1..], s.tasks[0].id)
    ensures
      var r := RestoreTask(RemoveFromHead(s), []);
      && r.tasks == s.tasks && r.counter == s.counter
      && (Size(s.undo) < Capacity ==> r.undo == s.undo)
      && Valid(r)
  {
    var m := RemoveFromHead(s);
    RestoredAt(m, 0);
    assert s.tasks == [s.tasks[0]] + s.tasks[1..];
    if Size(s.undo) < Capacity {
      PushPopRoundTrip(s.undo, s.tasks[0], Head, 0);
    }
  }

  /**
   * Removing the last task and undoing gives back the list and the counter
   * (and the stack when it was not full), for a lone task as well. The last
   * task's id must not occur earlier in the list.
   */
  lemma RemoveFromEndRestore(s: Store)
    requires Valid(s) && s.tasks != []
    requires !HasId(s.tasks[..|s.tasks| - 1], s.tasks[|s.tasks| - 1].id)
    ensures
      var r := RestoreTask(RemoveFromEnd(s), []);
      && r.tasks == s.tasks && r.counter == s.counter
      && (Size(s.undo) < Capacity ==> r.undo == s.undo)
      && Valid(r)
  {
    if |s.tasks| == 1 {
      RemoveLoneRestore(s);
    } else {
      RemoveLastRestore(s);
    }
  }

  lemma RemoveLoneRestore(s: Store)
    requires Valid(s) && |s.tasks| == 1
    ensures
      var r := RestoreTask(RemoveFromEnd(s), []);
      && r.tasks == s.tasks && r.counter == s.counter
      && (Size(s.undo) < Capacity ==> r.undo == s.undo)
  {
    var m := RemoveFromEnd(s);
    RestoredAt(m, 0);
    if Size(s.undo) < Capacity {
      PushPopRoundTrip(s.undo, s.tasks[0], Head, 0);
    }
  }

  lemma RemoveLastRestore(s: Store)
    requires Valid(s) && |s.tasks| >= 2
    requires !HasId(s.tasks[..|s.tasks| - 1], s.tasks[|s.tasks| - 1].id)
    ensures
      var r := RestoreTask(RemoveFromEnd(s), []);
      && r.tasks == s.tasks && r.counter == s.counter
      && (Size(s.undo) < Capacity ==> r.undo == s.undo)
  {
    var n := |s.tasks|;
    var m := RemoveFromEnd(s);
    var last := s.tasks[n - 1];
    assert m.tasks == s.tasks[..n - 1];
    RestoredAt(m, n - 1);
    assert s.tasks == s.tasks[..n - 1] + [last];
    if Size(s.undo) < Capacity {
      PushPopRoundTrip(s.undo, last, End, 0);
    }
  }

  /**
   * With unique ids, removing any task by id with the corrected anchor and
   * undoing gives back the list and the counter, and the stack when it was
   * not full.
   */
  lemma RemoveByIdCorrectedRestore(s: Store, target: int)
    requires Valid(s) && UniqueIds(s.tasks) && HasId(s.tasks, target)
    ensures
      var r := RestoreTask(RemoveByIdCorrected(s, target), []);
      && r.tasks == s.tasks && r.counter == s.counter
      && (Size(s.undo) < Capacity ==> r.undo == s.undo)
      && Valid(r)
  {
    var k := IndexOf(s.tasks, target).value;
    var m := RemoveByIdCorrected(s, target);
    RemovedIdGone(s.tasks, k);
    InsertAtRemoveAt(s.tasks, k);
    if k == 0 {
      RestoredAt(m, 0);
      if Size(s.undo) < Capacity {
        PushPopRoundTrip(s.undo, s.tasks[0], Head, 0);
      }
    } else {
      EarlierIdStays(s.tasks, k, k - 1);
      RestoredAt(m, k);
      if Size(s.undo) < Capacity {
        PushPopRoundTrip(s.undo, s.tasks[k], Middle, s.tasks[k - 1].id);
      }
    }
  }

  /**
   * The program's own removal by id round-trips for the first two
   * positions, where its trailing anchor is still the predecessor.
   */
  lemma RemoveByIdRestoreNearHead(s: Store, target: int)
    requires Valid(s) && UniqueIds(s.tasks) && HasId(s.tasks, target)
    requires IndexOf(s.tasks, target).value <= 1
    ensures RestoreTask(RemoveById(s, target), []).tasks == s.tasks
  {
    var k := IndexOf(s.tasks, target).value;
    var m := RemoveById(s, target);
    RemovedIdGone(s.tasks, k);
    InsertAtRemoveAt(s.tasks, k);
    if k == 0 {
      RestoredAt(m, 0);
    } else {
      EarlierIdStays(s.tasks, 1, 0);
      RestoredAt(m, 1);
    }
  }

  /**
   * Further along, the program's removal by id records the id two places
   * before the task, so the undo puts the task back one place too early:
   * it lands at position `k - 1`, in front of its old predecessor.
   */
  lemma RemoveByIdRestoreMisplaces(s: Store, target: int)
    requires UniqueIds(s.tasks) && HasId(s.tasks, target)
    requires IndexOf(s.tasks, target).value >= 2
    ensures !NeedsNewId(RemoveById(s, target))
    ensures
      var k := IndexOf(s.tasks, target).value;
      var r := RestoreTask(RemoveById(s, target), []);
      && r.tasks == InsertAt(RemoveAt(s.tasks, k), k - 1, s.tasks[k])
      && r.tasks[k - 1] == s.tasks[k] && r.tasks[k] == s.tasks[k - 1]
      && r.tasks != s.tasks
  {
    var k := IndexOf(s.tasks, target).value;
    RemoveByIdAnchor(s, target);
    UndoOnePlaceEarly(RemoveById(s, target), s.tasks, k);
  }

  /** Undoing an entry for `ts[k]` whose placement is `k - 1`, on the list without it, swaps it with its predecessor. */
  lemma UndoOnePlaceEarly(m: Store, ts: seq<Task>, k: nat)
    requires 1 <= k < |ts| && UniqueIds(ts)
    requires m.tasks == RemoveAt(ts, k) && !IsEmpty(m.undo)
    requires Pop(m.undo).0.value.task == ts[k] && !HasId(m.tasks, ts[k].id)
    requires Placement(m.tasks, Pop(m.undo).0.value) == k - 1
    ensures !NeedsNewId(m)
    ensures
      var r := RestoreTask(m, []);
      && r.tasks == InsertAt(RemoveAt(ts, k), k - 1, ts[k])
      && r.tasks[k - 1] == ts[k] && r.tasks[k] == ts[k - 1]
      && r.tasks != ts
  {
    RestoredAt(m, k - 1);
    SwappedNeighbours(ts, k);
  }

  /** After the program's removal by id of a task at position 2 or later, an undo reinserts it at position `k - 1`. */
  lemma RemoveByIdAnchor(s: Store, target: int)
    requires UniqueIds(s.tasks) && HasId(s.tasks, target)
    requires IndexOf(s.tasks, target).value >= 2
    ensures
      var k := IndexOf(s.tasks, target).value;
      var m := RemoveById(s, target);
      && m.tasks == RemoveAt(s.tasks, k)
      && !IsEmpty(m.undo)
      && !HasId(m.tasks, Pop(m.undo).0.value.task.id)
      && Pop(m.undo).0.value.task == s.tasks[k]
      && Placement(m.tasks, Pop(m.undo).0.value) == k - 1
  {
    var k := IndexOf(s.tasks, target).value;
    RemoveByIdRecords(s, target);
    RemovedIdGone(s.tasks, k);
    EarlierIdStays(s.tasks, k, k - 2);
    PlacementAfter(RemoveAt(s.tasks, k), Entry(s.tasks[k], Middle, s.tasks[k - 2].id), k - 2);
  }

  /** The list and the entry the program's removal by id leaves for a task at position 2 or later. */
  lemma RemoveByIdRecords(s: Store, target: int)
    requires HasId(s.tasks, target) && IndexOf(s.tasks, target).value >= 2
    ensures
      var k := IndexOf(s.tasks, target).value;
      var m := RemoveById(s, target);
      m.tasks == RemoveAt(s.tasks, k) && Pop(m.undo).0 == Some(Entry(s.tasks[k], Middle, s.tasks[k - 2].id))
  {
  }

  /** A middle entry whose anchor is found at `j` is placed right after it. */
  lemma PlacementAfter(ts: seq<Task>, e: Entry, j: nat)
    requires e.position == Middle && IndexOf(ts, e.targetId) == Some(j)
    ensures Placement(ts, e) == j + 1
  {
  }

  /** Reinserting the task at `k` one place early swaps it with its predecessor. */
  lemma SwappedNeighbours(ts: seq<Task>, k: nat)
    requires 1 <= k < |ts| && UniqueIds(ts)
    ensures
      var r := InsertAt(RemoveAt(ts, k), k - 1, ts[k]);
      r[k - 1] == ts[k] && r[k] == ts[k - 1] && r != ts
  {
    var r := InsertAt(RemoveAt(ts, k), k - 1, ts[k]);
    assert r[k] == RemoveAt(ts, k)[k - 1];
    assert ts[k - 1].id != ts[k].id;
  }

  /** A three-task list where removing the last task by id and undoing swaps the last two. */
  lemma RemoveByIdCounterexample(s: Store, a: Task, b: Task, c: Task)
    requires Valid(s) && s.tasks == [a, b, c]
    requires a.id == 1 && b.id == 2 && c.id == 3
    ensures RemoveById(s, 3).tasks == [a, b]
    ensures Pop(RemoveById(s, 3).undo).0 == Some(Entry(c, Middle, 1))
    ensures RestoreTask(RemoveById(s, 3), []).tasks == [a, c, b]
  {
    ThreeTasks(s, a, b, c);
    RemovedThird(s, 3);
    RemoveByIdRestoreMisplaces(s, 3);
    InsertBetween(a, b, c);
  }

  /** What the program's removal by id records for the task at position 2. */
  lemma RemovedThird(s: Store, target: int)
    requires IndexOf(s.tasks, target) == Some(2)
    ensures RemoveById(s, target).tasks == RemoveAt(s.tasks, 2)
    ensures Pop(RemoveById(s, target).undo).0 == Some(Entry(s.tasks[2], Middle, s.tasks[0].id))
  {
  }

  lemma ThreeTasks(s: Store, a: Task, b: Task, c: Task)
    requires s.tasks == [a, b, c] && a.id == 1 && b.id == 2 && c.id == 3
    ensures UniqueIds(s.tasks) && IndexOf(s.tasks, 3) == Some(2)
    ensures RemoveAt(s.tasks, 2) == [a, b]
  {
    IndexOfIs(s.tasks, 3, 2);
  }

  lemma InsertBetween(a: Task, b: Task, c: Task)
    ensures InsertAt([a, b], 1, c) == [a, c, b]
  {
    assert [a, b][..1] == [a];
    assert [a, b][1..] == [b];
  }

  // ---------------------------------------------------------------------
  // Clearing the list and undoing every removal
  // ---------------------------------------------------------------------

  /**
   * `n` successive undos, each with no id typed, stopping early at the first
   * one that would find its task's id taken (and so prompt for a new one).
   */
  function UndoTimes(s: Store, n: nat): (r: Store)
    ensures n == 0 ==> r == s
    decreases n
  {
    if n == 0 || NeedsNewId(s) then s else UndoTimes(RestoreTask(s, []), n - 1)
  }

  /** The top of `Stacked(p)` is `p`'s last task; below it come the entries of the rest of `p`. */
  lemma {:induction false} StackedTop(p: seq<Task>)
    requires p != []
    ensures Stacked(p) == [Entry(p[|p| - 1], Head, 0)] + Stacked(p[..|p| - 1])
    decreases |p|
  {
    var q := p[..|p| - 1];
    if |p| > 1 {
      StackedTop(p[1..]);
      assert p[1..][..|p| - 2] == q[1..];
      assert q[0] == p[0];
    }
  }

  /** The top `k` entries of `Stacked(ts)` are those of the last `k` tasks. */
  lemma {:induction false} StackedPrefix(ts: seq<Task>, k: nat)
    requires k <= |ts|
    ensures Stacked(ts)[..k] == Stacked(ts[|ts| - k..])
    decreases |ts|
  {
    if k == |ts| {
      assert ts[|ts| - k..] == ts;
    } else {
      var below := Stacked(ts[1..]);
      assert Stacked(ts) == below + [Entry(ts[0], Head, 0)];
      assert Stacked(ts)[..k] == below[..k];
      StackedPrefix(ts[1..], k);
      assert ts[1..][|ts| - 1 - k..] == ts[|ts| - k..];
    }
  }

  lemma UniqueIdsSuffix(ts: seq<Task>, k: nat)
    requires k <= |ts| && UniqueIds(ts)
    ensures UniqueIds(ts[|ts| - k..])
  {
  }

  lemma UniqueIdsLastApart(p: seq<Task>, ts: seq<Task>)
    requires p != [] && UniqueIds(p + ts)
    ensures !HasId(ts, p[|p| - 1].id)
  {
    forall i | 0 <= i < |ts|
      ensures ts[i].id != p[|p| - 1].id
    {
      assert (p + ts)[|p| - 1] == p[|p| - 1];
      assert (p + ts)[|p| + i] == ts[i];
    }
  }

  /**
   * Undoing head removals: with the tasks of `p` stacked as head removals
   * on top of `rest`, and no id repeated across `p` and the list, `|p|`
   * undos put `p` back in front of the list, in order, and leave `rest`.
   */
  lemma {:induction false} UndoHeads(s: Store, p: seq<Task>, rest: seq<Entry>)
    requires s.undo.entries == Stacked(p) + rest
    requires UniqueIds(p + s.tasks)
    ensures UndoTimes(s, |p|).tasks == p + s.tasks
    ensures UndoTimes(s, |p|).counter == s.counter + |p|
    ensures UndoTimes(s, |p|).undo.entries == rest
    decreases |p|
  {
    if p == [] {
      assert p + s.tasks == s.tasks;
    } else {
      var q := p[..|p| - 1];
      UniqueIdsLastApart(p, s.tasks);
      UndoHeadStep(s, p, rest);
      MoveLast(p, s.tasks);
      UndoHeads(RestoreTask(s, []), q, rest);
    }
  }

  /** One step of `UndoHeads`: the last task of `p` goes back in front of the list. */
  lemma UndoHeadStep(s: Store, p: seq<Task>, rest: seq<Entry>)
    requires p != []
    requires s.undo.entries == Stacked(p) + rest
    requires !HasId(s.tasks, p[|p| - 1].id)
    ensures !NeedsNewId(s)
    ensures
      var s1 := RestoreTask(s, []);
      && s1.tasks == [p[|p| - 1]] + s.tasks
      && s1.counter == s.counter + 1
      && s1.undo.entries == Stacked(p[..|p| - 1]) + rest
  {
    PopStacked(s.undo, p, rest);
    RestoreHead(s, p[|p| - 1]);
  }

  /** Undoing a head removal whose task id is free puts the task in front of the list. */
  lemma RestoreHead(s: Store, t: Task)
    requires Pop(s.undo).0 == Some(Entry(t, Head, 0))
    requires !HasId(s.tasks, t.id)
    ensures !NeedsNewId(s)
    ensures
      var r := RestoreTask(s, []);
      r.tasks == [t] + s.tasks && r.counter == s.counter + 1 && r.undo == Pop(s.undo).1
  {
    var r := RestoreTask(s, []);
    assert Restored(s, r, Entry(t, Head, 0), Pop(s.undo).1, t);
    InsertedFront(r.tasks, s.tasks, t);
  }

  /** Popping a stack of head removals returns the last task of `p` and leaves the others. */
  lemma PopStacked(st: Stack, p: seq<Task>, rest: seq<Entry>)
    requires p != [] && st.entries == Stacked(p) + rest
    ensures Pop(st).0 == Some(Entry(p[|p| - 1], Head, 0))
    ensures Pop(st).1.entries == Stacked(p[..|p| - 1]) + rest
  {
    var e := Entry(p[|p| - 1], Head, 0);
    var below := Stacked(p[..|p| - 1]);
    StackedTop(p);
    ConsAssoc(e, below, rest, st.entries);
  }

  /** Regrouping `([e] + a) + b` as `[e] + (a + b)`, seen from the front. */
  lemma ConsAssoc(e: Entry, a: seq<Entry>, b: seq<Entry>, w: seq<Entry>)
    requires w == ([e] + a) + b
    ensures w != [] && w[0] == e && w[1..] == a + b
  {
    assert w == [e] + (a + b);
  }

  /** Moving the last task of `p` to the front of `ts` keeps the concatenation. */
  lemma MoveLast(p: seq<Task>, ts: seq<Task>)
    requires p != []
    ensures p[..|p| - 1] + ([p[|p| - 1]] + ts) == p + ts
  {
    assert p == p[..|p| - 1] + [p[|p| - 1]];
  }

  /** Cutting a concatenation at `cut`, past the first `k` elements of its first part. */
  lemma SplitTop(x: seq<Entry>, e: seq<Entry>, k: nat, cut: nat)
    requires k <= |x| && k <= cut <= |x| + |e|
    ensures (x + e)[..cut] == x[..k] + (x + e)[k..cut]
  {
    assert (x + e)[..k] == x[..k];
  }

  /**
   * Clearing a list with unique ids and then undoing as many times as the
   * stack can hold gives back the list, or its last `Capacity` tasks when it
   * was longer (the earlier ones were evicted from the stack).
   */
  lemma FreeAllUndoAll(s: Store)
    requires Valid(s) && UniqueIds(s.tasks)
    ensures
      var n := |s.tasks|;
      var k := Min(n, Capacity);
      var r := UndoTimes(FreeAll(s), k);
      && r.tasks == s.tasks[n - k..]
      && r.counter == k
      && (n <= Capacity ==> r.tasks == s.tasks && r.counter == s.counter)
  {
    var n := |s.tasks|;
    var k := Min(n, Capacity);
    var rest := FreeAllStack(s);
    UniqueIdsSuffix(s.tasks, k);
    UndoIntoEmpty(FreeAll(s), s.tasks[n - k..], rest);
    assert n <= Capacity ==> s.tasks[n - k..] == s.tasks;
  }

  /** `UndoHeads` on an emptied list: the undos rebuild exactly `p`. */
  lemma UndoIntoEmpty(m: Store, p: seq<Task>, rest: seq<Entry>)
    requires m.tasks == [] && m.counter == 0
    requires m.undo.entries == Stacked(p) + rest
    requires UniqueIds(p)
    ensures UndoTimes(m, |p|).tasks == p && UndoTimes(m, |p|).counter == |p|
  {
    assert p + [] == p;
    UndoHeads(m, p, rest);
  }

  /** After clearing, the last `Min(|tasks|, Capacity)` tasks sit on top of the stack as head removals. */
  lemma FreeAllStack(s: Store) returns (rest: seq<Entry>)
    requires Valid(s)
    ensures
      var k := Min(|s.tasks|, Capacity);
      FreeAll(s).undo.entries == Stacked(s.tasks[|s.tasks| - k..]) + rest
  {
    var n := |s.tasks|;
    var k := Min(n, Capacity);
    var all := Stacked(s.tasks) + s.undo.entries;
    var cut := Min(n + Size(s.undo), Capacity);
    SplitTop(Stacked(s.tasks), s.undo.entries, k, cut);
    StackedPrefix(s.tasks, k);
    rest := all[k..cut];
  }

  // ---------------------------------------------------------------------
  // The lone-task end removal as written
  // ---------------------------------------------------------------------

  /**
   * As written, removing the end of a one-task list pushes the task and
   * counts it out but leaves it in the caller's list: the counter no longer
   * matches the list, and an undo then finds the task's own id taken.
   */
  lemma RemoveFromEndAsWrittenKeepsTask(s: Store)
    requires Valid(s) && |s.tasks| == 1
    ensures
      var r := RemoveFromEndAsWritten(s);
      && r.tasks == s.tasks
      && r.counter == 0
      && !Valid(r)
      && NeedsNewId(r)
  {
  }

  // ---------------------------------------------------------------------
  // The indexes after a removal
  // ---------------------------------------------------------------------

  /**
   * Removals never touch the indexes, so after removing the head of a store
   * whose indexes mirror the list they still hold the removed task; undoing
   * the removal inserts it a second time.
   */
  lemma RemovalLeavesIndexStale(s: Store)
    requires Mirrored(s) && s.tasks != [] && !HasId(s.tasks[1..], s.tasks[0].id)
    ensures !Mirrored(RemoveFromHead(s))
    ensures
      var r := RestoreTask(RemoveFromHead(s), []);
      && multiset(TaskTree.Inorder(r.idTree.root)) == multiset(s.tasks) + multiset{s.tasks[0]}
      && multiset(TaskTree.Inorder(r.priorityTree.root)) == multiset(s.tasks) + multiset{s.tasks[0]}
      && multiset(TaskTree.Inorder(r.statusTree.root)) == multiset(s.tasks) + multiset{s.tasks[0]}
  {
    var m := RemoveFromHead(s);
    assert s.tasks == [s.tasks[0]] + m.tasks;
    assert multiset(s.tasks)[s.tasks[0]] == multiset(m.tasks)[s.tasks[0]] + 1;
  }

  // ---------------------------------------------------------------------
  // Clearing the undo stack
  // ---------------------------------------------------------------------

  /** After the undo stack is cleared an undo finds nothing to restore, whatever ids the user would type. */
  lemma ClearUndoThenUndo(s: Store, answers: seq<int>)
    ensures RestoreTask(ClearUndo(s), answers) == ClearUndo(s)
    ensures ClearUndo(ClearUndo(s)) == ClearUndo(s)
  {
  }
}
