# Task manager core, modelled in Dafny

This project models the core of a terminal task manager written in C:

- the primary task list, a singly linked list of tasks with a task counter;
- the bounded undo stack of removed tasks, where each entry records where its task was (head, middle or end) and, for a middle removal, the id of the task to reinsert it after;
- three binary search trees that index the same tasks by id, by priority and by status.

Every command the menu can issue against these structures, except loading from file, is a pure function from one `TaskList.Store` to the next:

- add at the head, at the end, or after a given id;
- remove the head, the end, or a given id;
- clear the list;
- undo the last removal;
- clear the undo stack;
- update a task's priority and status.

The modules follow the source files:

| module | models |
|---|---|
| `Tasks` (tasks.dfy) | the task record and its two enumerations (`Headers/task.h`) |
| `UndoStack` (stack.dfy) | the undo stack (`Sources/stack.c`); `Size` is `stack_getSize` |
| `TaskTree` (tree.dfy) | the search trees (`Sources/tree.c`) and a reference stable insertion sort that states what their in-order walk is |
| `TaskList` (list.dfy) | the list commands and the counter (`Sources/list.c`) |
| `TaskListProofs` (list_proofs.dfy) | properties that relate several commands: undo round trips, clear-then-undo-all, and the two places where the program does not give the list back |

Values replace pointers:

- The list is a `seq<Task>`.
- The stack is a `seq<Entry>` whose first element is the top. Its size is the length of that sequence; the program keeps a separate count that always equals it.
- A tree is an inductive `Node`.

The task counter is the store's `counter` field:

- `listCounter_increment` is the `+ 1` in `TaskList.Admit`.
- `listCounter_decrement` is `TaskList.Decrement`.
- `listCounter_reset` is the `0` in `TaskList.FreeAll`.
- `listCounter_get` reads the field.

What the user types is passed in as parameters: the new task, the anchor id, the id to remove, the new priority and status, and the ids typed when an undo finds its task's id taken.

Removals never touch the three trees. `TaskListProofs.RemovalLeavesIndexStale` states the consequence. For the one-task end removal and for the anchor that removal by id records, see Findings.

## Model

| member | source | states |
|---|---|---|
| `Tasks.PriorityValue` | Headers/task.h:7-11 | priorities are stored as 1 (High) to 3 (Low), High exactly at 1 and Low exactly at 3 |
| `Tasks.PriorityOf` | Sources/list.c:529 | the cast of a value read between 1 and 3 is the priority stored as that value |
| `Tasks.StatusValue` | Headers/task.h:16-20 | statuses are stored as 1 (NotStarted) to 3 (Finished), NotStarted exactly at 1 and Finished exactly at 3 |
| `Tasks.StatusOf` | Sources/list.c:530 | the cast of a value read between 1 and 3 is the status stored as that value |
| `UndoStack.Create` | Sources/stack.c:14-20 | a new stack is empty and within capacity |
| `UndoStack.IsEmpty` | Sources/stack.c:101-103 | empty exactly when the size is zero |
| `UndoStack.Push` | Sources/stack.c:33-60 | a null task changes nothing; otherwise the new entry is on top of the old entries, of which at most 9 are kept on a full stack (the bottom one is dropped); capacity 10 is kept |
| `UndoStack.Pop` | Sources/stack.c:72-82 | an empty stack yields nothing and is unchanged; otherwise the top entry is returned and the rest is the old stack below it |
| `UndoStack.Peek` | Sources/stack.c:90-93 | the task `Pop` would return, without removing it |
| `UndoStack.Size` | Sources/stack.c:111-113 | the size is zero exactly when the stack has no entries, and never above capacity 10 |
| `UndoStack.SizeCounts` | Sources/stack.c:47-80 | a push adds one to the size unless the stack is full (the eviction and the push cancel out), and a pop takes one off |
| `UndoStack.Clear` | Sources/stack.c:122-129 | popping until empty leaves an empty stack |
| `UndoStack.PushPopRoundTrip` | Sources/stack.c:52-82 | on a stack that is not full, popping right after a push gives back the pushed entry and the old stack |
| `UndoStack.PushFullEvictsBottom` | Sources/stack.c:37-59 | pushing onto a full stack loses exactly the old bottom entry |
| `TaskTree.Compare` | Sources/tree.c:27-34 | the comparison is negative, zero or positive exactly as the selected key of the first task is below, equal to or above that of the second |
| `TaskTree.CompareAsWritten` | Sources/tree.c:29 | the comparison in 32-bit `int` arithmetic; it agrees with `Compare` whenever the key difference fits in an `int` |
| `TaskTree.CompareAsWrittenExactOffId` | Sources/tree.c:30-31 | the priority and status comparisons never wrap |
| `TaskTree.CompareAsWrittenMisorders` | Sources/tree.c:29 | ids 2147483647 and -1: the wrapped difference is negative although the first id is larger |
| `TaskTree.Inorder` | Sources/tree.c:77-82 | the in-order walk lists one task per node, and exactly the tasks the nodes hold |
| `TaskTree.Create` | Sources/tree.c:11-17 | a new tree has the given key, no tasks, and is a search tree |
| `TaskTree.InsertNode` | Sources/tree.c:43-57 | inserting into a subtree adds exactly the new task and one node |
| `TaskTree.InsertNodeKeepsOrder` | Sources/tree.c:52-56 | routing below-key tasks left and the rest right keeps the search-tree invariant |
| `TaskTree.Insert` | Sources/tree.c:67-70 | a null task changes nothing; otherwise the tree keeps its key and invariant and gains exactly the task, and its in-order walk is the old walk with the task inserted after every task of equal or lower key |
| `TaskTree.InorderInsertNode` | Sources/tree.c:43-57 | seen through the in-order walk, tree insertion is sorted insertion that puts ties after the equal keys |
| `TaskTree.OrderedInorderSorted` | Sources/tree.c:77-82 | the in-order walk of a search tree is non-decreasing in its key |
| `TaskTree.InsertKeepsInorderSorted` | Sources/tree.c:67-82 | after any insertion the in-order walk is still sorted |
| `TaskTree.InsertAll` | Sources/list.c:537-542 | inserting tasks one by one adds exactly those tasks and yields the reference sort of them into the old walk |
| `TaskTree.Build` | Sources/list.c:535-542 | a tree rebuilt from a list is a search tree with the given key whose walk is the stable sort of the list |
| `TaskTree.BuildIsStableSort` | Sources/list.c:535-542 | the rebuilt tree's walk is sorted, a permutation of the list, and keeps list order among tasks with equal keys |
| `TaskTree.InsertSortedKeepsSorted` | Sources/tree.c:52-56 | sorted insertion keeps a sorted sequence sorted |
| `TaskTree.InsertSortedPermutes` | Sources/tree.c:43-49 | sorted insertion adds exactly the new task |
| `TaskTree.InsertSortedWithKey` | Sources/tree.c:53-56 | among tasks with a given key, the inserted one goes last |
| `TaskTree.SortIntoWithKey` | Sources/tree.c:53-56 | inserting a sequence one by one keeps, per key, the existing tasks first and then the new ones in sequence order |
| `TaskList.Init` | Sources/main.c:35-39 | the state before the startup load: an empty list, a counter that matches it, an empty stack and three empty, well-formed indexes |
| `TaskList.Decrement` | Sources/list.c:44-47 | the counter goes down by one when positive and never below zero |
| `TaskList.HasId` | Sources/list.c:395-402 | true exactly when some task in the list has the id |
| `TaskList.IndexOf` | Sources/list.c:173-176 | the scan stops at the first task with the id, and finds nothing exactly when no task has it |
| `TaskList.Admit` | Sources/list.c:95-98 | an insertion bumps the counter and adds the task to all three indexes (in each well-formed index's walk, after every task whose key is not above its own), keeping them well formed and in step with the list |
| `TaskList.Detach` | Sources/list.c:256-259 | a removal decrements the counter, pushes the task with its position and anchor, and leaves the indexes alone |
| `TaskList.AddToHead` | Sources/list.c:78-103 | the task goes in front; the counter and all three indexes gain it (in each well-formed index's walk, after every task whose key is not above its own) |
| `TaskList.AddToEnd` | Sources/list.c:117-152 | an empty list is left alone; otherwise the task is appended and the counter and indexes gain it (in each well-formed index's walk, after every task whose key is not above its own) |
| `TaskList.AddToMiddle` | Sources/list.c:166-207 | the task goes right after the first task with the anchor id, and the counter and indexes gain it (in each well-formed index's walk, after every task whose key is not above its own); an empty list or a missing anchor changes nothing |
| `TaskList.RemoveFromHead` | Sources/list.c:249-264 | an empty list is unchanged; otherwise the first task is removed and pushed as a head removal, the counter drops and the indexes stay as they were |
| `TaskList.RemoveFromEnd` | Sources/list.c:277-305 | the last task is removed and pushed on top of the old stack (as an end removal, or as a head removal when it was the only task), and the list is one shorter |
| `TaskList.RemoveFromEndAsWritten` | Sources/list.c:283-291 | on a one-task list the task is pushed and counted out but stays in the caller's list |
| `TaskList.RemovalScan` | Sources/list.c:338-343 | the removal scan stops just before the first later task with the target id, and its trailing id is that of the node before the stopping node (or the head's when it stops at the head) |
| `TaskList.RemoveById` | Sources/list.c:320-360 | the first task with the id is removed and pushed on top of the old stack: at the head as a head removal, second in the list with its predecessor's id as anchor, further along with the id two places before it; an unknown id changes nothing |
| `TaskList.RemoveByIdCorrected` | Sources/list.c:338-351 | as `RemoveById`, but a middle removal records the predecessor's id as the anchor |
| `TaskList.StackedReversesList` | Sources/list.c:375-380 | pushing a list front to back stacks its tasks last first, each as a head removal |
| `TaskList.PushEach` | Sources/list.c:375-380 | pushing the whole list keeps capacity, puts the last task on top, and keeps the newest 10 entries of the tasks (last first) over the old stack |
| `TaskList.FreeAll` | Sources/list.c:373-386 | clearing empties the list, resets the counter, pushes every task as a head removal and leaves the indexes alone |
| `TaskList.ClearUndo` | Sources/main.c:156-164 | clearing the undo stack leaves it empty and keeps the list, the counter and the indexes |
| `TaskList.FirstFresh` | Sources/list.c:427-434 | the id used is the first typed id that no task has |
| `TaskList.Resolve` | Sources/list.c:427-434 | the restored task keeps its id when free and otherwise gets a free one; nothing else changes |
| `TaskList.RestoreTask` | Sources/list.c:417-497 | an empty stack changes nothing; otherwise the top task is reinserted with a free id, the counter and indexes gain it (in each well-formed index's walk, after every task whose key is not above its own), and unique ids, the store invariant and the index mirror are kept (with trees of copies; see Left out) |
| `TaskList.RestorePlacement` | Sources/list.c:445-496 | the task goes in front for a head removal or an empty list, at the back for an end removal, after the first anchor match for a middle removal, and in front when the anchor is gone; it is the only task with its id |
| `TaskList.InsertFresh` | Sources/list.c:427-443 | reinserting a task whose id is free keeps ids unique |
| `TaskList.UpdateTask` | Sources/list.c:511-547 | an unknown id changes nothing; otherwise only the first matching task gets the new priority and status, and no id changes |
| `TaskList.UpdateAt` | Sources/list.c:529-542 | the priority and status indexes are rebuilt from the updated list, in list order; the id index, counter and stack are untouched |
| `TaskListProofs.RemoveFromHeadRestore` | Sources/list.c:445-454 | removing the head and undoing gives back the list and counter, and the stack when it was not full |
| `TaskListProofs.RemoveFromEndRestore` | Sources/list.c:455-469 | removing the end (corrected) and undoing gives back the list and counter, and the stack when it was not full |
| `TaskListProofs.RemoveByIdCorrectedRestore` | Sources/list.c:470-496 | with unique ids and the predecessor as anchor, removing any task and undoing gives back the list and counter |
| `TaskListProofs.RemoveByIdRestoreNearHead` | Sources/list.c:338-343 | the program's removal by id does round-trip for the first two positions |
| `TaskListProofs.RemoveByIdRestoreMisplaces` | Sources/list.c:338-343 | from position 2 on, undoing the program's removal by id puts the task one place early, swapped with its old predecessor |
| `TaskListProofs.RemoveByIdCounterexample` | Sources/list.c:338-351 | with ids 1, 2, 3, removing 3 records anchor 1 and undoing yields the order 1, 3, 2 |
| `TaskListProofs.UndoHeads` | Sources/list.c:445-454 | undoing a run of head removals puts those tasks back in front of the list in their original order |
| `TaskListProofs.FreeAllUndoAll` | Sources/list.c:373-386 | clearing a list with unique ids and undoing as often as the stack holds gives back its last 10 tasks, so the whole list when it has at most 10 |
| `TaskListProofs.RemoveFromEndAsWrittenKeepsTask` | Sources/list.c:283-291 | as written, a one-task end removal leaves a counter of 0 beside a one-task list, and the next undo finds its own id taken |
| `TaskListProofs.ClearUndoThenUndo` | Sources/main.c:156-164 | after the undo stack is cleared, an undo changes nothing, and clearing again changes nothing |
| `TaskListProofs.RemovalLeavesIndexStale` | Sources/list.c:249-264 | after a head removal the indexes no longer mirror the list, and undoing it adds the task to all three indexes a second time |

## Left out

- The menu, prompts, screen clearing, the loading bar and all printing (`Sources/main.c`, `list_printAll`, `tree_printInorder`, `printTask`, `loadingBar`). The order a tree prints in is `TaskTree.Inorder`.
- Input reading (`readInt`, `readIntInRange`, `readString`, `fillTask`). Their results are parameters. `readIntInRange` only returns values from 1 to 3, which is the precondition of `Tasks.PriorityOf` and `Tasks.StatusOf`.
- The id prompt loop of the undo. The ids the user types are a finite sequence. `TaskList.RestoreTask` requires one of them to be free when the popped id is taken, because otherwise the program keeps asking forever.
- Persistence (`Sources/file.c`), because it is file I/O. Three facts about it are not modelled. Loading prepends each record, so the list comes back in reverse order. It first clears the list through `list_freeAll`, so every old task lands on the undo stack. It never clears or rebuilds the three trees.
- Memory management: `free`, `stack_free`, `tree_free`, and the allocation-failure branches. These include the undo re-push when a node cannot be allocated, and null stacks or trees. The model has values, not pointers.
- `TaskList.UpdateAt` replaces the priority and status trees with rebuilt ones. The program frees each tree object and then writes the new one through the freed pointer; the model does what that write evidently intends.
- Pointer sharing between the list and the trees. The trees hold pointers to the list's tasks, so an in-place update, or an id changed during an undo, is seen through the trees in the program. The model's trees hold copies of tasks.
- `TaskList.RestoreTask`: the model keeps the id index a search tree, but the program need not. When an undo gives the popped task a new id, the program writes that id into the task object the id tree still points to. It then inserts the same object again. For example: add ids 10 and 5; remove from the end (5 stays in the tree); add another 5 at the end; undo and type 20. The id tree's walk is then 20, 5, 10, 20, which is not sorted. The model's trees hold copies, so the old node keeps id 5.
- Freed tasks: the stack frees a task it evicts, and the trees may still point to it.
- The length bounds on titles and descriptions (49 and 199 characters), because they only matter to input reading.
- `TaskList.RemoveFromEndAsWritten`: a lone-task end removal frees the node that the caller's head still points to. The model treats the caller's list as still holding the task.

## Findings

| source | as written | input that shows it | evidently intended | confidence | as-written member | corrected member |
|---|---|---|---|---|---|---|
| Sources/list.c:338-351 | `prev_id` is updated before `current` advances, so it trails one node behind; a middle removal records the id two places before the removed task | ids 1, 2, 3; remove id 3; the entry's anchor is 1, and undo gives 1, 3, 2 | the anchor is the removed task's predecessor, so undo restores the original order | not executed | `TaskListProofs.RemoveByIdCounterexample` | `TaskListProofs.RemoveByIdCorrectedRestore` |
| Sources/list.c:283-291 | on a one-task list only the function's local copy of the head pointer is cleared, and the caller does not take a new head | a list holding one task; remove from end; the caller's head still points to the freed node while the counter is 0 (the model assumes the freed node still reads as the task, so the list shows it and undo finds the id taken) | the list becomes empty | not executed | `TaskListProofs.RemoveFromEndAsWrittenKeepsTask` | `TaskListProofs.RemoveFromEndRestore` |
| Sources/tree.c:29 | the id comparison subtracts two `int` ids, which overflows when they are more than 2147483647 apart | ids 2147483647 and -1; the difference wraps to -2147483648, so the larger id is routed left | the sign of the comparison follows the order of the ids | not executed | `TaskTree.CompareAsWrittenMisorders` | `TaskTree.Compare` |

The store model keeps the program's removal by id (`TaskList.RemoveById`), because that is what users see; `TaskList.RemoveByIdCorrected` is the corrected anchor. For the end removal, the store uses the corrected `TaskList.RemoveFromEnd`; `TaskList.RemoveFromEndAsWritten` is kept beside it. The trees use the exact `TaskTree.Compare`. Signed overflow is undefined in C; the as-written member assumes the usual two's-complement wrap-around.
