/**
 * The ordered index: an unbalanced binary search tree of tasks keyed by id,
 * priority or status. Insertion compares with the node's task by subtracting
 * key fields; a negative result goes left and everything else, ties
 * included, goes right. The in-order walk is therefore a stable sort of the
 * insertion sequence, which this module proves against an insertion-sort
 * reference (`SortStable`).
 */
module TaskTree {
  import opened Tasks

  datatype SortKey = ById | ByPriority | ByStatus

  datatype Node = Nil | Node(left: Node, task: Task, right: Node)

  datatype Tree = Tree(root: Node, key: SortKey)

  /** The integer the index compares on. */
  function KeyOf(t: Task, key: SortKey): int {
    match key
    case ById => t.id
    case ByPriority => PriorityValue(t.priority)
    case ByStatus => StatusValue(t.status)
  }

  /** The comparison of two tasks: the difference of the selected key field. */
  function Compare(a: Task, b: Task, key: SortKey): (r: int)
    ensures key == ById ==> (r < 0 <==> a.id < b.id) && (r == 0 <==> a.id == b.id)
    ensures key == ByPriority ==>
      (r < 0 <==> PriorityValue(a.priority) < PriorityValue(b.priority)) && (r == 0 <==> a.priority == b.priority)
    ensures key == ByStatus ==>
      (r < 0 <==> StatusValue(a.status) < StatusValue(b.status)) && (r == 0 <==> a.status == b.status)
  {
    KeyOf(a, key) - KeyOf(b, key)
  }

  // ---------------------------------------------------------------------
  // The comparison on 32-bit ids
  // ---------------------------------------------------------------------

  const IntMin: int := -0x8000_0000
  const IntMax: int := 0x7fff_ffff

  /** Fits in the program's `int`. */
  predicate IsInt32(x: int) {
    IntMin <= x <= IntMax
  }

  /** Two's-complement wrap-around of an integer into the `int` range. */
  function Wrap32(x: int): (r: int)
    ensures IsInt32(r)
    ensures IsInt32(x) ==> r == x
    ensures (r - x) % 0x1_0000_0000 == 0
  {
    (x - IntMin) % 0x1_0000_0000 + IntMin
  }

  /**
   * The comparison as the program computes it: the key difference in `int`
   * arithmetic, which wraps when two ids are more than `IntMax` apart.
   */
  function CompareAsWritten(a: Task, b: Task, key: SortKey): (r: int)
    requires IsInt32(a.id) && IsInt32(b.id)
    ensures IsInt32(r)
    ensures IsInt32(KeyOf(a, key) - KeyOf(b, key)) ==> r == Compare(a, b, key)
  {
    Wrap32(KeyOf(a, key) - KeyOf(b, key))
  }

  /** Priorities and statuses are 1 to 3 apart at most, so only the id comparison can wrap. */
  lemma CompareAsWrittenExactOffId(a: Task, b: Task, key: SortKey)
    requires IsInt32(a.id) && IsInt32(b.id) && key != ById
    ensures CompareAsWritten(a, b, key) == Compare(a, b, key)
  {
  }

  /**
   * Ids `IntMax` and `-1`: the difference wraps to `IntMin`, so the task with
   * the larger id compares below the other and goes into the left subtree.
   */
  lemma CompareAsWrittenMisorders(a: Task, b: Task)
    requires a.id == IntMax && b.id == -1
    ensures a.id > b.id && CompareAsWritten(a, b, ById) < 0
    ensures Compare(a, b, ById) > 0
  {
    assert KeyOf(a, ById) - KeyOf(b, ById) == 0x8000_0000;
  }

  function Create(key: SortKey): (t: Tree)
    ensures t.key == key && Inorder(t.root) == []
    ensures Ordered(t.root, t.key)
  {
    Tree(Nil, key)
  }

  /** Number of nodes in a subtree. */
  function Count(n: Node): nat {
    match n
    case Nil => 0
    case Node(l, _, r) => Count(l) + 1 + Count(r)
  }

  /** Whether some node of `n` holds `t`. */
  predicate Holds(n: Node, t: Task) {
    match n
    case Nil => false
    case Node(l, x, r) => x == t || Holds(l, t) || Holds(r, t)
  }

  /**
   * The tasks of a subtree in in-order (left, node, right): one entry per
   * node, and exactly the tasks the nodes hold.
   */
  function Inorder(n: Node): (ts: seq<Task>)
    ensures |ts| == Count(n)
    ensures forall t :: t in ts <==> Holds(n, t)
  {
    match n
    case Nil => []
    case Node(l, x, r) => Inorder(l) + [x] + Inorder(r)
  }

  /** Every task in `n` has key strictly below `b`. */
  predicate AllBelow(n: Node, key: SortKey, b: int) {
    match n
    case Nil => true
    case Node(l, x, r) => KeyOf(x, key) < b && AllBelow(l, key, b) && AllBelow(r, key, b)
  }

  /** Every task in `n` has key at least `b`. */
  predicate AllAtLeast(n: Node, key: SortKey, b: int) {
    match n
    case Nil => true
    case Node(l, x, r) => KeyOf(x, key) >= b && AllAtLeast(l, key, b) && AllAtLeast(r, key, b)
  }

  /** The search-tree invariant: left subtree < node <= right subtree, by key. */
  predicate Ordered(n: Node, key: SortKey) {
    match n
    case Nil => true
    case Node(l, x, r) =>
      && Ordered(l, key) && Ordered(r, key)
      && AllBelow(l, key, KeyOf(x, key))
      && AllAtLeast(r, key, KeyOf(x, key))
  }

  /** Non-decreasing by key. */
  predicate Sorted(s: seq<Task>, key: SortKey) {
    forall i, j :: 0 <= i < j < |s| ==> KeyOf(s[i], key) <= KeyOf(s[j], key)
  }

  /** Inserts a new leaf holding `t`: left when `t` compares below the node, right otherwise. */
  function InsertNode(n: Node, t: Task, key: SortKey): (r: Node)
    ensures multiset(Inorder(r)) == multiset(Inorder(n)) + multiset{t}
    ensures |Inorder(r)| == |Inorder(n)| + 1
  {
    match n
    case Nil => Node(Nil, t, Nil)
    case Node(l, x, rt) =>
      if Compare(t, x, key) < 0 then Node(InsertNode(l, t, key), x, rt)
      else Node(l, x, InsertNode(rt, t, key))
  }

  /**
   * Inserts a task into the tree. A null task changes nothing. Otherwise the
   * in-order contents grow by exactly that task, the search-tree invariant is
   * kept, and the task lands after every task whose key is not above its own.
   */
  function Insert(tree: Tree, t: Option<Task>): (r: Tree)
    ensures r.key == tree.key
    ensures t.None? ==> r == tree
    ensures t.Some? ==> multiset(Inorder(r.root)) == multiset(Inorder(tree.root)) + multiset{t.value}
    ensures Ordered(tree.root, tree.key) ==> Ordered(r.root, r.key)
    ensures t.Some? && Ordered(tree.root, tree.key) ==>
      Inorder(r.root) == InsertSorted(Inorder(tree.root), t.value, tree.key)
  {
    if t.None? then tree
    else
      InsertNodeKeepsOrder(tree.root, t.value, tree.key);
      InorderInsertNode(tree.root, t.value, tree.key);
      Tree(InsertNode(tree.root, t.value, tree.key), tree.key)
  }

  /** Inserts `ts` one by one, in sequence order. */
  function InsertAll(tree: Tree, ts: seq<Task>): (r: Tree)
    ensures r.key == tree.key
    ensures multiset(Inorder(r.root)) == multiset(Inorder(tree.root)) + multiset(ts)
    ensures Ordered(tree.root, tree.key) ==>
      Ordered(r.root, r.key) && Inorder(r.root) == SortInto(Inorder(tree.root), ts, tree.key)
    decreases |ts|
  {
    if ts == [] then tree
    else
      assert ts == [ts[0]] + ts[1..];
      InsertAll(Insert(tree, Some(ts[0])), ts[1..])
  }

  /** A fresh tree holding `ts`, inserted in sequence order. */
  function Build(ts: seq<Task>, key: SortKey): (r: Tree)
    ensures r.key == key && Ordered(r.root, key)
    ensures Inorder(r.root) == SortStable(ts, key)
  {
    InsertAll(Create(key), ts)
  }

  // ---------------------------------------------------------------------
  // Reference: stable insertion sort
  // ---------------------------------------------------------------------

  /** Places `t` just before the first task whose key is strictly above its own. */
  function InsertSorted(s: seq<Task>, t: Task, key: SortKey): (r: seq<Task>)
    ensures |r| == |s| + 1
  {
    if s == [] || KeyOf(t, key) < KeyOf(s[0], key) then [t] + s
    else [s[0]] + InsertSorted(s[1..], t, key)
  }

  /** `InsertSorted` adds exactly `t`. */
  lemma {:induction false} InsertSortedPermutes(s: seq<Task>, t: Task, key: SortKey)
    ensures multiset(InsertSorted(s, t, key)) == multiset(s) + multiset{t}
  {
    if s != [] && !(KeyOf(t, key) < KeyOf(s[0], key)) {
      InsertSortedPermutes(s[1..], t, key);
      assert s == [s[0]] + s[1..];
    }
  }

  /** Inserts `ts` into `s` one by one with `InsertSorted`. */
  function SortInto(s: seq<Task>, ts: seq<Task>, key: SortKey): seq<Task>
    decreases |ts|
  {
    if ts == [] then s else SortInto(InsertSorted(s, ts[0], key), ts[1..], key)
  }

  /** Stable insertion sort by key. */
  function SortStable(ts: seq<Task>, key: SortKey): seq<Task> {
    SortInto([], ts, key)
  }

  /** The subsequence of tasks whose key equals `v`, in order. */
  function WithKey(s: seq<Task>, key: SortKey, v: int): seq<Task> {
    if s == [] then []
    else if KeyOf(s[0], key) == v then [s[0]] + WithKey(s[1..], key, v)
    else WithKey(s[1..], key, v)
  }

  // ---------------------------------------------------------------------
  // Search-tree invariant
  // ---------------------------------------------------------------------

  lemma {:induction false} InsertNodeBelow(n: Node, t: Task, key: SortKey, b: int)
    requires AllBelow(n, key, b) && KeyOf(t, key) < b
    ensures AllBelow(InsertNode(n, t, key), key, b)
  {
    match n
    case Nil =>
    case Node(l, x, r) =>
      if Compare(t, x, key) < 0 {
        InsertNodeBelow(l, t, key, b);
      } else {
        InsertNodeBelow(r, t, key, b);
      }
  }

  lemma {:induction false} InsertNodeAtLeast(n: Node, t: Task, key: SortKey, b: int)
    requires AllAtLeast(n, key, b) && KeyOf(t, key) >= b
    ensures AllAtLeast(InsertNode(n, t, key), key, b)
  {
    match n
    case Nil =>
    case Node(l, x, r) =>
      if Compare(t, x, key) < 0 {
        InsertNodeAtLeast(l, t, key, b);
      } else {
        InsertNodeAtLeast(r, t, key, b);
      }
  }

  /** Insertion keeps the search-tree invariant. */
  lemma {:induction false} InsertNodeKeepsOrder(n: Node, t: Task, key: SortKey)
    ensures Ordered(n, key) ==> Ordered(InsertNode(n, t, key), key)
  {
    match n
    case Nil =>
    case Node(l, x, r) =>
      if Ordered(n, key) {
        if Compare(t, x, key) < 0 {
          InsertNodeKeepsOrder(l, t, key);
          InsertNodeBelow(l, t, key, KeyOf(x, key));
        } else {
          InsertNodeKeepsOrder(r, t, key);
          InsertNodeAtLeast(r, t, key, KeyOf(x, key));
        }
      }
  }

  lemma {:induction false} BelowInorder(n: Node, key: SortKey, b: int)
    requires AllBelow(n, key, b)
    ensures forall i :: 0 <= i < |Inorder(n)| ==> KeyOf(Inorder(n)[i], key) < b
  {
    match n
    case Nil =>
    case Node(l, x, r) =>
      BelowInorder(l, key, b);
      BelowInorder(r, key, b);
      var s := Inorder(n);
      forall i | 0 <= i < |s|
        ensures KeyOf(s[i], key) < b
      {
        if i < |Inorder(l)| {
          assert s[i] == Inorder(l)[i];
        } else if i > |Inorder(l)| {
          assert s[i] == Inorder(r)[i - |Inorder(l)| - 1];
        }
      }
  }

  lemma {:induction false} AtLeastInorder(n: Node, key: SortKey, b: int)
    requires AllAtLeast(n, key, b)
    ensures forall i :: 0 <= i < |Inorder(n)| ==> KeyOf(Inorder(n)[i], key) >= b
  {
    match n
    case Nil =>
    case Node(l, x, r) =>
      AtLeastInorder(l, key, b);
      AtLeastInorder(r, key, b);
      var s := Inorder(n);
      forall i | 0 <= i < |s|
        ensures KeyOf(s[i], key) >= b
      {
        if i < |Inorder(l)| {
          assert s[i] == Inorder(l)[i];
        } else if i > |Inorder(l)| {
          assert s[i] == Inorder(r)[i - |Inorder(l)| - 1];
        }
      }
  }

  /** The in-order walk of a search tree is non-decreasing by key. */
  lemma {:induction false} OrderedInorderSorted(n: Node, key: SortKey)
    requires Ordered(n, key)
    ensures Sorted(Inorder(n), key)
  {
    match n
    case Nil =>
    case Node(l, x, r) =>
      OrderedInorderSorted(l, key);
      OrderedInorderSorted(r, key);
      BelowInorder(l, key, KeyOf(x, key));
      AtLeastInorder(r, key, KeyOf(x, key));
      var a, b := Inorder(l), Inorder(r);
      var s := Inorder(n);
      assert s == a + [x] + b;
      forall i, j | 0 <= i < j < |s|
        ensures KeyOf(s[i], key) <= KeyOf(s[j], key)
      {
        if j < |a| {
          assert s[i] == a[i] && s[j] == a[j];
        } else if i > |a| {
          assert s[i] == b[i - |a| - 1] && s[j] == b[j - |a| - 1];
        } else {
          assert KeyOf(s[i], key) <= KeyOf(x, key) by {
            if i < |a| { assert s[i] == a[i]; }
          }
          assert KeyOf(x, key) <= KeyOf(s[j], key) by {
            if j > |a| { assert s[j] == b[j - |a| - 1]; }
          }
        }
      }
  }

  // ---------------------------------------------------------------------
  // In-order walk after an insertion
  // ---------------------------------------------------------------------

  /** Inserting into `a + b` when `t` sorts before the head of `b` only touches `a`. */
  lemma {:induction false} InsertSortedBefore(a: seq<Task>, b: seq<Task>, t: Task, key: SortKey)
    requires b != [] && KeyOf(t, key) < KeyOf(b[0], key)
    ensures InsertSorted(a + b, t, key) == InsertSorted(a, t, key) + b
  {
    if a == [] {
      assert a + b == b;
    } else {
      var x, a' := a[0], a[1..];
      assert a + b == [x] + (a' + b);
      assert a == [x] + a';
      InsertSortedCons(x, a' + b, t, key);
      InsertSortedCons(x, a', t, key);
      if KeyOf(t, key) < KeyOf(x, key) {
        assert InsertSorted(a + b, t, key) == [t] + (a + b);
        assert InsertSorted(a, t, key) == [t] + a;
      } else {
        InsertSortedBefore(a', b, t, key);
        assert InsertSorted(a + b, t, key) == [x] + (InsertSorted(a', t, key) + b);
        assert InsertSorted(a, t, key) == [x] + InsertSorted(a', t, key);
      }
    }
  }

  /** Inserting into `a + b` when no task of `a` has a key above `t`'s only touches `b`. */
  lemma {:induction false} InsertSortedAfter(a: seq<Task>, b: seq<Task>, t: Task, key: SortKey)
    requires forall i :: 0 <= i < |a| ==> KeyOf(a[i], key) <= KeyOf(t, key)
    ensures InsertSorted(a + b, t, key) == a + InsertSorted(b, t, key)
  {
    if a == [] {
      assert a + b == b;
    } else {
      var x, a' := a[0], a[1..];
      assert a + b == [x] + (a' + b);
      assert a == [x] + a';
      assert forall i :: 0 <= i < |a'| ==> a'[i] == a[i + 1];
      InsertSortedCons(x, a' + b, t, key);
      InsertSortedAfter(a', b, t, key);
    }
  }

  /** `InsertSorted` on a sequence with a known first task. */
  lemma InsertSortedCons(x: Task, s: seq<Task>, t: Task, key: SortKey)
    ensures KeyOf(t, key) < KeyOf(x, key) ==> InsertSorted([x] + s, t, key) == [t] + ([x] + s)
    ensures !(KeyOf(t, key) < KeyOf(x, key)) ==> InsertSorted([x] + s, t, key) == [x] + InsertSorted(s, t, key)
  {
    assert ([x] + s)[1..] == s;
  }

  /** Tree insertion, seen through the in-order walk, is `InsertSorted`: ties go after the equal keys. */
  lemma {:induction false} InorderInsertNode(n: Node, t: Task, key: SortKey)
    ensures Ordered(n, key) ==> Inorder(InsertNode(n, t, key)) == InsertSorted(Inorder(n), t, key)
  {
    match n
    case Nil =>
      assert Inorder(InsertNode(n, t, key)) == [t];
    case Node(l, x, r) =>
      if Ordered(n, key) {
        if Compare(t, x, key) < 0 {
          InorderInsertNode(l, t, key);
          InorderInsertLeft(l, x, r, t, key);
        } else {
          InorderInsertNode(r, t, key);
          InorderInsertRight(l, x, r, t, key);
        }
      }
  }

  /** The in-order walk of a node, split at the node's own task. */
  lemma InorderSplit(l: Node, x: Task, r: Node)
    ensures Inorder(Node(l, x, r)) == Inorder(l) + ([x] + Inorder(r))
    ensures Inorder(Node(l, x, r)) == (Inorder(l) + [x]) + Inorder(r)
  {
  }

  lemma InorderInsertLeft(l: Node, x: Task, r: Node, t: Task, key: SortKey)
    requires KeyOf(t, key) < KeyOf(x, key)
    requires Inorder(InsertNode(l, t, key)) == InsertSorted(Inorder(l), t, key)
    ensures Inorder(InsertNode(Node(l, x, r), t, key)) == InsertSorted(Inorder(Node(l, x, r)), t, key)
  {
    var l' := InsertNode(l, t, key);
    assert InsertNode(Node(l, x, r), t, key) == Node(l', x, r);
    InorderSplit(l, x, r);
    InorderSplit(l', x, r);
    InsertSortedBefore(Inorder(l), [x] + Inorder(r), t, key);
  }

  lemma InorderInsertRight(l: Node, x: Task, r: Node, t: Task, key: SortKey)
    requires KeyOf(t, key) >= KeyOf(x, key) && AllBelow(l, key, KeyOf(x, key))
    requires Inorder(InsertNode(r, t, key)) == InsertSorted(Inorder(r), t, key)
    ensures Inorder(InsertNode(Node(l, x, r), t, key)) == InsertSorted(Inorder(Node(l, x, r)), t, key)
  {
    var r' := InsertNode(r, t, key);
    assert InsertNode(Node(l, x, r), t, key) == Node(l, x, r');
    InorderSplit(l, x, r);
    InorderSplit(l, x, r');
    PrefixNotAbove(l, x, t, key);
    InsertSortedAfter(Inorder(l) + [x], Inorder(r), t, key);
  }

  /** Every task of a left subtree, and the node itself, has key not above a task routed right. */
  lemma PrefixNotAbove(l: Node, x: Task, t: Task, key: SortKey)
    requires KeyOf(t, key) >= KeyOf(x, key) && AllBelow(l, key, KeyOf(x, key))
    ensures forall i :: 0 <= i < |Inorder(l) + [x]| ==> KeyOf((Inorder(l) + [x])[i], key) <= KeyOf(t, key)
  {
    BelowInorder(l, key, KeyOf(x, key));
    var a := Inorder(l) + [x];
    forall i | 0 <= i < |a|
      ensures KeyOf(a[i], key) <= KeyOf(t, key)
    {
      if i < |Inorder(l)| { assert a[i] == Inorder(l)[i]; }
    }
  }

  // ---------------------------------------------------------------------
  // The reference sort is sorted, a permutation and stable
  // ---------------------------------------------------------------------

  lemma {:induction false} InsertSortedKeepsSorted(s: seq<Task>, t: Task, key: SortKey)
    requires Sorted(s, key)
    ensures Sorted(InsertSorted(s, t, key), key)
  {
    if s == [] || KeyOf(t, key) < KeyOf(s[0], key) {
      ConsSorted(t, s, key);
    } else {
      InsertSortedKeepsSorted(s[1..], t, key);
      InsertSortedAtLeast(s[1..], t, key, KeyOf(s[0], key));
      ConsSorted(s[0], InsertSorted(s[1..], t, key), key);
    }
  }

  /** A sorted sequence stays sorted with a task in front whose key is not above any of its keys. */
  lemma ConsSorted(x: Task, s: seq<Task>, key: SortKey)
    requires Sorted(s, key)
    requires forall i :: 0 <= i < |s| ==> KeyOf(x, key) <= KeyOf(s[i], key)
    ensures Sorted([x] + s, key)
  {
    var r := [x] + s;
    forall i, j | 0 <= i < j < |r|
      ensures KeyOf(r[i], key) <= KeyOf(r[j], key)
    {
      assert r[j] == s[j - 1];
      if i > 0 {
        assert r[i] == s[i - 1];
      }
    }
  }

  /** A lower bound on the keys of `s` and of `t` is one on the keys of `InsertSorted(s, t, key)`. */
  lemma {:induction false} InsertSortedAtLeast(s: seq<Task>, t: Task, key: SortKey, b: int)
    requires forall i :: 0 <= i < |s| ==> b <= KeyOf(s[i], key)
    requires b <= KeyOf(t, key)
    ensures forall i :: 0 <= i < |InsertSorted(s, t, key)| ==> b <= KeyOf(InsertSorted(s, t, key)[i], key)
  {
    var r := InsertSorted(s, t, key);
    if s == [] || KeyOf(t, key) < KeyOf(s[0], key) {
      assert r == [t] + s;
      forall i | 0 <= i < |r|
        ensures b <= KeyOf(r[i], key)
      {
        if i > 0 { assert r[i] == s[i - 1]; }
      }
    } else {
      var rest := InsertSorted(s[1..], t, key);
      InsertSortedAtLeast(s[1..], t, key, b);
      assert r == [s[0]] + rest;
      forall i | 0 <= i < |r|
        ensures b <= KeyOf(r[i], key)
      {
        if i > 0 { assert r[i] == rest[i - 1]; }
      }
    }
  }

  lemma {:induction false} SortIntoSorted(s: seq<Task>, ts: seq<Task>, key: SortKey)
    requires Sorted(s, key)
    ensures Sorted(SortInto(s, ts, key), key)
    ensures multiset(SortInto(s, ts, key)) == multiset(s) + multiset(ts)
    decreases |ts|
  {
    if ts != [] {
      InsertSortedKeepsSorted(s, ts[0], key);
      InsertSortedPermutes(s, ts[0], key);
      SortIntoSorted(InsertSorted(s, ts[0], key), ts[1..], key);
      assert ts == [ts[0]] + ts[1..];
    }
  }

  lemma {:induction false} WithKeyConcat(a: seq<Task>, b: seq<Task>, key: SortKey, v: int)
    ensures WithKey(a + b, key, v) == WithKey(a, key, v) + WithKey(b, key, v)
  {
    if a == [] {
      assert a + b == b;
    } else {
      assert (a + b)[0] == a[0];
      assert (a + b)[1..] == a[1..] + b;
      WithKeyConcat(a[1..], b, key, v);
    }
  }

  lemma {:induction false} WithKeyNone(s: seq<Task>, key: SortKey, v: int)
    requires forall i :: 0 <= i < |s| ==> KeyOf(s[i], key) != v
    ensures WithKey(s, key, v) == []
  {
    if s != [] {
      WithKeyNone(s[1..], key, v);
    }
  }

  /** `WithKey` of a sequence with a known first element. */
  lemma WithKeyCons(x: Task, s: seq<Task>, key: SortKey, v: int)
    ensures KeyOf(x, key) == v ==> WithKey([x] + s, key, v) == [x] + WithKey(s, key, v)
    ensures KeyOf(x, key) != v ==> WithKey([x] + s, key, v) == WithKey(s, key, v)
  {
    assert ([x] + s)[1..] == s;
  }

  /** In a sorted sequence, `InsertSorted` puts `t` after every task with the same key. */
  lemma {:induction false} InsertSortedWithKey(s: seq<Task>, t: Task, key: SortKey, v: int)
    requires Sorted(s, key)
    ensures WithKey(InsertSorted(s, t, key), key, v)
         == WithKey(s, key, v) + (if KeyOf(t, key) == v then [t] else [])
  {
    if s == [] {
      WithKeyCons(t, [], key, v);
    } else if KeyOf(t, key) < KeyOf(s[0], key) {
      InsertSortedWithKeyFront(s, t, key, v);
    } else {
      InsertSortedWithKey(s[1..], t, key, v);
      InsertSortedWithKeyStep(s, t, key, v);
    }
  }

  lemma InsertSortedWithKeyFront(s: seq<Task>, t: Task, key: SortKey, v: int)
    requires Sorted(s, key) && s != [] && KeyOf(t, key) < KeyOf(s[0], key)
    ensures WithKey(InsertSorted(s, t, key), key, v)
         == WithKey(s, key, v) + (if KeyOf(t, key) == v then [t] else [])
  {
    assert InsertSorted(s, t, key) == [t] + s;
    WithKeyCons(t, s, key, v);
    if KeyOf(t, key) == v {
      WithKeyNone(s, key, v);
    }
  }

  lemma InsertSortedWithKeyStep(s: seq<Task>, t: Task, key: SortKey, v: int)
    requires s != [] && !(KeyOf(t, key) < KeyOf(s[0], key))
    requires WithKey(InsertSorted(s[1..], t, key), key, v)
          == WithKey(s[1..], key, v) + (if KeyOf(t, key) == v then [t] else [])
    ensures WithKey(InsertSorted(s, t, key), key, v)
         == WithKey(s, key, v) + (if KeyOf(t, key) == v then [t] else [])
  {
    var rest := InsertSorted(s[1..], t, key);
    var tv: seq<Task> := if KeyOf(t, key) == v then [t] else [];
    var wr := WithKey(rest, key, v);
    var ws := WithKey(s[1..], key, v);
    assert InsertSorted(s, t, key) == [s[0]] + rest;
    WithKeyCons(s[0], rest, key, v);
    if KeyOf(s[0], key) == v {
      assert WithKey(s, key, v) == [s[0]] + ws;
      ConsRegroup(s[0], ws, tv, wr);
    }
  }

  /** Regrouping `[x] + w` as `([x] + a) + b` when `w == a + b`. */
  lemma ConsRegroup(x: Task, a: seq<Task>, b: seq<Task>, w: seq<Task>)
    requires w == a + b
    ensures [x] + w == ([x] + a) + b
  {
  }

  lemma {:induction false} SortIntoWithKey(s: seq<Task>, ts: seq<Task>, key: SortKey, v: int)
    requires Sorted(s, key)
    ensures WithKey(SortInto(s, ts, key), key, v) == WithKey(s, key, v) + WithKey(ts, key, v)
    decreases |ts|
  {
    if ts == [] {
      assert WithKey(ts, key, v) == [];
    } else {
      var s' := InsertSorted(s, ts[0], key);
      assert SortInto(s, ts, key) == SortInto(s', ts[1..], key);
      InsertSortedKeepsSorted(s, ts[0], key);
      InsertSortedWithKey(s, ts[0], key, v);
      SortIntoWithKey(s', ts[1..], key, v);
      if KeyOf(ts[0], key) == v {
        ConcatRegroup(WithKey(s, key, v), ts[0], WithKey(ts[1..], key, v), WithKey(ts, key, v));
      } else {
        assert WithKey(s', key, v) == WithKey(s, key, v);
      }
    }
  }

  /** Regrouping `(a + [x]) + b` as `a + w` when `w == [x] + b`. */
  lemma ConcatRegroup(a: seq<Task>, x: Task, b: seq<Task>, w: seq<Task>)
    requires w == [x] + b
    ensures (a + [x]) + b == a + w
  {
  }

  /**
   * Building an index from a sequence yields, in in-order, a sorted
   * permutation of the sequence in which tasks with equal keys keep their
   * insertion order.
   */
  lemma BuildIsStableSort(ts: seq<Task>, key: SortKey)
    ensures Inorder(Build(ts, key).root) == SortStable(ts, key)
    ensures Sorted(Inorder(Build(ts, key).root), key)
    ensures multiset(Inorder(Build(ts, key).root)) == multiset(ts)
    ensures forall v :: WithKey(Inorder(Build(ts, key).root), key, v) == WithKey(ts, key, v)
  {
    SortIntoSorted([], ts, key);
    forall v
      ensures WithKey(SortStable(ts, key), key, v) == WithKey(ts, key, v)
    {
      SortIntoWithKey([], ts, key, v);
    }
  }

  /** After any insertions into a search tree, the in-order walk is non-decreasing by key. */
  lemma InsertKeepsInorderSorted(tree: Tree, t: Option<Task>)
    requires Ordered(tree.root, tree.key)
    ensures Sorted(Inorder(Insert(tree, t).root), tree.key)
  {
    OrderedInorderSorted(Insert(tree, t).root, tree.key);
  }
}
