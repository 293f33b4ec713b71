/** What task.c's list operations do to the links, as functions on a snapshot.
  *
  * Tasks are the addresses of their structures. Removing a task mends its
  * predecessor's next but not its successor's prev, so a prev may go on naming
  * memory that has been freed, and that may have become another task since.
  */
module TaskLinks {
  const NULL: nat := 0

  /** The tasks in the order they were created, with the link fields of each. */
  datatype LinkView = LinkView(
    tasks: seq<nat>, next: seq<nat>, prev: seq<nat>,
    head: nat, tail: nat, current: nat)

  function At(tasks: seq<nat>, k: int): nat {
    if 0 <= k < |tasks| then tasks[k] else NULL
  }

  function Without<T>(xs: seq<T>, k: nat): (ys: seq<T>)
    requires k < |xs|
    ensures |ys| == |xs| - 1
  {
    xs[..k] + xs[k + 1..]
  }

  lemma WithoutAt<T>(xs: seq<T>, k: nat, i: nat)
    requires k < |xs| && i < |xs| - 1
    ensures Without(xs, k)[i] == xs[if i < k then i else i + 1]
  {
  }

  ghost predicate Sized(v: LinkView) {
    |v.next| == |v.prev| == |v.tasks|
  }

  ghost predicate Apart(tasks: seq<nat>) {
    && (forall i, j :: 0 <= i < j < |tasks| ==> tasks[i] != tasks[j])
    && (forall i :: 0 <= i < |tasks| ==> tasks[i] != NULL)
  }

  ghost predicate NextInOrder(v: LinkView) {
    Sized(v) && forall k :: 0 <= k < |v.tasks| ==> v.next[k] == At(v.tasks, k + 1)
  }

  /** From head to tail, next goes through the tasks in order; current is one of them. */
  ghost predicate Linked(v: LinkView) {
    && NextInOrder(v) && Apart(v.tasks)
    && v.head == At(v.tasks, 0)
    && (v.tasks != [] ==> v.tail == v.tasks[|v.tasks| - 1])
    && (v.current != NULL ==> v.current in v.tasks)
  }

  ghost predicate PrevAt(v: LinkView, k: nat)
    requires Sized(v) && k < |v.tasks|
  {
    v.prev[k] == At(v.tasks, k - 1)
  }

  /** From the second task on, prev is the exact reverse of next. */
  ghost predicate Reversed(v: LinkView) {
    Sized(v) && forall k :: 1 <= k < |v.tasks| ==> PrevAt(v, k)
  }

  ghost predicate Exact(v: LinkView) {
    Reversed(v) && (v.tasks != [] ==> v.prev[0] == NULL)
  }

  // ----- the two operations -----

  /** The next fields after p->next = value, if there is a p. */
  function Rewritten(tasks: seq<nat>, next: seq<nat>, p: nat, value: nat): (r: seq<nat>)
    ensures |r| == |next|
  {
    seq(|next|, i requires 0 <= i < |next| => if p != NULL && At(tasks, i) == p then value else next[i])
  }

  /** task_new's linking of a cleared task t. */
  function Added(v: LinkView, t: nat): LinkView {
    if v.head == NULL
    then LinkView(v.tasks + [t], v.next + [NULL], v.prev + [NULL], t, t, v.current)
    else LinkView(v.tasks + [t], Rewritten(v.tasks, v.next, v.tail, t) + [NULL], v.prev + [v.tail],
              v.head, t, v.current)
  }

  /** task_list_remove of the k-th task. */
  function Removed(v: LinkView, k: nat): LinkView
    requires |v.next| == |v.prev| == |v.tasks| && k < |v.tasks|
  {
    var task, p := v.tasks[k], v.prev[k];
    var next := Rewritten(v.tasks, v.next, p, v.next[k]);
    var head := if task == v.head then next[k] else v.head;
    LinkView(
      Without(v.tasks, k), Without(next, k), Without(v.prev, k),
      head,
      if task == v.tail then p else v.tail,
      if task != v.current then v.current else if next[k] == NULL then head else next[k])
  }

  /** The removed task's own next once its predecessor's has been written. */
  function NextAfter(v: LinkView, k: nat): nat
    requires |v.next| == |v.prev| == |v.tasks| && k < |v.tasks|
  {
    Rewritten(v.tasks, v.next, v.prev[k], v.next[k])[k]
  }

  lemma RemovedVariables(v: LinkView, k: nat, task: nat, next: nat)
    requires Sized(v) && k < |v.tasks| && task == v.tasks[k] && next == NextAfter(v, k)
    ensures Removed(v, k).head == if task == v.head then next else v.head
    ensures Removed(v, k).tail == if task == v.tail then v.prev[k] else v.tail
    ensures Removed(v, k).current
            == if task != v.current then v.current else if next == NULL then Removed(v, k).head else next
  {
  }

  // ----- creating -----

  /** Any address that is not on the list will do for a new task, also one that some
    * prev still names. */
  lemma AddedLinked(v: LinkView, t: nat)
    requires Linked(v) && t != NULL && t !in v.tasks
    ensures Linked(Added(v, t)) && PrevAt(Added(v, t), |v.tasks|)
    ensures Reversed(v) ==> Reversed(Added(v, t))
    ensures Exact(v) ==> Exact(Added(v, t))
  {
    var w := Added(v, t);
    forall k | 0 <= k < |w.tasks|
      ensures w.next[k] == At(w.tasks, k + 1)
      ensures k == |v.tasks| || PrevAt(v, k) ==> PrevAt(w, k)
    {
    }
  }

  // ----- removing -----

  /** What the guard of a removal would have to be: the first task may not have a prev
    * that names another task on the list, any other task must have the right one. */
  predicate Mends(v: LinkView, k: nat)
    requires |v.prev| == |v.tasks| && k < |v.tasks|
  {
    if k == 0 then v.prev[0] !in v.tasks[1..] else v.prev[k] == v.tasks[k - 1]
  }

  lemma RemovedAt(v: LinkView, k: nat, i: nat)
    requires Sized(v) && k < |v.tasks| && i < |v.tasks| - 1
    ensures var w := Removed(v, k); var o := if i < k then i else i + 1;
            && Sized(w)
            && w.tasks[i] == v.tasks[o] && w.prev[i] == v.prev[o]
            && w.next[i] == if v.prev[k] != NULL && v.tasks[o] == v.prev[k] then v.next[k] else v.next[o]
  {
    WithoutAt(v.tasks, k, i);
    WithoutAt(v.prev, k, i);
    WithoutAt(Rewritten(v.tasks, v.next, v.prev[k], v.next[k]), k, i);
  }

  lemma RemovedApart(v: LinkView, k: nat)
    requires Linked(v) && k < |v.tasks|
    ensures Apart(Removed(v, k).tasks)
    ensures v.tasks[k] !in Removed(v, k).tasks
    ensures forall t :: t in v.tasks <==> t == v.tasks[k] || t in Removed(v, k).tasks
  {
    var w := Removed(v, k);
    forall i | 0 <= i < |w.tasks|
      ensures w.tasks[i] == v.tasks[if i < k then i else i + 1]
    {
      WithoutAt(v.tasks, k, i);
    }
    forall t | t in v.tasks
      ensures t == v.tasks[k] || t in w.tasks
    {
      var i :| 0 <= i < |v.tasks| && v.tasks[i] == t;
      assert i < k ==> w.tasks[i] == t;
      assert i > k ==> w.tasks[i - 1] == t;
    }
  }

  /** The next field of the i-th task left, if the removal mends the list. */
  lemma MendedNext(v: LinkView, k: nat, i: nat)
    requires Linked(v) && k < |v.tasks| && Mends(v, k) && i < |v.tasks| - 1
    ensures Sized(Removed(v, k)) && Removed(v, k).next[i] == At(Removed(v, k).tasks, i + 1)
  {
    RemovedAt(v, k, i);
    if i + 1 < |v.tasks| - 1 {
      RemovedAt(v, k, i + 1);
    }
    if k == 0 {
      assert v.tasks[i + 1] == v.tasks[1..][i];
    }
  }

  /** Where t is among the tasks behind the first. */
  ghost function FirstIndex(tasks: seq<nat>, t: nat): (j: nat)
    requires tasks != [] && t in tasks[1..]
    ensures 1 <= j < |tasks| && tasks[j] == t
  {
    var i :| 0 <= i < |tasks[1..]| && tasks[1..][i] == t;
    i + 1
  }

  /** And if it does not, where the order is lost: at the task that prev names, or at the
    * predecessor that was left out. */
  lemma UnmendedNext(v: LinkView, k: nat)
    requires Linked(v) && k < |v.tasks| && !Mends(v, k)
    ensures !NextInOrder(Removed(v, k))
  {
    var j := if k > 0 then k else FirstIndex(v.tasks, v.prev[0]);
    RemovedAt(v, k, j - 1);
    if j < |v.tasks| - 1 {
      RemovedAt(v, k, j);
    }
    assert Removed(v, k).next[j - 1] != At(Removed(v, k).tasks, j);
  }

  lemma MendedEnds(v: LinkView, k: nat)
    requires Linked(v) && k < |v.tasks| && Mends(v, k)
    ensures var w := Removed(v, k);
            && w.head == At(w.tasks, 0)
            && (w.tasks != [] ==> w.tail == w.tasks[|w.tasks| - 1])
            && (w.current != NULL ==> w.current in w.tasks)
  {
    var w, n := Removed(v, k), |v.tasks| - 1;
    RemovedApart(v, k);
    if n > 0 {
      WithoutAt(v.tasks, k, 0);
      WithoutAt(v.tasks, k, n - 1);
    }
  }

  /** A removal leaves a linked list if and only if it mends it. */
  lemma RemovedLinked(v: LinkView, k: nat)
    requires Linked(v) && k < |v.tasks|
    ensures Linked(Removed(v, k)) <==> Mends(v, k)
    ensures NextInOrder(Removed(v, k)) <==> Mends(v, k)
  {
    var w := Removed(v, k);
    RemovedApart(v, k);
    if Mends(v, k) {
      forall i | 0 <= i < |v.tasks| - 1
        ensures Sized(w) && w.next[i] == At(w.tasks, i + 1)
      {
        MendedNext(v, k, i);
      }
      MendedEnds(v, k);
    } else {
      UnmendedNext(v, k);
    }
  }

  /** When the current task goes, the one behind it becomes current, and the first one behind the
    * last; with no task left there is none. */
  lemma RemovedCurrent(v: LinkView, k: nat)
    requires Linked(v) && k < |v.tasks|
    ensures Removed(v, k).current
            == if v.current != v.tasks[k] then v.current
               else if k + 1 < |v.tasks| then v.tasks[k + 1]
               else if k > 0 then v.tasks[0] else NULL
  {
  }

  /** Which prev fields are right afterwards: those that were, but never the one behind the gap. */
  lemma RemovedPrev(v: LinkView, k: nat, i: nat)
    requires Linked(v) && k < |v.tasks| && 0 < i < |v.tasks| - 1
    ensures Sized(Removed(v, k)) && |Removed(v, k).tasks| == |v.tasks| - 1
    ensures i != k ==> (PrevAt(Removed(v, k), i) <==> PrevAt(v, if i < k then i else i + 1))
    ensures i == k ==> PrevAt(v, k + 1) ==> !PrevAt(Removed(v, k), k)
  {
    RemovedAt(v, k, i);
    RemovedAt(v, k, i - 1);
  }

  /** Taking away the last task, or the first where that mends the list, keeps prev the
    * reverse of next. */
  lemma RemovedEnds(v: LinkView, k: nat)
    requires Linked(v) && Reversed(v) && k < |v.tasks| && (k == 0 || k == |v.tasks| - 1)
    ensures k > 0 ==> Mends(v, k)
    ensures Reversed(Removed(v, k))
    ensures Exact(v) ==> Mends(v, k)
    ensures Exact(v) && k == |v.tasks| - 1 ==> Exact(Removed(v, k))
  {
    assert k > 0 ==> PrevAt(v, k);
    forall i | 0 < i < |v.tasks| - 1
      ensures Sized(Removed(v, k)) && PrevAt(Removed(v, k), i)
    {
      RemovedPrev(v, k, i);
      assert PrevAt(v, if i < k then i else i + 1);
    }
    if 0 < k {
      RemovedAt(v, k, 0);
    }
    assert NULL !in v.tasks[1..];
  }

  /** A task in the middle: the list stays linked, but the task behind the gap keeps the
    * wrong prev, so removing that one next breaks the list. */
  lemma RemovedMiddle(v: LinkView, k: nat)
    requires Linked(v) && Reversed(v) && 0 < k < |v.tasks| - 1
    ensures Linked(Removed(v, k)) && k < |Removed(v, k).tasks|
    ensures !Reversed(Removed(v, k))
    ensures !Linked(Removed(Removed(v, k), k))
  {
    assert PrevAt(v, k) && PrevAt(v, k + 1);
    RemovedLinked(v, k);
    RemovedPrev(v, k, k);
    RemovedLinked(Removed(v, k), k);
  }

  /** The tail is the end again once the new task has been unlinked. */
  lemma RestoredNext(v: LinkView, t: nat, next: seq<nat>)
    requires Linked(v) && v.tasks != [] && t != NULL && t !in v.tasks
    requires next == Rewritten(v.tasks, v.next, v.tail, t) + [NULL]
    ensures Without(Rewritten(v.tasks + [t], next, v.tail, NULL), |v.tasks|) == v.next
  {
    var n, back := |v.tasks|, Rewritten(v.tasks + [t], next, v.tail, NULL);
    forall i | 0 <= i < n
      ensures Without(back, n)[i] == v.next[i]
    {
      WithoutAt(back, n, i);
    }
  }

  lemma WithoutLast<T>(xs: seq<T>, x: T)
    ensures Without(xs + [x], |xs|) == xs
  {
  }

  /** Creating a task and removing it again. */
  lemma CreatedThenRemoved(v: LinkView, t: nat)
    requires Linked(v) && t != NULL && t !in v.tasks
    ensures var w := Added(v, t); var n := |v.tasks|;
            && Sized(w) && n < |w.tasks| && w.next[n] == NULL
            && w.tasks[n] == t && w.prev[n] == (if n == 0 then NULL else v.tail)
            && Removed(w, n) == if n == 0 then v.(tail := NULL) else v
  {
    WithoutLast(v.tasks, t);
    if v.tasks != [] {
      WithoutLast(v.prev, v.tail);
      RestoredNext(v, t, Added(v, t).next);
    }
  }

  // ----- going round -----

  /** task_get_next with t as the current task. */
  ghost function Follow(v: LinkView, t: nat): nat
    requires Sized(v)
  {
    if t in v.tasks then
      var i :| 0 <= i < |v.tasks| && v.tasks[i] == t;
      if v.next[i] == NULL then v.head else v.next[i]
    else NULL
  }

  /** m calls in a row, each making its result the current task. */
  ghost function Round(v: LinkView, t: nat, m: nat): nat
    requires Sized(v)
  {
    if m == 0 then t else Follow(v, Round(v, t, m - 1))
  }

  lemma FollowAt(v: LinkView, i: nat)
    requires Sized(v) && Apart(v.tasks) && i < |v.tasks|
    ensures Follow(v, v.tasks[i]) == if v.next[i] == NULL then v.head else v.next[i]
  {
    var t := v.tasks[i];
    var j :| 0 <= j < |v.tasks| && v.tasks[j] == t
             && Follow(v, t) == if v.next[j] == NULL then v.head else v.next[j];
    assert i == j;
  }

  lemma {:induction false} RoundAt(v: LinkView, i: nat, m: nat)
    requires Linked(v) && i < |v.tasks| && m <= |v.tasks|
    ensures Round(v, v.tasks[i], m) == v.tasks[if i + m < |v.tasks| then i + m else i + m - |v.tasks|]
    decreases m
  {
    if m > 0 {
      RoundAt(v, i, m - 1);
      var at := i + (m - 1);
      FollowAt(v, if at < |v.tasks| then at else at - |v.tasks|);
    }
  }

  /** From any task, every task comes up exactly once before the round is over. */
  lemma RoundVisitsAll(v: LinkView, i: nat, j: nat, m: nat)
    requires Linked(v) && i < |v.tasks| && j < |v.tasks| && m < |v.tasks|
    ensures Round(v, v.tasks[i], m) == v.tasks[j] <==> m == if i <= j then j - i else j + |v.tasks| - i
    ensures Round(v, v.tasks[i], |v.tasks|) == v.tasks[i]
  {
    RoundAt(v, i, m);
    RoundAt(v, i, |v.tasks|);
  }

  // ----- a first task whose prev names a task again -----

  /** Removing it makes the j-th task's next lead back to the new head: ... */
  lemma ShortCircuit(v: LinkView, j: nat, i: nat)
    requires Linked(v) && 0 < j < |v.tasks| && v.prev[0] == v.tasks[j] && i < |v.tasks| - 1
    ensures var w := Removed(v, 0);
            && Sized(w) && |w.tasks| == |v.tasks| - 1 && Apart(w.tasks)
            && w.tasks[i] == v.tasks[i + 1] && w.head == w.tasks[0]
            && Follow(w, w.tasks[i]) == w.tasks[if i == j - 1 || i == |w.tasks| - 1 then 0 else i + 1]
  {
    var w := Removed(v, 0);
    RemovedApart(v, 0);
    RemovedAt(v, 0, 0);
    RemovedAt(v, 0, i);
    if i + 1 < |w.tasks| {
      RemovedAt(v, 0, i + 1);
    }
    FollowAt(w, i);
  }

  ghost predicate UpTo(v: LinkView, j: nat, t: nat)
    requires j < |v.tasks|
  {
    exists i :: 0 < i <= j && v.tasks[i] == t
  }

  /** ... the round never gets beyond it, ... */
  lemma {:induction false} RoundStays(v: LinkView, j: nat, m: nat)
    requires Linked(v) && 0 < j < |v.tasks| && v.prev[0] == v.tasks[j]
    ensures Sized(Removed(v, 0)) && UpTo(v, j, Round(Removed(v, 0), Removed(v, 0).head, m))
    decreases m
  {
    var w := Removed(v, 0);
    ShortCircuit(v, j, 0);
    if m > 0 {
      RoundStays(v, j, m - 1);
      var i :| 0 < i <= j && v.tasks[i] == Round(w, w.head, m - 1);
      ShortCircuit(v, j, i - 1);
      var next := if i == j then 1 else i + 1;
      ShortCircuit(v, j, next - 1);
      assert v.tasks[next] == Follow(w, Round(w, w.head, m - 1));
    } else {
      assert v.tasks[1] == w.head;
    }
  }

  /** ... and the tasks behind it never come up again. */
  lemma LostTasks(v: LinkView, j: nat, m: nat, l: nat)
    requires Linked(v) && 0 < j < l < |v.tasks| && v.prev[0] == v.tasks[j]
    ensures Sized(Removed(v, 0)) && Round(Removed(v, 0), Removed(v, 0).head, m) != v.tasks[l]
  {
    RoundStays(v, j, m);
  }

  /** Addresses that tasks can be created at, one after the other. */
  ghost predicate Creatable(tasks: seq<nat>, ts: seq<nat>)
    decreases |ts|
  {
    ts != [] ==> ts[0] != NULL && ts[0] !in tasks && Creatable(tasks + [ts[0]], ts[1..])
  }

  function AddedAll(v: LinkView, ts: seq<nat>): LinkView
    decreases |ts|
  {
    if ts == [] then v else AddedAll(Added(v, ts[0]), ts[1..])
  }

  lemma {:induction false} AddedAllKeeps(v: LinkView, ts: seq<nat>)
    requires Linked(v) && Creatable(v.tasks, ts)
    ensures Linked(AddedAll(v, ts)) && |AddedAll(v, ts).tasks| == |v.tasks| + |ts|
    ensures v.tasks <= AddedAll(v, ts).tasks && v.prev <= AddedAll(v, ts).prev
    decreases |ts|
  {
    if ts != [] {
      AddedLinked(v, ts[0]);
      AddedAllKeeps(Added(v, ts[0]), ts[1..]);
    }
  }

  /** How a list gets there: its first task is removed, and the next one created gets the
    * same address. Whatever is created after it, removing the first task then breaks the
    * list and loses the later ones. */
  lemma ReuseBreaks(v: LinkView, later: seq<nat>)
    requires Linked(v) && Reversed(v) && |v.tasks| >= 2 && Mends(v, 0)
    requires Creatable(Added(Removed(v, 0), v.tasks[0]).tasks, later)
    ensures var u := AddedAll(Added(Removed(v, 0), v.tasks[0]), later);
            && |u.tasks| == |v.tasks| + |later|
            && Linked(u) && !Mends(u, 0) && !Linked(Removed(u, 0))
            && u.prev[0] == v.tasks[0] == u.tasks[|v.tasks| - 1]
            && forall l, m: nat :: |v.tasks| <= l < |u.tasks| ==>
                 Round(Removed(u, 0), Removed(u, 0).head, m) != u.tasks[l]
  {
    var a, r := v.tasks[0], Removed(v, 0);
    var w := Added(r, a);
    RemovedLinked(v, 0);
    RemovedApart(v, 0);
    RemovedAt(v, 0, 0);
    assert PrevAt(v, 1);
    AddedLinked(r, a);
    AddedAllKeeps(w, later);
    var u := AddedAll(w, later);
    assert w.tasks[|v.tasks| - 1] == a && u.tasks[|v.tasks| - 1] == a;
    assert u.tasks[1..][|v.tasks| - 2] == a;
    RemovedLinked(u, 0);
    forall l, m: nat | |v.tasks| <= l < |u.tasks|
      ensures Round(Removed(u, 0), Removed(u, 0).head, m) != u.tasks[l]
    {
      LostTasks(u, |v.tasks| - 1, m, l);
    }
  }

  lemma FirstOfTwo(a: nat, b: nat)
    requires a != NULL && b != NULL && a != b
    ensures Removed(LinkView([a, b], [b, NULL], [NULL, a], a, b, NULL), 0) == LinkView([b], [NULL], [a], b, b, NULL)
  {
    assert Rewritten([a, b], [b, NULL], NULL, b) == [b, NULL];
  }

  lemma SecondAgain(a: nat, b: nat)
    requires a != NULL && b != NULL && a != b
    ensures Added(LinkView([b], [NULL], [a], b, b, NULL), a) == LinkView([b, a], [a, NULL], [a, b], b, a, NULL)
  {
    assert Rewritten([b], [NULL], b, a) == [a];
  }

  lemma ThirdTask(a: nat, b: nat, d: nat)
    requires a != NULL && b != NULL && a != b
    ensures Added(LinkView([b, a], [a, NULL], [a, b], b, a, NULL), d)
            == LinkView([b, a, d], [a, d, NULL], [a, b, a], b, d, NULL)
  {
    assert Rewritten([b, a], [a, NULL], a, d) == [a, d];
  }

  lemma FirstOfThree(a: nat, b: nat, d: nat)
    requires a != NULL && b != NULL && d != NULL && a != b && d != a && d != b
    ensures Removed(LinkView([b, a, d], [a, d, NULL], [a, b, a], b, d, NULL), 0)
            == LinkView([a, d], [a, NULL], [b, a], a, d, NULL)
  {
    assert Rewritten([b, a, d], [a, d, NULL], a, a) == [a, a, NULL];
  }

  lemma {:induction false} OnlyItself(v: LinkView, m: nat)
    requires Sized(v) && Apart(v.tasks) && v.tasks != [] && v.next[0] == v.tasks[0]
    ensures Round(v, v.tasks[0], m) == v.tasks[0]
    decreases m
  {
    if m > 0 {
      OnlyItself(v, m - 1);
      FollowAt(v, 0);
    }
  }

  /** The smallest instance: a and b are created, a is removed, c is created at a's address,
    * then d; removing b leaves c the only task that ever comes up. */
  lemma ReuseExample(a: nat, b: nat, d: nat, m: nat)
    requires a != NULL && b != NULL && d != NULL && a != b && d != a && d != b
    ensures var start := LinkView([a, b], [b, NULL], [NULL, a], a, b, NULL);
            var before := Added(Added(Removed(start, 0), a), d);
            && Linked(start) && Exact(start)
            && before == LinkView([b, a, d], [a, d, NULL], [a, b, a], b, d, NULL)
            && Removed(before, 0) == LinkView([a, d], [a, NULL], [b, a], a, d, NULL)
            && Round(Removed(before, 0), a, m) == a
  {
    FirstOfTwo(a, b);
    SecondAgain(a, b);
    ThirdTask(a, b, d);
    FirstOfThree(a, b, d);
    OnlyItself(LinkView([a, d], [a, NULL], [b, a], a, d, NULL), m);
  }

  // ----- whole runs -----

  /** Creating a task at an address, or removing the k-th task. */
  datatype Op = Create(t: nat) | Remove(k: nat)

  /** A task is created at an address that is not on the list, and only tasks there are
    * are removed. */
  predicate Feasible(tasks: seq<nat>, op: Op) {
    match op
    case Create(t) => t != NULL && t !in tasks
    case Remove(k) => k < |tasks|
  }

  /** The tasks there should be, in the order they were created. */
  function Order(tasks: seq<nat>, op: Op): seq<nat>
    requires Feasible(tasks, op)
  {
    match op
    case Create(t) => tasks + [t]
    case Remove(k) => Without(tasks, k)
  }

  predicate FeasibleAll(tasks: seq<nat>, ops: seq<Op>)
    decreases |ops|
  {
    ops != [] ==> Feasible(tasks, ops[0]) && FeasibleAll(Order(tasks, ops[0]), ops[1..])
  }

  function OrderAll(tasks: seq<nat>, ops: seq<Op>): seq<nat>
    requires FeasibleAll(tasks, ops)
    decreases |ops|
  {
    if ops == [] then tasks else OrderAll(Order(tasks, ops[0]), ops[1..])
  }

  ghost function Apply(v: LinkView, op: Op): (w: LinkView)
    requires Sized(v) && Feasible(v.tasks, op)
    ensures Sized(w) && w.tasks == Order(v.tasks, op)
    ensures w == if op.Create? then Added(v, op.t) else Removed(v, op.k)
  {
    match op
    case Create(t) => Added(v, t)
    case Remove(k) => Removed(v, k)
  }

  ghost function ApplyAll(v: LinkView, ops: seq<Op>): (w: LinkView)
    requires Sized(v) && FeasibleAll(v.tasks, ops)
    ensures w.tasks == OrderAll(v.tasks, ops)
    decreases |ops|
  {
    if ops == [] then v else ApplyAll(Apply(v, ops[0]), ops[1..])
  }

  /** The list is linked before, between and after all operations of a run. */
  ghost predicate LinkedThroughout(v: LinkView, ops: seq<Op>)
    requires Sized(v) && FeasibleAll(v.tasks, ops)
    decreases |ops|
  {
    Linked(v) && (ops != [] ==> LinkedThroughout(Apply(v, ops[0]), ops[1..]))
  }

  /** Every removal of a run, when it is made, mends the list. */
  ghost predicate MendsThroughout(v: LinkView, ops: seq<Op>)
    requires Sized(v) && FeasibleAll(v.tasks, ops)
    decreases |ops|
  {
    ops != [] ==>
      && (ops[0].Remove? ==> Mends(v, ops[0].k))
      && MendsThroughout(Apply(v, ops[0]), ops[1..])
  }

  /** Any run of creations and removals anywhere, with addresses used again as they may be:
    * the list stays linked if and only if every removal mends it. */
  lemma {:induction false} RunLinkedIff(v: LinkView, ops: seq<Op>)
    requires Linked(v) && FeasibleAll(v.tasks, ops)
    ensures LinkedThroughout(v, ops) <==> MendsThroughout(v, ops)
    ensures MendsThroughout(v, ops) ==> Linked(ApplyAll(v, ops)) && ApplyAll(v, ops).tasks == OrderAll(v.tasks, ops)
    decreases |ops|
  {
    if ops != [] {
      var w := Apply(v, ops[0]);
      match ops[0] {
        case Create(t) => AddedLinked(v, t);
        case Remove(k) => RemovedLinked(v, k);
      }
      if Linked(w) {
        RunLinkedIff(w, ops[1..]);
      } else {
        assert !LinkedThroughout(w, ops[1..]);
      }
    }
  }

  /** Only the last task is ever removed. */
  predicate LastOnly(tasks: seq<nat>, ops: seq<Op>)
    requires FeasibleAll(tasks, ops)
    decreases |ops|
  {
    ops != [] ==>
      && (ops[0].Remove? ==> ops[0].k == |tasks| - 1)
      && LastOnly(Order(tasks, ops[0]), ops[1..])
  }

  lemma OneOp(v: LinkView, op: Op)
    requires Linked(v) && Exact(v) && Feasible(v.tasks, op) && (op.Remove? ==> op.k == |v.tasks| - 1)
    ensures Linked(Apply(v, op)) && Exact(Apply(v, op))
  {
    match op
    case Create(t) =>
      AddedLinked(v, t);
    case Remove(k) =>
      RemovedEnds(v, k);
      RemovedLinked(v, k);
  }

  /** With removals of the last task only, nothing more is needed: the list stays linked, in
    * the order of creation, and prev is its exact reverse. */
  lemma {:induction false} LastOnlyKeeps(v: LinkView, ops: seq<Op>)
    requires Linked(v) && Exact(v) && FeasibleAll(v.tasks, ops) && LastOnly(v.tasks, ops)
    ensures LinkedThroughout(v, ops)
    ensures Linked(ApplyAll(v, ops)) && Exact(ApplyAll(v, ops))
    decreases |ops|
  {
    if ops != [] {
      OneOp(v, ops[0]);
      LastOnlyKeeps(Apply(v, ops[0]), ops[1..]);
    }
  }

  /** Tasks are removed at the two ends only. */
  predicate EndsOnly(tasks: seq<nat>, ops: seq<Op>)
    requires FeasibleAll(tasks, ops)
    decreases |ops|
  {
    ops != [] ==>
      && (ops[0].Remove? ==> ops[0].k == 0 || ops[0].k == |tasks| - 1)
      && EndsOnly(Order(tasks, ops[0]), ops[1..])
  }

  /** No removal of the first task meets a prev that names another task on the list. */
  ghost predicate FirstsMend(v: LinkView, ops: seq<Op>)
    requires Sized(v) && FeasibleAll(v.tasks, ops)
    decreases |ops|
  {
    ops != [] ==>
      && (ops[0] == Remove(0) ==> v.prev[0] !in v.tasks[1..])
      && FirstsMend(Apply(v, ops[0]), ops[1..])
  }

  lemma OneEnd(v: LinkView, op: Op)
    requires Linked(v) && Reversed(v) && Feasible(v.tasks, op)
    requires op.Remove? ==> op.k == 0 || op.k == |v.tasks| - 1
    ensures Linked(Apply(v, op)) <==> (op == Remove(0) ==> v.prev[0] !in v.tasks[1..])
    ensures Reversed(Apply(v, op))
  {
    match op
    case Create(t) =>
      AddedLinked(v, t);
    case Remove(k) =>
      RemovedEnds(v, k);
      RemovedLinked(v, k);
  }

  /** With removals at both ends, it is the removals of the first task that decide. */
  lemma {:induction false} EndsOnlyKeeps(v: LinkView, ops: seq<Op>)
    requires Linked(v) && Reversed(v) && FeasibleAll(v.tasks, ops) && EndsOnly(v.tasks, ops)
    ensures LinkedThroughout(v, ops) <==> FirstsMend(v, ops)
    ensures FirstsMend(v, ops) ==> Linked(ApplyAll(v, ops)) && Reversed(ApplyAll(v, ops))
    decreases |ops|
  {
    if ops != [] {
      var w := Apply(v, ops[0]);
      OneEnd(v, ops[0]);
      if Linked(w) {
        EndsOnlyKeeps(w, ops[1..]);
      } else {
        assert !LinkedThroughout(w, ops[1..]);
      }
    }
  }
}
