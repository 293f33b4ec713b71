/** task.c: creating, freeing and going round the kernel's tasks. */
module Tasks {
  import opened Machine
  import opened BlockHeap
  import opened KernelHeap
  import opened Paging
  import opened AddressSpaces
  import opened TaskLinks
  import opened TaskMemory
  import opened TaskOwnership
  import opened TaskLedger
  import opened TaskSetup

  class TaskList {
    const k: Kernel
    var head: uint32
    var tail: uint32
    var current: uint32
    ghost var view: LinkView       // the tasks and their links, as they are in memory
    ghost var spaces: seq<Space>   // their address spaces
    ghost var others: Runs         // what the heap's other clients hold

    ghost predicate Variables(v: LinkView)
      reads this
    {
      head == v.head && tail == v.tail && current == v.current
    }

    /** The variables are in step, whatever memory holds. */
    ghost predicate Ready()
      reads this, k.heap, k.heap.entries, k.pool
    {
      k.Valid() && Variables(view) && Sized(view) && |spaces| == |view.tasks|
    }

    ghost predicate Valid()
      reads this, k.heap, k.heap.entries, k.pool
    {
      Ready() && Balanced(k.heap.saddr, others, Now(k), view, spaces)
    }

    constructor (k: Kernel)
      requires k.Valid()
      ensures Valid() && this.k == k && view.tasks == [] && Exact(view) && others == k.heap.runs
    {
      this.k := k;
      head, tail, current := NULL, NULL, NULL;
      view, spaces, others := LinkView([], [], [], NULL, NULL, NULL), [], k.heap.runs;
      new;
      LiveNotFree(k);
      BalancedStart(k.heap.saddr, Now(k), view);
    }

    /** With no task left, nothing is held but by the other clients: the block table is byte for
      * byte one that encodes what they hold. */
    lemma NoneLeft(table: Table)
      requires Valid() && view.tasks == []
      requires Encodes(table, others) && |table| == k.heap.total
      ensures k.heap.runs == others && k.heap.Entries() == table
    {
      BalancedEmpty(k.heap.saddr, others, Now(k), view, spaces);
      TableDetermined(table, k.heap.Entries(), others);
    }

    /** Another client has used the heap since t: the list goes on with what is held now. */
    ghost method ClientActed(t: Snapshot)
      requires Ready() && Balanced(k.heap.saddr, others, t, view, spaces)
      requires ClientStep(k.heap.saddr, t, Now(k), view, spaces)
      modifies this`others
      ensures Valid()
      ensures others == k.heap.runs - SetOf(Flatten(Lists(k.heap.saddr, view.tasks, spaces)))
    {
      BalancedClient(k.heap.saddr, others, t, Now(k), view, spaces);
      others := k.heap.runs - SetOf(Flatten(Lists(k.heap.saddr, view.tasks, spaces)));
    }

    // ----- creating -----

    /** The linking at the end of task_new. */
    method Join(task: uint32, ghost w: LinkView)
      requires Variables(view) && w == Added(view, task)
      requires task != NULL && TaskBlock(k.heap.saddr, k.pool.Length, task)
      requires head != NULL ==> TaskBlock(k.heap.saddr, k.pool.Length, tail)
      modifies this`head, this`tail, k.pool
      ensures k.pool[..] == Joined(old(k.pool[..]), k.heap.saddr, view, task)
      ensures Variables(w)
    {
      if head == NULL {
        head := task;
        tail := task;
        return;
      }
      SetField(k.pool, k.heap.saddr, tail, NEXT, task);
      SetField(k.pool, k.heap.saddr, task, PREV, tail);
      tail := task;
    }

    /** A task just allocated goes to the end of the list. */
    method Enlist(task: uint32, ghost sp: Space, ghost t0: Snapshot, ghost t1: Snapshot)
      requires Ready() && t1 == Now(k)
      requires Balanced(k.heap.saddr, others, t0, view, spaces) && Detached(k.heap.saddr, t0, t1, task, sp)
      modifies this, k.pool
      ensures Valid() && view == Added(old(view), task) && spaces == old(spaces) + [sp] && others == old(others)
      ensures task != NULL && task !in old(view.tasks)
      ensures CreatedTo(k.heap.saddr, t0, t1, Now(k), old(view), task, sp)
    {
      ghost var saddr := k.heap.saddr;
      BalancedJoinable(saddr, others, t0, t1, view, spaces, task, sp);
      ghost var w, spaces' := Added(view, task), spaces + [sp];
      Join(task, w);
      ghost var u := Now(k);
      assert CreatedTo(saddr, t0, t1, u, view, task, sp);
      BalancedCreated(saddr, others, t0, t1, u, view, spaces, task, sp, w, spaces');
      view, spaces := w, spaces';
    }

    /** task_new. Every page of the task's space leads to the frame of the same address and is
      * present and open to all; the tables are writeable as well. */
    method New(process: uint32) returns (task: uint32, ghost sp: Space, ghost t1: Snapshot)
      requires Valid() && |k.FreeBlocks()| >= 1027
      modifies this, k.heap, k.heap.entries, k.pool
      ensures Valid() && view == Added(old(view), task) && spaces == old(spaces) + [sp] && others == old(others)
      ensures task != NULL && task !in old(view.tasks)
      ensures FirstBlocks(old(k.heap.runs), k.heap.total, BlockOf(k.heap.saddr, task), sp.dir)
      ensures CreatedTo(k.heap.saddr, old(Now(k)), t1, Now(k), old(view), task, sp)
      ensures FreshSpace(k.pool[..], k.heap.saddr, sp, 5, 7)
      ensures Prepared(k.pool[..], k.heap.saddr, task, k.heap.Address(sp.chunk), process)
    {
      ghost var saddr, t0, v, was := k.heap.saddr, Now(k), view, spaces;
      task, sp := Allocate(k, process);
      t1 := Now(k);
      Enlist(task, sp, t0, t1);
      BalancedFresh(saddr, others, t0, t1, Now(k), v, was, task, sp, 5, 7);
      PreparedJoined(saddr, t0, t1, Now(k), v, task, sp, k.heap.Address(sp.chunk), process);
    }

    // ----- going round -----

    /** task_get_next. */
    method GetNext() returns (t: uint32)
      requires Valid() && current != NULL
      ensures t == Follow(view, current)
    {
      BalancedFollow(k.heap.saddr, others, Now(k), view, spaces);
      var next := ReadField(k.pool, k.heap.saddr, current, NEXT);
      t := if next == NULL then head else next;
    }

    // ----- freeing -----

    /** What prev names is given the task's next. */
    method Unlink(task: uint32, ghost i: nat) returns (prev: uint32)
      requires LinkedTo(k.heap.saddr, k.pool[..], view, i, task)
      modifies k.pool
      ensures prev == view.prev[i]
      ensures k.pool[..] == Unlinked(old(k.pool[..]), k.heap.saddr, view, i)
    {
      prev := ReadField(k.pool, k.heap.saddr, task, PREV);
      if prev != NULL {
        var next := ReadField(k.pool, k.heap.saddr, task, NEXT);
        SetField(k.pool, k.heap.saddr, prev, NEXT, next);
      }
    }

    /** The three variables, for a task with these links. */
    method Forget(task: uint32, prev: uint32, next: uint32)
      modifies this`head, this`tail, this`current
      ensures head == if task == old(head) then next else old(head)
      ensures tail == if task == old(tail) then prev else old(tail)
      ensures current == if task != old(current) then old(current) else if next == NULL then head else next
    {
      if task == head {
        head := next;
      }
      if task == tail {
        tail := prev;
      }
      if task == current {
        current := if next == NULL then head else next;
      }
    }

    /** task_list_remove, of the i-th task. */
    method ListRemove(task: uint32, ghost i: nat, ghost w: LinkView)
      requires LinkedTo(k.heap.saddr, k.pool[..], view, i, task)
      requires Variables(view) && w == Removed(view, i)
      modifies this`head, this`tail, this`current, k.pool
      ensures k.pool[..] == Unlinked(old(k.pool[..]), k.heap.saddr, view, i)
      ensures Variables(w)
    {
      ghost var pool := k.pool[..];
      var prev := Unlink(task, i);
      UnlinkedOwn(pool, k.pool[..], k.heap.saddr, view, i, task);
      var next := ReadField(k.pool, k.heap.saddr, task, NEXT);
      RemovedVariables(view, i, task, next);
      Forget(task, prev, next);
    }

    /** The address space, the links, the task. */
    method FreeParts(task: uint32, ghost i: nat, ghost sp: Space, ghost w: LinkView, ghost t0: Snapshot)
      requires k.Valid() && t0 == Now(k) && Variables(view) && Freeing(k.heap.saddr, t0, view, sp, i)
      requires task == view.tasks[i] && w == Removed(view, i)
      modifies this`head, this`tail, this`current, k.heap, k.heap.entries, k.pool
      ensures k.Valid() && Variables(w) && FreedTo(k.heap.saddr, t0, Now(k), view, sp, i)
    {
      var chunk := ReadField(k.pool, k.heap.saddr, task, PAGE_DIRECTORY);
      Free4gb(k, chunk, sp);
      ListRemove(task, i, w);
      AddressOfBlock(k.heap.saddr, k.pool.Length, task);
      k.KFree(task, BlockOf(k.heap.saddr, task));
    }

    /** Freeing, with the list told. */
    method FreeTask(task: uint32, ghost i: nat, ghost sp: Space, ghost w: LinkView, ghost spaces': seq<Space>,
                    ghost t0: Snapshot)
      returns (ghost u: Snapshot)
      requires k.Valid() && t0 == Now(k) && Variables(view)
      requires Freeing(k.heap.saddr, t0, view, sp, i) && task == view.tasks[i]
      requires w == Removed(view, i) && Sized(w) && |spaces'| == |w.tasks|
      modifies this, k.heap, k.heap.entries, k.pool
      ensures Ready() && view == w && spaces == spaces' && others == old(others)
      ensures u == Now(k) && FreedTo(k.heap.saddr, t0, u, old(view), sp, i)
      ensures forall b :: b in u.runs ==> b !in u.free
    {
      FreeParts(task, i, sp, w, t0);
      view, spaces := w, spaces';
      u := Now(k);
      LiveNotFree(k);
    }

    /** task_free, of the i-th task. The list is linked afterwards if and only if the removal
      * mends it, and everything else in use untouched if and only if it is harmless
      * (FreeEffect); the books are balanced if and only if it keeps them. */
    method Free(task: uint32, ghost i: nat)
      requires Valid() && i < |view.tasks| && task == view.tasks[i]
      modifies this, k.heap, k.heap.entries, k.pool
      ensures Ready() && others == old(others)
      ensures FreeEffect(k.heap.saddr, old(Now(k)), Now(k), old(view), old(spaces), i, view, spaces)
      ensures Valid() <==> Keeps(k.heap.saddr, old(view), old(spaces), i)
    {
      ghost var saddr, v, was, t0 := k.heap.saddr, view, spaces, Now(k);
      ghost var w, spaces' := Removed(v, i), Without(was, i);
      BalancedTask(saddr, others, t0, v, was, i);
      ghost var u := FreeTask(task, i, was[i], w, spaces', t0);
      BalancedEffect(saddr, others, t0, u, v, was, i, w, spaces');
    }

    // ----- creating and freeing -----

    /** A task that is created and freed again leaves nothing behind: the list, the block
      * table byte for byte, and every block in use are what they were. */
    method NewThenFree(process: uint32)
      requires Valid() && |k.FreeBlocks()| >= 1027
      modifies this, k.heap, k.heap.entries, k.pool
      ensures Valid() && spaces == old(spaces)
      ensures view == if old(view).tasks == [] then old(view).(tail := NULL) else old(view)
      ensures k.heap.Entries() == old(k.heap.Entries()) && k.heap.runs == old(k.heap.runs)
      ensures SameLive(old(Now(k)), Now(k))
    {
      ghost var saddr, v, t0, entries, was := k.heap.saddr, view, Now(k), k.heap.Entries(), spaces;
      BalancedLinked(saddr, others, t0, v, was);
      var task;
      ghost var sp, t1;
      task, sp, t1 := New(process);
      ghost var w, u1, n := view, Now(k), |v.tasks|;
      CreatedThenRemoved(v, task);
      LastKeeps(saddr, v, task, spaces);
      Free(task, n);
      assert Without(was + [sp], n) == was;
      RoundTrip(saddr, others, t0, t1, u1, Now(k), v, was, task, sp, w, n);
      BalancedSame(saddr, others, t0, v, was, Now(k), view, entries, k.heap.Entries());
    }

    /** The first task is freed and another one created: it gets the very same address if
      * and only if all blocks below are in use, and then the list cannot lose its next first
      * task without breaking. */
    method FreeFirstThenNew(first: uint32, process: uint32) returns (task: uint32)
      requires Valid() && view.tasks != [] && first == view.tasks[0] && |k.FreeBlocks()| >= 1027
      requires Keeps(k.heap.saddr, view, spaces, 0)
      modifies this, k.heap, k.heap.entries, k.pool
      ensures Valid() && view == Added(Removed(old(view), 0), task)
      ensures task == first <==>
                FullBelow(old(k.heap.runs) - SetOf(OwnBlocks(k.heap.saddr, first, old(spaces[0]))),
                          BlockOf(k.heap.saddr, first))
      ensures Reversed(old(view)) && |old(view).tasks| > 1 && task == first ==> view.tasks != [] && !Mends(view, 0)
    {
      ghost var saddr, v, t0, entries := k.heap.saddr, view, Now(k), k.heap.Entries();
      ghost var own := OwnBlocks(saddr, first, spaces[0]);
      BalancedFirst(saddr, others, t0, v, spaces, first, own);
      Free(first, 0);
      ghost var freed, runs, b := k.heap.Entries(), k.heap.runs, BlockOf(saddr, first);
      MoreFree(entries, t0.runs, freed, runs);
      Uncovered(entries, t0.runs, runs, b);
      ghost var sp, t1;
      task, sp, t1 := New(process);
      FirstIs(runs, k.heap.total, BlockOf(saddr, task), b);
      SameBlockOf(saddr, k.pool.Length, task, first);
      ReusedFirst(v, first, task);
    }
  }
}
