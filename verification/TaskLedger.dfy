/** How creating and freeing a task keeps the books: what has been taken from the heap is
  * what the tasks on the list own.
  */
module TaskLedger {
  import opened Machine
  import opened BlockHeap
  import opened KernelHeap
  import opened Paging
  import opened AddressSpaces
  import opened TaskLinks
  import opened TaskMemory
  import opened TaskOwnership

  // ----- creating -----

  /** Memory after the new task t has been linked behind the tail, if there is one. */
  function Joined(pool: Bytes, saddr: nat, v: LinkView, t: uint32): Bytes
    requires TaskBlock(saddr, |pool|, t) && (v.head != NULL ==> TaskBlock(saddr, |pool|, v.tail)) && v.tail < TWO_32
  {
    if v.head == NULL then pool
    else StoreField(StoreField(pool, saddr, v.tail, NEXT, t), saddr, t, PREV, v.tail)
  }

  /** A task that has just been allocated and initialised, on its own. */
  ghost predicate Detached(saddr: nat, t0: Snapshot, t1: Snapshot, t: nat, sp: Space) {
    && Took(t0, t1, OwnBlocks(saddr, t, sp)) && InPlace(t1.pool, saddr, t, sp)
    && Field(t1.pool, saddr, t, NEXT) == NULL && Field(t1.pool, saddr, t, PREV) == NULL
    && (forall b :: b in t1.runs ==> b !in t1.free)
  }

  lemma TaskUntouched(saddr: nat, others: Runs, t0: Snapshot, t1: Snapshot, v: LinkView, spaces: seq<Space>,
                      t: nat, sp: Space, i: nat)
    requires Holding(saddr, others, t0, v, spaces) && Detached(saddr, t0, t1, t, sp) && i < |v.tasks|
    ensures TaskBlock(saddr, |t1.pool|, v.tasks[i]) && v.tasks[i] != t
    ensures SameBlock(t0.pool, t1.pool, BlockOf(saddr, v.tasks[i]))
    ensures InPlace(t1.pool, saddr, v.tasks[i], spaces[i])
  {
    TaskBlockOwned(saddr, others, t0, v, spaces, i);
    assert BlockOf(saddr, t) in OwnBlocks(saddr, t, sp);
    forall b | b in OwnBlocks(saddr, v.tasks[i], spaces[i])
      ensures SameBlock(t0.pool, t1.pool, b)
    {
      OwnedLive(saddr, others, t0, v, spaces, i, b);
    }
    InPlaceKept(t0.pool, t1.pool, saddr, v.tasks[i], spaces[i]);
  }

  lemma TasksUntouched(saddr: nat, others: Runs, t0: Snapshot, t1: Snapshot, v: LinkView, spaces: seq<Space>,
                       t: nat, sp: Space)
    requires Holding(saddr, others, t0, v, spaces) && Detached(saddr, t0, t1, t, sp)
    ensures TaskBlocks(saddr, |t1.pool|, v.tasks) && t !in v.tasks
    ensures v == Links(t1.pool, saddr, v.tasks, v.head, v.tail, v.current)
    ensures AllInPlace(t1.pool, saddr, v.tasks, spaces)
  {
    forall i | 0 <= i < |v.tasks|
      ensures TaskBlock(saddr, |t1.pool|, v.tasks[i]) && v.tasks[i] != t
      ensures SameBlock(t0.pool, t1.pool, BlockOf(saddr, v.tasks[i]))
      ensures InPlace(t1.pool, saddr, v.tasks[i], spaces[i])
    {
      TaskUntouched(saddr, others, t0, t1, v, spaces, t, sp, i);
    }
    LinksKept(t0.pool, t1.pool, saddr, v.tasks, v);
  }

  /** The link fields after joining. */
  lemma JoinedLinks(pool: Bytes, saddr: nat, v: LinkView, t: uint32)
    requires Linked(v) && v == Links(pool, saddr, v.tasks, v.head, v.tail, v.current)
    requires TaskBlocks(saddr, |pool|, v.tasks) && TaskBlock(saddr, |pool|, t) && t !in v.tasks && v.tail < TWO_32
    requires Field(pool, saddr, t, NEXT) == NULL && Field(pool, saddr, t, PREV) == NULL
    ensures v.head != NULL ==> TaskBlock(saddr, |pool|, v.tail)
    ensures var w := Added(v, t);
            w == Links(Joined(pool, saddr, v, t), saddr, w.tasks, w.head, w.tail, w.current)
  {
    if v.head == NULL {
      LinksAppend(pool, saddr, v.tasks, t, v);
    } else {
      var p1 := StoreField(pool, saddr, v.tail, NEXT, t);
      var p2 := StoreField(p1, saddr, t, PREV, v.tail);
      var v1 := v.(next := Rewritten(v.tasks, v.next, v.tail, t));
      StoredNext(pool, saddr, v.tasks, v.tail, t, v);
      StoredOff(p1, saddr, v.tasks, t, PREV, v.tail, v1);
      StoredField(pool, saddr, v.tail, NEXT, t, t, NEXT);
      StoredField(p1, saddr, t, PREV, v.tail, t, NEXT);
      StoredField(p1, saddr, t, PREV, v.tail, t, PREV);
      LinksAppend(p2, saddr, v.tasks, t, v1);
    }
  }

  lemma JoinedElsewhere(pool: Bytes, saddr: nat, v: LinkView, t: uint32)
    requires TaskBlock(saddr, |pool|, t) && v.tail < TWO_32 && v.head != NULL && TaskBlock(saddr, |pool|, v.tail)
    ensures SameElsewhere(pool, Joined(pool, saddr, v, t), [BlockOf(saddr, v.tail), BlockOf(saddr, t)])
  {
    var p1 := StoreField(pool, saddr, v.tail, NEXT, t);
    StoredElsewhere(pool, saddr, v.tail, NEXT, t);
    StoredElsewhere(p1, saddr, t, PREV, v.tail);
    SameElsewhereTrans(pool, p1, Joined(pool, saddr, v, t), [BlockOf(saddr, v.tail)], [BlockOf(saddr, t)],
                       [BlockOf(saddr, v.tail), BlockOf(saddr, t)]);
  }

  /** A task in place stays so when another one is joined, and the new one too. */
  lemma JoinedInPlace(pool: Bytes, saddr: nat, v: LinkView, t: uint32, u: nat, sp: Space)
    requires TaskBlock(saddr, |pool|, t) && v.tail < TWO_32 && (v.head != NULL ==> TaskBlock(saddr, |pool|, v.tail))
    requires InPlace(pool, saddr, u, sp)
    requires v.head != NULL ==> BlockOf(saddr, t) != sp.dir && BlockOf(saddr, v.tail) != sp.dir
    ensures InPlace(Joined(pool, saddr, v, t), saddr, u, sp)
  {
    if v.head != NULL {
      InPlaceStored(pool, saddr, u, sp, v.tail, NEXT, t);
      InPlaceStored(StoreField(pool, saddr, v.tail, NEXT, t), saddr, u, sp, t, PREV, v.tail);
    }
  }

  lemma OwnBlockApart(saddr: nat, t: nat, sp: Space)
    requires Distinct(OwnBlocks(saddr, t, sp))
    ensures BlockOf(saddr, t) !in sp.Blocks()
  {
    var own := OwnBlocks(saddr, t, sp);
    forall i | 0 <= i < |sp.Blocks()|
      ensures sp.Blocks()[i] != BlockOf(saddr, t)
    {
      assert own[0] != own[i + 1];
    }
  }

  /** No address space contains a task's block. */
  lemma TaskNotInSpace(saddr: nat, others: Runs, now: Snapshot, v: LinkView, spaces: seq<Space>, i: nat, j: nat)
    requires Holding(saddr, others, now, v, spaces) && i < |v.tasks| && j < |v.tasks|
    ensures TaskBlock(saddr, |now.pool|, v.tasks[i])
    ensures BlockOf(saddr, v.tasks[i]) !in spaces[j].Blocks()
  {
    TaskBlockOwned(saddr, others, now, v, spaces, i);
    TaskBlockOwned(saddr, others, now, v, spaces, j);
    var lists := Lists(saddr, v.tasks, spaces);
    if i == j {
      FlattenDistinct(lists, i);
      OwnBlockApart(saddr, v.tasks[i], spaces[i]);
    } else {
      FlattenOwner(lists, i, j, BlockOf(saddr, v.tasks[i]));
    }
  }

  /** Nor does it contain the block of a task just allocated. */
  lemma NewNotInSpace(saddr: nat, others: Runs, t0: Snapshot, t1: Snapshot, v: LinkView, spaces: seq<Space>,
                      t: nat, sp: Space, i: nat)
    requires Holding(saddr, others, t0, v, spaces) && Detached(saddr, t0, t1, t, sp) && i < |v.tasks|
    ensures TaskBlock(saddr, |t0.pool|, v.tasks[i])
    ensures BlockOf(saddr, t) !in spaces[i].Blocks() && BlockOf(saddr, v.tasks[i]) !in sp.Blocks()
  {
    TaskBlockOwned(saddr, others, t0, v, spaces, i);
    var own := OwnBlocks(saddr, t, sp);
    assert own[0] in own;
    if BlockOf(saddr, t) in spaces[i].Blocks() {
      OwnedLive(saddr, others, t0, v, spaces, i, BlockOf(saddr, t));
    }
  }

  lemma NotDirectory(sp: Space, b: nat)
    requires b !in sp.Blocks()
    ensures b != sp.dir
  {
    assert sp.Blocks()[0] == sp.dir;
  }

  /** Joining the new task leaves the i-th in place. */
  lemma OldInPlace(saddr: nat, others: Runs, t0: Snapshot, t1: Snapshot, v: LinkView, spaces: seq<Space>,
                   t: uint32, sp: Space, i: nat)
    requires Holding(saddr, others, t0, v, spaces) && Detached(saddr, t0, t1, t, sp) && v.tail < TWO_32
    requires i < |v.tasks| && v.tail == v.tasks[|v.tasks| - 1]
    ensures TaskBlock(saddr, |t1.pool|, v.tail)
    ensures InPlace(Joined(t1.pool, saddr, v, t), saddr, v.tasks[i], spaces[i])
  {
    TaskUntouched(saddr, others, t0, t1, v, spaces, t, sp, i);
    NewNotInSpace(saddr, others, t0, t1, v, spaces, t, sp, i);
    TaskNotInSpace(saddr, others, t0, v, spaces, |v.tasks| - 1, i);
    NotDirectory(spaces[i], BlockOf(saddr, t));
    NotDirectory(spaces[i], BlockOf(saddr, v.tail));
    JoinedInPlace(t1.pool, saddr, v, t, v.tasks[i], spaces[i]);
  }

  lemma NewInPlace(saddr: nat, others: Runs, t0: Snapshot, t1: Snapshot, v: LinkView, spaces: seq<Space>,
                   t: uint32, sp: Space)
    requires Holding(saddr, others, t0, v, spaces) && Detached(saddr, t0, t1, t, sp) && v.tail < TWO_32
    ensures v.head != NULL ==> TaskBlock(saddr, |t1.pool|, v.tail)
    ensures InPlace(Joined(t1.pool, saddr, v, t), saddr, t, sp)
  {
    OwnBlockApart(saddr, t, sp);
    NotDirectory(sp, BlockOf(saddr, t));
    if v.tasks != [] {
      NewNotInSpace(saddr, others, t0, t1, v, spaces, t, sp, |v.tasks| - 1);
      NotDirectory(sp, BlockOf(saddr, v.tail));
    }
    JoinedInPlace(t1.pool, saddr, v, t, t, sp);
  }

  /** Nor does it change what the new task's space maps. */
  lemma JoinedFresh(saddr: nat, others: Runs, t0: Snapshot, t1: Snapshot, v: LinkView, spaces: seq<Space>,
                    t: uint32, sp: Space, flags: nat, low: nat)
    requires Holding(saddr, others, t0, v, spaces) && Detached(saddr, t0, t1, t, sp) && v.tail < TWO_32
    requires v.head != NULL ==> TaskBlock(saddr, |t1.pool|, v.tail)
    requires FreshSpace(t1.pool, saddr, sp, flags, low)
    ensures FreshSpace(Joined(t1.pool, saddr, v, t), saddr, sp, flags, low)
  {
    if v.head != NULL {
      OwnBlockApart(saddr, t, sp);
      NewNotInSpace(saddr, others, t0, t1, v, spaces, t, sp, |v.tasks| - 1);
      JoinedElsewhere(t1.pool, saddr, v, t);
      FreshKept(t1.pool, Joined(t1.pool, saddr, v, t), saddr, sp, flags, low,
                [BlockOf(saddr, v.tail), BlockOf(saddr, t)]);
    }
  }

  lemma CreatedInPlace(saddr: nat, others: Runs, t0: Snapshot, t1: Snapshot, v: LinkView, spaces: seq<Space>,
                       t: uint32, sp: Space)
    requires Holding(saddr, others, t0, v, spaces) && Detached(saddr, t0, t1, t, sp) && v.tail < TWO_32
    ensures v.head != NULL ==> TaskBlock(saddr, |t1.pool|, v.tail)
    ensures AllInPlace(Joined(t1.pool, saddr, v, t), saddr, v.tasks + [t], spaces + [sp])
  {
    NewInPlace(saddr, others, t0, t1, v, spaces, t, sp);
    forall i | 0 <= i < |v.tasks|
      ensures InPlace(Joined(t1.pool, saddr, v, t), saddr, v.tasks[i], spaces[i])
    {
      OldInPlace(saddr, others, t0, t1, v, spaces, t, sp, i);
    }
  }

  lemma CreatedOwned(saddr: nat, others: Runs, t0: Snapshot, t1: Snapshot, v: LinkView, spaces: seq<Space>,
                     t: uint32, sp: Space)
    requires Holding(saddr, others, t0, v, spaces) && Detached(saddr, t0, t1, t, sp)
    ensures Owned(others, t1.runs, Flatten(Lists(saddr, v.tasks + [t], spaces + [sp])))
  {
    var all, own := Flatten(Lists(saddr, v.tasks, spaces)), OwnBlocks(saddr, t, sp);
    OwnedMore(others, t0.runs, t1.runs, all, own);
    ListsAppend(saddr, v.tasks, spaces, t, sp);
  }

  lemma CreatedPrev(saddr: nat, size: nat, v: LinkView, t: nat)
    requires |v.prev| == |v.tasks| && (v.head != NULL ==> TaskBlock(saddr, size, v.tail))
    requires forall i :: 0 <= i < |v.prev| ==> SomeBlock(saddr, size, v.prev[i])
    ensures forall i :: 0 <= i < |v.prev| + 1 ==> SomeBlock(saddr, size, Added(v, t).prev[i])
  {
  }

  lemma Booked(saddr: nat, others: Runs, u: Snapshot, w: LinkView, spaces: seq<Space>)
    requires Linked(w) && AllInPlace(u.pool, saddr, w.tasks, spaces)
    requires w == Links(u.pool, saddr, w.tasks, w.head, w.tail, w.current)
    requires forall i :: 0 <= i < |w.prev| ==> SomeBlock(saddr, |u.pool|, w.prev[i])
    requires forall b :: b in u.runs ==> b !in u.free
    requires Owned(others, u.runs, Flatten(Lists(saddr, w.tasks, spaces)))
    ensures Holding(saddr, others, u, w, spaces)
  {
  }

  lemma CreatedView(saddr: nat, others: Runs, t0: Snapshot, t1: Snapshot, v: LinkView, spaces: seq<Space>,
                    t: uint32, sp: Space, w: LinkView, pool: Bytes)
    requires Holding(saddr, others, t0, v, spaces) && Detached(saddr, t0, t1, t, sp) && v.tail < TWO_32
    requires v.head != NULL ==> TaskBlock(saddr, |t1.pool|, v.tail)
    requires pool == Joined(t1.pool, saddr, v, t) && w == Added(v, t)
    ensures Linked(w) && w == Links(pool, saddr, w.tasks, w.head, w.tail, w.current)
    ensures forall i :: 0 <= i < |w.prev| ==> SomeBlock(saddr, |pool|, w.prev[i])
  {
    TasksUntouched(saddr, others, t0, t1, v, spaces, t, sp);
    JoinedLinks(t1.pool, saddr, v, t);
    AddedLinked(v, t);
    CreatedPrev(saddr, |pool|, v, t);
  }

  /** Creating a task keeps the books. */
  lemma Created(saddr: nat, others: Runs, t0: Snapshot, t1: Snapshot, u: Snapshot, v: LinkView,
                spaces: seq<Space>, t: uint32, sp: Space)
    requires Holding(saddr, others, t0, v, spaces) && Detached(saddr, t0, t1, t, sp) && v.tail < TWO_32
    requires v.head != NULL ==> TaskBlock(saddr, |t1.pool|, v.tail)
    requires u == t1.(pool := Joined(t1.pool, saddr, v, t))
    ensures Holding(saddr, others, u, Added(v, t), spaces + [sp])
  {
    var w, spaces' := Added(v, t), spaces + [sp];
    CreatedView(saddr, others, t0, t1, v, spaces, t, sp, w, u.pool);
    CreatedInPlace(saddr, others, t0, t1, v, spaces, t, sp);
    CreatedOwned(saddr, others, t0, t1, v, spaces, t, sp);
    Booked(saddr, others, u, w, spaces');
  }

  /** What linking needs of a task just allocated. */
  lemma Joinable(saddr: nat, others: Runs, t0: Snapshot, t1: Snapshot, v: LinkView, spaces: seq<Space>,
                 t: uint32, sp: Space)
    requires Holding(saddr, others, t0, v, spaces) && Detached(saddr, t0, t1, t, sp) && v.tail < TWO_32
    ensures TaskBlock(saddr, |t1.pool|, t) && t != NULL && t !in v.tasks
    ensures v.head != NULL ==> TaskBlock(saddr, |t1.pool|, v.tail)
  {
    TasksUntouched(saddr, others, t0, t1, v, spaces, t, sp);
    CreatedInPlace(saddr, others, t0, t1, v, spaces, t, sp);
  }

  // ----- freeing -----

  /** Memory after the k-th task's predecessor, as prev names it, has been given its next. */
  function Unlinked(pool: Bytes, saddr: nat, v: LinkView, k: nat): (pool': Bytes)
    ensures |pool'| == |pool|
  {
    if k < |v.prev| == |v.next| && TaskBlock(saddr, |pool|, v.prev[k]) && v.next[k] < TWO_32
    then StoreField(pool, saddr, v.prev[k], NEXT, v.next[k]) else pool
  }

  lemma KeepsMends(saddr: nat, v: LinkView, spaces: seq<Space>, k: nat)
    requires Linked(v) && |spaces| == |v.tasks| && k < |v.tasks| && Keeps(saddr, v, spaces, k)
    ensures Mends(v, k)
  {
    assert NULL !in v.tasks[1..];
  }

  /** What is written to is no other task's directory. */
  lemma KeepsApart(saddr: nat, others: Runs, now: Snapshot, v: LinkView, spaces: seq<Space>, k: nat, i: nat)
    requires Holding(saddr, others, now, v, spaces) && k < |v.tasks| && i < |v.tasks| && i != k
    requires Keeps(saddr, v, spaces, k) && v.prev[k] != NULL
    ensures BlockOf(saddr, v.prev[k]) != spaces[i].dir
  {
    if k > 0 {
      TaskNotInSpace(saddr, others, now, v, spaces, k - 1, i);
      assert spaces[i].Blocks()[0] == spaces[i].dir;
    }
  }

  lemma UnlinkedLinks(pool: Bytes, saddr: nat, v: LinkView, k: nat)
    requires Linked(v) && v == Links(pool, saddr, v.tasks, v.head, v.tail, v.current) && k < |v.tasks|
    requires TaskBlocks(saddr, |pool|, v.tasks) && SomeBlock(saddr, |pool|, v.prev[k])
    ensures v.next[k] < TWO_32
    ensures var w := Removed(v, k);
            w == Links(Unlinked(pool, saddr, v, k), saddr, w.tasks, w.head, w.tail, w.current)
  {
    var next := Rewritten(v.tasks, v.next, v.prev[k], v.next[k]);
    assert v.next[k] == Field(pool, saddr, v.tasks[k], NEXT);
    var v1 := v.(next := next);
    if v.prev[k] != NULL {
      StoredNext(pool, saddr, v.tasks, v.prev[k], v.next[k], v);
    } else {
      assert next == v.next;
    }
    LinksWithout(Unlinked(pool, saddr, v, k), saddr, v.tasks, k, v1);
  }

  lemma FreedInPlace(saddr: nat, others: Runs, now: Snapshot, v: LinkView, spaces: seq<Space>, k: nat, pool: Bytes)
    requires Holding(saddr, others, now, v, spaces) && k < |v.tasks| && Keeps(saddr, v, spaces, k)
    requires v.next[k] < TWO_32 && SomeBlock(saddr, |now.pool|, v.prev[k])
    requires pool == Unlinked(now.pool, saddr, v, k)
    ensures AllInPlace(pool, saddr, Without(v.tasks, k), Without(spaces, k))
  {
    forall i | 0 <= i < |v.tasks| - 1
      ensures InPlace(pool, saddr, Without(v.tasks, k)[i], Without(spaces, k)[i])
    {
      WithoutAt(v.tasks, k, i);
      WithoutAt(spaces, k, i);
      var o := if i < k then i else i + 1;
      assert InPlace(now.pool, saddr, v.tasks[o], spaces[o]);
      if v.prev[k] != NULL {
        KeepsApart(saddr, others, now, v, spaces, k, o);
        InPlaceStored(now.pool, saddr, v.tasks[o], spaces[o], v.prev[k], NEXT, v.next[k]);
      }
    }
  }

  lemma FreedOwned(saddr: nat, others: Runs, now: Snapshot, u: Snapshot, v: LinkView, spaces: seq<Space>, k: nat)
    requires Holding(saddr, others, now, v, spaces) && k < |v.tasks|
    requires u.runs == now.runs - SetOf(OwnBlocks(saddr, v.tasks[k], spaces[k]))
    ensures Owned(others, u.runs, Flatten(Lists(saddr, Without(v.tasks, k), Without(spaces, k))))
  {
    var lists := Lists(saddr, v.tasks, spaces);
    FlattenSplit(lists, k);
    OwnedLess(others, now.runs, Flatten(lists[..k]), lists[k], Flatten(lists[k + 1..]));
    ListsWithout(saddr, v.tasks, spaces, k);
  }

  lemma FreedPrev(saddr: nat, size: nat, v: LinkView, k: nat)
    requires Sized(v) && k < |v.tasks| && forall i :: 0 <= i < |v.prev| ==> SomeBlock(saddr, size, v.prev[i])
    ensures forall i :: 0 <= i < |v.prev| - 1 ==> SomeBlock(saddr, size, Removed(v, k).prev[i])
  {
    forall i | 0 <= i < |v.prev| - 1
      ensures Removed(v, k).prev[i] == v.prev[if i < k then i else i + 1]
    {
      WithoutAt(v.prev, k, i);
    }
  }

  lemma FreedView(saddr: nat, others: Runs, now: Snapshot, v: LinkView, spaces: seq<Space>, k: nat, w: LinkView)
    requires Holding(saddr, others, now, v, spaces) && k < |v.tasks| && w == Removed(v, k)
    ensures v.next[k] < TWO_32 && SomeBlock(saddr, |now.pool|, v.prev[k])
    ensures w == Links(Unlinked(now.pool, saddr, v, k), saddr, w.tasks, w.head, w.tail, w.current)
    ensures forall i :: 0 <= i < |w.prev| ==> SomeBlock(saddr, |now.pool|, w.prev[i])
  {
    forall i | 0 <= i < |v.tasks|
      ensures TaskBlock(saddr, |now.pool|, v.tasks[i])
    {
      TaskBlockOwned(saddr, others, now, v, spaces, i);
    }
    UnlinkedLinks(now.pool, saddr, v, k);
    FreedPrev(saddr, |now.pool|, v, k);
  }

  /** Freeing a task that keeps the books does so ... */
  lemma FreedKeeps(saddr: nat, others: Runs, now: Snapshot, u: Snapshot, v: LinkView, spaces: seq<Space>, k: nat)
    requires Holding(saddr, others, now, v, spaces) && k < |v.tasks| && Keeps(saddr, v, spaces, k)
    requires u.pool == Unlinked(now.pool, saddr, v, k)
    requires u.runs == now.runs - SetOf(OwnBlocks(saddr, v.tasks[k], spaces[k]))
    requires forall b :: b in u.runs ==> b !in u.free
    ensures Holding(saddr, others, u, Removed(v, k), Without(spaces, k))
  {
    var w := Removed(v, k);
    FreedView(saddr, others, now, v, spaces, k, w);
    KeepsMends(saddr, v, spaces, k);
    RemovedLinked(v, k);
    FreedInPlace(saddr, others, now, v, spaces, k, u.pool);
    FreedOwned(saddr, others, now, u, v, spaces, k);
    Booked(saddr, others, u, w, Without(spaces, k));
  }

  lemma TableOfAligned(t: uint32)
    requires t % BLOCK_SIZE == 0
    ensures TableOf(t) == t
  {
  }

  /** A task's address stored at the link offset of a directory's block. */
  lemma EntryOverwritten(pool: Bytes, saddr: nat, dir: nat, p: nat, t: uint32, pool': Bytes)
    requires saddr % BLOCK_SIZE == 0 && TaskBlock(saddr, |pool|, p) && BlockOf(saddr, p) == dir
    requires TaskBlock(saddr, |pool|, t) && pool' == StoreField(pool, saddr, p, NEXT, t)
    ensures Fitted(pool', dir) && TableOf(Load32(pool', dir * BLOCK_SIZE + NEXT)) == t
  {
    AddressOfBlock(saddr, |pool|, p);
    AddressOfBlock(saddr, |pool|, t);
    LoadStore32(pool, p - saddr + NEXT, t);
    TableOfAligned(t);
  }

  lemma LostTable(saddr: nat, size: nat, t: nat, sp: Space)
    requires TaskBlock(saddr, size, t) && BlockOf(saddr, t) !in sp.Blocks()
    ensures |sp.tabs| > 14 ==> t != saddr + sp.tabs[14] * BLOCK_SIZE
  {
    AddressOfBlock(saddr, size, t);
    if |sp.tabs| > 14 {
      assert sp.Blocks()[15] == sp.tabs[14];
    }
  }

  lemma LostParts(saddr: nat, others: Runs, now: Snapshot, v: LinkView, spaces: seq<Space>, i: nat,
                  p: nat, sp: Space, t: nat)
    requires Holding(saddr, others, now, v, spaces) && 0 < i < |v.tasks|
    requires p == v.prev[0] != NULL && sp == spaces[i] && t == v.tasks[1]
    ensures saddr % BLOCK_SIZE == 0 && TaskBlock(saddr, |now.pool|, p) && TaskBlock(saddr, |now.pool|, t)
    ensures t < TWO_32 && v.next[0] == t
    ensures |sp.tabs| > 14 && t != saddr + sp.tabs[14] * BLOCK_SIZE
  {
    TaskNotInSpace(saddr, others, now, v, spaces, 1, i);
    LostTable(saddr, |now.pool|, t, sp);
    assert SomeBlock(saddr, |now.pool|, p) && InPlace(now.pool, saddr, v.tasks[i], sp);
    assert v.next[0] == Field(now.pool, saddr, v.tasks[0], NEXT);
  }

  /** A stale prev of the first task that names the directory of the i-th: its entry 14 is
    * overwritten with the second task's address, and the table it led to is lost. */
  lemma DirectoryLost(saddr: nat, others: Runs, now: Snapshot, v: LinkView, spaces: seq<Space>, i: nat, pool: Bytes)
    requires Holding(saddr, others, now, v, spaces) && 0 < i < |v.tasks|
    requires v.prev[0] != NULL && BlockOf(saddr, v.prev[0]) == spaces[i].dir
    requires pool == Unlinked(now.pool, saddr, v, 0)
    ensures Fitted(pool, spaces[i].dir)
    ensures TableOf(Load32(pool, spaces[i].dir * BLOCK_SIZE + NEXT)) == v.tasks[1]
    ensures |spaces[i].tabs| > 14 && v.tasks[1] != saddr + spaces[i].tabs[14] * BLOCK_SIZE
  {
    var p, sp, t := v.prev[0], spaces[i], v.tasks[1];
    LostParts(saddr, others, now, v, spaces, i, p, sp, t);
    EntryOverwritten(now.pool, saddr, sp.dir, p, t, pool);
  }

  lemma NotMapped(pool: Bytes, saddr: nat, sp: Space, t: nat)
    requires |sp.tabs| > 14 && Fitted(pool, sp.dir)
    requires TableOf(Load32(pool, sp.dir * BLOCK_SIZE + NEXT)) == t != saddr + sp.tabs[14] * BLOCK_SIZE
    ensures !Mapped(pool, saddr, sp)
  {
    assert NEXT == 4 * 14;
  }

  lemma NotInPlace(pool: Bytes, saddr: nat, tasks: seq<nat>, spaces: seq<Space>, i: nat)
    requires 0 < i < |tasks| == |spaces| && !Mapped(pool, saddr, spaces[i])
    ensures !AllInPlace(pool, saddr, Without(tasks, 0), Without(spaces, 0))
  {
    WithoutAt(tasks, 0, i - 1);
    WithoutAt(spaces, 0, i - 1);
    assert !InPlace(pool, saddr, Without(tasks, 0)[i - 1], Without(spaces, 0)[i - 1]);
  }

  lemma DirectoryBroken(saddr: nat, others: Runs, now: Snapshot, v: LinkView, spaces: seq<Space>, i: nat, pool: Bytes)
    requires Holding(saddr, others, now, v, spaces) && 0 < i < |v.tasks|
    requires v.prev[0] != NULL && BlockOf(saddr, v.prev[0]) == spaces[i].dir
    requires pool == Unlinked(now.pool, saddr, v, 0)
    ensures !AllInPlace(pool, saddr, Without(v.tasks, 0), Without(spaces, 0))
  {
    DirectoryLost(saddr, others, now, v, spaces, i, pool);
    NotMapped(pool, saddr, spaces[i], v.tasks[1]);
    NotInPlace(pool, saddr, v.tasks, spaces, i);
  }

  /** ... and no other one does. */
  lemma FreedLoses(saddr: nat, others: Runs, now: Snapshot, u: Snapshot, v: LinkView, spaces: seq<Space>, k: nat)
    requires Holding(saddr, others, now, v, spaces) && k < |v.tasks| && !Keeps(saddr, v, spaces, k)
    requires u.pool == Unlinked(now.pool, saddr, v, k)
    ensures !Holding(saddr, others, u, Removed(v, k), Without(spaces, k))
  {
    RemovedLinked(v, k);
    if Mends(v, k) {
      var i :| 1 <= i < |spaces| && BlockOf(saddr, v.prev[0]) == spaces[i].dir;
      DirectoryBroken(saddr, others, now, v, spaces, i, u.pool);
    }
  }

  /** What freeing needs of the task: its address space is all there, and its own block apart. */
  lemma FreedRuns(saddr: nat, others: Runs, now: Snapshot, v: LinkView, spaces: seq<Space>, k: nat,
                  b: nat, own: seq<nat>, bs: seq<nat>)
    requires Holding(saddr, others, now, v, spaces) && k < |v.tasks| && b == BlockOf(saddr, v.tasks[k])
    requires own == OwnBlocks(saddr, v.tasks[k], spaces[k]) && bs == spaces[k].Blocks()
    ensures forall c :: c in bs ==> c in now.runs
    ensures b in now.runs && b !in bs && now.runs[b] == 1
    ensures now.runs - SetOf(bs) - {b} == now.runs - SetOf(own)
  {
    TaskBlockOwned(saddr, others, now, v, spaces, k);
    TaskNotInSpace(saddr, others, now, v, spaces, k, k);
    forall c | c in own
      ensures c in now.runs
    {
      FlattenHas(Lists(saddr, v.tasks, spaces), k, c);
    }
    assert SetOf(own) == {b} + SetOf(bs);
    assert forall c :: c in bs ==> c in own;
  }

  /** The k-th task and its links are in memory. */
  ghost predicate LinkedTo(saddr: nat, pool: Bytes, v: LinkView, k: nat, task: nat) {
    && Sized(v) && k < |v.tasks| && task == v.tasks[k] && TaskBlock(saddr, |pool|, task)
    && v.next[k] == Field(pool, saddr, task, NEXT) && v.prev[k] == Field(pool, saddr, task, PREV)
    && SomeBlock(saddr, |pool|, v.prev[k])
  }

  /** The removed task's own next, as it is read after the predecessor was written. */
  lemma UnlinkedOwn(pool: Bytes, pool': Bytes, saddr: nat, v: LinkView, k: nat, task: nat)
    requires LinkedTo(saddr, pool, v, k, task) && pool' == Unlinked(pool, saddr, v, k)
    ensures Sized(v) && k < |v.tasks| && Field(pool', saddr, task, NEXT) == NextAfter(v, k)
  {
    if v.prev[k] != NULL {
      StoredField(pool, saddr, v.prev[k], NEXT, v.next[k], task, NEXT);
    }
  }

  // ----- what a removal writes to -----

  /** Every block that is in use once the k-th task is gone, but for its predecessor's, keeps
    * its bytes. */
  ghost predicate StillKept(saddr: nat, now: Snapshot, pool: Bytes, v: LinkView, spaces: seq<Space>, k: nat)
    requires k < |v.tasks| == |spaces|
  {
    forall c: nat :: c !in now.free && c !in OwnBlocks(saddr, v.tasks[k], spaces[k])
                     && !(k > 0 && c == BlockOf(saddr, v.tasks[k - 1])) ==>
      SameBlock(now.pool, pool, c)
  }

  /** prev is right or names nothing, or a block that is free or the task's own, or one where
    * the word to be written is there already. */
  ghost predicate Harmless(saddr: nat, now: Snapshot, v: LinkView, spaces: seq<Space>, k: nat)
    requires k < |v.tasks| == |spaces| == |v.prev| == |v.next|
  {
    var p := v.prev[k];
    || p == NULL || (k > 0 && p == v.tasks[k - 1])
    || BlockOf(saddr, p) in now.free || BlockOf(saddr, p) in OwnBlocks(saddr, v.tasks[k], spaces[k])
    || Field(now.pool, saddr, p, NEXT) == v.next[k]
  }

  lemma BytesOf(v: nat, b0: uint8, b1: uint8, b2: uint8, b3: uint8)
    requires v == b0 + 0x100 * b1 + 0x1_0000 * b2 + 0x100_0000 * b3
    ensures v % 0x100 == b0 && v / 0x100 % 0x100 == b1
    ensures v / 0x1_0000 % 0x100 == b2 && v / 0x100_0000 == b3
  {
    var w := b1 + 0x100 * b2 + 0x1_0000 * b3;
    var x := b2 + 0x100 * b3;
    assert v == 0x100 * w + b0 && w == 0x100 * x + b1;
    assert v / 0x100 == w && w / 0x100 == x && x / 0x100 == b3;
  }

  lemma StoreBack(pool: Bytes, a: nat)
    requires a + 4 <= |pool|
    ensures Store32(pool, a, Load32(pool, a)) == pool
  {
    BytesOf(Load32(pool, a), pool[a], pool[a + 1], pool[a + 2], pool[a + 3]);
  }

  lemma StoredOther(pool: Bytes, saddr: nat, p: nat, value: uint32, pool': Bytes)
    requires TaskBlock(saddr, |pool|, p) && pool' == StoreField(pool, saddr, p, NEXT, value)
    requires SameBlock(pool, pool', BlockOf(saddr, p))
    ensures Field(pool, saddr, p, NEXT) == value
  {
    FieldKept(pool, pool', saddr, p, NEXT);
    StoredField(pool, saddr, p, NEXT, value, p, NEXT);
  }

  lemma StoredSame(pool: Bytes, saddr: nat, p: nat, value: uint32)
    requires TaskBlock(saddr, |pool|, p)
    ensures SameBlock(pool, StoreField(pool, saddr, p, NEXT, value), BlockOf(saddr, p))
            <==> Field(pool, saddr, p, NEXT) == value
  {
    var pool' := StoreField(pool, saddr, p, NEXT, value);
    if SameBlock(pool, pool', BlockOf(saddr, p)) {
      StoredOther(pool, saddr, p, value, pool');
    }
    if Field(pool, saddr, p, NEXT) == value {
      StoreBack(pool, p - saddr + NEXT);
    }
  }

  /** Freeing a task changes nothing that others still use if and only if it is harmless. */
  lemma KeptIff(saddr: nat, now: Snapshot, pool: Bytes, v: LinkView, spaces: seq<Space>, k: nat)
    requires k < |v.tasks| == |spaces| == |v.prev| == |v.next| && v.next[k] < TWO_32
    requires SomeBlock(saddr, |now.pool|, v.prev[k])
    requires k > 0 ==> TaskBlock(saddr, |now.pool|, v.tasks[k - 1])
    requires pool == Unlinked(now.pool, saddr, v, k)
    ensures StillKept(saddr, now, pool, v, spaces, k) <==> Harmless(saddr, now, v, spaces, k)
  {
    var p := v.prev[k];
    if p != NULL {
      var b := BlockOf(saddr, p);
      StoredElsewhere(now.pool, saddr, p, NEXT, v.next[k]);
      StoredSame(now.pool, saddr, p, v.next[k]);
      if k > 0 {
        SameBlockOf(saddr, |now.pool|, p, v.tasks[k - 1]);
      }
    }
  }

  // ----- going round -----

  lemma FollowCurrent(saddr: nat, others: Runs, now: Snapshot, v: LinkView, spaces: seq<Space>)
    requires Holding(saddr, others, now, v, spaces) && v.current != NULL
    ensures TaskBlock(saddr, |now.pool|, v.current)
    ensures var next := Field(now.pool, saddr, v.current, NEXT);
            Follow(v, v.current) == if next == NULL then v.head else next
  {
    var i: nat :| i < |v.tasks| && v.tasks[i] == v.current;
    TaskBlockOwned(saddr, others, now, v, spaces, i);
    FollowAt(v, i);
  }

  // ----- the books, closed -----

  predicate Opened(page: nat) {
    page >= 0
  }

  /** Holding, under a quantifier that only serves to keep the verifier from unfolding it
    * wherever it is passed along; Open unfolds it. */
  ghost predicate Balanced(saddr: nat, others: Runs, now: Snapshot, v: LinkView, spaces: seq<Space>) {
    forall page: nat :: Opened(page) ==> Holding(saddr, others, now, v, spaces)
  }

  lemma Open(saddr: nat, others: Runs, now: Snapshot, v: LinkView, spaces: seq<Space>)
    requires Balanced(saddr, others, now, v, spaces)
    ensures Holding(saddr, others, now, v, spaces)
  {
    assert Opened(0);
  }

  lemma BalancedStart(saddr: nat, now: Snapshot, v: LinkView)
    requires forall b :: b in now.runs ==> b !in now.free
    requires v == LinkView([], [], [], NULL, NULL, NULL)
    ensures Balanced(saddr, now.runs, now, v, [])
  {
    assert now.runs == now.runs + Ones([]);
  }

  lemma BalancedEmpty(saddr: nat, others: Runs, now: Snapshot, v: LinkView, spaces: seq<Space>)
    requires Balanced(saddr, others, now, v, spaces) && v.tasks == []
    ensures now.runs == others
  {
    Open(saddr, others, now, v, spaces);
    assert Flatten(Lists(saddr, v.tasks, spaces)) == [];
    assert now.runs == others + Ones([]) == others;
  }

  /** Another client has done something with the heap, without touching what the tasks own. */
  ghost predicate ClientStep(saddr: nat, t: Snapshot, u: Snapshot, v: LinkView, spaces: seq<Space>) {
    && |spaces| == |v.tasks| && |u.pool| == |t.pool|
    && (forall b :: b in u.runs ==> b !in u.free)
    && forall b :: b in Flatten(Lists(saddr, v.tasks, spaces)) ==>
         b in u.runs && u.runs[b] == 1 && SameBlock(t.pool, u.pool, b)
  }

  lemma OwnedStill(others: Runs, runs: Runs, runs': Runs, blocks: seq<nat>)
    requires Owned(others, runs, blocks) && forall b :: b in blocks ==> b in runs' && runs'[b] == 1
    ensures Owned(runs' - SetOf(blocks), runs', blocks)
  {
    assert runs' == (runs' - SetOf(blocks)) + Ones(blocks);
  }

  lemma ClientLeaves(saddr: nat, others: Runs, t: Snapshot, u: Snapshot, v: LinkView, spaces: seq<Space>, i: nat)
    requires Holding(saddr, others, t, v, spaces) && ClientStep(saddr, t, u, v, spaces) && i < |v.tasks|
    ensures TaskBlock(saddr, |t.pool|, v.tasks[i])
    ensures SameBlock(t.pool, u.pool, BlockOf(saddr, v.tasks[i])) && InPlace(u.pool, saddr, v.tasks[i], spaces[i])
  {
    TaskBlockOwned(saddr, others, t, v, spaces, i);
    var own := OwnBlocks(saddr, v.tasks[i], spaces[i]);
    assert own[0] in own;
    forall b | b in own
      ensures SameBlock(t.pool, u.pool, b)
    {
      FlattenHas(Lists(saddr, v.tasks, spaces), i, b);
    }
    InPlaceKept(t.pool, u.pool, saddr, v.tasks[i], spaces[i]);
  }

  lemma BalancedClient(saddr: nat, others: Runs, t: Snapshot, u: Snapshot, v: LinkView, spaces: seq<Space>)
    requires Balanced(saddr, others, t, v, spaces) && ClientStep(saddr, t, u, v, spaces)
    ensures Balanced(saddr, u.runs - SetOf(Flatten(Lists(saddr, v.tasks, spaces))), u, v, spaces)
  {
    Open(saddr, others, t, v, spaces);
    var lists := Lists(saddr, v.tasks, spaces);
    OwnedStill(others, t.runs, u.runs, Flatten(lists));
    forall i | 0 <= i < |v.tasks|
      ensures TaskBlock(saddr, |t.pool|, v.tasks[i])
      ensures SameBlock(t.pool, u.pool, BlockOf(saddr, v.tasks[i])) && InPlace(u.pool, saddr, v.tasks[i], spaces[i])
    {
      ClientLeaves(saddr, others, t, u, v, spaces, i);
    }
    LinksKept(t.pool, u.pool, saddr, v.tasks, v);
    Booked(saddr, u.runs - SetOf(Flatten(lists)), u, v, spaces);
  }

  /** From t0 the task was allocated, which gave t1, and joined, which gave u. */
  ghost predicate CreatedTo(saddr: nat, t0: Snapshot, t1: Snapshot, u: Snapshot, v: LinkView, t: nat, sp: Space) {
    && Detached(saddr, t0, t1, t, sp) && t < TWO_32 && v.tail < TWO_32
    && (v.head != NULL ==> TaskBlock(saddr, |t1.pool|, v.tail))
    && u == t1.(pool := Joined(t1.pool, saddr, v, t))
  }

  lemma BalancedCreated(saddr: nat, others: Runs, t0: Snapshot, t1: Snapshot, u: Snapshot, v: LinkView,
                        spaces: seq<Space>, t: uint32, sp: Space, w: LinkView, spaces': seq<Space>)
    requires Balanced(saddr, others, t0, v, spaces) && CreatedTo(saddr, t0, t1, u, v, t, sp)
    requires w == Added(v, t) && spaces' == spaces + [sp]
    ensures Balanced(saddr, others, u, w, spaces')
    ensures Sized(w) && |spaces'| == |w.tasks|
  {
    Open(saddr, others, t0, v, spaces);
    Created(saddr, others, t0, t1, u, v, spaces, t, sp);
  }

  lemma BalancedFresh(saddr: nat, others: Runs, t0: Snapshot, t1: Snapshot, u: Snapshot, v: LinkView,
                      spaces: seq<Space>, t: uint32, sp: Space, flags: nat, low: nat)
    requires Balanced(saddr, others, t0, v, spaces) && CreatedTo(saddr, t0, t1, u, v, t, sp)
    requires FreshSpace(t1.pool, saddr, sp, flags, low)
    ensures FreshSpace(u.pool, saddr, sp, flags, low)
  {
    Open(saddr, others, t0, v, spaces);
    JoinedFresh(saddr, others, t0, t1, v, spaces, t, sp, flags, low);
  }

  lemma BalancedJoinable(saddr: nat, others: Runs, t0: Snapshot, t1: Snapshot, v: LinkView,
                         spaces: seq<Space>, t: uint32, sp: Space)
    requires Balanced(saddr, others, t0, v, spaces) && Detached(saddr, t0, t1, t, sp) && v.tail < TWO_32
    ensures TaskBlock(saddr, |t1.pool|, t) && t != NULL && t !in v.tasks
    ensures v.head != NULL ==> TaskBlock(saddr, |t1.pool|, v.tail)
  {
    Open(saddr, others, t0, v, spaces);
    Joinable(saddr, others, t0, t1, v, spaces, t, sp);
  }

  /** The k-th task can be freed: it is linked in memory, and its directory, whatever it holds,
    * leads to blocks that can be freed. */
  ghost predicate Freeing(saddr: nat, now: Snapshot, v: LinkView, sp: Space, k: nat) {
    && Sized(v) && k < |v.tasks|
    && LinkedTo(saddr, now.pool, v, k, v.tasks[k])
    && Field(now.pool, saddr, v.tasks[k], PAGE_DIRECTORY) == saddr + sp.chunk * BLOCK_SIZE
    && DirectoryIn(now.pool, saddr, sp) && AllFreeable(now.runs, sp.Blocks())
    && Freeable(now.runs - SetOf(sp.Blocks()), BlockOf(saddr, v.tasks[k]))
  }

  /** From now to u it has been freed. */
  ghost predicate FreedTo(saddr: nat, now: Snapshot, u: Snapshot, v: LinkView, sp: Space, k: nat) {
    && k < |v.tasks|
    && u.pool == Unlinked(now.pool, saddr, v, k)
    && u.runs == now.runs - SetOf(sp.Blocks()) - {BlockOf(saddr, v.tasks[k])}
  }

  lemma BalancedTask(saddr: nat, others: Runs, now: Snapshot, v: LinkView, spaces: seq<Space>, k: nat)
    requires Balanced(saddr, others, now, v, spaces) && k < |v.tasks| == |spaces|
    ensures Freeing(saddr, now, v, spaces[k], k)
  {
    Open(saddr, others, now, v, spaces);
    var sp, b := spaces[k], BlockOf(saddr, v.tasks[k]);
    FreedRuns(saddr, others, now, v, spaces, k, b, OwnBlocks(saddr, v.tasks[k], sp), sp.Blocks());
    assert InPlace(now.pool, saddr, v.tasks[k], sp);
    MappedIn(now.pool, saddr, sp);
    assert SomeBlock(saddr, |now.pool|, v.prev[k]);
    assert v.next[k] == Field(now.pool, saddr, v.tasks[k], NEXT);
    assert v.prev[k] == Field(now.pool, saddr, v.tasks[k], PREV);
  }

  /** Freeing a task keeps the books if and only if its prev allows it. */
  lemma BalancedFreed(saddr: nat, others: Runs, now: Snapshot, u: Snapshot, v: LinkView,
                      spaces: seq<Space>, k: nat, w: LinkView, spaces': seq<Space>)
    requires Balanced(saddr, others, now, v, spaces) && k < |spaces| && FreedTo(saddr, now, u, v, spaces[k], k)
    requires Sized(v) && |spaces| == |v.tasks| && forall b :: b in u.runs ==> b !in u.free
    requires w == Removed(v, k) && spaces' == Without(spaces, k)
    ensures Balanced(saddr, others, u, w, spaces') <==> Keeps(saddr, v, spaces, k)
    ensures w == Links(u.pool, saddr, w.tasks, w.head, w.tail, w.current)
    ensures Sized(w) && |spaces'| == |w.tasks|
  {
    Open(saddr, others, now, v, spaces);
    BalancedTask(saddr, others, now, v, spaces, k);
    FreedRuns(saddr, others, now, v, spaces, k, BlockOf(saddr, v.tasks[k]), OwnBlocks(saddr, v.tasks[k], spaces[k]),
              spaces[k].Blocks());
    FreedView(saddr, others, now, v, spaces, k, w);
    if Keeps(saddr, v, spaces, k) {
      FreedKeeps(saddr, others, now, u, v, spaces, k);
    } else {
      FreedLoses(saddr, others, now, u, v, spaces, k);
      if Balanced(saddr, others, u, w, spaces') {
        Open(saddr, others, u, w, spaces');
      }
    }
  }

  lemma BalancedKept(saddr: nat, others: Runs, now: Snapshot, pool: Bytes, v: LinkView, spaces: seq<Space>, k: nat)
    requires Balanced(saddr, others, now, v, spaces) && k < |v.tasks| == |spaces| == |v.prev| == |v.next|
    requires pool == Unlinked(now.pool, saddr, v, k)
    ensures StillKept(saddr, now, pool, v, spaces, k) <==> Harmless(saddr, now, v, spaces, k)
  {
    Open(saddr, others, now, v, spaces);
    FreedView(saddr, others, now, v, spaces, k, Removed(v, k));
    if k > 0 {
      TaskBlockOwned(saddr, others, now, v, spaces, k - 1);
    }
    KeptIff(saddr, now, pool, v, spaces, k);
  }

  /** What freeing the k-th task does, from t to u: to memory and heap, to the list, and to what
    * others use. */
  ghost predicate FreeEffect(saddr: nat, t: Snapshot, u: Snapshot, v: LinkView, spaces: seq<Space>, k: nat,
                             w: LinkView, spaces': seq<Space>) {
    && Sized(v) && k < |v.tasks| == |spaces| && FreedTo(saddr, t, u, v, spaces[k], k)
    && w == Removed(v, k) && spaces' == Without(spaces, k) && Sized(w) && |spaces'| == |w.tasks|
    && w == Links(u.pool, saddr, w.tasks, w.head, w.tail, w.current)
    && (Linked(w) <==> Mends(v, k))
    && (StillKept(saddr, t, u.pool, v, spaces, k) <==> Harmless(saddr, t, v, spaces, k))
  }

  lemma BalancedLinked(saddr: nat, others: Runs, now: Snapshot, v: LinkView, spaces: seq<Space>)
    requires Balanced(saddr, others, now, v, spaces)
    ensures Linked(v) && (v.head == NULL <==> v.tasks == [])
  {
    Open(saddr, others, now, v, spaces);
  }

  lemma BalancedEffect(saddr: nat, others: Runs, t: Snapshot, u: Snapshot, v: LinkView, spaces: seq<Space>, k: nat,
                       w: LinkView, spaces': seq<Space>)
    requires Balanced(saddr, others, t, v, spaces) && k < |v.tasks| == |spaces| && Sized(v)
    requires FreedTo(saddr, t, u, v, spaces[k], k) && forall b :: b in u.runs ==> b !in u.free
    requires w == Removed(v, k) && spaces' == Without(spaces, k)
    ensures FreeEffect(saddr, t, u, v, spaces, k, w, spaces')
    ensures Balanced(saddr, others, u, w, spaces') <==> Keeps(saddr, v, spaces, k)
  {
    BalancedLinked(saddr, others, t, v, spaces);
    RemovedLinked(v, k);
    BalancedFreed(saddr, others, t, u, v, spaces, k, w, spaces');
    BalancedKept(saddr, others, t, u.pool, v, spaces, k);
  }

  lemma BalancedFollow(saddr: nat, others: Runs, now: Snapshot, v: LinkView, spaces: seq<Space>)
    requires Balanced(saddr, others, now, v, spaces) && v.current != NULL && Sized(v)
    ensures TaskBlock(saddr, |now.pool|, v.current)
    ensures var next := Field(now.pool, saddr, v.current, NEXT);
            Follow(v, v.current) == if next == NULL then v.head else next
  {
    Open(saddr, others, now, v, spaces);
    FollowCurrent(saddr, others, now, v, spaces);
  }

  /** The same tasks, the same block table. */
  lemma BalancedSame(saddr: nat, others: Runs, now: Snapshot, v: LinkView, spaces: seq<Space>,
                     now': Snapshot, v': LinkView, t: Table, t': Table)
    requires Balanced(saddr, others, now, v, spaces) && Balanced(saddr, others, now', v', spaces)
    requires v'.tasks == v.tasks
    requires Encodes(t, now.runs) && Encodes(t', now'.runs) && |t| == |t'|
    ensures now'.runs == now.runs && t' == t
  {
    Open(saddr, others, now, v, spaces);
    Open(saddr, others, now', v', spaces);
    TableDetermined(t, t', now.runs);
  }

  // ----- creating and freeing again -----

  /** Memory outside the task's own block after linking behind the tail and unlinking. */
  lemma JoinedThenUnlinked(pool: Bytes, saddr: nat, tail: nat, t: nat, p1: Bytes, p2: Bytes, p3: Bytes, i: nat)
    requires TaskBlock(saddr, |pool|, tail) && TaskBlock(saddr, |pool|, t) && tail < TWO_32 && t < TWO_32
    requires Field(pool, saddr, tail, NEXT) == NULL
    requires p1 == StoreField(pool, saddr, tail, NEXT, t) && p2 == StoreField(p1, saddr, t, PREV, tail)
    requires p3 == StoreField(p2, saddr, tail, NEXT, NULL)
    requires i < |pool| && !InBlock(BlockOf(saddr, t), i)
    ensures p3[i] == pool[i]
  {
    var a := tail - saddr + NEXT;
    assert pool[a] == 0 && pool[a + 1] == 0 && pool[a + 2] == 0 && pool[a + 3] == 0;
    assert p2[i] == p1[i];
  }

  /** No block that was in use has changed, after creating a task and freeing it. */
  lemma NothingChanged(saddr: nat, t0: Snapshot, t1: Snapshot, u: Snapshot, v: LinkView, t: nat, sp: Space)
    requires Detached(saddr, t0, t1, t, sp) && t < TWO_32 && v.tail < TWO_32
    requires v.head != NULL ==> TaskBlock(saddr, |t1.pool|, v.tail) && Field(t1.pool, saddr, v.tail, NEXT) == NULL
    requires u.pool == if v.head == NULL then t1.pool
                       else StoreField(Joined(t1.pool, saddr, v, t), saddr, v.tail, NEXT, NULL)
    ensures SameLive(t0, u)
  {
    var own := OwnBlocks(saddr, t, sp);
    assert own[0] in own;
    if v.head != NULL {
      var p1 := StoreField(t1.pool, saddr, v.tail, NEXT, t);
      var p2 := StoreField(p1, saddr, t, PREV, v.tail);
      forall c: nat | c !in t0.free
        ensures SameBlock(t0.pool, u.pool, c)
      {
        assert SameBlock(t0.pool, t1.pool, c) && c != BlockOf(saddr, t);
        forall i | InBlock(c, i) && i < |t0.pool|
          ensures u.pool[i] == t1.pool[i]
        {
          JoinedThenUnlinked(t1.pool, saddr, v.tail, t, p1, p2, u.pool, i);
        }
      }
    }
  }

  /** The tail is the end of the list in memory, also once another task has been allocated. */
  lemma TailEnds(saddr: nat, others: Runs, t0: Snapshot, t1: Snapshot, v: LinkView, spaces: seq<Space>,
                 t: nat, sp: Space)
    requires Balanced(saddr, others, t0, v, spaces) && Detached(saddr, t0, t1, t, sp)
    ensures v.head != NULL ==> TaskBlock(saddr, |t1.pool|, v.tail) && Field(t1.pool, saddr, v.tail, NEXT) == NULL
    ensures v.head == NULL <==> v.tasks == []
  {
    Open(saddr, others, t0, v, spaces);
    TasksUntouched(saddr, others, t0, t1, v, spaces, t, sp);
    if v.head != NULL {
      var n := |v.tasks| - 1;
      assert v.next[n] == Field(t1.pool, saddr, v.tasks[n], NEXT);
    }
  }

  /** Creating a task and freeing it: the list and all memory in use are as before. */
  lemma RoundTrip(saddr: nat, others: Runs, t0: Snapshot, t1: Snapshot, u1: Snapshot, u2: Snapshot,
                  v: LinkView, spaces: seq<Space>, t: nat, sp: Space, w: LinkView, n: nat)
    requires Balanced(saddr, others, t0, v, spaces) && CreatedTo(saddr, t0, t1, u1, v, t, sp)
    requires t != NULL && t !in v.tasks && |spaces| == |v.tasks| == n && w == Added(v, t)
    requires FreedTo(saddr, u1, u2, w, sp, n)
    ensures SameLive(t0, u2)
  {
    BalancedLinked(saddr, others, t0, v, spaces);
    TailEnds(saddr, others, t0, t1, v, spaces, t, sp);
    CreatedThenRemoved(v, t);
    NothingChanged(saddr, t0, t1, u2, v, t, sp);
  }

  lemma LastKeeps(saddr: nat, v: LinkView, t: nat, spaces: seq<Space>)
    requires Linked(v) && t != NULL && t !in v.tasks && |spaces| == |v.tasks| + 1
    ensures Sized(Added(v, t)) && |Added(v, t).tasks| == |spaces|
    ensures Keeps(saddr, Added(v, t), spaces, |v.tasks|)
  {
    CreatedThenRemoved(v, t);
  }

  // ----- a freed task's block comes back -----

  /** A one-block run covers its own block only, so once it is gone nothing does. */
  lemma Uncovered(t: Table, runs: Runs, runs': Runs, b: nat)
    requires Encodes(t, runs) && b in runs && runs[b] == 1
    requires b !in runs' && forall s :: s in runs' ==> s in runs && runs'[s] == runs[s]
    ensures !InUse(runs', b)
  {
    OwnRun(t, runs, b);
    assert forall s: nat :: InRun(runs', s, b) ==> InRun(runs, s, b);
  }

  lemma FirstIs(runs: Runs, total: nat, f: nat, b: nat)
    requires FirstIn(runs, total, f) && b < total && !InUse(runs, b)
    ensures f == b <==> FullBelow(runs, b)
  {
    if FullBelow(runs, b) {
      FirstInUnique(runs, total, f, b);
    }
  }

  lemma {:induction false} SubsetSize(xs: set<nat>, ys: set<nat>)
    requires xs <= ys
    ensures |xs| <= |ys|
    decreases xs
  {
    if x :| x in xs {
      SubsetSize(xs - {x}, ys - {x});
    }
  }

  lemma MoreFree(t: Table, runs: Runs, t': Table, runs': Runs)
    requires Encodes(t, runs) && Encodes(t', runs') && |t| == |t'|
    requires forall s :: s in runs' ==> s in runs && runs'[s] == runs[s]
    ensures |FreeSet(t')| >= |FreeSet(t)|
  {
    FreeShrinks(t', runs', t, runs);
    SubsetSize(FreeSet(t), FreeSet(t'));
  }

  // ----- a stale prev -----

  lemma StoreIsEntry(pool: Bytes, saddr: nat, sp: Space, d: nat, p: nat, page: uint32, value: uint32)
    requires 0 < saddr && Mapped(pool, saddr, sp) && d < PAGING_TOTAL_ENTRIES_PER_TABLE
    requires p == saddr + sp.tabs[d] * BLOCK_SIZE && page == d * TABLE_SPAN + 14 * PAGING_PAGE_SIZE
    ensures TaskBlock(saddr, |pool|, p) && IsAligned(page) && EntriesFit(pool, sp.tabs)
    ensures StoreField(pool, saddr, p, NEXT, value) == SetEntry(pool, sp.tabs, page, value)
  {
    IndexSurjective(d, 14);
    BlockOfAddress(saddr, |pool|, sp.tabs[d]);
    assert EntryOffset(sp.tabs, page) == sp.tabs[d] * BLOCK_SIZE + NEXT;
  }

  /** A prev that names a block which has become a page table: removing the first task
    * remaps the fifteenth page of that table, whoever's it is. */
  lemma StalePrevRemaps(pool: Bytes, saddr: nat, v: LinkView, sp: Space, d: nat, page: uint32, w: uint32)
    requires Linked(v) && v.tasks != [] && v.next[0] < TWO_32
    requires 0 < saddr && Mapped(pool, saddr, sp) && d < PAGING_TOTAL_ENTRIES_PER_TABLE
    requires v.prev[0] == saddr + sp.tabs[d] * BLOCK_SIZE && page == d * TABLE_SPAN + 14 * PAGING_PAGE_SIZE
    requires IsAligned(w)
    ensures View(Unlinked(pool, saddr, v, 0), saddr, sp.dir, w)
            == if w == page then v.next[0] else View(pool, saddr, sp.dir, w)
  {
    StoreIsEntry(pool, saddr, sp, d, v.prev[0], page, v.next[0]);
    SetEntryExact(pool, saddr, sp.dir, sp.tabs, page, v.next[0]);
  }

  lemma BalancedFirst(saddr: nat, others: Runs, now: Snapshot, v: LinkView, spaces: seq<Space>,
                      first: nat, own: seq<nat>)
    requires Balanced(saddr, others, now, v, spaces) && v.tasks != [] && first == v.tasks[0]
    requires |spaces| == |v.tasks| && own == OwnBlocks(saddr, first, spaces[0])
    ensures Linked(v) && TaskBlock(saddr, |now.pool|, first)
    ensures var b := BlockOf(saddr, first); b in now.runs && now.runs[b] == 1 && b in own
    ensures now.runs - SetOf(spaces[0].Blocks()) - {BlockOf(saddr, first)} == now.runs - SetOf(own)
  {
    Open(saddr, others, now, v, spaces);
    TaskBlockOwned(saddr, others, now, v, spaces, 0);
    FreedRuns(saddr, others, now, v, spaces, 0, BlockOf(saddr, first), own, spaces[0].Blocks());
    assert own[0] in own;
  }

  lemma ReusedFirst(v: LinkView, first: nat, task: nat)
    requires Linked(v) && v.tasks != [] && first == v.tasks[0] && task != NULL
    ensures Sized(Added(Removed(v, 0), task)) && Added(Removed(v, 0), task).tasks != []
    ensures Reversed(v) && |v.tasks| > 1 && task == first ==> !Mends(Added(Removed(v, 0), task), 0)
  {
    if Reversed(v) && |v.tasks| > 1 {
      RemovedAt(v, 0, 0);
      assert PrevAt(v, 1);
      var w := Added(Removed(v, 0), task);
      assert w.tasks[1..][|v.tasks| - 2] == task;
    }
  }
}
