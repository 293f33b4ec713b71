/** task.c: a run in which a stale prev names another task's page directory, and what it
  * costs.
  */
module TaskLeak {
  import opened Machine
  import opened BlockHeap
  import opened KernelHeap
  import opened Paging
  import opened AddressSpaces
  import opened TaskLinks
  import opened TaskMemory
  import opened TaskOwnership
  import opened TaskLedger
  import opened TaskSetup
  import opened Tasks

  // ----- how much is free -----

  lemma {:induction false} SetOfSize(xs: seq<nat>)
    ensures |SetOf(xs)| <= |xs|
  {
    if xs == [] {
      assert SetOf(xs) == {};
    } else {
      SetOfSize(xs[1..]);
      assert SetOf(xs) == {xs[0]} + SetOf(xs[1..]);
    }
  }

  lemma MinusSize(xs: set<nat>, ys: set<nat>, zs: set<nat>)
    requires xs - ys <= zs
    ensures |zs| >= |xs| - |ys|
  {
    SubsetSize(xs - ys, zs);
    SubsetSize(xs * ys, ys);
  }

  /** Taking these blocks leaves the others free. */
  lemma TakenFree(t: Table, runs: Runs, t': Table, runs': Runs, own: seq<nat>)
    requires Encodes(t, runs) && Encodes(t', runs') && |t| == |t'| && runs' == runs + Ones(own)
    ensures |FreeSet(t')| >= |FreeSet(t)| - |own|
  {
    forall i | i in FreeSet(t) - SetOf(own)
      ensures i in FreeSet(t')
    {
      FreeIsZero(t, runs, i);
      FreeIsZero(t', runs', i);
      assert forall s: nat :: InRun(runs', s, i) ==> s in own || InRun(runs, s, i);
    }
    MinusSize(FreeSet(t), SetOf(own), FreeSet(t'));
    SetOfSize(own);
  }

  // ----- which blocks come first -----

  lemma FirstAbove(runs: Runs, total: nat, f: nat, x: nat)
    requires FirstIn(runs, total, f) && x in runs && runs[x] == 1 && FullBelow(runs, x)
    ensures x < f
  {
    assert InRun(runs, x, x);
    assert InUse(runs, x);
  }

  /** Block x has been given back, and blocks taken since do not cover it: it comes first. */
  lemma ReturnedFirst(t: Table, runs: Runs, x: nat, own: seq<nat>, runs': Runs)
    requires Encodes(t, runs) && x in runs && FullBelow(runs, x)
    requires x !in own && (forall b :: b in own ==> b !in runs) && runs' == (runs - {x}) + Ones(own)
    ensures FirstIn(runs', |t|, x)
  {
    OwnRun(t, runs, x);
    assert forall s: nat :: InRun(runs', s, x) ==> InRun(runs, s, x) && s != x;
    forall i | 0 <= i < x
      ensures InUse(runs', i)
    {
      assert InUse(runs, i);
      var s: nat :| InRun(runs, s, i);
      assert InRun(runs', s, i);
    }
  }

  /** And taken again it leaves block a, which came first when x was in use. */
  lemma StaleFirst(runs: Runs, total: nat, x: nat, own: seq<nat>, runs': Runs, a: nat)
    requires x in runs && runs[x] == 1 && FirstIn(runs, total, a)
    requires a !in own && (forall b :: b in own ==> b !in runs) && runs' == (runs - {x}) + Ones(own)
    ensures FirstIn(runs'[x := 1], total, a)
  {
    var r := runs'[x := 1];
    assert forall s: nat :: InRun(r, s, a) ==> InRun(runs, s, a);
    forall i | 0 <= i < a
      ensures InUse(r, i)
    {
      assert InUse(runs, i);
      var s: nat :| InRun(runs, s, i);
      assert InRun(r, s, i);
    }
  }

  // ----- two tasks -----

  lemma OwnSize(saddr: nat, t0: Snapshot, t1: Snapshot, t: nat, sp: Space)
    requires Detached(saddr, t0, t1, t, sp)
    ensures |OwnBlocks(saddr, t, sp)| == 1027
  {
    assert InPlace(t1.pool, saddr, t, sp);
  }

  /** A task costs 1027 blocks. */
  lemma CreatedFree(saddr: nat, t0: Snapshot, t1: Snapshot, u: Snapshot, v: LinkView, t: nat, sp: Space,
                    table: Table, table': Table)
    requires CreatedTo(saddr, t0, t1, u, v, t, sp)
    requires Encodes(table, t0.runs) && Encodes(table', u.runs) && |table| == |table'|
    ensures |FreeSet(table')| >= |FreeSet(table)| - 1027
  {
    OwnSize(saddr, t0, t1, t, sp);
    TakenFree(table, t0.runs, table', u.runs, OwnBlocks(saddr, t, sp));
  }

  method NewCounted(list: TaskList, process: uint32) returns (task: uint32, ghost sp: Space, ghost t1: Snapshot)
    requires list.Valid() && |list.k.FreeBlocks()| >= 1027
    modifies list, list.k.heap, list.k.heap.entries, list.k.pool
    ensures list.Valid() && list.view == Added(old(list.view), task) && list.spaces == old(list.spaces) + [sp]
    ensures list.others == old(list.others) && task != NULL && task !in old(list.view.tasks)
    ensures FirstBlocks(old(list.k.heap.runs), list.k.heap.total, BlockOf(list.k.heap.saddr, task), sp.dir)
    ensures CreatedTo(list.k.heap.saddr, old(Now(list.k)), t1, Now(list.k), old(list.view), task, sp)
    ensures |list.k.FreeBlocks()| >= |old(list.k.FreeBlocks())| - 1027
  {
    ghost var t0, v, table := Now(list.k), list.view, list.k.heap.Entries();
    task, sp, t1 := list.New(process);
    CreatedFree(list.k.heap.saddr, t0, t1, Now(list.k), v, task, sp, table, list.k.heap.Entries());
  }

  lemma FirstAdded(v: LinkView, a: nat)
    requires Linked(v) && v.tasks == []
    ensures Added(v, a).tasks == [a] && Added(v, a).prev == [NULL]
  {
  }

  lemma OwnTaken(saddr: nat, t0: Snapshot, t1: Snapshot, u: Snapshot, v: LinkView, t: nat, sp: Space)
    requires CreatedTo(saddr, t0, t1, u, v, t, sp)
    ensures BlockOf(saddr, t) in u.runs
    ensures forall b :: b in OwnBlocks(saddr, t, sp) ==> b !in t0.runs
  {
    assert OwnBlocks(saddr, t, sp)[0] == BlockOf(saddr, t);
  }

  method FirstTask(list: TaskList, process: uint32) returns (a: uint32)
    requires list.Valid() && list.view.tasks == [] && |list.k.FreeBlocks()| >= 1027
    modifies list, list.k.heap, list.k.heap.entries, list.k.pool
    ensures list.Valid() && list.others == old(list.k.heap.runs) && |list.spaces| == 1
    ensures list.view.tasks == [a] && list.view.prev == [NULL] && a != NULL
    ensures FirstIn(old(list.k.heap.runs), list.k.heap.total, BlockOf(list.k.heap.saddr, a))
    ensures BlockOf(list.k.heap.saddr, a) in list.k.heap.runs
    ensures |list.k.FreeBlocks()| >= |old(list.k.FreeBlocks())| - 1027
  {
    ghost var saddr, t0, v := list.k.heap.saddr, Now(list.k), list.view;
    BalancedEmpty(saddr, list.others, t0, v, list.spaces);
    BalancedLinked(saddr, list.others, t0, v, list.spaces);
    ghost var sp, t1;
    a, sp, t1 := NewCounted(list, process);
    FirstAdded(v, a);
    OwnTaken(saddr, t0, t1, Now(list.k), v, a, sp);
  }

  lemma BehindAdded(v: LinkView, a: nat, b: nat, c: nat)
    requires Linked(v) && v.tasks == [b] && v.prev == [a]
    ensures Added(v, c).tasks == [b, c] && Added(v, c).prev == [a, b]
  {
  }

  method SecondTask(list: TaskList, process: uint32, a: uint32) returns (b: uint32)
    requires list.Valid() && list.view.tasks == [a] && list.view.prev == [NULL] && |list.spaces| == 1
    requires BlockOf(list.k.heap.saddr, a) in list.k.heap.runs && |list.k.FreeBlocks()| >= 1027
    modifies list, list.k.heap, list.k.heap.entries, list.k.pool
    ensures list.Valid() && list.others == old(list.others)
    ensures list.view.tasks == [a, b] && list.view.prev == [NULL, a] && |list.spaces| == 2
    ensures BlockOf(list.k.heap.saddr, a) !in OwnBlocks(list.k.heap.saddr, b, list.spaces[1])
    ensures |list.k.FreeBlocks()| >= |old(list.k.FreeBlocks())| - 1027
  {
    ghost var saddr, t0, v := list.k.heap.saddr, Now(list.k), list.view;
    BalancedLinked(saddr, list.others, t0, v, list.spaces);
    ghost var sp, t1;
    b, sp, t1 := NewCounted(list, process);
    BehindAdded(v, NULL, a, b);
    OwnTaken(saddr, t0, t1, Now(list.k), v, b, sp);
  }

  // ----- the first one goes, and what the other client had -----

  lemma OneHeld(saddr: nat, others: Runs, now: Snapshot, v: LinkView, spaces: seq<Space>, b: nat, own: seq<nat>)
    requires Balanced(saddr, others, now, v, spaces) && v.tasks == [b] && |spaces| == 1
    requires own == OwnBlocks(saddr, b, spaces[0])
    ensures Flatten(Lists(saddr, v.tasks, spaces)) == own
    ensures now.runs == others + Ones(own) && forall c :: c in own ==> c !in others
  {
    Open(saddr, others, now, v, spaces);
    assert Lists(saddr, v.tasks, spaces) == [own];
    FlattenOne(own);
  }

  lemma FirstGone(v: LinkView, spaces: seq<Space>, a: nat, b: nat)
    requires Sized(v) && v.tasks == [a, b] && v.prev == [NULL, a] && |spaces| == 2
    ensures Removed(v, 0).tasks == [b] && Removed(v, 0).prev == [a] && Without(spaces, 0) == [spaces[1]]
  {
  }

  method FreeFirst(list: TaskList, a: uint32, ghost b: uint32)
    requires list.Valid() && list.view.tasks == [a, b] && list.view.prev == [NULL, a]
    modifies list, list.k.heap, list.k.heap.entries, list.k.pool
    ensures list.Valid() && list.others == old(list.others)
    ensures list.view.tasks == [b] && list.view.prev == [a] && list.spaces == old(list.spaces)[1..]
    ensures |list.k.FreeBlocks()| >= |old(list.k.FreeBlocks())|
  {
    ghost var runs, table := list.k.heap.runs, list.k.heap.Entries();
    FirstGone(list.view, list.spaces, a, b);
    list.Free(a, 0);
    MoreFree(table, runs, list.k.heap.Entries(), list.k.heap.runs);
  }

  lemma ClientFreed(saddr: nat, others: Runs, t: Snapshot, u: Snapshot, v: LinkView, spaces: seq<Space>, b: nat,
                    own: seq<nat>, x: nat)
    requires Balanced(saddr, others, t, v, spaces) && v.tasks == [b] && |spaces| == 1
    requires own == OwnBlocks(saddr, b, spaces[0]) && x in others
    requires u.pool == t.pool && u.runs == t.runs - {x} && forall c :: c in u.runs ==> c !in u.free
    ensures ClientStep(saddr, t, u, v, spaces)
    ensures u.runs - SetOf(Flatten(Lists(saddr, v.tasks, spaces))) == others - {x}
  {
    OneHeld(saddr, others, t, v, spaces, b, own);
  }

  /** The other client's kfree. */
  method GiveBack(list: TaskList, x: uint32, ghost block: nat, ghost b: uint32)
    requires list.Valid() && list.view.tasks == [b]
    requires block in list.others && block in list.k.heap.runs && x == list.k.heap.Address(block)
    modifies list, list.k.heap, list.k.heap.entries
    ensures list.Valid() && list.others == old(list.others) - {block}
    ensures list.view == old(list.view) && list.spaces == old(list.spaces)
    ensures list.k.heap.runs == old(list.k.heap.runs) - {block}
    ensures |list.k.FreeBlocks()| >= |old(list.k.FreeBlocks())|
  {
    ghost var saddr, t, table := list.k.heap.saddr, Now(list.k), list.k.heap.Entries();
    list.k.KFree(x, block);
    LiveNotFree(list.k);
    MoreFree(table, t.runs, list.k.heap.Entries(), list.k.heap.runs);
    ClientFreed(saddr, list.others, t, Now(list.k), list.view, list.spaces, b,
                OwnBlocks(saddr, b, list.spaces[0]), block);
    list.ClientActed(t);
  }

  // ----- the state in which prev names a directory -----

  /** The task made now gets block x, and its directory the block of the task that is gone. */
  lemma Reused(t: Table, runs: Runs, x: nat, a: nat, own: seq<nat>, runs': Runs, total: nat, c: nat, dir: nat)
    requires Encodes(t, runs) && total == |t| && x in runs && runs[x] == 1 && FullBelow(runs, x)
    requires FirstIn(runs, total, a) && a !in own && x !in own
    requires (forall b :: b in own ==> b !in runs) && runs' == (runs - {x}) + Ones(own)
    requires FirstBlocks(runs', total, c, dir)
    ensures c == x && dir == a && a != x
  {
    FirstAbove(runs, total, a, x);
    ReturnedFirst(t, runs, x, own, runs');
    FirstInUnique(runs', total, c, x);
    StaleFirst(runs, total, x, own, runs', a);
    FirstInUnique(runs'[x := 1], total, dir, a);
  }

  /** Two tasks; prev of the first names the directory of the second. */
  ghost predicate Stale(saddr: nat, v: LinkView, spaces: seq<Space>, b: nat, c: nat) {
    && Sized(v) && |spaces| == 2 && v.tasks == [b, c]
    && v.prev[0] != NULL && BlockOf(saddr, v.prev[0]) == spaces[1].dir
  }

  /** The third task, when the other client's block x is free again. */
  method NewOver(list: TaskList, process: uint32, ghost a: uint32, ghost b: uint32, ghost runs: Runs,
                 ghost table: Table, ghost x: nat) returns (c: uint32)
    requires list.Valid() && |list.k.FreeBlocks()| >= 1027
    requires list.view.tasks == [b] && list.view.prev == [a] && a != NULL && list.others == runs - {x}
    requires Encodes(table, runs) && |table| == list.k.heap.total
    requires x in runs && runs[x] == 1 && FullBelow(runs, x)
    requires FirstIn(runs, list.k.heap.total, BlockOf(list.k.heap.saddr, a))
    requires var own := OwnBlocks(list.k.heap.saddr, b, list.spaces[0]);
             BlockOf(list.k.heap.saddr, a) !in own && x !in own && forall y :: y in own ==> y !in runs
    modifies list, list.k.heap, list.k.heap.entries, list.k.pool
    ensures list.Valid() && list.others == old(list.others)
    ensures Stale(list.k.heap.saddr, list.view, list.spaces, b, c) && list.view.prev == [a, b]
    ensures BlockOf(list.k.heap.saddr, c) == x
  {
    ghost var saddr, v, now := list.k.heap.saddr, list.view, Now(list.k);
    ghost var own := OwnBlocks(saddr, b, list.spaces[0]);
    OneHeld(saddr, list.others, now, v, list.spaces, b, own);
    BalancedLinked(saddr, list.others, now, v, list.spaces);
    ghost var sp, t1;
    c, sp, t1 := NewCounted(list, process);
    BehindAdded(v, a, b, c);
    Reused(table, runs, x, BlockOf(saddr, a), own, now.runs, list.k.heap.total, BlockOf(saddr, c), sp.dir);
  }

  /** Another client's one-block run, below which everything is in use, and two tasks. The
    * first task goes, and then that run: the task created next gets its block, and for a
    * directory the block of the task that is gone, which prev of the second still names. */
  method StaleDirectory(list: TaskList, x: uint32, process: uint32, ghost block: nat) returns (b: uint32, c: uint32)
    requires list.Valid() && list.view.tasks == [] && |list.k.FreeBlocks()| >= 3081
    requires x == list.k.heap.Address(block) && FullBelow(list.k.heap.runs, block)
    requires block in list.k.heap.runs && list.k.heap.runs[block] == 1
    modifies list, list.k.heap, list.k.heap.entries, list.k.pool
    ensures list.Valid() && list.others == old(list.k.heap.runs) - {block}
    ensures Stale(list.k.heap.saddr, list.view, list.spaces, b, c)
    ensures BlockOf(list.k.heap.saddr, c) == block
  {
    ghost var saddr, runs, table := list.k.heap.saddr, list.k.heap.runs, list.k.heap.Entries();
    var a;
    a := FirstTask(list, process);
    b := SecondTask(list, process, a);
    FreeFirst(list, a, b);
    OneHeld(saddr, list.others, Now(list.k), list.view, list.spaces, b, OwnBlocks(saddr, b, list.spaces[0]));
    GiveBack(list, x, block, b);
    c := NewOver(list, process, a, b, runs, table, block);
  }

  // ----- what it costs -----

  /** The address space as its directory gives it when entry 14 leads to block x. */
  function Cut(sp: Space, x: nat): Space {
    if |sp.tabs| > 14 then sp.(tabs := sp.tabs[14 := x]) else sp
  }

  /** The directory once the task's own address has been stored in it. */
  lemma CutEntries(pool: Bytes, saddr: nat, sp: Space, c: uint32, p: nat, pool': Bytes, i: nat)
    requires InPlace(pool, saddr, c, sp) && TaskBlock(saddr, |pool|, p) && BlockOf(saddr, p) == sp.dir
    requires pool' == StoreField(pool, saddr, p, NEXT, c) && i < 1024
    ensures |sp.tabs| == 1024 && Fitted(pool', sp.dir) && Fitted(pool', Cut(sp, BlockOf(saddr, c)).tabs[i])
    ensures TableOf(Load32(pool', sp.dir * BLOCK_SIZE + 4 * i))
            == saddr + Cut(sp, BlockOf(saddr, c)).tabs[i] * BLOCK_SIZE
  {
    AddressOfBlock(saddr, |pool|, c);
    AddressOfBlock(saddr, |pool|, p);
    MappedIn(pool, saddr, sp);
    if i == 14 {
      EntryOverwritten(pool, saddr, sp.dir, p, c, pool');
    } else {
      LoadFrame32(pool, p - saddr + NEXT, c, sp.dir * BLOCK_SIZE + 4 * i);
    }
  }

  lemma CutDirectory(pool: Bytes, saddr: nat, sp: Space, c: uint32, p: nat, pool': Bytes)
    requires InPlace(pool, saddr, c, sp) && TaskBlock(saddr, |pool|, p) && BlockOf(saddr, p) == sp.dir
    requires pool' == StoreField(pool, saddr, p, NEXT, c)
    ensures DirectoryIn(pool', saddr, Cut(sp, BlockOf(saddr, c)))
    ensures Field(pool', saddr, c, PAGE_DIRECTORY) == saddr + sp.chunk * BLOCK_SIZE
  {
    forall i | 0 <= i < 1024
      ensures |sp.tabs| == 1024 && Fitted(pool', sp.dir) && Fitted(pool', Cut(sp, BlockOf(saddr, c)).tabs[i])
      ensures TableOf(Load32(pool', sp.dir * BLOCK_SIZE + 4 * i))
              == saddr + Cut(sp, BlockOf(saddr, c)).tabs[i] * BLOCK_SIZE
    {
      CutEntries(pool, saddr, sp, c, p, pool', i);
    }
    MappedIn(pool, saddr, sp);
    ChunkStored(pool, saddr, sp, p, NEXT, c);
    StoredField(pool, saddr, p, NEXT, c, c, PAGE_DIRECTORY);
  }

  lemma CutHas(own: seq<nat>, x: nat, sp: Space, b: nat)
    requires own == [x] + sp.Blocks() && Distinct(own) && |sp.tabs| > 14
    ensures b in Cut(sp, x).Blocks() || b == x <==> b in own && b != sp.tabs[14]
  {
    var bs, lost := Cut(sp, x).Blocks(), sp.tabs[14];
    assert own[0] == x && own[16] == lost;
    assert forall i :: 0 <= i < |bs| ==> bs[i] == if i == 15 then x else own[i + 1];
    if b in own && b != lost && b != x {
      var i :| 0 <= i < |own| && own[i] == b;
      assert bs[i - 1] == b;
    }
    if b in bs {
      var j :| 0 <= j < |bs| && bs[j] == b;
      assert b == if j == 15 then own[0] else own[j + 1];
    }
  }

  /** What is left after freeing all that the cut directory leads to, and the task. */
  lemma CutRuns(others: Runs, runs: Runs, own: seq<nat>, x: nat, sp: Space)
    requires own == [x] + sp.Blocks() && Owned(others, runs, own) && |sp.tabs| > 14
    ensures sp.tabs[14] !in others && sp.tabs[14] != x && AllFreeable(runs, Cut(sp, x).Blocks())
    ensures runs - SetOf(Cut(sp, x).Blocks()) - {x} == others[sp.tabs[14] := 1]
  {
    var bs, lost := Cut(sp, x).Blocks(), sp.tabs[14];
    assert own[0] == x && own[16] == lost;
    forall b
      ensures b in bs || b == x <==> b in own && b != lost
    {
      CutHas(own, x, sp, b);
    }
  }

  /** In such a state the removal of the first task mends the list ... */
  lemma StaleMends(saddr: nat, others: Runs, t: Snapshot, v: LinkView, spaces: seq<Space>, b: nat, c: nat)
    requires Balanced(saddr, others, t, v, spaces) && Stale(saddr, v, spaces, b, c)
    ensures Mends(v, 0) && !Keeps(saddr, v, spaces, 0) && c < TWO_32
    ensures InPlace(t.pool, saddr, c, spaces[1]) && TaskBlock(saddr, |t.pool|, v.prev[0])
    ensures Unlinked(t.pool, saddr, v, 0) == StoreField(t.pool, saddr, v.prev[0], NEXT, c)
  {
    Open(saddr, others, t, v, spaces);
    TaskNotInSpace(saddr, others, t, v, spaces, 1, 1);
    assert spaces[1].Blocks()[0] == spaces[1].dir;
    FreedView(saddr, others, t, v, spaces, 0, Removed(v, 0));
    assert InPlace(t.pool, saddr, v.tasks[1], spaces[1]) && v.next[0] == c;
  }

  /** ... and leaves the second with what it owns. */
  lemma SecondHeld(saddr: nat, others: Runs, t: Snapshot, u: Snapshot, v: LinkView, spaces: seq<Space>,
                   b: nat, c: nat, own: seq<nat>)
    requires Balanced(saddr, others, t, v, spaces) && Stale(saddr, v, spaces, b, c)
    requires FreedTo(saddr, t, u, v, spaces[0], 0) && own == OwnBlocks(saddr, c, spaces[1])
    ensures Owned(others, u.runs, own)
  {
    Open(saddr, others, t, v, spaces);
    FreedRuns(saddr, others, t, v, spaces, 0, BlockOf(saddr, b), OwnBlocks(saddr, b, spaces[0]), spaces[0].Blocks());
    FreedOwned(saddr, others, t, u, v, spaces, 0);
    assert Without(v.tasks, 0) == [c] && Without(spaces, 0) == [spaces[1]];
    assert Lists(saddr, [c], [spaces[1]]) == [own];
    FlattenOne(own);
  }

  lemma FirstLinked(saddr: nat, others: Runs, t: Snapshot, u: Snapshot, v: LinkView, spaces: seq<Space>,
                    w: LinkView, c: nat)
    requires Balanced(saddr, others, t, v, spaces) && Sized(v) && |v.tasks| == 2 && v.tasks[1] == c
    requires |u.pool| == |t.pool| && w == Removed(v, 0)
    requires w == Links(u.pool, saddr, w.tasks, w.head, w.tail, w.current)
    ensures w.tasks == [c] && LinkedTo(saddr, u.pool, w, 0, c)
  {
    Open(saddr, others, t, v, spaces);
    FreedView(saddr, others, t, v, spaces, 0, w);
    TaskBlockOwned(saddr, others, t, v, spaces, 1);
    assert w.next[0] == Field(u.pool, saddr, w.tasks[0], NEXT) && w.prev[0] == Field(u.pool, saddr, w.tasks[0], PREV);
  }

  /** What is left can be freed as the directory now says. */
  lemma CutFreeing(saddr: nat, others: Runs, t: Snapshot, u: Snapshot, v: LinkView, spaces: seq<Space>,
                   b: nat, c: nat, w: LinkView, spaces': seq<Space>, table: Table, sp: Space)
    requires Balanced(saddr, others, t, v, spaces) && Stale(saddr, v, spaces, b, c)
    requires FreeEffect(saddr, t, u, v, spaces, 0, w, spaces') && Encodes(table, u.runs)
    requires sp == Cut(spaces[1], BlockOf(saddr, c))
    ensures Freeing(saddr, u, w, sp, 0) && w.tasks == [c] && |spaces[1].tabs| > 14
    ensures spaces[1].tabs[14] !in others && spaces[1].tabs[14] != BlockOf(saddr, c)
    ensures u.runs - SetOf(sp.Blocks()) - {BlockOf(saddr, c)} == others[spaces[1].tabs[14] := 1]
  {
    var own, x, full := OwnBlocks(saddr, c, spaces[1]), BlockOf(saddr, c), spaces[1];
    StaleMends(saddr, others, t, v, spaces, b, c);
    SecondHeld(saddr, others, t, u, v, spaces, b, c, own);
    CutDirectory(t.pool, saddr, full, c, v.prev[0], u.pool);
    CutRuns(others, u.runs, own, x, full);
    assert own[0] == x;
    FreeableStays(table, u.runs, SetOf(sp.Blocks()), x);
    FirstLinked(saddr, others, t, u, v, spaces, w, c);
  }

  /** In such a state: freeing both tasks leaves the list empty, and the table that entry 14 of
    * the second one's directory led to taken, by no one. */
  method FreeBoth(list: TaskList, b: uint32, c: uint32) returns (ghost lost: nat)
    requires list.Valid() && Stale(list.k.heap.saddr, list.view, list.spaces, b, c)
    modifies list, list.k.heap, list.k.heap.entries, list.k.pool
    ensures list.Ready() && list.view.tasks == [] && list.others == old(list.others)
    ensures lost !in list.others && lost != BlockOf(list.k.heap.saddr, c)
    ensures list.k.heap.runs == list.others[lost := 1]
  {
    ghost var saddr, others, t, v, spaces := list.k.heap.saddr, list.others, Now(list.k), list.view, list.spaces;
    ghost var sp := Cut(spaces[1], BlockOf(saddr, c));
    list.Free(b, 0);
    ghost var u, w := Now(list.k), list.view;
    CutFreeing(saddr, others, t, u, v, spaces, b, c, w, list.spaces, list.k.heap.Entries(), sp);
    ghost var last := list.FreeTask(c, 0, sp, Removed(w, 0), [], u);
    lost := spaces[1].tabs[14];
  }

  /** A table is lost for good: the whole run, from an empty list to an empty list. */
  method LeakRun(list: TaskList, x: uint32, process: uint32, ghost block: nat) returns (ghost lost: nat)
    requires list.Valid() && list.view.tasks == [] && |list.k.FreeBlocks()| >= 3081
    requires x == list.k.heap.Address(block) && FullBelow(list.k.heap.runs, block)
    requires block in list.k.heap.runs && list.k.heap.runs[block] == 1
    modifies list, list.k.heap, list.k.heap.entries, list.k.pool
    ensures list.Ready() && list.view.tasks == []
    ensures lost !in old(list.k.heap.runs)
    ensures list.k.heap.runs == (old(list.k.heap.runs) - {block})[lost := 1]
  {
    var b, c := StaleDirectory(list, x, process, block);
    lost := FreeBoth(list, b, c);
  }
}
