/** task.c: the memory of one task, up to its being put on the list. */
module TaskSetup {
  import opened Machine
  import opened BlockHeap
  import opened KernelHeap
  import opened Paging
  import opened AddressSpaces
  import opened TaskLinks
  import opened TaskMemory
  import opened TaskOwnership
  import opened TaskLedger

  const FREE95_PROGRAM_VIRTUAL_ADDRESS := 0x40_0000
  const FREE95_PROGRAM_VIRTUAL_STACK_ADDRESS_START := 0x3F_F000
  const USER_DATA_SEGMENT := 0x23

  // ----- one task -----

  method ReadField(mem: array<uint8>, saddr: nat, t: nat, offset: nat) returns (v: uint32)
    requires TaskBlock(saddr, mem.Length, t) && IsField(offset)
    ensures v == Field(mem[..], saddr, t, offset)
  {
    v := Read32(mem, t - saddr + offset);
  }

  method SetField(mem: array<uint8>, saddr: nat, t: nat, offset: nat, v: uint32)
    requires TaskBlock(saddr, mem.Length, t) && IsField(offset)
    modifies mem
    ensures mem[..] == StoreField(old(mem[..]), saddr, t, offset, v)
    ensures SameElsewhere(old(mem[..]), mem[..], [BlockOf(saddr, t)])
    ensures forall o: nat :: IsField(o) ==>
              Field(mem[..], saddr, t, o) == if o == offset then v else old(Field(mem[..], saddr, t, o))
  {
    ghost var p := mem[..];
    Write32(mem, t - saddr + offset, v);
    StoredElsewhere(p, saddr, t, offset, v);
    forall o: nat | IsField(o)
      ensures Field(mem[..], saddr, t, o) == if o == offset then v else Field(p, saddr, t, o)
    {
      StoredField(p, saddr, t, offset, v, t, o);
    }
  }

  ghost predicate Cleared(pool: Bytes, saddr: nat, t: nat) {
    forall o: nat :: IsField(o) ==> Field(pool, saddr, t, o) == 0
  }

  function Initial(offset: nat, chunk: int, process: uint32): int {
    if offset == PAGE_DIRECTORY then chunk
    else if offset == REGISTERS_IP then FREE95_PROGRAM_VIRTUAL_ADDRESS
    else if offset == REGISTERS_SS then USER_DATA_SEGMENT
    else if offset == REGISTERS_ESP then FREE95_PROGRAM_VIRTUAL_STACK_ADDRESS_START
    else if offset == PROCESS then process
    else 0
  }

  /** What task_init leaves in all fields of a task but the links ... */
  ghost predicate Prepared(pool: Bytes, saddr: nat, t: nat, chunk: int, process: uint32) {
    forall o: nat :: IsField(o) && o != NEXT && o != PREV ==>
      Field(pool, saddr, t, o) == Initial(o, chunk, process)
  }

  /** ... and that there are none. */
  ghost predicate Initialised(pool: Bytes, saddr: nat, t: nat, chunk: int, process: uint32) {
    && Prepared(pool, saddr, t, chunk, process)
    && Field(pool, saddr, t, NEXT) == NULL && Field(pool, saddr, t, PREV) == NULL
  }

  lemma PreparedStored(pool: Bytes, saddr: nat, t: nat, chunk: int, process: uint32, u: nat, offset: nat, v: uint32)
    requires TaskBlock(saddr, |pool|, t) && TaskBlock(saddr, |pool|, u) && (offset == NEXT || offset == PREV)
    requires Prepared(pool, saddr, t, chunk, process)
    ensures Prepared(StoreField(pool, saddr, u, offset, v), saddr, t, chunk, process)
  {
    forall o: nat | IsField(o) && o != NEXT && o != PREV
      ensures Field(StoreField(pool, saddr, u, offset, v), saddr, t, o) == Initial(o, chunk, process)
    {
      StoredField(pool, saddr, u, offset, v, t, o);
    }
  }

  /** Linking leaves them as they are. */
  lemma PreparedJoined(saddr: nat, t0: Snapshot, t1: Snapshot, u: Snapshot, v: LinkView, t: uint32, sp: Space,
                       chunk: int, process: uint32)
    requires CreatedTo(saddr, t0, t1, u, v, t, sp) && Prepared(t1.pool, saddr, t, chunk, process)
    ensures Prepared(u.pool, saddr, t, chunk, process)
  {
    if v.head != NULL {
      PreparedStored(t1.pool, saddr, t, chunk, process, v.tail, NEXT, t);
      PreparedStored(StoreField(t1.pool, saddr, v.tail, NEXT, t), saddr, t, chunk, process, t, PREV, v.tail);
    }
  }

  /** The assignments of task_init to a cleared task. */
  method SetFields(mem: array<uint8>, saddr: nat, t: nat, chunk: uint32, process: uint32)
    requires TaskBlock(saddr, mem.Length, t)
    requires Cleared(mem[..], saddr, t)
    modifies mem
    ensures Initialised(mem[..], saddr, t, chunk, process)
    ensures SameElsewhere(old(mem[..]), mem[..], [BlockOf(saddr, t)])
  {
    ghost var p0, xs := mem[..], [BlockOf(saddr, t)];
    SetField(mem, saddr, t, PAGE_DIRECTORY, chunk);
    ghost var p1 := mem[..];
    SetField(mem, saddr, t, REGISTERS_IP, FREE95_PROGRAM_VIRTUAL_ADDRESS);
    ghost var p2 := mem[..];
    SetField(mem, saddr, t, REGISTERS_SS, USER_DATA_SEGMENT);
    ghost var p3 := mem[..];
    SetField(mem, saddr, t, REGISTERS_ESP, FREE95_PROGRAM_VIRTUAL_STACK_ADDRESS_START);
    ghost var p4 := mem[..];
    SetField(mem, saddr, t, PROCESS, process);
    ghost var p5 := mem[..];
    SameElsewhereTrans(p0, p1, p2, xs, xs, xs);
    SameElsewhereTrans(p0, p2, p3, xs, xs, xs);
    SameElsewhereTrans(p0, p3, p4, xs, xs, xs);
    SameElsewhereTrans(p0, p4, p5, xs, xs, xs);
  }

  lemma LiveNotFree(k: Kernel)
    requires k.Valid()
    ensures forall b :: b in k.heap.runs ==> b !in k.FreeBlocks()
  {
    forall b | b in k.heap.runs
      ensures b !in k.FreeBlocks()
    {
      assert InRun(k.heap.runs, b, b);
      FreeIsZero(k.heap.Entries(), k.heap.runs, b);
    }
  }

  /** kzalloc(sizeof(struct task)). */
  method TakeTask(k: Kernel) returns (task: uint32)
    requires k.Valid() && k.FreeBlocks() != {}
    modifies k.heap, k.heap.entries, k.pool
    ensures k.Valid() && TaskBlock(k.heap.saddr, k.pool.Length, task)
    ensures FirstIn(old(k.heap.runs), k.heap.total, BlockOf(k.heap.saddr, task))
    ensures Took(old(Now(k)), Now(k), [BlockOf(k.heap.saddr, task)])
    ensures BlockOf(k.heap.saddr, task) in old(k.FreeBlocks())
    ensures k.FreeBlocks() == old(k.FreeBlocks()) - {BlockOf(k.heap.saddr, task)}
  {
    ghost var s, b := Now(k), 0;
    task, b := TakeZeroedBlock(k, SIZEOF_TASK);
    ghost var t := Now(k);
    BlockOfAddress(k.heap.saddr, k.pool.Length, b);
    TookOne(s, t, b);
  }

  /** The memset at the start of task_init. */
  method ClearTask(mem: array<uint8>, saddr: nat, task: uint32)
    requires TaskBlock(saddr, mem.Length, task)
    modifies mem
    ensures SameElsewhere(old(mem[..]), mem[..], [BlockOf(saddr, task)])
    ensures Cleared(mem[..], saddr, task)
  {
    Clear(mem, task - saddr, SIZEOF_TASK);
    ZeroedElsewhere(old(mem[..]), mem[..], BlockOf(saddr, task), SIZEOF_TASK);
  }

  /** The task's cleared block. */
  method ClearedTask(k: Kernel) returns (task: uint32)
    requires k.Valid() && k.FreeBlocks() != {}
    modifies k.heap, k.heap.entries, k.pool
    ensures k.Valid() && TaskBlock(k.heap.saddr, k.pool.Length, task)
    ensures FirstIn(old(k.heap.runs), k.heap.total, BlockOf(k.heap.saddr, task))
    ensures Took(old(Now(k)), Now(k), [BlockOf(k.heap.saddr, task)])
    ensures |k.FreeBlocks()| == |old(k.FreeBlocks())| - 1 && BlockOf(k.heap.saddr, task) !in k.FreeBlocks()
    ensures Cleared(k.pool[..], k.heap.saddr, task)
  {
    ghost var s := Now(k);
    task := TakeTask(k);
    ghost var t, xs := Now(k), [BlockOf(k.heap.saddr, task)];
    ClearTask(k.pool, k.heap.saddr, task);
    TookWritten(s, t, Now(k), xs, xs);
  }

  /** The address space of a task, which is in place once its directory is. */
  method NewSpace(k: Kernel, flags: uint8, ghost low: nat) returns (chunk: int, ghost sp: Space)
    requires low == Writeable(flags)
    requires k.Valid() && |k.FreeBlocks()| >= 1026
    modifies k.heap, k.heap.entries, k.pool
    ensures k.Valid() && Took(old(Now(k)), Now(k), sp.Blocks())
    ensures chunk == k.heap.Address(sp.chunk) && Mapped(k.pool[..], k.heap.saddr, sp)
    ensures FirstIn(old(k.heap.runs), k.heap.total, sp.dir)
    ensures FreshSpace(k.pool[..], k.heap.saddr, sp, flags, low)
  {
    chunk, sp := New4gb(k, flags);
    SpaceDistinct(sp);
    IdentityTables(k.pool[..], k.heap.saddr, sp.dir, sp.tabs, flags);
    IdentityIsFresh(k.pool[..], k.heap.saddr, sp, flags, low);
  }

  lemma TaskReady(saddr: nat, t0: Snapshot, t1: Snapshot, u: Snapshot, t: nat, sp: Space, process: uint32)
    requires TaskBlock(saddr, |t1.pool|, t) && Took(t0, t1, OwnBlocks(saddr, t, sp)) && Mapped(t1.pool, saddr, sp)
    requires u.runs == t1.runs && u.free == t1.free && SameElsewhere(t1.pool, u.pool, [BlockOf(saddr, t)])
    requires Initialised(u.pool, saddr, t, saddr + sp.chunk * BLOCK_SIZE, process)
    requires FreshSpace(t1.pool, saddr, sp, 5, 7)
    ensures Took(t0, u, OwnBlocks(saddr, t, sp)) && InPlace(u.pool, saddr, t, sp)
    ensures FreshSpace(u.pool, saddr, sp, 5, 7)
  {
    var own, bs := OwnBlocks(saddr, t, sp), sp.Blocks();
    assert own[0] in own && bs[0] == sp.dir && bs[|bs| - 1] == sp.chunk;
    TookWritten(t0, t1, u, own, [BlockOf(saddr, t)]);
    OwnBlockApart(saddr, t, sp);
    MappedKept(t1.pool, u.pool, saddr, sp);
    FreshKept(t1.pool, u.pool, saddr, sp, 5, 7, [BlockOf(saddr, t)]);
  }

  /** Task and directory are the first blocks that were free, in this order. */
  ghost predicate FirstBlocks(runs: Runs, total: nat, task: nat, dir: nat) {
    FirstIn(runs, total, task) && FirstIn(runs[task := 1], total, dir)
  }

  lemma OneTaken(s: Snapshot, t: Snapshot, b: nat)
    requires Took(s, t, [b])
    ensures t.runs == s.runs[b := 1]
  {
    assert t.runs == s.runs + Ones([b]);
  }

  /** The task's program, and its stack, are where its registers point: at page 0x400000, which
    * leads to frame 0x400000, and below it. */
  lemma ProgramPages(pool: Bytes, saddr: nat, sp: Space)
    requires FreshSpace(pool, saddr, sp, 5, 7)
    ensures View(pool, saddr, sp.dir, FREE95_PROGRAM_VIRTUAL_ADDRESS) == 0x40_0005
    ensures View(pool, saddr, sp.dir, FREE95_PROGRAM_VIRTUAL_STACK_ADDRESS_START) == 0x3F_F005
  {
  }

  lemma ClearedKept(p: Bytes, p': Bytes, saddr: nat, t: nat)
    requires TaskBlock(saddr, |p|, t) && SameBlock(p, p', BlockOf(saddr, t)) && Cleared(p, saddr, t)
    ensures Cleared(p', saddr, t)
  {
    forall o: nat | IsField(o)
      ensures Field(p', saddr, t, o) == 0
    {
      FieldKept(p, p', saddr, t, o);
    }
  }

  lemma TaskFlags()
    ensures PAGING_IS_PRESENT + PAGING_ACCESS_FROM_ALL == 5 && Writeable(5) == 7
  {
  }

  /** The memory of a task and of its address space. */
  method TakeBoth(k: Kernel) returns (task: uint32, chunk: uint32, ghost sp: Space)
    requires k.Valid() && |k.FreeBlocks()| >= 1027
    modifies k.heap, k.heap.entries, k.pool
    ensures k.Valid() && TaskBlock(k.heap.saddr, k.pool.Length, task)
    ensures Took(old(Now(k)), Now(k), OwnBlocks(k.heap.saddr, task, sp))
    ensures chunk == k.heap.Address(sp.chunk) && Mapped(k.pool[..], k.heap.saddr, sp)
    ensures Cleared(k.pool[..], k.heap.saddr, task)
    ensures FirstBlocks(old(k.heap.runs), k.heap.total, BlockOf(k.heap.saddr, task), sp.dir)
    ensures FreshSpace(k.pool[..], k.heap.saddr, sp, 5, 7)
  {
    ghost var saddr, t0 := k.heap.saddr, Now(k);
    task := ClearedTask(k);
    ghost var t1, b := Now(k), BlockOf(saddr, task);
    OneTaken(t0, t1, b);
    TaskFlags();
    chunk, sp := NewSpace(k, PAGING_IS_PRESENT + PAGING_ACCESS_FROM_ALL, 7);
    ghost var t2 := Now(k);
    TookTrans(t0, t1, t2, [b], sp.Blocks());
    ClearedKept(t1.pool, t2.pool, saddr, task);
  }

  /** A task with its address space, not yet on the list: task_new up to there, with
    * task_init. In its space every page is present, open to all and its own frame. */
  method Allocate(k: Kernel, process: uint32) returns (task: uint32, ghost sp: Space)
    requires k.Valid() && |k.FreeBlocks()| >= 1027
    modifies k.heap, k.heap.entries, k.pool
    ensures k.Valid() && Detached(k.heap.saddr, old(Now(k)), Now(k), task, sp)
    ensures Initialised(k.pool[..], k.heap.saddr, task, k.heap.Address(sp.chunk), process)
    ensures FirstBlocks(old(k.heap.runs), k.heap.total, BlockOf(k.heap.saddr, task), sp.dir)
    ensures FreshSpace(k.pool[..], k.heap.saddr, sp, 5, 7)
  {
    ghost var saddr, t0 := k.heap.saddr, Now(k);
    var chunk;
    task, chunk, sp := TakeBoth(k);
    ghost var t2 := Now(k);
    SetFields(k.pool, k.heap.saddr, task, chunk, process);
    TaskReady(saddr, t0, t2, Now(k), task, sp, process);
    LiveNotFree(k);
  }
}
