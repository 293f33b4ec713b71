/** task.c's structures in kernel-heap memory: a task is the address of a heap
  * block that starts with a struct task.
  */
module TaskMemory {
  import opened Machine
  import opened BlockHeap
  import opened KernelHeap
  import opened Paging
  import opened TaskLinks

  // struct task: page_directory, twelve registers, process, next, prev
  const SIZEOF_TASK := 64
  const PAGE_DIRECTORY := 0
  const REGISTERS_IP := 32
  const REGISTERS_ESP := 44
  const REGISTERS_SS := 48
  const PROCESS := 52
  const NEXT := 56
  const PREV := 60

  /** t is the address of a block of the pool, which has this size. */
  predicate TaskBlock(saddr: nat, size: nat, t: nat) {
    0 < saddr <= t && (t - saddr) % BLOCK_SIZE == 0 && t - saddr + BLOCK_SIZE <= size
  }

  predicate SomeBlock(saddr: nat, size: nat, p: nat) {
    p == NULL || TaskBlock(saddr, size, p)
  }

  function BlockOf(saddr: nat, t: nat): nat {
    if t < saddr then 0 else (t - saddr) / BLOCK_SIZE
  }

  lemma BlockOfAddress(saddr: nat, size: nat, b: nat)
    requires 0 < saddr && (b + 1) * BLOCK_SIZE <= size
    ensures TaskBlock(saddr, size, saddr + b * BLOCK_SIZE) && BlockOf(saddr, saddr + b * BLOCK_SIZE) == b
  {
  }

  lemma AddressOfBlock(saddr: nat, size: nat, t: nat)
    requires TaskBlock(saddr, size, t)
    ensures t == saddr + BlockOf(saddr, t) * BLOCK_SIZE && (BlockOf(saddr, t) + 1) * BLOCK_SIZE <= size
    ensures saddr % BLOCK_SIZE == 0 ==> t % BLOCK_SIZE == 0
  {
  }

  function Field(pool: Bytes, saddr: nat, t: nat, offset: nat): uint32 {
    WordAt(pool, t - saddr + offset)
  }

  /** The link fields of these tasks, with the three variables. */
  ghost function Links(pool: Bytes, saddr: nat, tasks: seq<nat>, head: nat, tail: nat, current: nat): (v: LinkView)
    ensures Sized(v) && v.tasks == tasks
  {
    LinkView(
      tasks,
      seq(|tasks|, i requires 0 <= i < |tasks| => Field(pool, saddr, tasks[i], NEXT)),
      seq(|tasks|, i requires 0 <= i < |tasks| => Field(pool, saddr, tasks[i], PREV)),
      head, tail, current)
  }

  lemma FieldKept(p: Bytes, p': Bytes, saddr: nat, t: nat, offset: nat)
    requires TaskBlock(saddr, |p|, t) && offset + 4 <= BLOCK_SIZE && SameBlock(p, p', BlockOf(saddr, t))
    ensures Field(p', saddr, t, offset) == Field(p, saddr, t, offset)
  {
    var b, a := BlockOf(saddr, t), t - saddr + offset;
    assert InBlock(b, a) && InBlock(b, a + 1) && InBlock(b, a + 2) && InBlock(b, a + 3);
  }

  // ----- storing a field -----

  predicate IsField(offset: nat) {
    offset % 4 == 0 && offset < SIZEOF_TASK
  }

  function StoreField(pool: Bytes, saddr: nat, t: nat, offset: nat, v: uint32): (pool': Bytes)
    requires TaskBlock(saddr, |pool|, t) && offset < SIZEOF_TASK
    ensures |pool'| == |pool|
  {
    Store32(pool, t - saddr + offset, v)
  }

  /** Blocks of different tasks are apart. */
  lemma BlocksApart(saddr: nat, size: nat, t: nat, u: nat)
    requires TaskBlock(saddr, size, t) && TaskBlock(saddr, size, u) && t != u
    ensures t + BLOCK_SIZE <= u || u + BLOCK_SIZE <= t
    ensures BlockOf(saddr, t) != BlockOf(saddr, u)
  {
  }

  lemma SameBlockOf(saddr: nat, size: nat, t: nat, u: nat)
    requires TaskBlock(saddr, size, t) && TaskBlock(saddr, size, u)
    ensures BlockOf(saddr, t) == BlockOf(saddr, u) <==> t == u
  {
    if t != u {
      BlocksApart(saddr, size, t, u);
    }
  }

  lemma StoredField(pool: Bytes, saddr: nat, t: nat, offset: nat, v: uint32, u: nat, offset': nat)
    requires TaskBlock(saddr, |pool|, t) && TaskBlock(saddr, |pool|, u) && IsField(offset) && IsField(offset')
    ensures Field(StoreField(pool, saddr, t, offset, v), saddr, u, offset')
            == if t == u && offset == offset' then v else Field(pool, saddr, u, offset')
  {
    var a, a' := t - saddr + offset, u - saddr + offset';
    if t == u && offset == offset' {
      LoadStore32(pool, a, v);
    } else {
      if t != u {
        BlocksApart(saddr, |pool|, t, u);
      }
      LoadFrame32(pool, a, v, a');
    }
  }

  lemma StoredElsewhere(pool: Bytes, saddr: nat, t: nat, offset: nat, v: uint32)
    requires TaskBlock(saddr, |pool|, t) && IsField(offset)
    ensures SameElsewhere(pool, StoreField(pool, saddr, t, offset, v), [BlockOf(saddr, t)])
  {
    var b := BlockOf(saddr, t);
    forall c: nat | c != b
      ensures SameBlock(pool, StoreField(pool, saddr, t, offset, v), c)
    {
      assert forall i :: InBlock(c, i) ==> !InBlock(b, i);
    }
  }

  ghost predicate TaskBlocks(saddr: nat, size: nat, tasks: seq<nat>) {
    forall i :: 0 <= i < |tasks| ==> TaskBlock(saddr, size, tasks[i])
  }

  /** p->next = value, for a p on the list or off it. */
  lemma StoredNext(pool: Bytes, saddr: nat, tasks: seq<nat>, p: nat, value: uint32, v: LinkView)
    requires TaskBlocks(saddr, |pool|, tasks) && TaskBlock(saddr, |pool|, p)
    requires v == Links(pool, saddr, tasks, v.head, v.tail, v.current)
    ensures Links(StoreField(pool, saddr, p, NEXT, value), saddr, tasks, v.head, v.tail, v.current)
            == v.(next := Rewritten(tasks, v.next, p, value))
  {
    forall i | 0 <= i < |tasks|
      ensures Field(StoreField(pool, saddr, p, NEXT, value), saddr, tasks[i], NEXT)
              == Rewritten(tasks, v.next, p, value)[i]
      ensures Field(StoreField(pool, saddr, p, NEXT, value), saddr, tasks[i], PREV) == v.prev[i]
    {
      StoredField(pool, saddr, p, NEXT, value, tasks[i], NEXT);
      StoredField(pool, saddr, p, NEXT, value, tasks[i], PREV);
    }
  }

  /** Storing in a block that is not on the list. */
  lemma StoredOff(pool: Bytes, saddr: nat, tasks: seq<nat>, t: nat, offset: nat, value: uint32, v: LinkView)
    requires TaskBlocks(saddr, |pool|, tasks) && TaskBlock(saddr, |pool|, t) && t !in tasks && IsField(offset)
    requires v == Links(pool, saddr, tasks, v.head, v.tail, v.current)
    ensures Links(StoreField(pool, saddr, t, offset, value), saddr, tasks, v.head, v.tail, v.current) == v
  {
    forall i | 0 <= i < |tasks|
      ensures Field(StoreField(pool, saddr, t, offset, value), saddr, tasks[i], NEXT) == v.next[i]
      ensures Field(StoreField(pool, saddr, t, offset, value), saddr, tasks[i], PREV) == v.prev[i]
    {
      assert tasks[i] in tasks;
      StoredField(pool, saddr, t, offset, value, tasks[i], NEXT);
      StoredField(pool, saddr, t, offset, value, tasks[i], PREV);
    }
  }

  lemma LinksKept(p: Bytes, p': Bytes, saddr: nat, tasks: seq<nat>, v: LinkView)
    requires TaskBlocks(saddr, |p|, tasks) && v == Links(p, saddr, tasks, v.head, v.tail, v.current)
    requires forall i :: 0 <= i < |tasks| ==> SameBlock(p, p', BlockOf(saddr, tasks[i]))
    ensures Links(p', saddr, tasks, v.head, v.tail, v.current) == v
  {
    forall i | 0 <= i < |tasks|
      ensures Field(p', saddr, tasks[i], NEXT) == v.next[i] && Field(p', saddr, tasks[i], PREV) == v.prev[i]
    {
      FieldKept(p, p', saddr, tasks[i], NEXT);
      FieldKept(p, p', saddr, tasks[i], PREV);
    }
  }

  lemma LinksAppend(pool: Bytes, saddr: nat, tasks: seq<nat>, t: nat, v: LinkView)
    requires v == Links(pool, saddr, tasks, v.head, v.tail, v.current)
    ensures Links(pool, saddr, tasks + [t], v.head, v.tail, v.current)
            == v.(tasks := tasks + [t], next := v.next + [Field(pool, saddr, t, NEXT)],
                  prev := v.prev + [Field(pool, saddr, t, PREV)])
  {
  }

  lemma LinksWithout(pool: Bytes, saddr: nat, tasks: seq<nat>, k: nat, v: LinkView)
    requires k < |tasks| && v == Links(pool, saddr, tasks, v.head, v.tail, v.current)
    ensures Links(pool, saddr, Without(tasks, k), v.head, v.tail, v.current)
            == v.(tasks := Without(tasks, k), next := Without(v.next, k), prev := Without(v.prev, k))
  {
    var w := Links(pool, saddr, Without(tasks, k), v.head, v.tail, v.current);
    forall i | 0 <= i < |tasks| - 1
      ensures w.next[i] == Without(v.next, k)[i] && w.prev[i] == Without(v.prev, k)[i]
    {
      WithoutAt(tasks, k, i);
      WithoutAt(v.next, k, i);
      WithoutAt(v.prev, k, i);
    }
  }
}
