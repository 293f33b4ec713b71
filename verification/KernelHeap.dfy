/** kheap.c: the kernel's allocator interface over one heap, together with the
  * bytes of the pool it hands out.
  */
module KernelHeap {
  import opened Machine
  import opened BlockHeap

  /** after is before with `size` bytes from `a` on cleared. */
  ghost predicate ZeroedAt(before: Bytes, after: Bytes, a: nat, size: nat)
    requires |before| == |after| && a + size <= |before|
  {
    && (forall i :: a <= i < a + size ==> after[i] == 0)
    && (forall i :: 0 <= i < |before| && !(a <= i < a + size) ==> after[i] == before[i])
  }

  /** memset(ptr, 0, size). */
  method Clear(mem: array<uint8>, a: nat, size: nat)
    requires a + size <= mem.Length
    modifies mem
    ensures ZeroedAt(old(mem[..]), mem[..], a, size)
  {
    for i := 0 to size
      invariant forall k :: a <= k < a + i ==> mem[k] == 0
      invariant forall k :: 0 <= k < mem.Length && !(a <= k < a + i) ==> mem[k] == old(mem[k])
    {
      mem[a + i] := 0;
    }
  }

  lemma FreeAfterTake(t: Table, b: nat)
    requires FreeRun(t, b, 1)
    ensures FreeSet(MarkTaken(t, b, 1)) == FreeSet(t) - {b}
  {
    MarkBits(0, 1);
    forall i: nat
      ensures i in FreeSet(MarkTaken(t, b, 1)) <==> i in FreeSet(t) - {b}
    {
    }
  }

  lemma FreeAfterBlank(t: Table, b: nat)
    requires b < |t|
    ensures FreeSet(Blanked(t, b, 1)) == FreeSet(t) + {b}
  {
    forall i: nat
      ensures i in FreeSet(Blanked(t, b, 1)) <==> i in FreeSet(t) + {b}
    {
    }
  }

  class Kernel {
    const heap: Heap
    const pool: array<uint8>   // the memory [heap.saddr, heap.saddr + pool.Length)

    ghost predicate Valid()
      reads heap, heap.entries
    {
      && heap.Valid() && heap.saddr > 0
      && pool.Length == heap.total * BLOCK_SIZE && pool as object != heap.entries as object
    }

    /** Block numbers that no live run uses. */
    ghost function FreeBlocks(): set<nat>
      reads heap.entries
      requires heap.total <= heap.entries.Length
    {
      FreeSet(heap.Entries())
    }

    constructor (heap: Heap, pool: array<uint8>)
      requires heap.Valid() && heap.saddr > 0
      requires pool.Length == heap.total * BLOCK_SIZE && pool as object != heap.entries as object
      ensures Valid() && this.heap == heap && this.pool == pool
    {
      this.heap := heap;
      this.pool := pool;
    }

    /** kmalloc. */
    method KMalloc(size: uint32) returns (address: int)
      requires Valid()
      requires Fits(heap.Entries(), BlocksFor(size)) || EndsTaken(heap.Entries())
      modifies heap, heap.entries
      ensures Valid()
      ensures var n, t := BlocksFor(size), old(heap.Entries());
              n >= 1 && Fits(t, n) ==>
                var b := (address - heap.saddr) / BLOCK_SIZE;
                && b >= 0 && address == heap.Address(b) && LeftmostFit(t, b, n)
                && heap.Entries() == MarkTaken(t, b, n)
                && b !in old(heap.runs) && heap.runs == old(heap.runs)[b := n] && address > 0
      ensures var n, t := BlocksFor(size), old(heap.Entries());
              n == 0 || !Fits(t, n) ==> heap.Entries() == t && heap.runs == old(heap.runs)
      ensures !Fits(old(heap.Entries()), BlocksFor(size)) ==> address == 0
    {
      address := heap.Malloc(size);
    }

    /** kzalloc: NULL with nothing changed, or a fresh run whose first `size`
      * bytes are zero while every other byte of the pool stays. The last two
      * clauses spell out the one-block case, which is the only one page tables
      * and paths need: a free block is enough for it to succeed. */
    method KZalloc(size: uint32) returns (address: int, ghost b: nat)
      requires Valid()
      requires 1 <= size <= TWO_32 - BLOCK_SIZE
      requires Fits(heap.Entries(), BlocksFor(size)) || EndsTaken(heap.Entries())
      modifies heap, heap.entries, pool
      ensures Valid()
      ensures !old(Fits(heap.Entries(), BlocksFor(size))) ==>
                address == 0 && heap.Entries() == old(heap.Entries()) && heap.runs == old(heap.runs)
                && pool[..] == old(pool[..])
      ensures old(Fits(heap.Entries(), BlocksFor(size))) ==>
                && address == heap.Address(b) && address > 0
                && LeftmostFit(old(heap.Entries()), b, BlocksFor(size))
                && b !in old(heap.runs) && heap.runs == old(heap.runs)[b := BlocksFor(size)]
                && b * BLOCK_SIZE + size <= pool.Length
                && ZeroedAt(old(pool[..]), pool[..], b * BLOCK_SIZE, size)
      ensures BlocksFor(size) == 1 && old(FreeBlocks()) != {} ==> old(Fits(heap.Entries(), 1))
      ensures BlocksFor(size) == 1 && old(FreeBlocks()) != {} ==>
                b in old(FreeBlocks()) && FreeBlocks() == old(FreeBlocks()) - {b}
    {
      BlocksForEnough(size);
      OneBlockFits(heap.Entries());
      ghost var t := heap.Entries();
      address := KMalloc(size);
      b := 0;
      if address == 0 {
        return;
      }
      b := (address - heap.saddr) / BLOCK_SIZE;
      if BlocksFor(size) == 1 {
        FreeAfterTake(t, b);
      }
      Clear(pool, address - heap.saddr, size);
    }

    /** kfree of a live allocation, which goes, or of a block not in use, which changes nothing. */
    method KFree(address: int, ghost b: nat)
      requires Valid()
      requires b < heap.total && Freeable(heap.runs, b) && address == heap.Address(b)
      modifies heap, heap.entries
      ensures Valid()
      ensures heap.runs == old(heap.runs) - {b}
      ensures b in old(heap.runs) && old(heap.runs)[b] == 1 ==> FreeBlocks() == old(FreeBlocks()) + {b}
      ensures b !in old(heap.runs) ==> heap.Entries() == old(heap.Entries())
    {
      if b in heap.runs && heap.runs[b] == 1 {
        FreeAfterBlank(heap.Entries(), b);
      }
      heap.BlockOfAddress(address, b);
      heap.Free(address);
    }
  }

  // ----- blocks of pool memory -----

  predicate Fitted(pool: Bytes, block: nat) {
    (block + 1) * BLOCK_SIZE <= |pool|
  }

  ghost predicate InBlock(block: nat, i: int) {
    block * BLOCK_SIZE <= i < (block + 1) * BLOCK_SIZE
  }

  ghost predicate SameBlock(p: Bytes, p': Bytes, block: nat) {
    |p| == |p'| && forall i :: InBlock(block, i) && i < |p| ==> p'[i] == p[i]
  }

  ghost function Ones(blocks: seq<nat>): Runs {
    map b: nat | b in blocks :: 1
  }

  ghost predicate Distinct(blocks: seq<nat>) {
    forall i, j :: 0 <= i < j < |blocks| ==> blocks[i] != blocks[j]
  }

  /** Only the listed blocks of the pool differ. */
  ghost predicate SameElsewhere(p: Bytes, p': Bytes, blocks: seq<nat>) {
    |p| == |p'| && forall c: nat :: c !in blocks ==> SameBlock(p, p', c)
  }

  lemma ZeroedElsewhere(p: Bytes, p': Bytes, b: nat, size: nat)
    requires |p| == |p'| && b * BLOCK_SIZE + size <= |p| && size <= BLOCK_SIZE
    requires ZeroedAt(p, p', b * BLOCK_SIZE, size)
    ensures SameElsewhere(p, p', [b])
  {
    forall c: nat | c != b
      ensures SameBlock(p, p', c)
    {
      assert forall i :: InBlock(c, i) ==> !InBlock(b, i);
    }
  }

  lemma SameElsewhereTrans(p: Bytes, q: Bytes, r: Bytes, xs: seq<nat>, ys: seq<nat>, zs: seq<nat>)
    requires SameElsewhere(p, q, xs) && SameElsewhere(q, r, ys)
    requires forall c :: c in xs || c in ys ==> c in zs
    ensures SameElsewhere(p, r, zs)
  {
    forall c: nat | c !in zs
      ensures SameBlock(p, r, c)
    {
      assert SameBlock(p, q, c) && SameBlock(q, r, c);
    }
  }

  ghost function SetOf(s: seq<nat>): set<nat> {
    set c | c in s
  }

  // ----- accounting for what was taken -----

  /** An allocator state, as values. */
  datatype Snapshot = Snapshot(runs: Runs, free: set<nat>, pool: Bytes)

  ghost function Now(k: Kernel): Snapshot
    reads k.heap, k.heap.entries, k.pool
    requires k.heap.total <= k.heap.entries.Length
  {
    Snapshot(k.heap.runs, k.FreeBlocks(), k.pool[..])
  }

  ghost predicate SameLive(s: Snapshot, t: Snapshot) {
    |s.pool| == |t.pool| && forall c: nat :: c !in s.free ==> SameBlock(s.pool, t.pool, c)
  }

  /** From state s to state t exactly these blocks, free in s, were taken as
    * runs of one block, and only blocks free in s had bytes changed. */
  ghost predicate Took(s: Snapshot, t: Snapshot, blocks: seq<nat>) {
    && Distinct(blocks) && (forall b :: b in blocks ==> b !in s.runs && b in s.free)
    && t.runs == s.runs + Ones(blocks)
    && t.free <= s.free
    && SameLive(s, t)
  }

  lemma DistinctSnoc(blocks: seq<nat>, b: nat)
    requires Distinct(blocks) && b !in blocks
    ensures Distinct(blocks + [b])
  {
  }

  lemma TookNothing(s: Snapshot)
    ensures Took(s, s, [])
  {
    assert s.runs + Ones([]) == s.runs;
  }

  lemma SameLiveStep(s: Snapshot, t: Snapshot, u: Snapshot, xs: seq<nat>)
    requires SameLive(s, t) && SameElsewhere(t.pool, u.pool, xs) && forall x :: x in xs ==> x in s.free
    ensures SameLive(s, u)
  {
    forall c: nat | c !in s.free
      ensures SameBlock(s.pool, u.pool, c)
    {
      assert SameBlock(s.pool, t.pool, c) && SameBlock(t.pool, u.pool, c);
    }
  }

  lemma TookSnoc(s: Snapshot, t: Snapshot, u: Snapshot, blocks: seq<nat>, b: nat, xs: seq<nat>)
    requires Took(s, t, blocks)
    requires b in t.free && b !in t.runs && u.free == t.free - {b} && u.runs == t.runs[b := 1]
    requires SameElsewhere(t.pool, u.pool, xs) && forall x :: x in xs ==> x in s.free
    ensures Took(s, u, blocks + [b])
  {
    assert b !in blocks;
    DistinctSnoc(blocks, b);
    assert (s.runs + Ones(blocks))[b := 1] == s.runs + Ones(blocks + [b]);
    SameLiveStep(s, t, u, xs);
  }

  /** Later writes to blocks that were free at first are within the account. */
  lemma TookOne(s: Snapshot, t: Snapshot, b: nat)
    requires b in s.free && b !in s.runs && t.free == s.free - {b} && t.runs == s.runs[b := 1]
    requires SameElsewhere(s.pool, t.pool, [b])
    ensures Took(s, t, [b])
  {
    TookNothing(s);
    TookSnoc(s, s, t, [], b, [b]);
    assert [] + [b] == [b];
  }

  lemma TookWritten(s: Snapshot, t: Snapshot, u: Snapshot, blocks: seq<nat>, xs: seq<nat>)
    requires Took(s, t, blocks) && u.runs == t.runs && u.free == t.free
    requires SameElsewhere(t.pool, u.pool, xs) && forall x :: x in xs ==> x in s.free
    ensures Took(s, u, blocks)
  {
    SameLiveStep(s, t, u, xs);
  }

  /** When all that was taken is live no longer, the table is what it was. */
  lemma TookReturned(s: Snapshot, t: Snapshot, blocks: seq<nat>, runs: Runs, table: Table, table': Table)
    requires Took(s, t, blocks) && runs == t.runs - SetOf(blocks)
    requires Encodes(table, s.runs) && Encodes(table', runs) && |table| == |table'|
    ensures runs == s.runs && table' == table
  {
    assert runs == s.runs;
    TableDetermined(table, table', runs);
  }

  lemma DistinctAppend(xs: seq<nat>, ys: seq<nat>)
    requires Distinct(xs) && Distinct(ys) && forall y :: y in ys ==> y !in xs
    ensures Distinct(xs + ys)
  {
    var all := xs + ys;
    forall i, j | 0 <= i < j < |all|
      ensures all[i] != all[j]
    {
      assert i < |xs| <= j ==> all[j] == ys[j - |xs|] && ys[j - |xs|] in ys;
    }
  }

  /** Two accounts, one after the other. */
  lemma TookTrans(s: Snapshot, t: Snapshot, u: Snapshot, xs: seq<nat>, ys: seq<nat>)
    requires Took(s, t, xs) && Took(t, u, ys)
    ensures Took(s, u, xs + ys)
  {
    assert forall y :: y in ys ==> y !in xs;
    DistinctAppend(xs, ys);
    assert u.runs == s.runs + Ones(xs + ys);
    forall c: nat | c !in s.free
      ensures SameBlock(s.pool, u.pool, c)
    {
      assert SameBlock(s.pool, t.pool, c) && SameBlock(t.pool, u.pool, c);
    }
  }

  lemma DistinctDrop(xs: seq<nat>, ys: seq<nat>, zs: seq<nat>)
    requires Distinct(xs + ys + zs)
    ensures Distinct(xs + zs)
    ensures forall y :: y in ys ==> y !in xs + zs
  {
    var all, rest := xs + ys + zs, xs + zs;
    forall i | 0 <= i < |rest|
      ensures rest[i] == all[if i < |xs| then i else i + |ys|]
    {
    }
    forall y | y in ys
      ensures y !in rest
    {
      var i :| 0 <= i < |ys| && ys[i] == y;
      assert y == all[|xs| + i];
    }
  }

  lemma OnesDrop(runs: Runs, xs: seq<nat>, ys: seq<nat>, zs: seq<nat>)
    requires forall b :: b in xs + ys + zs ==> b !in runs
    requires forall y :: y in ys ==> y !in xs + zs
    ensures (runs + Ones(xs + ys + zs)) - SetOf(ys) == runs + Ones(xs + zs)
  {
    var l, r := (runs + Ones(xs + ys + zs)) - SetOf(ys), runs + Ones(xs + zs);
    forall b
      ensures b in l <==> b in r
    {
      assert b in xs + ys + zs <==> b in xs || b in ys || b in zs;
    }
  }

  /** More live runs, fewer free blocks. */
  lemma FreeShrinks(t: Table, runs: Runs, t': Table, runs': Runs)
    requires Encodes(t, runs) && Encodes(t', runs') && |t| == |t'|
    requires forall s :: s in runs ==> s in runs' && runs'[s] == runs[s]
    ensures FreeSet(t') <= FreeSet(t)
  {
    forall i: nat | i in FreeSet(t')
      ensures i in FreeSet(t)
    {
      FreeIsZero(t, runs, i);
      FreeIsZero(t', runs', i);
      assert forall s :: InRun(runs, s, i) ==> InRun(runs', s, i);
    }
  }

  /** kzalloc of at most one block, told by what it changes. */
  method TakeZeroedBlock(k: Kernel, size: uint32) returns (address: int, ghost b: nat)
    requires k.Valid() && k.FreeBlocks() != {} && 1 <= size <= BLOCK_SIZE
    modifies k.heap, k.heap.entries, k.pool
    ensures k.Valid()
    ensures b in old(k.FreeBlocks()) && k.FreeBlocks() == old(k.FreeBlocks()) - {b}
    ensures b !in old(k.heap.runs) && k.heap.runs == old(k.heap.runs)[b := 1]
    ensures b < k.heap.total && address == k.heap.Address(b) && address > 0
    ensures FirstIn(old(k.heap.runs), k.heap.total, b)
    ensures forall i :: b * BLOCK_SIZE <= i < b * BLOCK_SIZE + size ==> k.pool[i] == 0
    ensures SameElsewhere(old(k.pool[..]), k.pool[..], [b])
  {
    OneBlockFits(k.heap.Entries());
    address, b := k.KZalloc(size);
    FirstFitIs(old(k.heap.Entries()), old(k.heap.runs), b);
    ZeroedElsewhere(old(k.pool[..]), k.pool[..], b, size);
  }
}
