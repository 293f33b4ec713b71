/** paging.c: building and freeing a 4 GB address space out of heap blocks.
  */
module AddressSpaces {
  import opened Machine
  import opened BlockHeap
  import opened KernelHeap
  import opened Paging

  /** The j-th table of the identity map: entry b is page j * 1024 + b with the flags. */
  ghost predicate IdentityTable(pool: Bytes, block: nat, j: nat, flags: uint8) {
    && Fitted(pool, block) && j < PAGING_TOTAL_ENTRIES_PER_TABLE
    && forall b :: 0 <= b < PAGING_TOTAL_ENTRIES_PER_TABLE ==>
         Load32(pool, block * BLOCK_SIZE + 4 * b) == j * TABLE_SPAN + b * PAGING_PAGE_SIZE + flags
  }

  /** The i-th directory entry points to this table, with the flags and the writeable bit. */
  ghost predicate PointsTo(pool: Bytes, saddr: nat, dir: nat, i: nat, table: nat, flags: uint8) {
    && Fitted(pool, dir) && i < PAGING_TOTAL_ENTRIES_PER_TABLE && saddr + table * BLOCK_SIZE < TWO_32
    && Load32(pool, dir * BLOCK_SIZE + 4 * i) == saddr + table * BLOCK_SIZE + Writeable(flags)
  }

  lemma IdentityTableKept(p: Bytes, p': Bytes, block: nat, j: nat, flags: uint8)
    requires IdentityTable(p, block, j, flags) && SameBlock(p, p', block)
    ensures IdentityTable(p', block, j, flags)
  {
    forall b | 0 <= b < PAGING_TOTAL_ENTRIES_PER_TABLE
      ensures Load32(p', block * BLOCK_SIZE + 4 * b) == Load32(p, block * BLOCK_SIZE + 4 * b)
    {
      var a := block * BLOCK_SIZE + 4 * b;
      assert InBlock(block, a) && InBlock(block, a + 1) && InBlock(block, a + 2) && InBlock(block, a + 3);
    }
  }

  lemma OffsetWraps(offset: int32, j: nat, b: nat)
    requires j < PAGING_TOTAL_ENTRIES_PER_TABLE && b < PAGING_TOTAL_ENTRIES_PER_TABLE
    requires U32(offset) == j * TABLE_SPAN
    ensures U32(offset + b * PAGING_PAGE_SIZE) == j * TABLE_SPAN + b * PAGING_PAGE_SIZE
    ensures IsAligned(U32(offset + b * PAGING_PAGE_SIZE))
  {
  }

  /** Word n of an array of words at a. */
  method StoreNextWord(mem: array<uint8>, a: nat, n: nat, v: uint32)
    requires a + 4 * n + 4 <= mem.Length
    modifies mem
    ensures Load32(mem[..], a + 4 * n) == v
    ensures forall c :: 0 <= c < n ==> Load32(mem[..], a + 4 * c) == old(Load32(mem[..], a + 4 * c))
    ensures forall i :: 0 <= i < mem.Length && !(a + 4 * n <= i < a + 4 * n + 4) ==> mem[i] == old(mem[i])
  {
    ghost var before := mem[..];
    LoadStore32(before, a + 4 * n, v);
    Write32(mem, a + 4 * n, v);
    forall c | 0 <= c < n
      ensures Load32(mem[..], a + 4 * c) == Load32(before, a + 4 * c)
    {
      LoadFrame32(before, a + 4 * n, v, a + 4 * c);
    }
  }

  /** The inner loop of paging_new_4gb. `offset` is an `int`, so it wraps at
    * 2^31; what is stored is its value modulo 2^32. */
  method FillTable(mem: array<uint8>, block: nat, offset: int32, flags: uint8, ghost j: nat)
    requires (block + 1) * BLOCK_SIZE <= mem.Length
    requires j < PAGING_TOTAL_ENTRIES_PER_TABLE && U32(offset) == j * TABLE_SPAN
    modifies mem
    ensures IdentityTable(mem[..], block, j, flags)
    ensures SameElsewhere(old(mem[..]), mem[..], [block])
  {
    var b := 0;
    while b < PAGING_TOTAL_ENTRIES_PER_TABLE
      invariant 0 <= b <= PAGING_TOTAL_ENTRIES_PER_TABLE
      invariant forall c :: 0 <= c < b ==>
        Load32(mem[..], block * BLOCK_SIZE + 4 * c) == j * TABLE_SPAN + c * PAGING_PAGE_SIZE + flags
      invariant forall i :: 0 <= i < mem.Length && !InBlock(block, i) ==> mem[i] == old(mem[i])
    {
      var entry := OrFlags(U32(offset + b * PAGING_PAGE_SIZE), flags);
      OffsetWraps(offset, j, b);
      OrAligned(U32(offset + b * PAGING_PAGE_SIZE), flags);
      StoreNextWord(mem, block * BLOCK_SIZE, b, entry);
      b := b + 1;
    }
    forall c: nat | c != block
      ensures SameBlock(old(mem[..]), mem[..], c)
    {
      assert forall i :: InBlock(c, i) ==> !InBlock(block, i);
    }
  }

  lemma OffsetStep(offset: int32, j: nat)
    requires j < PAGING_TOTAL_ENTRIES_PER_TABLE && U32(offset) == j * TABLE_SPAN
    ensures j + 1 < PAGING_TOTAL_ENTRIES_PER_TABLE ==> U32(I32(offset + TABLE_SPAN)) == (j + 1) * TABLE_SPAN
  {
  }

  /** directory[i] = the table with its flags. */
  method EnterTable(mem: array<uint8>, saddr: nat, dir: nat, i: nat, table: nat, flags: uint8)
    requires Fitted(mem[..], dir) && i < PAGING_TOTAL_ENTRIES_PER_TABLE
    requires saddr % BLOCK_SIZE == 0 && saddr + table * BLOCK_SIZE < TWO_32
    modifies mem
    ensures PointsTo(mem[..], saddr, dir, i, table, flags)
    ensures forall c :: 0 <= c < i ==>
              Load32(mem[..], dir * BLOCK_SIZE + 4 * c) == old(Load32(mem[..], dir * BLOCK_SIZE + 4 * c))
    ensures SameElsewhere(old(mem[..]), mem[..], [dir])
  {
    ghost var before := mem[..];
    OrTable(saddr + table * BLOCK_SIZE, flags);
    StoreNextWord(mem, dir * BLOCK_SIZE, i, OrFlags(OrFlags(saddr + table * BLOCK_SIZE, flags), PAGING_IS_WRITEABLE));
    forall c: nat | c != dir
      ensures SameBlock(before, mem[..], c)
    {
      assert forall i :: InBlock(c, i) ==> !InBlock(dir, i);
    }
  }

  lemma DirectoryKept(p: Bytes, p': Bytes, dir: nat)
    requires Fitted(p, dir) && SameBlock(p, p', dir)
    ensures forall c :: 0 <= c < PAGING_TOTAL_ENTRIES_PER_TABLE ==>
              Load32(p', dir * BLOCK_SIZE + 4 * c) == Load32(p, dir * BLOCK_SIZE + 4 * c)
  {
    forall c | 0 <= c < PAGING_TOTAL_ENTRIES_PER_TABLE
      ensures Load32(p', dir * BLOCK_SIZE + 4 * c) == Load32(p, dir * BLOCK_SIZE + 4 * c)
    {
      var a := dir * BLOCK_SIZE + 4 * c;
      assert InBlock(dir, a) && InBlock(dir, a + 1) && InBlock(dir, a + 2) && InBlock(dir, a + 3);
    }
  }

  /** Fills block b as the i-th table, then enters it in the directory. */
  method FillAndEnter(mem: array<uint8>, saddr: nat, dir: nat, b: nat, i: nat, offset: int32, flags: uint8)
    requires Fitted(mem[..], dir) && Fitted(mem[..], b) && b != dir
    requires i < PAGING_TOTAL_ENTRIES_PER_TABLE && U32(offset) == i * TABLE_SPAN
    requires saddr % BLOCK_SIZE == 0 && saddr + b * BLOCK_SIZE < TWO_32
    modifies mem
    ensures IdentityTable(mem[..], b, i, flags)
    ensures PointsTo(mem[..], saddr, dir, i, b, flags)
    ensures forall c :: 0 <= c < i ==>
              Load32(mem[..], dir * BLOCK_SIZE + 4 * c) == old(Load32(mem[..], dir * BLOCK_SIZE + 4 * c))
    ensures SameElsewhere(old(mem[..]), mem[..], [dir, b])
  {
    FillTable(mem, b, offset, flags, i);
    ghost var filled := mem[..];
    DirectoryKept(old(mem[..]), filled, dir);
    EnterTable(mem, saddr, dir, i, b, flags);
    IdentityTableKept(filled, mem[..], b, i, flags);
    SameElsewhereTrans(old(mem[..]), filled, mem[..], [b], [dir], [dir, b]);
  }

  /** The first |tabs| directory entries and their tables are in place. */
  ghost predicate Identity(pool: Bytes, saddr: nat, dir: nat, tabs: seq<nat>, flags: uint8) {
    && |tabs| <= PAGING_TOTAL_ENTRIES_PER_TABLE
    && (forall j :: 0 <= j < |tabs| ==> IdentityTable(pool, tabs[j], j, flags))
    && (forall j :: 0 <= j < |tabs| ==> PointsTo(pool, saddr, dir, j, tabs[j], flags))
  }

  lemma IdentityStep(p: Bytes, p': Bytes, saddr: nat, dir: nat, tabs: seq<nat>, i: nat, b: nat, flags: uint8)
    requires Identity(p, saddr, dir, tabs, flags) && i == |tabs| < PAGING_TOTAL_ENTRIES_PER_TABLE
    requires Fitted(p, dir) && SameElsewhere(p, p', [dir, b]) && b !in tabs && dir !in tabs
    requires forall c :: 0 <= c < i ==>
               Load32(p', dir * BLOCK_SIZE + 4 * c) == Load32(p, dir * BLOCK_SIZE + 4 * c)
    requires IdentityTable(p', b, i, flags) && PointsTo(p', saddr, dir, i, b, flags)
    ensures Identity(p', saddr, dir, tabs + [b], flags)
  {
    forall j | 0 <= j < |tabs|
      ensures IdentityTable(p', tabs[j], j, flags) && PointsTo(p', saddr, dir, j, tabs[j], flags)
    {
      assert tabs[j] !in [dir, b];
      IdentityTableKept(p, p', tabs[j], j, flags);
      assert PointsTo(p, saddr, dir, j, tabs[j], flags);
    }
  }

  lemma IdentityKept(p: Bytes, p': Bytes, saddr: nat, dir: nat, tabs: seq<nat>, b: nat, flags: uint8)
    requires Identity(p, saddr, dir, tabs, flags) && Fitted(p, dir)
    requires SameElsewhere(p, p', [b]) && b !in tabs && b != dir
    ensures Identity(p', saddr, dir, tabs, flags)
  {
    DirectoryKept(p, p', dir);
    forall j | 0 <= j < |tabs|
      ensures IdentityTable(p', tabs[j], j, flags) && PointsTo(p', saddr, dir, j, tabs[j], flags)
    {
      assert tabs[j] in tabs;
      IdentityTableKept(p, p', tabs[j], j, flags);
      assert PointsTo(p, saddr, dir, j, tabs[j], flags);
    }
  }

  /** One round of the outer loop of paging_new_4gb: a zeroed table, filled and
    * entered in the directory. */
  method AddTable(k: Kernel, i: nat, offset: int32, flags: uint8, dir: nat, ghost tabs: seq<nat>)
    returns (b: nat)
    requires k.Valid() && k.FreeBlocks() != {}
    requires dir in k.heap.runs && Fitted(k.pool[..], dir)
    requires i < PAGING_TOTAL_ENTRIES_PER_TABLE && U32(offset) == i * TABLE_SPAN
    requires i == |tabs| && Identity(k.pool[..], k.heap.saddr, dir, tabs, flags)
    requires dir !in tabs && forall c :: c in tabs ==> c in k.heap.runs
    modifies k.heap, k.heap.entries, k.pool
    ensures k.Valid()
    ensures b in old(k.FreeBlocks()) && k.FreeBlocks() == old(k.FreeBlocks()) - {b}
    ensures b !in old(k.heap.runs) && k.heap.runs == old(k.heap.runs)[b := 1]
    ensures Identity(k.pool[..], k.heap.saddr, dir, tabs + [b], flags)
    ensures SameElsewhere(old(k.pool[..]), k.pool[..], [dir, b])
  {
    var entry;
    ghost var taken;
    entry, taken := TakeZeroedBlock(k, PAGING_PAGE_SIZE);
    b := (entry - k.heap.saddr) / BLOCK_SIZE;
    assert b == taken;
    ghost var zeroed := k.pool[..];
    FillAndEnter(k.pool, k.heap.saddr, dir, b, i, offset, flags);
    IdentityKept(old(k.pool[..]), zeroed, k.heap.saddr, dir, tabs, b, flags);
    IdentityStep(zeroed, k.pool[..], k.heap.saddr, dir, tabs, i, b, flags);
    SameElsewhereTrans(old(k.pool[..]), zeroed, k.pool[..], [b], [dir, b], [dir, b]);
  }

  lemma BlockAligned(saddr: nat, b: nat)
    requires saddr % BLOCK_SIZE == 0
    ensures (saddr + b * BLOCK_SIZE) % BLOCK_SIZE == 0
  {
  }

  lemma EntryMasked(pool: Bytes, saddr: nat, dir: nat, i: nat, table: nat, flags: uint8)
    requires PointsTo(pool, saddr, dir, i, table, flags) && saddr % BLOCK_SIZE == 0
    ensures TableOf(Load32(pool, dir * BLOCK_SIZE + 4 * i)) == saddr + table * BLOCK_SIZE
  {
    BlockAligned(saddr, table);
    MaskRecoversTable(saddr + table * BLOCK_SIZE, flags);
  }

  lemma IdentityEntry(pool: Bytes, saddr: nat, dir: nat, tabs: seq<nat>, flags: uint8, i: nat)
    requires Identity(pool, saddr, dir, tabs, flags) && i < |tabs| <= PAGING_TOTAL_ENTRIES_PER_TABLE
    requires saddr % BLOCK_SIZE == 0 && saddr + |pool| <= TWO_32
    ensures Fitted(pool, dir) && Fitted(pool, tabs[i])
    ensures TableOf(Load32(pool, dir * BLOCK_SIZE + 4 * i)) == saddr + tabs[i] * BLOCK_SIZE
  {
    assert IdentityTable(pool, tabs[i], i, flags) && PointsTo(pool, saddr, dir, i, tabs[i], flags);
    EntryMasked(pool, saddr, dir, i, tabs[i], flags);
  }

  lemma IdentityTables(pool: Bytes, saddr: nat, dir: nat, tabs: seq<nat>, flags: uint8)
    requires Identity(pool, saddr, dir, tabs, flags) && |tabs| == PAGING_TOTAL_ENTRIES_PER_TABLE
    requires saddr % BLOCK_SIZE == 0 && saddr + |pool| <= TWO_32
    requires Distinct(tabs) && dir !in tabs
    ensures Tables(pool, saddr, dir, tabs)
  {
    IdentityEntry(pool, saddr, dir, tabs, flags, 0);
    forall i | 0 <= i < |tabs|
      ensures Fitted(pool, tabs[i]) && tabs[i] != dir
      ensures TableOf(Load32(pool, dir * BLOCK_SIZE + 4 * i)) == saddr + tabs[i] * BLOCK_SIZE
    {
      IdentityEntry(pool, saddr, dir, tabs, flags, i);
      assert tabs[i] in tabs;
    }
  }

  /** A finished identity space is a valid two-level structure in which every
    * aligned address walks to itself with the flags. */
  lemma IdentityWalks(pool: Bytes, saddr: nat, dir: nat, tabs: seq<nat>, flags: uint8, v: uint32)
    requires Identity(pool, saddr, dir, tabs, flags) && |tabs| == PAGING_TOTAL_ENTRIES_PER_TABLE
    requires saddr % BLOCK_SIZE == 0 && saddr + |pool| <= TWO_32
    requires Distinct(tabs) && dir !in tabs
    ensures Tables(pool, saddr, dir, tabs)
    ensures IsAligned(v) ==> View(pool, saddr, dir, v) == v + flags
  {
    IdentityTables(pool, saddr, dir, tabs, flags);
    WalkReachesEntry(pool, saddr, dir, tabs, v);
    var d := DirectoryIndex(v);
    assert IdentityTable(pool, tabs[d], d, flags);
    if IsAligned(v) {
      IndexesGiveAddress(v);
    }
  }

  method EnterDirectory(mem: array<uint8>, ghost c: nat, at: nat, directory: uint32)
    requires Fitted(mem[..], c) && at == c * BLOCK_SIZE
    modifies mem
    ensures Load32(mem[..], c * BLOCK_SIZE) == directory
    ensures SameElsewhere(old(mem[..]), mem[..], [c])
  {
    LoadStore32(mem[..], at, directory);
    Write32(mem, at, directory);
    forall d: nat | d != c
      ensures SameBlock(old(mem[..]), mem[..], d)
    {
      assert forall i :: InBlock(d, i) ==> !InBlock(c, i);
    }
  }

  /** The chunk record: one word, the directory's address. */
  method NewChunk(k: Kernel, directory: uint32) returns (chunk: int, ghost c: nat)
    requires k.Valid() && k.FreeBlocks() != {}
    modifies k.heap, k.heap.entries, k.pool
    ensures k.Valid()
    ensures c in old(k.FreeBlocks()) && k.FreeBlocks() == old(k.FreeBlocks()) - {c}
    ensures c !in old(k.heap.runs) && k.heap.runs == old(k.heap.runs)[c := 1]
    ensures chunk == k.heap.Address(c) && Fitted(k.pool[..], c)
    ensures Load32(k.pool[..], c * BLOCK_SIZE) == directory
    ensures SameElsewhere(old(k.pool[..]), k.pool[..], [c])
  {
    chunk, c := TakeZeroedBlock(k, 4);
    ghost var zeroed := k.pool[..];
    EnterDirectory(k.pool, c, chunk - k.heap.saddr, directory);
    SameElsewhereTrans(old(k.pool[..]), zeroed, k.pool[..], [c], [c], [c]);
  }

  lemma TablesLive(runs: Runs, dir: nat, tabs: seq<nat>)
    requires Distinct([dir] + tabs)
    ensures dir !in tabs && Distinct(tabs)
    ensures dir in runs + Ones([dir] + tabs)
    ensures forall c :: c in tabs ==> c in runs + Ones([dir] + tabs)
  {
    forall c | c in tabs
      ensures c != dir && c in runs + Ones([dir] + tabs)
    {
      var i :| 0 <= i < |tabs| && tabs[i] == c;
      assert ([dir] + tabs)[i + 1] == c && ([dir] + tabs)[0] == dir;
    }
    forall i, j | 0 <= i < j < |tabs|
      ensures tabs[i] != tabs[j]
    {
      assert ([dir] + tabs)[i + 1] == tabs[i] && ([dir] + tabs)[j + 1] == tabs[j];
    }
  }

  lemma TookTable(s: Snapshot, t: Snapshot, u: Snapshot, dir: nat, tabs: seq<nat>, b: nat)
    requires Took(s, t, [dir] + tabs)
    requires b in t.free && b !in t.runs && u.free == t.free - {b} && u.runs == t.runs[b := 1]
    requires SameElsewhere(t.pool, u.pool, [dir, b])
    ensures Took(s, u, [dir] + (tabs + [b]))
  {
    assert dir in [dir] + tabs;
    TookSnoc(s, t, u, [dir] + tabs, b, [dir, b]);
    assert [dir] + tabs + [b] == [dir] + (tabs + [b]);
  }

  /** The zeroed directory, before any entry is made. */
  method NewDirectory(k: Kernel) returns (directory: int, dir: nat)
    requires k.Valid() && k.FreeBlocks() != {}
    modifies k.heap, k.heap.entries, k.pool
    ensures k.Valid() && |k.FreeBlocks()| == |old(k.FreeBlocks())| - 1
    ensures Took(old(Now(k)), Now(k), [dir] + [])
    ensures directory == k.heap.Address(dir) && Fitted(k.pool[..], dir)
    ensures FirstIn(old(k.heap.runs), k.heap.total, dir)
  {
    ghost var taken;
    directory, taken := TakeZeroedBlock(k, 4 * PAGING_TOTAL_ENTRIES_PER_TABLE);
    dir := (directory - k.heap.saddr) / BLOCK_SIZE;
    assert dir == taken;
    TookNothing(old(Now(k)));
    TookSnoc(old(Now(k)), old(Now(k)), Now(k), [], dir, [dir]);
    assert [] + [dir] == [dir] + [];
  }

  /** The loop of paging_new_4gb. */
  method BuildTables(k: Kernel, flags: uint8) returns (directory: int, dir: nat, ghost tabs: seq<nat>)
    requires k.Valid() && |k.FreeBlocks()| >= 1026
    modifies k.heap, k.heap.entries, k.pool
    ensures k.Valid() && k.FreeBlocks() != {}
    ensures Took(old(Now(k)), Now(k), [dir] + tabs)
    ensures directory == k.heap.Address(dir) && Fitted(k.pool[..], dir)
    ensures |tabs| == PAGING_TOTAL_ENTRIES_PER_TABLE
    ensures Identity(k.pool[..], k.heap.saddr, dir, tabs, flags)
    ensures FirstIn(old(k.heap.runs), k.heap.total, dir)
  {
    directory, dir := NewDirectory(k);
    tabs := [];
    var offset: int32 := 0;
    var i := 0;
    while i < PAGING_TOTAL_ENTRIES_PER_TABLE
      invariant 0 <= i <= PAGING_TOTAL_ENTRIES_PER_TABLE && |tabs| == i
      invariant i < PAGING_TOTAL_ENTRIES_PER_TABLE ==> U32(offset) == i * TABLE_SPAN
      invariant k.Valid() && |k.FreeBlocks()| >= 1025 - i
      invariant Took(old(Now(k)), Now(k), [dir] + tabs)
      invariant Fitted(k.pool[..], dir)
      invariant Identity(k.pool[..], k.heap.saddr, dir, tabs, flags)
    {
      ghost var before := Now(k);
      TablesLive(old(k.heap.runs), dir, tabs);
      var b := AddTable(k, i, offset, flags, dir, tabs);
      TookTable(old(Now(k)), before, Now(k), dir, tabs, b);
      OffsetStep(offset, i);
      offset := I32(offset + TABLE_SPAN);
      tabs := tabs + [b];
      i := i + 1;
    }
  }

  /** paging_new_4gb: a chunk, a directory and 1024 tables, all fresh blocks. */
  method New4gb(k: Kernel, flags: uint8) returns (chunk: int, ghost sp: Space)
    requires k.Valid() && |k.FreeBlocks()| >= 1026
    modifies k.heap, k.heap.entries, k.pool
    ensures k.Valid()
    ensures Took(old(Now(k)), Now(k), sp.Blocks())
    ensures chunk == k.heap.Address(sp.chunk) && Fitted(k.pool[..], sp.chunk)
    ensures Load32(k.pool[..], sp.chunk * BLOCK_SIZE) == k.heap.Address(sp.dir)
    ensures |sp.tabs| == PAGING_TOTAL_ENTRIES_PER_TABLE
    ensures Identity(k.pool[..], k.heap.saddr, sp.dir, sp.tabs, flags)
    ensures FirstIn(old(k.heap.runs), k.heap.total, sp.dir)
  {
    var directory, dir;
    ghost var tabs, c;
    directory, dir, tabs := BuildTables(k, flags);
    ghost var built := Now(k);
    chunk, c := NewChunk(k, directory);
    TablesLive(old(k.heap.runs), dir, tabs);
    IdentityKept(built.pool, k.pool[..], k.heap.saddr, dir, tabs, c, flags);
    TookSnoc(old(Now(k)), built, Now(k), [dir] + tabs, c, [c]);
    sp := Space(c, dir, tabs);
  }

  lemma SpaceDistinct(sp: Space)
    requires Distinct(sp.Blocks())
    ensures sp.chunk != sp.dir && sp.chunk !in sp.tabs && sp.dir !in sp.tabs && Distinct(sp.tabs)
    ensures forall i :: 0 <= i < |sp.tabs| ==> sp.tabs[i] !in sp.tabs[..i]
  {
    var bs := sp.Blocks();
    assert bs[|sp.tabs| + 1] == sp.chunk && bs[0] == sp.dir;
    assert forall i :: 0 <= i < |sp.tabs| ==> bs[i + 1] == sp.tabs[i];
  }

  /** What the directory entry of a new space is: the table's address, and low bits in which the
    * writeable bit is set and every other one is as in the flags. */
  lemma DirectoryEntry(pool: Bytes, saddr: nat, dir: nat, tabs: seq<nat>, flags: uint8, i: nat) returns (low: nat)
    requires Identity(pool, saddr, dir, tabs, flags) && i < |tabs|
    ensures Fitted(pool, dir) && low < 4096
    ensures Load32(pool, dir * BLOCK_SIZE + 4 * i) == saddr + tabs[i] * BLOCK_SIZE + low
    ensures forall k :: Bit(low, k) <==> k == 1 || Bit(flags, k)
  {
    assert PointsTo(pool, saddr, dir, i, tabs[i], flags);
    low := Writeable(flags);
    forall k
      ensures Bit(low, k) <==> k == 1 || Bit(flags, k)
    {
      WriteableBits(flags, k);
    }
  }

  lemma IdentityIsFresh(pool: Bytes, saddr: nat, sp: Space, flags: uint8, low: nat)
    requires low == Writeable(flags)
    requires Identity(pool, saddr, sp.dir, sp.tabs, flags) && |sp.tabs| == PAGING_TOTAL_ENTRIES_PER_TABLE
    requires saddr % BLOCK_SIZE == 0 && saddr + |pool| <= TWO_32
    requires Distinct(sp.tabs) && sp.dir !in sp.tabs
    ensures FreshSpace(pool, saddr, sp, flags, low)
  {
    forall v: uint32 | IsAligned(v)
      ensures View(pool, saddr, sp.dir, v) == v + flags
    {
      IdentityWalks(pool, saddr, sp.dir, sp.tabs, flags, v);
    }
    forall i | 0 <= i < PAGING_TOTAL_ENTRIES_PER_TABLE
      ensures Fitted(pool, sp.dir)
      ensures Load32(pool, sp.dir * BLOCK_SIZE + 4 * i) == saddr + sp.tabs[i] * BLOCK_SIZE + low
    {
      assert PointsTo(pool, saddr, sp.dir, i, sp.tabs[i], flags);
    }
    assert PointsTo(pool, saddr, sp.dir, 0, sp.tabs[0], flags);
  }

  lemma SpaceIsFresh(pool: Bytes, saddr: nat, sp: Space, flags: uint8, low: nat)
    requires low == Writeable(flags) && Distinct(sp.Blocks())
    requires Identity(pool, saddr, sp.dir, sp.tabs, flags) && |sp.tabs| == PAGING_TOTAL_ENTRIES_PER_TABLE
    requires saddr % BLOCK_SIZE == 0 && saddr + |pool| <= TWO_32
    ensures FreshSpace(pool, saddr, sp, flags, low)
  {
    SpaceDistinct(sp);
    IdentityIsFresh(pool, saddr, sp, flags, low);
  }

  lemma KernelFlags()
    ensures PAGING_IS_WRITEABLE + PAGING_IS_PRESENT + PAGING_ACCESS_FROM_ALL == 7 == Writeable(7)
  {
  }

  /** The kernel's own address space, as it is made at start-up: with flags 7, directory entries
    * are table + 7 and page entries page + 7. */
  method NewKernelSpace(k: Kernel) returns (chunk: int, ghost sp: Space)
    requires k.Valid() && |k.FreeBlocks()| >= 1026
    modifies k.heap, k.heap.entries, k.pool
    ensures k.Valid() && Took(old(Now(k)), Now(k), sp.Blocks())
    ensures FreshSpace(k.pool[..], k.heap.saddr, sp, 7, 7)
  {
    chunk, sp := New4gb(k, PAGING_IS_WRITEABLE + PAGING_IS_PRESENT + PAGING_ACCESS_FROM_ALL);
    KernelFlags();
    SpaceIsFresh(k.pool[..], k.heap.saddr, sp, 7, 7);
  }

  /** Memory holds the chunk, the directory and the tables of sp. */
  ghost predicate Mapped(pool: Bytes, saddr: nat, sp: Space) {
    && Tables(pool, saddr, sp.dir, sp.tabs) && Distinct(sp.Blocks())
    && Fitted(pool, sp.chunk)
    && Load32(pool, sp.chunk * BLOCK_SIZE) == saddr + sp.dir * BLOCK_SIZE
  }

  /** Everything an address space owns is live and in place. */
  ghost predicate Owns(k: Kernel, sp: Space)
    reads k.heap, k.heap.entries, k.pool
  {
    && k.Valid() && Mapped(k.pool[..], k.heap.saddr, sp)
    && forall b :: b in sp.Blocks() ==> b in k.heap.runs
  }

  lemma SetElsewhere(pool: Bytes, tabs: seq<nat>, v: uint32, val: uint32)
    requires EntriesFit(pool, tabs)
    ensures SameElsewhere(pool, SetEntry(pool, tabs, v, val), tabs)
  {
    var d := DirectoryIndex(v);
    assert tabs[d] in tabs;
    forall c: nat | c !in tabs
      ensures SameBlock(pool, SetEntry(pool, tabs, v, val), c)
    {
      assert forall i :: InBlock(c, i) ==> !InBlock(tabs[d], i);
    }
  }

  lemma MappedKept(p: Bytes, p': Bytes, saddr: nat, sp: Space)
    requires Mapped(p, saddr, sp) && SameBlock(p, p', sp.dir) && SameBlock(p, p', sp.chunk)
    ensures Mapped(p', saddr, sp)
  {
    DirectoryKept(p, p', sp.dir);
    var a := sp.chunk * BLOCK_SIZE;
    assert InBlock(sp.chunk, a) && InBlock(sp.chunk, a + 1) && InBlock(sp.chunk, a + 2) && InBlock(sp.chunk, a + 3);
  }

  lemma WordKept(p: Bytes, p': Bytes, b: nat, n: nat)
    requires Fitted(p, b) && SameBlock(p, p', b) && n < PAGING_TOTAL_ENTRIES_PER_TABLE
    ensures Fitted(p', b) && Load32(p', b * BLOCK_SIZE + 4 * n) == Load32(p, b * BLOCK_SIZE + 4 * n)
  {
    var a := b * BLOCK_SIZE + 4 * n;
    assert InBlock(b, a) && InBlock(b, a + 1) && InBlock(b, a + 2) && InBlock(b, a + 3);
  }

  /** A space is what it was while its directory and tables are. */
  lemma ViewKept(p: Bytes, p': Bytes, saddr: nat, sp: Space, v: uint32)
    requires Mapped(p, saddr, sp) && Mapped(p', saddr, sp)
    requires forall b :: b in sp.tabs ==> SameBlock(p, p', b)
    ensures View(p', saddr, sp.dir, v) == View(p, saddr, sp.dir, v)
  {
    WalkReachesEntry(p, saddr, sp.dir, sp.tabs, v);
    WalkReachesEntry(p', saddr, sp.dir, sp.tabs, v);
    var d := DirectoryIndex(v);
    assert sp.tabs[d] in sp.tabs && Fitted(p, sp.tabs[d]);
    WordKept(p, p', sp.tabs[d], TableIndex(v));
  }

  lemma FreshKept(p: Bytes, p': Bytes, saddr: nat, sp: Space, flags: nat, low: nat, xs: seq<nat>)
    requires Mapped(p, saddr, sp) && FreshSpace(p, saddr, sp, flags, low)
    requires SameElsewhere(p, p', xs) && forall b :: b in sp.Blocks() ==> b !in xs
    ensures FreshSpace(p', saddr, sp, flags, low)
  {
    var bs := sp.Blocks();
    assert bs[0] == sp.dir && bs[|bs| - 1] == sp.chunk;
    assert forall b :: b in sp.tabs ==> b in bs;
    MappedKept(p, p', saddr, sp);
    DirectoryKept(p, p', sp.dir);
    forall v: uint32 | IsAligned(v)
      ensures View(p', saddr, sp.dir, v) == v + flags
    {
      ViewKept(p, p', saddr, sp, v);
    }
  }

  lemma MappedAfterSet(pool: Bytes, saddr: nat, sp: Space, v: uint32, val: uint32)
    requires Mapped(pool, saddr, sp)
    ensures Mapped(SetEntry(pool, sp.tabs, v, val), saddr, sp)
    ensures SameElsewhere(pool, SetEntry(pool, sp.tabs, v, val), sp.tabs)
  {
    SetElsewhere(pool, sp.tabs, v, val);
    SpaceDistinct(sp);
    MappedKept(pool, SetEntry(pool, sp.tabs, v, val), saddr, sp);
  }

  lemma SetOfStep(s: seq<nat>, i: nat)
    requires i < |s|
    ensures SetOf(s[..i + 1]) == SetOf(s[..i]) + {s[i]}
  {
    assert s[..i + 1] == s[..i] + [s[i]];
  }

  lemma MinusBlocks(runs: Runs, sp: Space)
    ensures runs - SetOf(sp.tabs) - {sp.dir} - {sp.chunk} == runs - SetOf(sp.Blocks())
  {
    assert SetOf(sp.Blocks()) == SetOf(sp.tabs) + {sp.dir} + {sp.chunk};
  }

  /** Memory holds a chunk whose directory's entries, masked, are these blocks, whatever they
    * are. */
  ghost predicate DirectoryIn(pool: Bytes, saddr: nat, sp: Space) {
    && saddr % BLOCK_SIZE == 0 && saddr + |pool| <= TWO_32
    && |sp.tabs| == PAGING_TOTAL_ENTRIES_PER_TABLE
    && Fitted(pool, sp.dir) && Fitted(pool, sp.chunk)
    && (forall i :: 0 <= i < |sp.tabs| ==> Fitted(pool, sp.tabs[i]))
    && (forall i :: 0 <= i < |sp.tabs| ==>
          TableOf(Load32(pool, sp.dir * BLOCK_SIZE + 4 * i)) == saddr + sp.tabs[i] * BLOCK_SIZE)
    && Load32(pool, sp.chunk * BLOCK_SIZE) == saddr + sp.dir * BLOCK_SIZE
  }

  ghost predicate AllFreeable(runs: Runs, blocks: seq<nat>) {
    forall b :: b in blocks ==> Freeable(runs, b)
  }

  lemma NextFreed(t: Table, was: Runs, sp: Space, i: nat)
    requires Encodes(t, was) && i < |sp.tabs| && AllFreeable(was, sp.Blocks())
    ensures Freeable(was - SetOf(sp.tabs[..i]), sp.tabs[i])
    ensures was - SetOf(sp.tabs[..i]) - {sp.tabs[i]} == was - SetOf(sp.tabs[..i + 1])
  {
    SetOfStep(sp.tabs, i);
    assert sp.tabs[i] in sp.Blocks();
    FreeableStays(t, was, SetOf(sp.tabs[..i]), sp.tabs[i]);
  }

  method FreeTable(k: Kernel, chunk: int, i: nat, ghost sp: Space)
    requires k.Valid() && DirectoryIn(k.pool[..], k.heap.saddr, sp) && chunk == k.heap.Address(sp.chunk)
    requires i < PAGING_TOTAL_ENTRIES_PER_TABLE && Freeable(k.heap.runs, sp.tabs[i])
    modifies k.heap, k.heap.entries
    ensures k.Valid() && k.heap.runs == old(k.heap.runs) - {sp.tabs[i]}
  {
    var directory := Read32(k.pool, chunk - k.heap.saddr);
    assert Fitted(k.pool[..], sp.dir) && Fitted(k.pool[..], sp.tabs[i]);
    var entry := Read32(k.pool, directory - k.heap.saddr + 4 * i);
    var table := TableOf(entry);
    k.KFree(table, sp.tabs[i]);
  }

  /** Its loop. */
  method FreeTables(k: Kernel, chunk: int, ghost sp: Space)
    requires k.Valid() && DirectoryIn(k.pool[..], k.heap.saddr, sp) && chunk == k.heap.Address(sp.chunk)
    requires AllFreeable(k.heap.runs, sp.Blocks())
    modifies k.heap, k.heap.entries
    ensures k.Valid() && k.heap.runs == old(k.heap.runs) - SetOf(sp.tabs)
  {
    ghost var was, table := k.heap.runs, k.heap.Entries();
    var i := 0;
    while i < 1024
      invariant 0 <= i <= 1024
      invariant k.Valid() && k.heap.runs == was - SetOf(sp.tabs[..i])
    {
      NextFreed(table, was, sp, i);
      FreeTable(k, chunk, i, sp);
      i := i + 1;
    }
    assert sp.tabs[..1024] == sp.tabs;
  }

  lemma LastFreed(t: Table, was: Runs, sp: Space)
    requires Encodes(t, was) && AllFreeable(was, sp.Blocks())
    ensures Freeable(was - SetOf(sp.tabs), sp.dir)
    ensures Freeable(was - SetOf(sp.tabs) - {sp.dir}, sp.chunk)
    ensures was - SetOf(sp.tabs) - {sp.dir} - {sp.chunk} == was - SetOf(sp.Blocks())
  {
    MinusBlocks(was, sp);
    assert sp.dir in sp.Blocks() && sp.chunk in sp.Blocks();
    FreeableStays(t, was, SetOf(sp.tabs), sp.dir);
    FreeableStays(t, was, SetOf(sp.tabs) + {sp.dir}, sp.chunk);
    assert was - SetOf(sp.tabs) - {sp.dir} == was - (SetOf(sp.tabs) + {sp.dir});
  }

  lemma MappedIn(pool: Bytes, saddr: nat, sp: Space)
    requires Mapped(pool, saddr, sp)
    ensures DirectoryIn(pool, saddr, sp)
  {
  }

  lemma OwnsFreeable(k: Kernel, sp: Space)
    requires Owns(k, sp)
    ensures DirectoryIn(k.pool[..], k.heap.saddr, sp) && AllFreeable(k.heap.runs, sp.Blocks())
  {
    MappedIn(k.pool[..], k.heap.saddr, sp);
  }

  /** paging_free_4gb: frees what masking the directory entries gives back, and then directory
    * and chunk. Freeing a block twice does nothing the second time. */
  method Free4gb(k: Kernel, chunk: int, ghost sp: Space)
    requires k.Valid() && DirectoryIn(k.pool[..], k.heap.saddr, sp) && chunk == k.heap.Address(sp.chunk)
    requires AllFreeable(k.heap.runs, sp.Blocks())
    modifies k.heap, k.heap.entries
    ensures k.Valid() && k.heap.runs == old(k.heap.runs) - SetOf(sp.Blocks())
  {
    LastFreed(k.heap.Entries(), k.heap.runs, sp);
    FreeTables(k, chunk, sp);
    var directory := Read32(k.pool, chunk - k.heap.saddr);
    assert Fitted(k.pool[..], sp.dir) && Fitted(k.pool[..], sp.chunk);
    k.KFree(directory, sp.dir);
    k.KFree(chunk, sp.chunk);
  }

  // ----- the life cycle of an address space -----

  datatype PageCall =
    | CallSet(virt: uint32, val: uint32)
    | CallMap(virt: uint32, phys: uint32, flags: int32)

  /** The updates a call makes: none if it rejects its addresses. */
  function Accepted(call: PageCall): seq<Update> {
    match call
    case CallSet(virt, val) =>
      if IsAligned(virt) then [Update(virt, val)] else []
    case CallMap(virt, phys, flags) =>
      if IsAligned(virt) && IsAligned(phys) then [Update(virt, OrFlags(phys, U32(flags)))] else []
  }

  function AcceptedAll(calls: seq<PageCall>): seq<Update> {
    if calls == [] then [] else AcceptedAll(calls[..|calls| - 1]) + Accepted(calls[|calls| - 1])
  }

  /** p' is p after these updates of an address space. */
  ghost predicate Updated(p: Bytes, p': Bytes, tabs: seq<nat>, us: seq<Update>) {
    EntriesFit(p, tabs) && p' == SetAll(p, tabs, us)
  }

  /** The call is for page w and is not rejected. */
  predicate Hits(call: PageCall, w: uint32) {
    call.virt == w && (call.CallMap? ==> IsAligned(call.phys))
  }

  lemma FlatSnoc(us: seq<Update>, more: seq<Update>, w: uint32, initial: uint32)
    requires |more| <= 1
    ensures FlatRead(us + more, w, initial)
            == if more != [] && more[0].page == w then more[0].val else FlatRead(us, w, initial)
  {
    if more != [] {
      assert (us + more)[..|us|] == us && (us + more)[|us|] == more[0];
    } else {
      assert us + more == us;
    }
  }

  /** What it stores then. */
  function Stored(call: PageCall): uint32 {
    match call
    case CallSet(_, val) => val
    case CallMap(_, phys, flags) => OrFlags(phys, U32(flags))
  }

  lemma AcceptedIff(call: PageCall, w: uint32)
    requires IsAligned(w)
    ensures |Accepted(call)| <= 1
    ensures Accepted(call) != [] && Accepted(call)[0].page == w <==> Hits(call, w)
    ensures Hits(call, w) ==> Accepted(call)[0].val == Stored(call)
  {
  }

  lemma LastCall(calls: seq<PageCall>, n: nat, w: uint32, initial: uint32)
    requires IsAligned(w) && |calls| == n + 1
    ensures FlatRead(AcceptedAll(calls), w, initial)
            == if Hits(calls[n], w) then Stored(calls[n]) else FlatRead(AcceptedAll(calls[..n]), w, initial)
  {
    AcceptedIff(calls[n], w);
    FlatSnoc(AcceptedAll(calls[..n]), Accepted(calls[n]), w, initial);
  }

  /** In a run of calls the last one that hits a page decides what it holds. */
  lemma {:induction false} LastCallWins(calls: seq<PageCall>, w: uint32, initial: uint32, i: int)
    requires IsAligned(w) && -1 <= i < |calls| && (i >= 0 ==> Hits(calls[i], w))
    requires forall j :: i < j < |calls| ==> !Hits(calls[j], w)
    ensures FlatRead(AcceptedAll(calls), w, initial) == if i < 0 then initial else Stored(calls[i])
    decreases |calls|
  {
    if calls != [] {
      var n := |calls| - 1;
      LastCall(calls, n, w, initial);
      if i < n {
        LastCallWins(calls[..n], w, initial, i);
      }
    }
  }

  lemma OneUpdate(p: Bytes, tabs: seq<nat>, u: Update)
    requires EntriesFit(p, tabs)
    ensures SetAll(p, tabs, [u]) == SetEntry(p, tabs, u.page, u.val)
  {
    assert [u][..0] == [];
  }

  lemma UpdatedSnoc(p: Bytes, q: Bytes, r: Bytes, tabs: seq<nat>, calls: seq<PageCall>, i: nat)
    requires i < |calls| && Updated(p, q, tabs, AcceptedAll(calls[..i])) && Updated(q, r, tabs, Accepted(calls[i]))
    ensures Updated(p, r, tabs, AcceptedAll(calls[..i + 1]))
  {
    var us, more := AcceptedAll(calls[..i]), Accepted(calls[i]);
    assert calls[..i + 1][..i] == calls[..i];
    assert AcceptedAll(calls[..i + 1]) == us + more;
    if more == [] {
      assert us + more == us;
    } else {
      assert more == [more[0]];
      SetAllSnoc(p, tabs, us, more[0]);
      OneUpdate(q, tabs, more[0]);
    }
  }

  method RunCall(k: Kernel, directory: uint32, call: PageCall, ghost sp: Space)
    requires Mapped(k.pool[..], k.heap.saddr, sp) && directory == k.heap.Address(sp.dir)
    modifies k.pool
    ensures Mapped(k.pool[..], k.heap.saddr, sp) && SameElsewhere(old(k.pool[..]), k.pool[..], sp.tabs)
    ensures Updated(old(k.pool[..]), k.pool[..], sp.tabs, Accepted(call))
  {
    ghost var before := k.pool[..];
    if Accepted(call) != [] {
      OneUpdate(before, sp.tabs, Accepted(call)[0]);
    }
    match call {
      case CallSet(virt, val) =>
        MappedAfterSet(before, k.heap.saddr, sp, virt, val);
        var _ := Set(k, directory, virt, val, sp.dir, sp.tabs);
      case CallMap(virt, phys, flags) =>
        MappedAfterSet(before, k.heap.saddr, sp, virt, OrFlags(phys, U32(flags)));
        var _ := Map(k, directory, virt, phys, flags, sp.dir, sp.tabs);
    }
  }

  /** A run of calls makes exactly the updates that the calls accept. */
  method RunCalls(k: Kernel, chunk: int, calls: seq<PageCall>, ghost sp: Space)
    requires Owns(k, sp) && chunk == k.heap.Address(sp.chunk)
    modifies k.pool
    ensures Owns(k, sp) && SameElsewhere(old(k.pool[..]), k.pool[..], sp.tabs)
    ensures Updated(old(k.pool[..]), k.pool[..], sp.tabs, AcceptedAll(calls))
  {
    ghost var first := k.pool[..];
    for i := 0 to |calls|
      invariant Owns(k, sp) && SameElsewhere(first, k.pool[..], sp.tabs)
      invariant Updated(first, k.pool[..], sp.tabs, AcceptedAll(calls[..i]))
    {
      ghost var before := k.pool[..];
      var directory := Read32(k.pool, chunk - k.heap.saddr);
      RunCall(k, directory, calls[i], sp);
      ghost var after := k.pool[..];
      SameElsewhereTrans(first, before, after, sp.tabs, sp.tabs, sp.tabs);
      UpdatedSnoc(first, before, after, sp.tabs, calls, i);
    }
    assert calls[..|calls|] == calls;
  }

  /** Creating an address space, any run of updates, and freeing it leaves the
    * block table byte for byte as it was, and no block that was in use before
    * has had a byte changed. */
  method LifeCycle(k: Kernel, flags: uint8, calls: seq<PageCall>)
    requires k.Valid() && |k.FreeBlocks()| >= 1026
    modifies k.heap, k.heap.entries, k.pool
    ensures k.Valid() && k.heap.runs == old(k.heap.runs)
    ensures k.heap.Entries() == old(k.heap.Entries())
    ensures SameLive(old(Now(k)), Now(k))
  {
    var chunk;
    ghost var sp;
    chunk, sp := New4gb(k, flags);
    ghost var made := Now(k);
    SpaceDistinct(sp);
    assert forall t :: t in sp.tabs ==> t in sp.Blocks();
    IdentityTables(k.pool[..], k.heap.saddr, sp.dir, sp.tabs, flags);
    RunCalls(k, chunk, calls, sp);
    OwnsFreeable(k, sp);
    Free4gb(k, chunk, sp);
    TookReturned(old(Now(k)), made, sp.Blocks(), k.heap.runs, old(k.heap.Entries()), k.heap.Entries());
    SameLiveStep(old(Now(k)), made, Now(k), sp.tabs);
  }

  lemma {:induction false} AcceptedAligned(calls: seq<PageCall>)
    ensures AlignedPages(AcceptedAll(calls))
    decreases |calls|
  {
    if calls != [] {
      AcceptedAligned(calls[..|calls| - 1]);
    }
  }

  lemma UpdatedFrom(p: Bytes, p': Bytes, saddr: nat, sp: Space, calls: seq<PageCall>, w: uint32, e: uint32)
    requires Tables(p, saddr, sp.dir, sp.tabs) && Updated(p, p', sp.tabs, AcceptedAll(calls))
    requires IsAligned(w) && View(p, saddr, sp.dir, w) == e
    ensures View(p', saddr, sp.dir, w) == FlatRead(AcceptedAll(calls), w, e)
  {
    AcceptedAligned(calls);
    RefinesFlatMap(p, saddr, sp.dir, sp.tabs, AcceptedAll(calls));
  }

  lemma UpdatedView(p: Bytes, p': Bytes, saddr: nat, sp: Space, flags: uint8, calls: seq<PageCall>, w: uint32)
    requires Identity(p, saddr, sp.dir, sp.tabs, flags) && |sp.tabs| == PAGING_TOTAL_ENTRIES_PER_TABLE
    requires saddr % BLOCK_SIZE == 0 && saddr + |p| <= TWO_32
    requires Distinct(sp.tabs) && sp.dir !in sp.tabs
    requires Updated(p, p', sp.tabs, AcceptedAll(calls)) && IsAligned(w)
    ensures View(p', saddr, sp.dir, w) == FlatRead(AcceptedAll(calls), w, WithFlags(w, flags))
  {
    IdentityWalks(p, saddr, sp.dir, sp.tabs, flags, w);
    UpdatedFrom(p, p', saddr, sp, calls, w, WithFlags(w, flags));
  }

  /** A new address space after any run of calls is the flat identity map with the accepted
    * updates, the last one of a page winning. */
  method NewThenRun(k: Kernel, flags: uint8, calls: seq<PageCall>) returns (chunk: int, ghost sp: Space)
    requires k.Valid() && |k.FreeBlocks()| >= 1026
    modifies k.heap, k.heap.entries, k.pool
    ensures Owns(k, sp) && chunk == k.heap.Address(sp.chunk)
    ensures forall w: uint32 :: IsAligned(w) ==>
              View(k.pool[..], k.heap.saddr, sp.dir, w) == FlatRead(AcceptedAll(calls), w, WithFlags(w, flags))
  {
    chunk, sp := New4gb(k, flags);
    SpaceDistinct(sp);
    assert forall t :: t in sp.tabs ==> t in sp.Blocks();
    ghost var pool := k.pool[..];
    IdentityTables(pool, k.heap.saddr, sp.dir, sp.tabs, flags);
    RunCalls(k, chunk, calls, sp);
    forall w: uint32 | IsAligned(w)
      ensures View(k.pool[..], k.heap.saddr, sp.dir, w) == FlatRead(AcceptedAll(calls), w, WithFlags(w, flags))
    {
      UpdatedView(pool, k.pool[..], k.heap.saddr, sp, flags, calls, w);
    }
  }

  lemma StepIs(a: uint32)
    requires IsAligned(a)
    ensures StepPage(a) == if a == TWO_32 - PAGING_PAGE_SIZE then 0 else a + PAGING_PAGE_SIZE
    ensures IsAligned(StepPage(a))
  {
  }

  lemma StepApart(a: uint32, b: uint32)
    requires IsAligned(a) && IsAligned(b) && a != b
    ensures IsAligned(StepPage(a)) && IsAligned(StepPage(b)) && StepPage(a) != StepPage(b)
  {
    StepIs(a);
    StepIs(b);
  }

  /** In a new address space paging_map_to never does what was asked for, if that was to map
    * two pages or more to another place: the second page stays where it was. */
  lemma MapToFails(pool: Bytes, saddr: nat, dir: nat, tabs: seq<nat>, flags: uint8,
                   virt: uint32, phys: uint32, physEnd: uint32, n: nat)
    requires Identity(pool, saddr, dir, tabs, flags) && |tabs| == PAGING_TOTAL_ENTRIES_PER_TABLE
    requires saddr % BLOCK_SIZE == 0 && saddr + |pool| <= TWO_32
    requires Distinct(tabs) && dir !in tabs
    requires MapToAccepts(virt, phys, physEnd) && n == (physEnd - phys) / PAGING_PAGE_SIZE >= 2 && virt != phys
    ensures EntriesFit(pool, tabs)
    ensures var second := StepPage(virt);
            && View(SetEntry(pool, tabs, virt, OrFlags(phys, flags)), saddr, dir, second) == second + flags
            && View(SetAll(pool, tabs, RangeUpdates(virt, phys, n, flags)), saddr, dir, second)
               == StepPage(phys) + flags != second + flags
  {
    var second := StepPage(virt);
    IdentityTables(pool, saddr, dir, tabs, flags);
    U32Small(flags);
    SecondPage(pool, saddr, dir, tabs, virt, phys, n, flags, flags, second);
    IdentityWalks(pool, saddr, dir, tabs, flags, second);
    StepApart(phys, virt);
    OrAligned(StepPage(phys), flags);
  }

  /** An instance: the two pages from 0x400000 on, to 0x800000, in a new space with flag 1. */
  lemma MapToExample(pool: Bytes, saddr: nat, dir: nat, tabs: seq<nat>, virt: uint32, phys: uint32, flags: uint8,
                     second: uint32)
    requires Identity(pool, saddr, dir, tabs, flags) && |tabs| == PAGING_TOTAL_ENTRIES_PER_TABLE
    requires saddr % BLOCK_SIZE == 0 && saddr + |pool| <= TWO_32
    requires Distinct(tabs) && dir !in tabs
    requires virt == 0x40_0000 && phys == 0x80_0000 && flags == 1 && second == 0x40_1000
    ensures EntriesFit(pool, tabs)
    ensures View(SetEntry(pool, tabs, virt, OrFlags(phys, flags)), saddr, dir, second) == 0x40_1001
    ensures View(SetAll(pool, tabs, RangeUpdates(virt, phys, 2, flags)), saddr, dir, second) == 0x80_1001
  {
    assert StepPage(virt) == second && StepPage(phys) == 0x80_1000;
    MapToFails(pool, saddr, dir, tabs, flags, virt, phys, phys + 0x2000, 2);
  }
}
