/** paging.c: two-level 32-bit page tables in kernel-heap memory (Intel SDM
  * volume 3A, section 4.3).
  *
  * Directories and tables are heap blocks; a directory entry is the address of
  * a table with flags or-ed into its low bits, and every use masks them off
  * again. The abstract state is a flat map from pages to 32-bit entries, read
  * off memory by `Walk`.
  */
module Paging {
  import opened Machine
  import opened BlockHeap
  import opened KernelHeap

  const PAGING_IS_PRESENT := 0x01
  const PAGING_IS_WRITEABLE := 0x02
  const PAGING_ACCESS_FROM_ALL := 0x04
  const PAGING_TOTAL_ENTRIES_PER_TABLE := 1024
  const PAGING_PAGE_SIZE := 4096
  const TABLE_SPAN := 0x40_0000   // bytes one table maps

  predicate IsAligned(address: uint32) {
    address % PAGING_PAGE_SIZE == 0
  }

  /** The table pointer in a directory entry. */
  function TableOf(entry: uint32): uint32 {
    entry - entry % 4096
  }

  lemma TableOfIsMask(entry: uint32)
    ensures TableOf(entry) == BitAnd(entry, 0xffff_f000)
  {
    BitAndPageMask(entry);
  }

  function OrFlags(a: uint32, b: uint32): uint32 {
    Pow2Values();
    BitOrBound(a, b, 32);
    BitOr(a, b)
  }

  function DirectoryIndex(v: uint32): (i: nat)
    ensures i < PAGING_TOTAL_ENTRIES_PER_TABLE
  {
    v / TABLE_SPAN
  }

  function TableIndex(v: uint32): (i: nat)
    ensures i < PAGING_TOTAL_ENTRIES_PER_TABLE
  {
    v % TABLE_SPAN / PAGING_PAGE_SIZE
  }

  lemma IndexesGiveAddress(v: uint32)
    requires IsAligned(v)
    ensures v == DirectoryIndex(v) * TABLE_SPAN + TableIndex(v) * PAGING_PAGE_SIZE
  {
    var r := v % TABLE_SPAN;
    assert v == v / TABLE_SPAN * TABLE_SPAN + r;
    assert r % PAGING_PAGE_SIZE == 0;
  }

  /** Every aligned address has its own pair of indices ... */
  lemma IndexInjective(v: uint32, w: uint32)
    requires IsAligned(v) && IsAligned(w)
    requires DirectoryIndex(v) == DirectoryIndex(w) && TableIndex(v) == TableIndex(w)
    ensures v == w
  {
    IndexesGiveAddress(v);
    IndexesGiveAddress(w);
  }

  /** ... and every pair of indices is some page's. */
  lemma IndexSurjective(d: nat, i: nat)
    requires d < PAGING_TOTAL_ENTRIES_PER_TABLE && i < PAGING_TOTAL_ENTRIES_PER_TABLE
    ensures var u := d * TABLE_SPAN + i * PAGING_PAGE_SIZE;
            u < TWO_32 && IsAligned(u) && DirectoryIndex(u) == d && TableIndex(u) == i
  {
    var u := d * TABLE_SPAN + i * PAGING_PAGE_SIZE;
    assert u / TABLE_SPAN == d && u % TABLE_SPAN == i * PAGING_PAGE_SIZE;
  }

  lemma OrFlagsLow(q: nat, a: nat, b: nat)
    requires q < 0x10_0000 && a < 4096 && b < 4096
    ensures q * 4096 + a < TWO_32
    ensures OrFlags(q * 4096 + a, b) == q * 4096 + OrFlags(a, b) && OrFlags(a, b) < 4096
  {
    Pow2Values();
    BitOrLow(q, a, b, 12);
    BitOrBound(a, b, 12);
  }

  lemma TableOfLow(q: nat, low: nat)
    requires q < 0x10_0000 && low < 4096
    ensures q * 4096 + low < TWO_32 && TableOf(q * 4096 + low) == q * 4096
  {
  }

  /** Or-ing flags into an aligned address adds them. */
  lemma OrAligned(v: uint32, flags: nat)
    requires IsAligned(v) && flags < 4096
    ensures v + flags < TWO_32 && OrFlags(v, flags) == v + flags
  {
    assert v == v / 4096 * 4096 + 0;
    OrFlagsLow(v / 4096, 0, flags);
    BitOrZeroLeft(flags);
  }

  /** A page's address with flags in the low bits. */
  function WithFlags(page: uint32, flags: uint8): (e: uint32)
    requires IsAligned(page)
    ensures e == page + flags
  {
    page + flags
  }

  /** Flags with the writeable bit set, whether it was or not. */
  function Writeable(flags: uint8): (low: nat)
    ensures low < 4096 && TWO_32 > low >= flags
  {
    if flags / 2 % 2 == 1 then flags else flags + 2
  }

  lemma WriteableIsOr(flags: uint8)
    ensures BitOr(flags, PAGING_IS_WRITEABLE) == Writeable(flags)
  {
    BitOrZero(flags / 2 / 2);
    assert BitOr(flags / 2, 1) == 1 + 2 * (flags / 2 / 2);
    assert BitOr(flags, 2) == flags % 2 + 2 * BitOr(flags / 2, 1);
  }

  /** Its writeable bit is set, and all others are the flags' own. */
  lemma WriteableBits(flags: uint8, k: nat)
    ensures Bit(Writeable(flags), k) <==> k == 1 || Bit(flags, k)
  {
    WriteableIsOr(flags);
    BitOrBits(flags, PAGING_IS_WRITEABLE, k);
    assert Bit(2, 1) && !Bit(2, 0);
    if k >= 2 {
      NoBits(k - 2);
      assert Bit(2, k) == Bit(1, k - 1) == Bit(0, k - 2);
    }
  }

  /** What paging_new_4gb stores for a table. */
  lemma OrTable(table: uint32, flags: uint8)
    requires IsAligned(table)
    ensures table + Writeable(flags) < TWO_32
    ensures OrFlags(OrFlags(table, flags), PAGING_IS_WRITEABLE) == table + Writeable(flags)
  {
    OrAligned(table, flags);
    assert table + flags == table / 4096 * 4096 + flags;
    OrFlagsLow(table / 4096, flags, PAGING_IS_WRITEABLE);
    WriteableIsOr(flags);
  }

  /** The flags or-ed into a table pointer are exactly what the mask removes. */
  lemma MaskRecoversTable(table: uint32, flags: uint8)
    requires IsAligned(table)
    ensures TableOf(OrFlags(OrFlags(table, flags), PAGING_IS_WRITEABLE)) == table
    ensures table + Writeable(flags) < TWO_32 && TableOf(table + Writeable(flags)) == table
  {
    OrTable(table, flags);
    TableOfLow(table / 4096, Writeable(flags));
  }

  /** paging_align_address: the first page boundary from ptr on; 0 when that is at 4 GB. */
  function AlignAddress(ptr: uint32): (r: uint32)
    ensures IsAligned(r)
    ensures ptr <= TWO_32 - PAGING_PAGE_SIZE ==> ptr <= r < ptr + PAGING_PAGE_SIZE
    ensures ptr > TWO_32 - PAGING_PAGE_SIZE ==> r == 0
  {
    if ptr % PAGING_PAGE_SIZE != 0 then U32(ptr + PAGING_PAGE_SIZE - ptr % PAGING_PAGE_SIZE) else ptr
  }

  lemma U32Small(x: uint32)
    ensures U32(x) == x
  {
  }

  function StepPage(p: uint32): uint32 {
    U32(p + PAGING_PAGE_SIZE)
  }

  /** A pointer stepped i pages up, around the 4 GB circle. */
  function PageAt(start: uint32, i: nat): uint32 {
    if i == 0 then start else StepPage(PageAt(start, i - 1))
  }

  lemma StepWraps(x: nat)
    ensures StepPage(U32(x)) == U32(x + PAGING_PAGE_SIZE)
  {
    assert x == x / TWO_32 * TWO_32 + U32(x);
  }

  lemma {:induction false} PageAtClosed(start: uint32, i: nat)
    ensures PageAt(start, i) == U32(start + i * PAGING_PAGE_SIZE)
  {
    if i > 0 {
      PageAtClosed(start, i - 1);
      StepWraps(start + (i - 1) * PAGING_PAGE_SIZE);
    }
  }

  lemma StepAligned(p: uint32)
    ensures IsAligned(StepPage(p)) <==> IsAligned(p)
  {
  }

  lemma {:induction false} PageAtAligned(start: uint32, i: nat)
    ensures IsAligned(PageAt(start, i)) <==> IsAligned(start)
  {
    if i > 0 {
      PageAtAligned(start, i - 1);
      StepAligned(PageAt(start, i - 1));
    }
  }

  // ----- address spaces in memory -----

  /** The heap blocks of one address space. */
  datatype Space = Space(chunk: nat, dir: nat, tabs: seq<nat>) {
    function Blocks(): seq<nat> {
      [dir] + tabs + [chunk]
    }
  }

  /** Memory `pool`, which starts at `saddr`, holds a directory in block dir
    * whose 1024 entries point to the distinct blocks tabs. */
  ghost predicate Tables(pool: Bytes, saddr: nat, dir: nat, tabs: seq<nat>) {
    && saddr % BLOCK_SIZE == 0 && saddr + |pool| <= TWO_32
    && |tabs| == PAGING_TOTAL_ENTRIES_PER_TABLE
    && Fitted(pool, dir)
    && (forall i :: 0 <= i < |tabs| ==> Fitted(pool, tabs[i]) && tabs[i] != dir)
    && (forall i, j :: 0 <= i < j < |tabs| ==> tabs[i] != tabs[j])
    && (forall i :: 0 <= i < |tabs| ==>
          TableOf(Load32(pool, dir * BLOCK_SIZE + 4 * i)) == saddr + tabs[i] * BLOCK_SIZE)
  }

  /** A 32-bit read at a pool offset; 0 outside the pool. */
  function WordAt(pool: Bytes, offset: int): uint32 {
    if 0 <= offset && offset + 4 <= |pool| then Load32(pool, offset) else 0
  }

  /** The page walk of the processor: through the directory to the entry. */
  function Walk(pool: Bytes, saddr: nat, directory: nat, v: uint32): uint32 {
    var table := TableOf(WordAt(pool, directory - saddr + 4 * DirectoryIndex(v)));
    WordAt(pool, table - saddr + 4 * TableIndex(v))
  }

  /** The entry an address space holds for v. */
  function View(pool: Bytes, saddr: nat, dir: nat, v: uint32): uint32 {
    Walk(pool, saddr, saddr + dir * BLOCK_SIZE, v)
  }

  /** In a new space every page is its own frame, with these flags, and the tables have the
    * others. */
  ghost predicate FreshSpace(pool: Bytes, saddr: nat, sp: Space, flags: nat, low: nat) {
    && |sp.tabs| == PAGING_TOTAL_ENTRIES_PER_TABLE && Fitted(pool, sp.dir)
    && (forall v: uint32 :: IsAligned(v) ==> View(pool, saddr, sp.dir, v) == v + flags)
    && (forall i :: 0 <= i < PAGING_TOTAL_ENTRIES_PER_TABLE ==>
          Load32(pool, sp.dir * BLOCK_SIZE + 4 * i) == saddr + sp.tabs[i] * BLOCK_SIZE + low)
  }

  function EntryOffset(tabs: seq<nat>, v: uint32): nat
    requires |tabs| == PAGING_TOTAL_ENTRIES_PER_TABLE
  {
    tabs[DirectoryIndex(v)] * BLOCK_SIZE + 4 * TableIndex(v)
  }

  lemma WalkReachesEntry(pool: Bytes, saddr: nat, dir: nat, tabs: seq<nat>, v: uint32)
    requires Tables(pool, saddr, dir, tabs)
    ensures EntryOffset(tabs, v) + 4 <= |pool|
    ensures View(pool, saddr, dir, v) == Load32(pool, EntryOffset(tabs, v))
  {
    assert Fitted(pool, tabs[DirectoryIndex(v)]);
  }

  lemma EntriesApart(tabs: seq<nat>, v: uint32, w: uint32)
    requires |tabs| == PAGING_TOTAL_ENTRIES_PER_TABLE
    requires forall i, j :: 0 <= i < j < |tabs| ==> tabs[i] != tabs[j]
    requires IsAligned(v) && IsAligned(w) && v != w
    ensures EntryOffset(tabs, v) + 4 <= EntryOffset(tabs, w) || EntryOffset(tabs, w) + 4 <= EntryOffset(tabs, v)
  {
    if DirectoryIndex(v) != DirectoryIndex(w) {
      assert tabs[DirectoryIndex(v)] != tabs[DirectoryIndex(w)];
    } else if TableIndex(v) == TableIndex(w) {
      IndexInjective(v, w);
    }
  }

  predicate EntriesFit(pool: Bytes, tabs: seq<nat>) {
    |tabs| == PAGING_TOTAL_ENTRIES_PER_TABLE && forall i :: 0 <= i < |tabs| ==> Fitted(pool, tabs[i])
  }

  /** The memory after writing the entry of one page. */
  function SetEntry(pool: Bytes, tabs: seq<nat>, v: uint32, val: uint32): (pool': Bytes)
    requires EntriesFit(pool, tabs)
    ensures |pool'| == |pool|
  {
    assert Fitted(pool, tabs[DirectoryIndex(v)]);
    Store32(pool, EntryOffset(tabs, v), val)
  }

  lemma StoreKeepsTables(pool: Bytes, saddr: nat, dir: nat, tabs: seq<nat>, a: nat, val: uint32)
    requires Tables(pool, saddr, dir, tabs) && a + 4 <= |pool|
    requires a + 4 <= dir * BLOCK_SIZE || (dir + 1) * BLOCK_SIZE <= a
    ensures Tables(Store32(pool, a, val), saddr, dir, tabs)
  {
    var pool' := Store32(pool, a, val);
    forall i | 0 <= i < |tabs|
      ensures TableOf(Load32(pool', dir * BLOCK_SIZE + 4 * i)) == saddr + tabs[i] * BLOCK_SIZE
    {
      LoadFrame32(pool, a, val, dir * BLOCK_SIZE + 4 * i);
    }
    assert forall i :: 0 <= i < |tabs| ==> Fitted(pool, tabs[i]) && Fitted(pool', tabs[i]);
    assert Fitted(pool, dir) && Fitted(pool', dir);
  }

  lemma SetEntryKeepsTables(pool: Bytes, saddr: nat, dir: nat, tabs: seq<nat>, v: uint32, val: uint32)
    requires Tables(pool, saddr, dir, tabs)
    ensures EntriesFit(pool, tabs)
    ensures Tables(SetEntry(pool, tabs, v, val), saddr, dir, tabs)
  {
    assert tabs[DirectoryIndex(v)] != dir;
    StoreKeepsTables(pool, saddr, dir, tabs, EntryOffset(tabs, v), val);
  }

  /** Writing one entry changes exactly the named page and keeps the tables. */
  lemma SetEntryExact(pool: Bytes, saddr: nat, dir: nat, tabs: seq<nat>, v: uint32, val: uint32)
    requires Tables(pool, saddr, dir, tabs) && IsAligned(v)
    ensures EntriesFit(pool, tabs)
    ensures var pool' := SetEntry(pool, tabs, v, val);
            && Tables(pool', saddr, dir, tabs)
            && forall w: uint32 :: IsAligned(w) ==>
                 View(pool', saddr, dir, w)
                 == if w == v then val else View(pool, saddr, dir, w)
  {
    WalkReachesEntry(pool, saddr, dir, tabs, v);
    var a := EntryOffset(tabs, v);
    var pool' := SetEntry(pool, tabs, v, val);
    SetEntryKeepsTables(pool, saddr, dir, tabs, v, val);
    forall w: uint32 | IsAligned(w)
      ensures View(pool', saddr, dir, w)
              == if w == v then val else View(pool, saddr, dir, w)
    {
      WalkReachesEntry(pool, saddr, dir, tabs, w);
      WalkReachesEntry(pool', saddr, dir, tabs, w);
      if w == v {
        LoadStore32(pool, a, val);
      } else {
        EntriesApart(tabs, v, w);
        LoadFrame32(pool, a, val, EntryOffset(tabs, w));
      }
    }
  }

  // ----- runs of updates -----

  datatype Update = Update(page: uint32, val: uint32)

  ghost predicate AlignedPages(us: seq<Update>) {
    forall u :: u in us ==> IsAligned(u.page)
  }

  /** Memory after a run of paging_set calls. */
  function SetAll(pool: Bytes, tabs: seq<nat>, us: seq<Update>): (pool': Bytes)
    requires EntriesFit(pool, tabs)
    ensures |pool'| == |pool|
  {
    if us == [] then pool
    else var n := |us| - 1; SetEntry(SetAll(pool, tabs, us[..n]), tabs, us[n].page, us[n].val)
  }

  /** The flat map after the same run: the last update of a page wins. */
  function FlatRead(us: seq<Update>, page: uint32, initial: uint32): uint32 {
    if us == [] then initial
    else if us[|us| - 1].page == page then us[|us| - 1].val
    else FlatRead(us[..|us| - 1], page, initial)
  }

  /** The two-level structure refines the flat map, over every run of updates. */
  lemma {:induction false} RefinesFlatMap(pool: Bytes, saddr: nat, dir: nat, tabs: seq<nat>, us: seq<Update>)
    requires Tables(pool, saddr, dir, tabs) && AlignedPages(us)
    ensures EntriesFit(pool, tabs)
    ensures Tables(SetAll(pool, tabs, us), saddr, dir, tabs)
    ensures forall w: uint32 :: IsAligned(w) ==>
              View(SetAll(pool, tabs, us), saddr, dir, w)
              == FlatRead(us, w, View(pool, saddr, dir, w))
    decreases |us|
  {
    if us != [] {
      var n := |us| - 1;
      RefinesFlatMap(pool, saddr, dir, tabs, us[..n]);
      SetEntryExact(SetAll(pool, tabs, us[..n]), saddr, dir, tabs, us[n].page, us[n].val);
    }
  }

  /** A store outside an address space's blocks changes none of its pages. */
  lemma StoreOutside(pool: Bytes, saddr: nat, dir: nat, tabs: seq<nat>, b: nat, a: nat, val: uint32, w: uint32)
    requires Tables(pool, saddr, dir, tabs) && a + 4 <= |pool|
    requires b * BLOCK_SIZE <= a && a + 4 <= (b + 1) * BLOCK_SIZE && b != dir && b !in tabs
    ensures Tables(Store32(pool, a, val), saddr, dir, tabs)
    ensures View(Store32(pool, a, val), saddr, dir, w) == View(pool, saddr, dir, w)
  {
    StoreKeepsTables(pool, saddr, dir, tabs, a, val);
    assert tabs[DirectoryIndex(w)] in tabs;
    WalkReachesEntry(pool, saddr, dir, tabs, w);
    WalkReachesEntry(Store32(pool, a, val), saddr, dir, tabs, w);
    LoadFrame32(pool, a, val, EntryOffset(tabs, w));
  }

  /** Writing a page of one address space changes no page of another one whose
    * blocks are different: processes are isolated from each other's updates. */
  lemma SetEntryIsolated(pool: Bytes, saddr: nat, dir: nat, tabs: seq<nat>, dir': nat, tabs': seq<nat>,
                         v: uint32, val: uint32, w: uint32)
    requires Tables(pool, saddr, dir, tabs) && Tables(pool, saddr, dir', tabs')
    requires dir' !in tabs && forall b :: b in tabs ==> b !in tabs'
    ensures EntriesFit(pool, tabs)
    ensures Tables(SetEntry(pool, tabs, v, val), saddr, dir', tabs')
    ensures View(SetEntry(pool, tabs, v, val), saddr, dir', w) == View(pool, saddr, dir', w)
  {
    WalkReachesEntry(pool, saddr, dir, tabs, v);
    assert tabs[DirectoryIndex(v)] in tabs;
    StoreOutside(pool, saddr, dir', tabs', tabs[DirectoryIndex(v)], EntryOffset(tabs, v), val, w);
  }

  // ----- setting and mapping pages -----

  /** paging_get_indexes. */
  method GetIndexes(virt: uint32) returns (res: int, directoryIndex: nat, tableIndex: nat)
    ensures res == (if IsAligned(virt) then FREE95_ALL_OK else -EINVARG)
    ensures IsAligned(virt) ==>
              && directoryIndex < PAGING_TOTAL_ENTRIES_PER_TABLE && tableIndex < PAGING_TOTAL_ENTRIES_PER_TABLE
              && virt == directoryIndex * TABLE_SPAN + tableIndex * PAGING_PAGE_SIZE
  {
    directoryIndex, tableIndex := 0, 0;
    if !IsAligned(virt) {
      return -EINVARG, 0, 0;
    }
    res := FREE95_ALL_OK;
    directoryIndex := virt / (PAGING_TOTAL_ENTRIES_PER_TABLE * PAGING_PAGE_SIZE);
    tableIndex := virt % (PAGING_TOTAL_ENTRIES_PER_TABLE * PAGING_PAGE_SIZE) / PAGING_PAGE_SIZE;
  }

  /** paging_set. */
  method Set(k: Kernel, directory: uint32, virt: uint32, val: uint32, ghost dir: nat, ghost tabs: seq<nat>)
    returns (res: int)
    requires Tables(k.pool[..], k.heap.saddr, dir, tabs) && directory == k.heap.Address(dir)
    modifies k.pool
    ensures !IsAligned(virt) ==> res == -EINVARG && k.pool[..] == old(k.pool[..])
    ensures old(EntriesFit(k.pool[..], tabs))
    ensures IsAligned(virt) ==> res == FREE95_ALL_OK && k.pool[..] == SetEntry(old(k.pool[..]), tabs, virt, val)
    ensures Tables(k.pool[..], k.heap.saddr, dir, tabs)
  {
    WalkReachesEntry(k.pool[..], k.heap.saddr, dir, tabs, virt);
    if !IsAligned(virt) {
      return -EINVARG;
    }
    var directoryIndex, tableIndex;
    res, directoryIndex, tableIndex := GetIndexes(virt);
    if res < 0 {
      return;
    }
    assert directoryIndex == DirectoryIndex(virt) && tableIndex == TableIndex(virt);
    assert Fitted(k.pool[..], dir);
    var entry := Read32(k.pool, directory - k.heap.saddr + 4 * directoryIndex);
    var table := TableOf(entry);
    SetEntryKeepsTables(k.pool[..], k.heap.saddr, dir, tabs, virt, val);
    Write32(k.pool, table - k.heap.saddr + 4 * tableIndex, val);
    res := FREE95_ALL_OK;
  }

  /** paging_map: `flags` is an `int`, converted before it is or-ed in. */
  method Map(k: Kernel, directory: uint32, virt: uint32, phys: uint32, flags: int32,
             ghost dir: nat, ghost tabs: seq<nat>)
    returns (res: int)
    requires Tables(k.pool[..], k.heap.saddr, dir, tabs) && directory == k.heap.Address(dir)
    modifies k.pool
    ensures old(EntriesFit(k.pool[..], tabs))
    ensures IsAligned(virt) && IsAligned(phys) ==>
              res == FREE95_ALL_OK
              && k.pool[..] == SetEntry(old(k.pool[..]), tabs, virt, OrFlags(phys, U32(flags)))
    ensures !(IsAligned(virt) && IsAligned(phys)) ==> res == -EINVARG && k.pool[..] == old(k.pool[..])
    ensures Tables(k.pool[..], k.heap.saddr, dir, tabs)
  {
    WalkReachesEntry(k.pool[..], k.heap.saddr, dir, tabs, virt);
    if virt % PAGING_PAGE_SIZE != 0 || phys % PAGING_PAGE_SIZE != 0 {
      return -EINVARG;
    }
    res := Set(k, directory, virt, OrFlags(phys, U32(flags)), dir, tabs);
  }

  /** paging_map_range as written: it stops at the first success, so an aligned
    * range gets its first page mapped and no other. */
  method MapRange(k: Kernel, directory: uint32, virt: uint32, phys: uint32, count: int32, flags: int32,
                  ghost dir: nat, ghost tabs: seq<nat>)
    returns (res: int)
    requires Tables(k.pool[..], k.heap.saddr, dir, tabs) && directory == k.heap.Address(dir)
    modifies k.pool
    ensures old(EntriesFit(k.pool[..], tabs))
    ensures count >= 1 && IsAligned(virt) && IsAligned(phys) ==>
              res == FREE95_ALL_OK
              && k.pool[..] == SetEntry(old(k.pool[..]), tabs, virt, OrFlags(phys, U32(flags)))
    ensures count >= 1 && !(IsAligned(virt) && IsAligned(phys)) ==>
              res == -EINVARG && k.pool[..] == old(k.pool[..])
    ensures count <= 0 ==> res == FREE95_ALL_OK && k.pool[..] == old(k.pool[..])
    ensures Tables(k.pool[..], k.heap.saddr, dir, tabs)
  {
    WalkReachesEntry(k.pool[..], k.heap.saddr, dir, tabs, virt);
    res := FREE95_ALL_OK;
    var v: uint32, p: uint32 := virt, phys;
    var i := 0;
    while i < count
      invariant i >= 0 && v == PageAt(virt, i) && p == PageAt(phys, i)
      invariant i == 0 ==> res == FREE95_ALL_OK
      invariant i > 0 ==> res == -EINVARG && i <= count && !(IsAligned(virt) && IsAligned(phys))
      invariant k.pool[..] == old(k.pool[..])
    {
      PageAtAligned(virt, i);
      PageAtAligned(phys, i);
      res := Map(k, directory, v, p, flags, dir, tabs);
      if res == FREE95_ALL_OK {
        break;
      }
      v := StepPage(v);
      p := StepPage(p);
      i := i + 1;
    }
  }

  predicate MapToAccepts(virt: uint32, phys: uint32, physEnd: uint32) {
    IsAligned(virt) && IsAligned(phys) && IsAligned(physEnd) && phys <= physEnd
  }

  lemma PageCount(phys: uint32, physEnd: uint32, n: int)
    requires IsAligned(phys) && IsAligned(physEnd) && phys <= physEnd && n == (physEnd - phys) / PAGING_PAGE_SIZE
    ensures 0 <= n < 0x10_0000 && (n == 0 <==> phys == physEnd)
  {
  }

  lemma TablesFit(pool: Bytes, saddr: nat, dir: nat, tabs: seq<nat>)
    requires Tables(pool, saddr, dir, tabs)
    ensures EntriesFit(pool, tabs)
  {
  }

  /** paging_map_to as written. */
  method MapTo(k: Kernel, directory: uint32, virt: uint32, phys: uint32, physEnd: uint32, flags: int32,
               ghost dir: nat, ghost tabs: seq<nat>)
    returns (res: int)
    requires Tables(k.pool[..], k.heap.saddr, dir, tabs) && directory == k.heap.Address(dir)
    modifies k.pool
    ensures old(EntriesFit(k.pool[..], tabs))
    ensures res == (if virt % 4096 == phys % 4096 == physEnd % 4096 == 0 && phys <= physEnd then FREE95_ALL_OK
                    else -EINVARG)
    ensures k.pool[..] == if MapToAccepts(virt, phys, physEnd) && phys < physEnd
                          then SetEntry(old(k.pool[..]), tabs, virt, OrFlags(phys, U32(flags)))
                          else old(k.pool[..])
    ensures Tables(k.pool[..], k.heap.saddr, dir, tabs)
  {
    TablesFit(k.pool[..], k.heap.saddr, dir, tabs);
    if virt % PAGING_PAGE_SIZE != 0 {
      return -EINVARG;
    }
    if phys % PAGING_PAGE_SIZE != 0 {
      return -EINVARG;
    }
    if physEnd % PAGING_PAGE_SIZE != 0 {
      return -EINVARG;
    }
    if physEnd < phys {
      return -EINVARG;
    }
    var totalPages := (physEnd - phys) / PAGING_PAGE_SIZE;
    PageCount(phys, physEnd, totalPages);
    res := MapRange(k, directory, virt, phys, totalPages, flags, dir, tabs);
  }

  // ----- the range mapping the interface announces -----

  function PageEntry(phys: uint32, i: nat, flags: int32): uint32 {
    OrFlags(PageAt(phys, i), U32(flags))
  }

  /** The updates that map n consecutive pages to n consecutive frames. */
  function RangeUpdates(virt: uint32, phys: uint32, n: nat, flags: int32): (us: seq<Update>)
    ensures |us| == n
  {
    seq(n, i requires 0 <= i < n =>
      Update(PageAt(virt, i), PageEntry(phys, i, flags)))
  }

  /** How many pages w lies above virt, around the 4 GB circle. */
  function PageDistance(virt: uint32, w: uint32): nat {
    U32(w - virt) / PAGING_PAGE_SIZE
  }

  lemma DistanceWraps(virt: uint32, w: uint32, i: nat)
    requires IsAligned(virt) && IsAligned(w) && i < 0x10_0000
    ensures w == U32(virt + i * PAGING_PAGE_SIZE) <==> PageDistance(virt, w) == i
  {
    if w >= virt {
      assert U32(w - virt) == w - virt;
    } else {
      assert U32(w - virt) == w - virt + TWO_32;
    }
  }

  lemma PageAtDistance(virt: uint32, w: uint32, i: nat)
    requires IsAligned(virt) && IsAligned(w) && i < 0x10_0000
    ensures w == PageAt(virt, i) <==> PageDistance(virt, w) == i
    ensures IsAligned(PageAt(virt, i))
  {
    PageAtAligned(virt, i);
    PageAtClosed(virt, i);
    DistanceWraps(virt, w, i);
  }

  lemma {:induction false} RangeRead(virt: uint32, phys: uint32, n: nat, flags: int32, w: uint32, initial: uint32)
    requires IsAligned(virt) && IsAligned(w) && n <= 0x10_0000
    ensures FlatRead(RangeUpdates(virt, phys, n, flags), w, initial)
            == if PageDistance(virt, w) < n then PageEntry(phys, PageDistance(virt, w), flags) else initial
    decreases n
  {
    if n > 0 {
      var us := RangeUpdates(virt, phys, n, flags);
      assert us[..n - 1] == RangeUpdates(virt, phys, n - 1, flags);
      RangeRead(virt, phys, n - 1, flags, w, initial);
      PageAtDistance(virt, w, n - 1);
    }
  }

  lemma RangeAligned(virt: uint32, phys: uint32, n: nat, flags: int32)
    requires IsAligned(virt) && n <= 0x10_0000
    ensures AlignedPages(RangeUpdates(virt, phys, n, flags))
  {
    forall i | 0 <= i < n
      ensures IsAligned(PageAt(virt, i))
    {
      PageAtDistance(virt, virt, i);
    }
  }

  /** Every page of the range is mapped to its own frame, no other page changes. */
  lemma MapPagesExact(pool: Bytes, saddr: nat, dir: nat, tabs: seq<nat>,
                      virt: uint32, phys: uint32, n: nat, flags: int32, w: uint32)
    requires Tables(pool, saddr, dir, tabs) && IsAligned(virt) && IsAligned(w) && n <= 0x10_0000
    ensures EntriesFit(pool, tabs)
    ensures View(SetAll(pool, tabs, RangeUpdates(virt, phys, n, flags)), saddr, dir, w)
            == if PageDistance(virt, w) < n then PageEntry(phys, PageDistance(virt, w), flags)
               else View(pool, saddr, dir, w)
  {
    RangeAligned(virt, phys, n, flags);
    RefinesFlatMap(pool, saddr, dir, tabs, RangeUpdates(virt, phys, n, flags));
    RangeRead(virt, phys, n, flags, w, View(pool, saddr, dir, w));
  }

  /** Mapping only the first page, as the code does, gives the intended address
    * space exactly when the remaining pages held their entries already. */
  lemma FirstPageOnlyIff(pool: Bytes, saddr: nat, dir: nat, tabs: seq<nat>,
                         virt: uint32, phys: uint32, n: nat, flags: int32)
    requires Tables(pool, saddr, dir, tabs) && IsAligned(virt) && 1 <= n <= 0x10_0000
    ensures EntriesFit(pool, tabs)
    ensures var written := SetAll(pool, tabs, RangeUpdates(virt, phys, 1, flags));
            var intended := SetAll(pool, tabs, RangeUpdates(virt, phys, n, flags));
            (forall w: uint32 :: IsAligned(w) ==> View(written, saddr, dir, w) == View(intended, saddr, dir, w))
            <==>
            (forall w: uint32 :: IsAligned(w) && 1 <= PageDistance(virt, w) < n ==>
               View(pool, saddr, dir, w) == PageEntry(phys, PageDistance(virt, w), flags))
  {
    forall w: uint32 | IsAligned(w)
      ensures var written := SetAll(pool, tabs, RangeUpdates(virt, phys, 1, flags));
              var intended := SetAll(pool, tabs, RangeUpdates(virt, phys, n, flags));
              View(written, saddr, dir, w) == View(intended, saddr, dir, w)
              <==> (1 <= PageDistance(virt, w) < n ==>
                      View(pool, saddr, dir, w) == PageEntry(phys, PageDistance(virt, w), flags))
    {
      MapPagesExact(pool, saddr, dir, tabs, virt, phys, 1, flags, w);
      MapPagesExact(pool, saddr, dir, tabs, virt, phys, n, flags, w);
    }
  }

  lemma RangeSnoc(virt: uint32, phys: uint32, i: nat, flags: int32)
    ensures RangeUpdates(virt, phys, i + 1, flags)
            == RangeUpdates(virt, phys, i, flags)
               + [Update(PageAt(virt, i), PageEntry(phys, i, flags))]
  {
  }

  lemma SetAllSnoc(pool: Bytes, tabs: seq<nat>, us: seq<Update>, u: Update)
    requires EntriesFit(pool, tabs)
    ensures SetAll(pool, tabs, us + [u]) == SetEntry(SetAll(pool, tabs, us), tabs, u.page, u.val)
  {
    assert (us + [u])[..|us|] == us;
  }

  lemma RangeStep(pool: Bytes, tabs: seq<nat>, virt: uint32, phys: uint32, i: nat, flags: int32)
    requires EntriesFit(pool, tabs)
    ensures SetEntry(SetAll(pool, tabs, RangeUpdates(virt, phys, i, flags)), tabs,
                     PageAt(virt, i), OrFlags(PageAt(phys, i), U32(flags)))
            == SetAll(pool, tabs, RangeUpdates(virt, phys, i + 1, flags))
  {
    RangeSnoc(virt, phys, i, flags);
    SetAllSnoc(pool, tabs, RangeUpdates(virt, phys, i, flags), Update(PageAt(virt, i), PageEntry(phys, i, flags)));
  }

  /** What paging_map_to makes of an accepted, non-empty range is what was asked for exactly
    * when the pages behind the first one held their entries already. */
  lemma MapToIntendedIff(pool: Bytes, saddr: nat, dir: nat, tabs: seq<nat>,
                         virt: uint32, phys: uint32, physEnd: uint32, n: nat, flags: int32)
    requires Tables(pool, saddr, dir, tabs) && MapToAccepts(virt, phys, physEnd) && phys < physEnd
    requires n == (physEnd - phys) / PAGING_PAGE_SIZE
    ensures EntriesFit(pool, tabs) && n >= 1
    ensures var written := SetEntry(pool, tabs, virt, OrFlags(phys, U32(flags)));
            var intended := SetAll(pool, tabs, RangeUpdates(virt, phys, n, flags));
            (forall w: uint32 :: IsAligned(w) ==> View(written, saddr, dir, w) == View(intended, saddr, dir, w))
            <==>
            (forall w: uint32 :: IsAligned(w) && 1 <= PageDistance(virt, w) < n ==>
               View(pool, saddr, dir, w) == PageEntry(phys, PageDistance(virt, w), flags))
  {
    FirstPageOnlyIff(pool, saddr, dir, tabs, virt, phys, n, flags);
    RangeStep(pool, tabs, virt, phys, 0, flags);
    assert RangeUpdates(virt, phys, 0, flags) == [];
  }

  /** The second page of a range, mapped as written and as intended. */
  lemma SecondPage(pool: Bytes, saddr: nat, dir: nat, tabs: seq<nat>, virt: uint32, phys: uint32, n: nat, flags: int32,
                   bits: uint32, second: uint32)
    requires Tables(pool, saddr, dir, tabs) && IsAligned(virt) && 2 <= n <= 0x10_0000
    requires second == StepPage(virt) && bits == U32(flags)
    ensures EntriesFit(pool, tabs) && IsAligned(second) && second != virt
    ensures View(SetEntry(pool, tabs, virt, OrFlags(phys, bits)), saddr, dir, second) == View(pool, saddr, dir, second)
    ensures View(SetAll(pool, tabs, RangeUpdates(virt, phys, n, flags)), saddr, dir, second)
            == OrFlags(StepPage(phys), bits)
  {
    StepAligned(virt);
    SetEntryExact(pool, saddr, dir, tabs, virt, OrFlags(phys, U32(flags)));
    assert PageAt(virt, 1) == StepPage(PageAt(virt, 0)) && PageAt(phys, 1) == StepPage(PageAt(phys, 0));
    PageAtDistance(virt, second, 1);
    MapPagesExact(pool, saddr, dir, tabs, virt, phys, n, flags, second);
  }

  /** The loop that stops at the first failure instead: the intended version. */
  method MapRangeIntended(k: Kernel, directory: uint32, virt: uint32, phys: uint32, count: nat, flags: int32,
                          ghost dir: nat, ghost tabs: seq<nat>)
    returns (res: int)
    requires Tables(k.pool[..], k.heap.saddr, dir, tabs) && directory == k.heap.Address(dir)
    requires IsAligned(virt) && IsAligned(phys)
    modifies k.pool
    ensures res == FREE95_ALL_OK
    ensures old(EntriesFit(k.pool[..], tabs))
    ensures k.pool[..] == SetAll(old(k.pool[..]), tabs, RangeUpdates(virt, phys, count, flags))
  {
    res := FREE95_ALL_OK;
    var v: uint32, p: uint32 := virt, phys;
    var i := 0;
    while i < count
      invariant i <= count && res == FREE95_ALL_OK
      invariant v == PageAt(virt, i) && p == PageAt(phys, i)
      invariant k.pool[..] == SetAll(old(k.pool[..]), tabs, RangeUpdates(virt, phys, i, flags))
      invariant Tables(k.pool[..], k.heap.saddr, dir, tabs)
    {
      PageAtAligned(virt, i);
      PageAtAligned(phys, i);
      RangeStep(old(k.pool[..]), tabs, virt, phys, i, flags);
      res := Map(k, directory, v, p, flags, dir, tabs);
      if res != FREE95_ALL_OK {
        break;
      }
      v := StepPage(v);
      p := StepPage(p);
      i := i + 1;
    }
  }
}
