/** heap.c: a first-fit block allocator over a byte table.
  *
  * One table byte describes one 4096-byte block. The low nibble says whether
  * the block is taken; IS_FIRST and HAS_NEXT chain the blocks of one
  * allocation. The abstract state is the set of live runs, a map from first
  * block to length; `Encodes` says that a table is exactly the in-band
  * encoding of a set of runs.
  */
module BlockHeap {
  import opened Machine

  const BLOCK_SIZE := 4096
  const FREE: bv8 := 0x00
  const TAKEN: bv8 := 0x01
  const HAS_NEXT: bv8 := 0x80
  const IS_FIRST: bv8 := 0x40
  type Table = seq<bv8>
  type Runs = map<nat, nat>

  predicate IsFree(e: bv8) {
    e & 0x0f == FREE
  }

  // ----- free space -----

  ghost predicate FreeRun(t: Table, b: int, n: nat) {
    0 <= b && b + n <= |t| && forall k :: b <= k < b + n ==> IsFree(t[k])
  }

  ghost predicate Fits(t: Table, n: nat) {
    exists b :: FreeRun(t, b, n)
  }

  /** b is where a correct first-fit search for n >= 1 blocks must stop. */
  ghost predicate LeftmostFit(t: Table, b: int, n: nat) {
    FreeRun(t, b, n) && forall c :: c < b ==> !FreeRun(t, c, n)
  }

  /** The table ends in free blocks, the first of which is b. */
  ghost predicate FreeTail(t: Table, b: int) {
    0 <= b < |t| && FreeRun(t, b, |t| - b) && (b == 0 || !IsFree(t[b - 1]))
  }

  predicate EndsTaken(t: Table) {
    t == [] || !IsFree(t[|t| - 1])
  }

  /** What the search answers: the leftmost fit if there is one; otherwise the
    * start of the free tail, however short; otherwise -ENOMEM. */
  ghost predicate Found(t: Table, n: nat, r: int) {
    if n >= 1 && Fits(t, n) then LeftmostFit(t, r, n)
    else if EndsTaken(t) then r == -ENOMEM
    else FreeTail(t, r) && (n >= 1 ==> |t| - r < n)
  }

  lemma FoundUnique(t: Table, n: nat, r: int, s: int)
    requires Found(t, n, r) && Found(t, n, s)
    ensures r == s
  {
    if FreeTail(t, r) && FreeTail(t, s) {
      assert !(r < s) && !(s < r);
    }
  }

  ghost function FreeSet(t: Table): set<nat> {
    set i: nat | i < |t| && IsFree(t[i])
  }

  lemma OneBlockFits(t: Table)
    ensures Fits(t, 1) <==> FreeSet(t) != {}
  {
    if FreeSet(t) != {} {
      var b :| b in FreeSet(t);
      assert FreeRun(t, b, 1);
    }
    if Fits(t, 1) {
      var b: int :| FreeRun(t, b, 1);
      assert b in FreeSet(t);
    }
  }

  // ----- runs -----

  /** The byte of the k-th of n chained blocks. */
  function Mark(k: nat, n: nat): bv8 {
    (if k == 0 then TAKEN | IS_FIRST else TAKEN) | (if k + 1 < n then HAS_NEXT else 0)
  }

  lemma MarkBits(k: nat, n: nat)
    ensures !IsFree(Mark(k, n))
    ensures Mark(k, n) & HAS_NEXT != 0 <==> k + 1 < n
    ensures Mark(k, n) & IS_FIRST != 0 <==> k == 0
  {
  }

  /** The bytes of a run of three blocks and of one block, and what counts as free. */
  lemma MarkExample()
    ensures Mark(0, 3) == 0xC1 && Mark(1, 3) == 0x81 && Mark(2, 3) == 0x01 && Mark(0, 1) == 0x41
    ensures forall e: bv8 :: IsFree(e) <==> e << 4 == 0
  {
  }

  predicate InRun(runs: Runs, s: nat, i: int) {
    s in runs && s <= i < s + runs[s]
  }

  /** t is the encoding of exactly these live runs: they lie in the table, do
    * not overlap, carry their marks, and every other byte is 0. */
  ghost predicate Encodes(t: Table, runs: Runs) {
    && (forall s :: s in runs ==> 1 <= runs[s] && s + runs[s] <= |t|)
    && (forall r, s :: r in runs && s in runs && r < s ==> r + runs[r] <= s)
    && (forall s: nat, i :: InRun(runs, s, i) ==> t[i] == Mark(i - s, runs[s]))
    && (forall i :: 0 <= i < |t| && t[i] != FREE ==> exists s: nat :: InRun(runs, s, i))
  }

  function AllFree(n: nat): (t: Table)
    ensures |t| == n
    ensures Encodes(t, map[])
  {
    seq(n, i => FREE)
  }

  function MarkTaken(t: Table, b: nat, n: nat): (t': Table)
    ensures |t'| == |t|
  {
    seq(|t|, i requires 0 <= i < |t| => if b <= i < b + n then Mark(i - b, n) else t[i])
  }

  function Blanked(t: Table, b: nat, n: nat): (t': Table)
    ensures |t'| == |t|
  {
    seq(|t|, i requires 0 <= i < |t| => if b <= i < b + n then FREE else t[i])
  }

  /** Clears from b on, along the HAS_NEXT chain. */
  function MarkFreed(t: Table, b: nat): (t': Table)
    ensures |t'| == |t|
    decreases |t| - b
  {
    if b >= |t| then t
    else if t[b] & HAS_NEXT == 0 then t[b := FREE]
    else MarkFreed(t[b := FREE], b + 1)
  }

  lemma FreeIsZero(t: Table, runs: Runs, i: nat)
    requires Encodes(t, runs) && i < |t|
    ensures IsFree(t[i]) <==> t[i] == FREE
    ensures IsFree(t[i]) <==> forall s :: !InRun(runs, s, i)
  {
    if t[i] != FREE {
      var s :| InRun(runs, s, i);
      MarkBits(i - s, runs[s]);
    }
    if s :| InRun(runs, s, i) {
      MarkBits(i - s, runs[s]);
    }
  }

  lemma RunsIncluded(t: Table, runs: Runs, runs': Runs)
    requires Encodes(t, runs) && Encodes(t, runs')
    ensures forall s :: s in runs ==> s in runs' && runs'[s] == runs[s]
  {
    forall s | s in runs
      ensures s in runs' && runs'[s] == runs[s]
    {
      assert InRun(runs, s, s);
      MarkBits(0, runs[s]);
      var r :| InRun(runs', r, s);
      MarkBits(s - r, runs'[r]);
      var last := if runs[s] <= runs'[s] then s + runs[s] - 1 else s + runs'[s] - 1;
      assert InRun(runs, s, last) && InRun(runs', s, last);
      MarkBits(last - s, runs[s]);
      MarkBits(last - s, runs'[s]);
    }
  }

  /** The table determines the live runs ... */
  lemma RunsDetermined(t: Table, runs: Runs, runs': Runs)
    requires Encodes(t, runs) && Encodes(t, runs')
    ensures runs == runs'
  {
    RunsIncluded(t, runs, runs');
    RunsIncluded(t, runs', runs);
    assert runs.Keys == runs'.Keys;
  }

  /** ... and the live runs determine the table, byte for byte. */
  lemma TableDetermined(t: Table, t': Table, runs: Runs)
    requires Encodes(t, runs) && Encodes(t', runs) && |t| == |t'|
    ensures t == t'
  {
    forall i | 0 <= i < |t|
      ensures t[i] == t'[i]
    {
      if t[i] != FREE {
        var s :| InRun(runs, s, i);
        assert t'[i] == Mark(i - s, runs[s]);
      } else {
        FreeIsZero(t, runs, i);
        FreeIsZero(t', runs, i);
      }
    }
  }

  lemma TakeRun(t: Table, runs: Runs, b: nat, n: nat)
    requires Encodes(t, runs) && n >= 1 && FreeRun(t, b, n)
    ensures b !in runs
    ensures Encodes(MarkTaken(t, b, n), runs[b := n])
  {
    var t', runs' := MarkTaken(t, b, n), runs[b := n];
    forall s | s in runs
      ensures s + runs[s] <= b || b + n <= s
    {
      if !(s + runs[s] <= b || b + n <= s) {
        var i := if s <= b then b else s;
        assert InRun(runs, s, i);
        FreeIsZero(t, runs, i);
      }
    }
    forall i | 0 <= i < |t'| && t'[i] != FREE
      ensures exists s :: InRun(runs', s, i)
    {
      if b <= i < b + n {
        assert InRun(runs', b, i);
      } else {
        var s :| InRun(runs, s, i);
        assert InRun(runs', s, i);
      }
    }
    forall s, i | InRun(runs', s, i)
      ensures t'[i] == Mark(i - s, runs'[s])
    {
      assert s != b ==> InRun(runs, s, i);
    }
  }

  lemma {:induction false} FreedChain(t: Table, b: nat, j: nat, n: nat)
    requires j < n && b + n <= |t|
    requires forall k :: j <= k < n ==> t[b + k] == Mark(k, n)
    ensures MarkFreed(t, b + j) == Blanked(t, b + j, n - j)
    decreases n - j
  {
    MarkBits(j, n);
    if j + 1 < n {
      FreedChain(t[b + j := FREE], b, j + 1, n);
    }
  }

  lemma BlankRun(t: Table, runs: Runs, b: nat)
    requires Encodes(t, runs) && b in runs
    ensures Encodes(Blanked(t, b, runs[b]), runs - {b})
  {
    var t', runs' := Blanked(t, b, runs[b]), runs - {b};
    forall i | 0 <= i < |t'| && t'[i] != FREE
      ensures exists s :: InRun(runs', s, i)
    {
      var s :| InRun(runs, s, i);
      assert InRun(runs', s, i);
    }
    forall s, i | InRun(runs', s, i)
      ensures t'[i] == Mark(i - s, runs'[s])
    {
      assert InRun(runs, s, i) && InRun(runs, b, b);
    }
  }

  lemma ReleaseChain(t: Table, runs: Runs, b: nat)
    requires Encodes(t, runs) && b in runs
    ensures MarkFreed(t, b) == Blanked(t, b, runs[b])
  {
    var n := runs[b];
    forall k | 0 <= k < n
      ensures t[b + k] == Mark(k, n)
    {
      assert InRun(runs, b, b + k);
    }
    FreedChain(t, b, 0, n);
  }

  lemma ReleaseRun(t: Table, runs: Runs, b: nat)
    requires Encodes(t, runs) && b in runs
    ensures MarkFreed(t, b) == Blanked(t, b, runs[b])
    ensures Encodes(MarkFreed(t, b), runs - {b})
  {
    ReleaseChain(t, runs, b);
    BlankRun(t, runs, b);
  }

  lemma {:induction false} MarkFreedBelow(t: Table, b: nat, i: nat)
    requires i <= b && i < |t|
    ensures MarkFreed(t, b)[i] == if i == b then FREE else t[i]
    decreases |t| - b
  {
    if b < |t| && t[b] & HAS_NEXT != 0 {
      if b + 1 < |t| {
        MarkFreedBelow(t[b := FREE], b + 1, i);
      }
    }
  }

  /** Freeing what no run covers changes nothing: ... */
  lemma FreeUnused(t: Table, runs: Runs, b: nat)
    requires Encodes(t, runs) && forall s :: !InRun(runs, s, b)
    ensures MarkFreed(t, b) == t
  {
    if b < |t| {
      FreeIsZero(t, runs, b);
      assert FREE & HAS_NEXT == 0;
      assert t[b := FREE] == t;
    }
  }

  /** ... but freeing from the middle of a run on leaves a table that encodes no runs. */
  lemma FreeInside(t: Table, runs: Runs, s: nat, b: nat, runs': Runs)
    requires Encodes(t, runs) && InRun(runs, s, b) && b != s
    ensures !Encodes(MarkFreed(t, b), runs')
  {
    var t' := MarkFreed(t, b);
    MarkFreedBelow(t, b, b);
    MarkFreedBelow(t, b, b - 1);
    assert InRun(runs, s, b - 1);
    MarkBits(b - 1 - s, runs[s]);
    if Encodes(t', runs') {
      FreeIsZero(t', runs', b - 1);
      var s': nat :| InRun(runs', s', b - 1);
      MarkBits(b - 1 - s', runs'[s']);
      assert InRun(runs', s', b);
    }
  }

  /** Allocating and freeing again restores every byte of the table. */
  lemma TakeThenRelease(t: Table, runs: Runs, b: nat, n: nat)
    requires Encodes(t, runs) && n >= 1 && FreeRun(t, b, n)
    ensures MarkFreed(MarkTaken(t, b, n), b) == t
  {
    TakeRun(t, runs, b, n);
    ReleaseRun(MarkTaken(t, b, n), runs[b := n], b);
    assert runs[b := n] - {b} == runs;
    TableDetermined(MarkFreed(MarkTaken(t, b, n), b), t, runs);
  }

  // ----- what is in use -----

  ghost predicate InUse(runs: Runs, i: int) {
    exists s: nat :: InRun(runs, s, i)
  }

  /** Below block b everything is in use. */
  ghost predicate FullBelow(runs: Runs, b: nat) {
    forall i :: 0 <= i < b ==> InUse(runs, i)
  }

  /** f is the first of n blocks that is free. */
  ghost predicate FirstIn(runs: Runs, n: nat, f: nat) {
    f < n && !InUse(runs, f) && FullBelow(runs, f)
  }

  lemma FirstInUnique(runs: Runs, n: nat, f: nat, g: nat)
    requires FirstIn(runs, n, f) && FirstIn(runs, n, g)
    ensures f == g
  {
    assert f < g ==> InUse(runs, f);
    assert g < f ==> InUse(runs, g);
  }

  lemma InUseIsTaken(t: Table, runs: Runs, i: nat)
    requires Encodes(t, runs) && i < |t|
    ensures InUse(runs, i) <==> !IsFree(t[i])
    ensures FreeRun(t, i, 1) <==> IsFree(t[i])
  {
    FreeIsZero(t, runs, i);
  }

  /** A search for one block finds the first free one. */
  lemma FirstFitIs(t: Table, runs: Runs, f: nat)
    requires Encodes(t, runs) && LeftmostFit(t, f, 1)
    ensures FirstIn(runs, |t|, f)
  {
    InUseIsTaken(t, runs, f);
    forall i: nat | i < f
      ensures InUse(runs, i)
    {
      InUseIsTaken(t, runs, i);
    }
  }

  /** The first block of a run is in no other run. */
  lemma OwnRun(t: Table, runs: Runs, b: nat)
    requires Encodes(t, runs) && b in runs
    ensures forall s :: InRun(runs, s, b) <==> s == b
  {
  }

  /** A block that can be freed without harm: the first one of a run, or one not in use. */
  ghost predicate Freeable(runs: Runs, b: nat) {
    b in runs || !InUse(runs, b)
  }

  /** That it is stays true when other runs, or its own, are given back. */
  lemma FreeableStays(t: Table, runs: Runs, gone: set<nat>, b: nat)
    requires Encodes(t, runs) && Freeable(runs, b)
    ensures Freeable(runs - gone, b)
    ensures b in gone ==> !InUse(runs - gone, b)
  {
    if b in runs {
      OwnRun(t, runs, b);
    }
    if s: nat :| InRun(runs - gone, s, b) {
      assert InRun(runs, s, b);
    }
  }

  // ----- whole runs of the allocator -----

  datatype Request = Malloc(n: nat) | Release(b: nat)

  lemma {:induction false} LeftmostBelow(t: Table, n: nat, b: nat)
    requires FreeRun(t, b, n)
    ensures exists c :: LeftmostFit(t, c, n)
    decreases b
  {
    if c :| c < b && FreeRun(t, c, n) {
      LeftmostBelow(t, n, c);
    } else {
      assert LeftmostFit(t, b, n);
    }
  }

  lemma LeftmostExists(t: Table, n: nat)
    requires Fits(t, n)
    ensures exists b :: LeftmostFit(t, b, n)
  {
    var b: nat :| FreeRun(t, b, n);
    LeftmostBelow(t, n, b);
  }

  ghost function FirstFit(t: Table, n: nat): (b: nat)
    requires Fits(t, n)
    ensures LeftmostFit(t, b, n)
  {
    LeftmostExists(t, n);
    var b :| LeftmostFit(t, b, n);
    b
  }

  /** A block that has just been freed is the next one handed out, if and only if there is
    * no free block to the left of it. */
  lemma FreedComesBack(t: Table, runs: Runs, b: nat)
    requires Encodes(t, runs) && b in runs && runs[b] == 1
    ensures Fits(MarkFreed(t, b), 1)
    ensures FirstFit(MarkFreed(t, b), 1) == b <==> forall i :: 0 <= i < b ==> !IsFree(t[i])
  {
    ReleaseRun(t, runs, b);
    var t' := MarkFreed(t, b);
    assert FreeRun(t', b, 1);
    forall i | 0 <= i < b
      ensures IsFree(t[i]) <==> FreeRun(t', i, 1)
    {
      assert Blanked(t, b, 1)[i] == t[i];
      assert t'[i] == t[i];
    }
  }

  /** The client's side of the bargain: ask for at least one block that some
    * free run can hold, and release only what is live. */
  ghost predicate Permitted(t: Table, runs: Runs, q: Request) {
    match q
    case Malloc(n) => n >= 1 && Fits(t, n)
    case Release(b) => b in runs
  }

  ghost function Serve(t: Table, runs: Runs, q: Request): (r: (Table, Runs))
    requires Permitted(t, runs, q)
  {
    match q
    case Malloc(n) => var b := FirstFit(t, n); (MarkTaken(t, b, n), runs[b := n])
    case Release(b) => (MarkFreed(t, b), runs - {b})
  }

  ghost predicate PermittedAll(t: Table, runs: Runs, qs: seq<Request>)
    decreases |qs|
  {
    qs != [] ==> Permitted(t, runs, qs[0]) &&
                 var (t', runs') := Serve(t, runs, qs[0]); PermittedAll(t', runs', qs[1..])
  }

  ghost function ServeAll(t: Table, runs: Runs, qs: seq<Request>): (r: (Table, Runs))
    requires PermittedAll(t, runs, qs)
    decreases |qs|
  {
    if qs == [] then (t, runs)
    else var (t', runs') := Serve(t, runs, qs[0]); ServeAll(t', runs', qs[1..])
  }

  /** Allocator safety over every run. */
  lemma {:induction false} EveryRunEncodes(t: Table, runs: Runs, qs: seq<Request>)
    requires Encodes(t, runs) && PermittedAll(t, runs, qs)
    ensures |ServeAll(t, runs, qs).0| == |t|
    ensures Encodes(ServeAll(t, runs, qs).0, ServeAll(t, runs, qs).1)
    decreases |qs|
  {
    if qs != [] {
      match qs[0] {
        case Malloc(n) => TakeRun(t, runs, FirstFit(t, n), n);
        case Release(b) => ReleaseRun(t, runs, b);
      }
      var (t', runs') := Serve(t, runs, qs[0]);
      EveryRunEncodes(t', runs', qs[1..]);
    }
  }

  ghost function ReleaseAll(t: Table, order: seq<nat>): (t': Table)
    decreases |order|
  {
    if order == [] then t else ReleaseAll(MarkFreed(t, order[0]), order[1..])
  }

  /** Freeing every live run, in any order, leaves the all-free table. */
  lemma {:induction false} ReleaseAnyOrder(t: Table, runs: Runs, order: seq<nat>)
    requires Encodes(t, runs)
    requires forall i, j :: 0 <= i < j < |order| ==> order[i] != order[j]
    requires forall b :: b in order <==> b in runs
    ensures ReleaseAll(t, order) == AllFree(|t|)
    decreases |order|
  {
    if order == [] {
      assert runs == map[];
      TableDetermined(t, AllFree(|t|), runs);
    } else {
      var b := order[0];
      ReleaseRun(t, runs, b);
      ReleaseAnyOrder(MarkFreed(t, b), runs - {b}, order[1..]);
    }
  }

  /** What the search's single test `bs == -1` costs: taking n blocks of a
    * free tail shorter than n leaves a table that encodes no runs at all,
    * because its last byte claims a successor. */
  lemma ShortTailCorrupts(t: Table, b: nat, n: nat, runs: Runs)
    requires FreeTail(t, b) && |t| - b < n
    ensures !Encodes(MarkTaken(t, b, n), runs)
  {
    var t' := MarkTaken(t, b, n);
    var last := |t| - 1;
    MarkBits(last - b, n);
    assert t'[last] == Mark(last - b, n);
    if s: nat :| InRun(runs, s, last) && runs[s] >= 1 && t'[last] == Mark(last - s, runs[s]) {
      MarkBits(last - s, runs[s]);
      assert s + runs[s] > |t|;
    }
  }

  /** The smallest instance: two blocks asked of a one-block heap. */
  lemma ShortTailExample()
    ensures Found(AllFree(1), 2, 0)
    ensures forall runs :: !Encodes(MarkTaken(AllFree(1), 0, 2), runs)
  {
    var t := AllFree(1);
    assert FreeTail(t, 0);
    assert !Fits(t, 2);
    forall runs: Runs
      ensures !Encodes(MarkTaken(t, 0, 2), runs)
    {
      ShortTailCorrupts(t, 0, 2, runs);
    }
  }

  // ----- sizes and addresses -----

  /** `uint32_t` arithmetic: the last 4095 sizes round up to 0. */
  function AlignUpper(val: uint32): uint32 {
    if val % BLOCK_SIZE == 0 then val
    else U32(val - val % BLOCK_SIZE + BLOCK_SIZE)
  }

  function BlocksFor(size: uint32): nat {
    AlignUpper(size) / BLOCK_SIZE
  }

  /** The allocation holds the requested bytes and wastes less than a block,
    * unless the rounding wrapped. */
  lemma BlocksForEnough(size: uint32)
    ensures size <= TWO_32 - BLOCK_SIZE ==>
              size <= BlocksFor(size) * BLOCK_SIZE < size + BLOCK_SIZE
    ensures size > TWO_32 - BLOCK_SIZE ==> BlocksFor(size) == 0
    ensures BlocksFor(size) == 0 <==> size == 0 || size > TWO_32 - BLOCK_SIZE
  {
  }

  // ----- the allocator -----

  lemma PoolSize(ptr: uint32, end: uint32, total: uint32)
    requires ptr % BLOCK_SIZE == 0 && end % BLOCK_SIZE == 0
    ensures total == U32(end - ptr) / BLOCK_SIZE <==> U32(end - ptr) == total * BLOCK_SIZE
    ensures ptr <= end ==> U32(end - ptr) == end - ptr
  {
  }

  class Heap {
    const saddr: uint32           // first byte of the pool
    const total: nat              // table entries
    const entries: array<bv8>     // memory from the first table entry on
    ghost var runs: Runs

    ghost function Entries(): Table
      reads entries
      requires total <= entries.Length
    {
      entries[..total]
    }

    ghost predicate Valid()
      reads this, entries
    {
      && total <= entries.Length
      && saddr % BLOCK_SIZE == 0 && saddr + total * BLOCK_SIZE <= TWO_32
      && total * BLOCK_SIZE <= 0x8000_0000   // offsets into the pool are ints
      && Encodes(Entries(), runs)
    }

    ghost function Address(b: nat): int {
      saddr + b * BLOCK_SIZE
    }

    /** The part of heap_create that runs once its arguments are accepted. */
    constructor (ptr: uint32, entries: array<bv8>, total: nat)
      requires ptr % BLOCK_SIZE == 0 && ptr + total * BLOCK_SIZE <= TWO_32 && total * BLOCK_SIZE <= 0x8000_0000
      requires total <= entries.Length
      requires entries[..total] == AllFree(total)
      ensures Valid() && runs == map[]
      ensures saddr == ptr && this.total == total && this.entries == entries
    {
      this.saddr := ptr;
      this.total := total;
      this.entries := entries;
      this.runs := map[];
    }

    /** heap_create: the heap of the pool [ptr, end), or -EINVARG with the
      * table left alone. The size of the pool is `size_t` arithmetic and wraps; a pool
      * that wraps, or is larger than an `int` can count, is accepted, but there is no
      * heap of this model for it. */
    static method Create(ptr: uint32, end: uint32, entries: array<bv8>, total: uint32)
      returns (res: int, heap: Heap?)
      requires total <= entries.Length
      modifies entries
      ensures res == FREE95_ALL_OK <==>
                ptr % BLOCK_SIZE == 0 && end % BLOCK_SIZE == 0 && U32(end - ptr) == total * BLOCK_SIZE
      ensures res == FREE95_ALL_OK && ptr <= end && end - ptr <= 0x8000_0000 ==>
                heap != null && fresh(heap) && heap.Valid() && heap.runs == map[]
                && heap.saddr == ptr && heap.total == total && heap.entries == entries
      ensures res == FREE95_ALL_OK ==> entries[..] == AllFree(total) + old(entries[total..])
      ensures res != FREE95_ALL_OK ==> res == -EINVARG && entries[..] == old(entries[..])
    {
      if ptr % BLOCK_SIZE != 0 || end % BLOCK_SIZE != 0 {
        return -EINVARG, null;
      }
      PoolSize(ptr, end, total);
      if total != U32(end - ptr) / BLOCK_SIZE {
        return -EINVARG, null;
      }
      for i := 0 to total
        invariant forall k :: 0 <= k < i ==> entries[k] == FREE
        invariant entries[i..] == old(entries[i..])
      {
        entries[i] := FREE;
      }
      assert entries[..total] == AllFree(total);
      heap := null;
      if ptr <= end && end - ptr <= 0x8000_0000 {
        heap := new Heap(ptr, entries, total);
      }
      res := FREE95_ALL_OK;
    }

    /** heap_get_start_block: exact, for every table and every request. */
    method GetStartBlock(totalBlocks: nat) returns (r: int)
      requires total <= entries.Length
      ensures Found(Entries(), totalBlocks, r)
    {
      ghost var t := Entries();
      var bc, bs := 0, -1;
      var i := 0;
      while i < total
        invariant 0 <= i <= total
        invariant bs == -1 ==> bc == 0 && (i > 0 ==> !IsFree(t[i - 1]))
        invariant bs != -1 ==> FreeRun(t, bs, bc) && bs + bc == i && bc >= 1
        invariant bs > 0 ==> !IsFree(t[bs - 1])
        invariant totalBlocks >= 1 ==> bc < totalBlocks
        invariant totalBlocks >= 1 ==> forall c :: c + totalBlocks <= i ==> !FreeRun(t, c, totalBlocks)
      {
        if !IsFree(entries[i]) {
          bc, bs := 0, -1;
          i := i + 1;
          continue;
        }
        if bs == -1 {
          bs := i;
        }
        bc := bc + 1;
        if bc == totalBlocks {
          assert LeftmostFit(t, bs, totalBlocks);
          return bs;
        }
        forall c | totalBlocks >= 1 && c + totalBlocks == i + 1
          ensures !FreeRun(t, c, totalBlocks)
        {
          assert c < bs ==> c <= bs - 1 < c + totalBlocks;
        }
        i := i + 1;
      }
      if bs == -1 {
        return -ENOMEM;
      }
      r := bs;
    }

    /** heap_mark_blocks_taken. */
    method MarkBlocksTaken(startBlock: nat, totalBlocks: nat)
      requires startBlock + totalBlocks <= entries.Length
      modifies entries
      ensures entries[..] == MarkTaken(old(entries[..]), startBlock, totalBlocks)
    {
      var endBlock: int := startBlock + totalBlocks - 1;
      var entry := TAKEN | IS_FIRST;
      if totalBlocks > 1 {
        entry := entry | HAS_NEXT;
      }
      var i := startBlock;
      while i <= endBlock
        invariant startBlock <= i <= endBlock + 1
        invariant i <= endBlock ==> entry == Mark(i - startBlock, totalBlocks)
        invariant forall k :: startBlock <= k < i ==> entries[k] == Mark(k - startBlock, totalBlocks)
        invariant forall k :: 0 <= k < entries.Length && !(startBlock <= k < i) ==> entries[k] == old(entries[k])
      {
        entries[i] := entry;
        entry := TAKEN;
        if i != endBlock - 1 {
          entry := entry | HAS_NEXT;
        }
        i := i + 1;
      }
    }

    /** heap_mark_blocks_free. */
    method MarkBlocksFree(startingBlock: nat)
      requires total <= entries.Length
      modifies entries
      ensures entries[..] == MarkFreed(old(Entries()), startingBlock) + old(entries[total..])
    {
      var i := startingBlock;
      ghost var tail := entries[total..];
      while i < total
        invariant entries[total..] == tail
        invariant MarkFreed(Entries(), i) == MarkFreed(old(Entries()), startingBlock)
      {
        var entry := entries[i];
        ghost var before := Entries();
        entries[i] := FREE;
        assert Entries() == before[i := FREE];
        if entry & HAS_NEXT == 0 {
          assert entries[..] == Entries() + tail;
          return;
        }
        i := i + 1;
      }
      assert entries[..] == Entries() + tail;
    }

    /** The blocks found are marked, whether they are enough or not. */
    method TakeFound(startBlock: nat, totalBlocks: nat)
      requires Valid() && Found(Entries(), totalBlocks, startBlock) && startBlock + totalBlocks <= entries.Length
      modifies this, entries
      ensures entries[..] == MarkTaken(old(entries[..]), startBlock, totalBlocks)
      ensures Entries() == MarkTaken(old(Entries()), startBlock, totalBlocks)
      ensures totalBlocks == 0 ==> entries[..] == old(entries[..]) && runs == old(runs)
      ensures totalBlocks >= 1 && old(Fits(Entries(), totalBlocks)) ==>
                && entries[total..] == old(entries[total..])
                && startBlock !in old(runs) && runs == old(runs)[startBlock := totalBlocks]
      ensures !old(Fits(Entries(), totalBlocks)) ==> runs == old(runs)
      ensures Valid() <==> totalBlocks == 0 || old(Fits(Entries(), totalBlocks))
    {
      ghost var t := Entries();
      MarkBlocksTaken(startBlock, totalBlocks);
      assert Entries() == MarkTaken(t, startBlock, totalBlocks);
      if totalBlocks == 0 {
        assert entries[..] == old(entries[..]);
      } else if Fits(t, totalBlocks) {
        TakeRun(t, runs, startBlock, totalBlocks);
        runs := runs[startBlock := totalBlocks];
      } else {
        ShortTailCorrupts(t, startBlock, totalBlocks, runs);
      }
    }

    /** heap_malloc. A search that fails in a table ending in a taken block
      * answers NULL; one that fails in a table ending in free blocks marks
      * past the end of the table, and then the table encodes nothing. */
    method Malloc(size: uint32) returns (address: int)
      requires Valid()
      requires Fits(Entries(), BlocksFor(size)) || EndsTaken(Entries()) || total + BlocksFor(size) <= entries.Length
      modifies this, entries
      ensures address == 0 || exists b: nat :: b < total && address == Address(b)
      ensures var n, t := BlocksFor(size), old(Entries());
              n >= 1 && Fits(t, n) ==>
                var b := (address - saddr) / BLOCK_SIZE;
                && b >= 0 && address == Address(b) && LeftmostFit(t, b, n)
                && Entries() == MarkTaken(t, b, n) && entries[total..] == old(entries[total..])
                && b !in old(runs) && runs == old(runs)[b := n]
      ensures var n, t := BlocksFor(size), old(Entries());
              EndsTaken(t) && !(n >= 1 && Fits(t, n)) ==>
                address == 0 && entries[..] == old(entries[..]) && runs == old(runs)
      ensures var n, t := BlocksFor(size), old(Entries());
              !EndsTaken(t) && !(n >= 1 && Fits(t, n)) ==>
                var b := (address - saddr) / BLOCK_SIZE;
                && b >= 0 && address == Address(b) && FreeTail(t, b)
                && entries[..] == MarkTaken(old(entries[..]), b, n) && runs == old(runs)
      ensures BlocksFor(size) == 0 ==> entries[..] == old(entries[..]) && runs == old(runs)
      ensures var n, t := BlocksFor(size), old(Entries());
              Valid() <==> (n == 0 || Fits(t, n) || EndsTaken(t))
    {
      var totalBlocks := BlocksFor(size);
      ghost var t := Entries();
      var startBlock := GetStartBlock(totalBlocks);
      if startBlock < 0 {
        return 0;
      }
      address := saddr + startBlock * BLOCK_SIZE;
      assert address == Address(startBlock) && (address - saddr) / BLOCK_SIZE == startBlock;
      TakeFound(startBlock, totalBlocks);
    }

    /** heap_address_to_block: the offset is an `int`, and its division truncates. */
    function AddressToBlock(ptr: uint32): int {
      var offset: int := I32(ptr - saddr);
      if offset >= 0 then offset / BLOCK_SIZE else -(-offset / BLOCK_SIZE)
    }

    lemma BlockOfAddress(ptr: uint32, b: nat)
      requires b * BLOCK_SIZE < 0x8000_0000 && ptr == Address(b)
      ensures AddressToBlock(ptr) == b
    {
    }

    /** heap_free, of any address that is not in front of the pool. In the first block of a live
      * run it frees exactly this run; outside all runs it does nothing; and inside a run,
      * behind its first block, it leaves a table that encodes no runs. */
    method Free(ptr: uint32)
      requires Valid() && AddressToBlock(ptr) >= 0
      modifies this, entries
      ensures var b := AddressToBlock(ptr); Entries() == MarkFreed(old(Entries()), b)
      ensures var b := AddressToBlock(ptr); b in old(runs) ==>
                Valid() && Entries() == Blanked(old(Entries()), b, old(runs)[b]) && runs == old(runs) - {b}
      ensures var b := AddressToBlock(ptr); (forall s :: !InRun(old(runs), s, b)) ==>
                Valid() && Entries() == old(Entries()) && runs == old(runs)
      ensures var b := AddressToBlock(ptr); (exists s :: InRun(old(runs), s, b) && b != s) ==>
                forall runs' :: !Encodes(Entries(), runs')
      ensures entries[total..] == old(entries[total..])
    {
      var b := AddressToBlock(ptr);
      ghost var t := Entries();
      if b in runs {
        ReleaseRun(t, runs, b);
        OwnRun(t, runs, b);
      } else if s :| InRun(runs, s, b) {
        forall runs'
          ensures !Encodes(MarkFreed(t, b), runs')
        {
          FreeInside(t, runs, s, b, runs');
        }
      } else {
        FreeUnused(t, runs, b);
      }
      MarkBlocksFree(b);
      runs := if b in runs then runs - {b} else runs;
    }
  }

  // ----- runs of calls -----

  lemma WholeBlocks(n: nat)
    requires n <= 0x8_0000
    ensures n * BLOCK_SIZE < TWO_32 && BlocksFor(n * BLOCK_SIZE) == n
  {
  }

  lemma FirstFitUnique(t: Table, b: nat, n: nat)
    requires LeftmostFit(t, b, n)
    ensures Fits(t, n) && FirstFit(t, n) == b
  {
    assert !(FirstFit(t, n) < b) && !(b < FirstFit(t, n));
  }

  method PutMalloc(heap: Heap, n: nat)
    requires heap.Valid() && n >= 1 && Fits(heap.Entries(), n)
    modifies heap, heap.entries
    ensures heap.Valid()
    ensures var b := FirstFit(old(heap.Entries()), n);
            heap.Entries() == MarkTaken(old(heap.Entries()), b, n) && heap.runs == old(heap.runs)[b := n]
  {
    ghost var t := heap.Entries();
    assert n <= heap.total;
    WholeBlocks(n);
    var address := heap.Malloc(n * BLOCK_SIZE);
    FirstFitUnique(t, (address - heap.saddr) / BLOCK_SIZE, n);
  }

  method PutRelease(heap: Heap, b: nat)
    requires heap.Valid() && b in heap.runs
    modifies heap, heap.entries
    ensures heap.Valid()
    ensures heap.Entries() == MarkFreed(old(heap.Entries()), b) && heap.runs == old(heap.runs) - {b}
  {
    heap.BlockOfAddress(heap.saddr + b * BLOCK_SIZE, b);
    heap.Free(heap.saddr + b * BLOCK_SIZE);
  }

  /** One request, put to the heap. */
  method PutRequest(heap: Heap, q: Request)
    requires heap.Valid() && Permitted(heap.Entries(), heap.runs, q)
    modifies heap, heap.entries
    ensures heap.Valid()
    ensures (heap.Entries(), heap.runs) == Serve(old(heap.Entries()), old(heap.runs), q)
  {
    match q
    case Malloc(n) =>
      PutMalloc(heap, n);
    case Release(b) =>
      PutRelease(heap, b);
  }

  /** A run of requests, put to the heap one after the other, leaves what the run is said to. */
  method PutRequests(heap: Heap, qs: seq<Request>)
    requires heap.Valid() && PermittedAll(heap.Entries(), heap.runs, qs)
    modifies heap, heap.entries
    ensures heap.Valid()
    ensures (heap.Entries(), heap.runs) == ServeAll(old(heap.Entries()), old(heap.runs), qs)
    decreases |qs|
  {
    if qs != [] {
      PutRequest(heap, qs[0]);
      PutRequests(heap, qs[1..]);
    }
  }

  /** Freeing every live run, in any order, empties the heap. */
  method ReleaseEvery(heap: Heap, order: seq<nat>)
    requires heap.Valid()
    requires forall i, j :: 0 <= i < j < |order| ==> order[i] != order[j]
    requires forall b :: b in order <==> b in heap.runs
    modifies heap, heap.entries
    ensures heap.Valid() && heap.runs == map[] && heap.Entries() == AllFree(heap.total)
    decreases |order|
  {
    if order == [] {
      TableDetermined(heap.Entries(), AllFree(heap.total), heap.runs);
      return;
    }
    PutRelease(heap, order[0]);
    ReleaseEvery(heap, order[1..]);
  }
}
