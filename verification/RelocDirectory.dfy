/** loader.c, as values: the base relocation directory in an image.
  */
module RelocDirectory {
  import opened Machine
  import opened PeImage

  function BlockAddress(m: Bytes, p: nat): uint32
    requires p + 4 <= |m|
  {
    Tops();
    Get(m, p, 4)
  }

  function BlockSize(m: Bytes, p: nat): uint32
    requires p + 8 <= |m|
  {
    Tops();
    Get(m, p + 4, 4)
  }

  /** The directory at p: blocks of at least a header's size, up to one with
    * VirtualAddress 0. */
  predicate WellFormed(m: Bytes, p: nat)
    decreases |m| - p
  {
    && p + 4 <= |m|
    && (BlockAddress(m, p) != 0 ==>
          && p + 8 <= |m| && BlockSize(m, p) >= SIZEOF_RELOCATION
          && p + BlockSize(m, p) <= |m| && WellFormed(m, p + BlockSize(m, p)))
  }

  /** Where the directory's last VirtualAddress field ends. */
  function DirectoryEnd(m: Bytes, p: nat): (e: nat)
    requires WellFormed(m, p)
    ensures p + 4 <= e <= |m|
    ensures BlockAddress(m, p) != 0 ==> p + BlockSize(m, p) < e
    decreases |m| - p
  {
    if BlockAddress(m, p) == 0 then p + 4 else DirectoryEnd(m, p + BlockSize(m, p))
  }

  function EntryCount(m: Bytes, p: nat): nat
    requires p + 8 <= |m| && BlockSize(m, p) >= SIZEOF_RELOCATION
  {
    (BlockSize(m, p) - SIZEOF_RELOCATION) / 2
  }

  /** The site an entry denotes: none for padding and for unknown types. */
  function EntrySites(address: uint32, entry: uint16): seq<Site> {
    var at := address + entry % 0x1000;
    var kind := entry / 0x1000;
    if kind == IMAGE_REL_BASED_HIGH then [Site(at, High)]
    else if kind == IMAGE_REL_BASED_LOW then [Site(at, Low)]
    else if kind == IMAGE_REL_BASED_HIGHLOW || kind == IMAGE_REL_BASED_DIR32 then [Site(at, Whole)]
    else []
  }

  /** The site an entry denotes, told by the entry's bits: the low twelve are the offset, the high
    * four the type. */
  lemma EntryFields(address: uint32, entry: uint16) returns (offset: nat, kind: nat)
    ensures offset < 0x1000 && kind < 16
    ensures forall k :: 0 <= k < 12 ==> (Bit(offset, k) <==> Bit(entry, k))
    ensures forall k :: 0 <= k < 4 ==> (Bit(kind, k) <==> Bit(entry, 12 + k))
    ensures EntrySites(address, entry) == match kind
                                          case 1 => [Site(address + offset, High)]
                                          case 2 => [Site(address + offset, Low)]
                                          case 3 => [Site(address + offset, Whole)]
                                          case 6 => [Site(address + offset, Whole)]
                                          case _ => []
  {
    offset, kind := entry % 0x1000, entry / 0x1000;
    Pow2Of16();
    forall k | 0 <= k < 16
      ensures Bit(entry, k) <==> if k < 12 then Bit(offset, k) else Bit(kind, k - 12)
    {
      BitSplit(kind, offset, 12, k);
    }
  }

  /** A HIGHLOW entry with offset 0x10, in the block of page 0x1000, and one of padding. */
  lemma EntryExample()
    ensures EntrySites(0x1000, 0x3010) == [Site(0x1010, Whole)] && EntrySites(0x1000, 0) == []
  {
  }

  function Entry(m: Bytes, p: nat, i: nat): uint16
    requires p + SIZEOF_RELOCATION + 2 * i + 2 <= |m|
  {
    Tops();
    Get(m, p + SIZEOF_RELOCATION + 2 * i, 2)
  }

  /** The sites of a block's entries from the i-th to the n-th. */
  function BlockSites(m: Bytes, p: nat, i: nat, n: nat): seq<Site>
    requires p + SIZEOF_RELOCATION + 2 * n <= |m| && i <= n
    decreases n - i
  {
    if i == n then [] else EntrySites(BlockAddress(m, p), Entry(m, p, i)) + BlockSites(m, p, i + 1, n)
  }

  function BlockAll(m: Bytes, p: nat): seq<Site>
    requires p + 8 <= |m| && BlockSize(m, p) >= SIZEOF_RELOCATION && p + BlockSize(m, p) <= |m|
  {
    BlockSites(m, p, 0, EntryCount(m, p))
  }

  /** All sites of the directory. */
  function Sites(m: Bytes, p: nat): seq<Site>
    requires WellFormed(m, p)
    decreases |m| - p
  {
    if BlockAddress(m, p) == 0 then [] else BlockAll(m, p) + Sites(m, p + BlockSize(m, p))
  }

  lemma TwoEntries(m: Bytes, p: nat)
    requires p + 12 <= |m| && BlockSize(m, p) == 12
    ensures BlockAll(m, p)
            == EntrySites(BlockAddress(m, p), Entry(m, p, 0)) + EntrySites(BlockAddress(m, p), Entry(m, p, 1))
  {
    assert BlockSites(m, p, 2, 2) == [];
    assert BlockSites(m, p, 1, 2) == EntrySites(BlockAddress(m, p), Entry(m, p, 1));
  }

  lemma OneBlock(m: Bytes, p: nat)
    requires p + 16 <= |m| && BlockAddress(m, p) != 0 && BlockSize(m, p) == 12 && BlockAddress(m, p + 12) == 0
    ensures WellFormed(m, p) && DirectoryEnd(m, p) == p + 16 && Sites(m, p) == BlockAll(m, p)
  {
    assert Sites(m, p + 12) == [];
  }

  lemma FieldsOf(m: Bytes, a: nat)
    requires a + 4 <= |m|
    ensures Get(m, a, 2) == m[a] as int + 0x100 * m[a + 1] as int
    ensures Get(m, a, 4) == Get(m, a, 2) + 0x1_0000 * m[a + 2] as int + 0x100_0000 * m[a + 3] as int
  {
    GetIsLoad(m, a);
  }

  /** A directory with one block, for page 0x1000, of 12 bytes: a HIGHLOW entry with offset 0x10
    * and one of padding. */
  lemma DirectoryExample(m: Bytes)
    requires m == [0x00, 0x10, 0, 0, 12, 0, 0, 0, 0x10, 0x30, 0, 0, 0, 0, 0, 0]
    ensures WellFormed(m, 0) && DirectoryEnd(m, 0) == 16 && Sites(m, 0) == [Site(0x1010, Whole)]
  {
    FieldsOf(m, 0);
    FieldsOf(m, 4);
    FieldsOf(m, 8);
    FieldsOf(m, 10);
    FieldsOf(m, 12);
    OneBlock(m, 0);
    TwoEntries(m, 0);
    EntryExample();
  }

  ghost predicate Agree(m: Bytes, m': Bytes, lo: int, hi: int) {
    |m| == |m'| && forall j :: lo <= j < hi && 0 <= j < |m| ==> m[j] == m'[j]
  }

  lemma FieldAgrees(m: Bytes, m': Bytes, lo: int, hi: int, a: nat)
    requires Agree(m, m', lo, hi) && lo <= a && a + 4 <= hi && a + 4 <= |m|
    ensures Get(m, a, 4) == Get(m', a, 4)
  {
    GetAgrees(m, m', a, 4);
  }

  lemma EntryAgrees(m: Bytes, m': Bytes, lo: int, hi: int, p: nat, i: nat)
    requires Agree(m, m', lo, hi) && lo <= p && p + SIZEOF_RELOCATION + 2 * i + 2 <= hi
    requires p + SIZEOF_RELOCATION + 2 * i + 2 <= |m|
    ensures Entry(m, p, i) == Entry(m', p, i)
  {
    var a := p + SIZEOF_RELOCATION + 2 * i;
    GetAgrees(m, m', a, 2);
  }

  lemma BlockSitesUnfold(m: Bytes, p: nat, i: nat, n: nat)
    requires p + SIZEOF_RELOCATION + 2 * n <= |m| && i < n
    ensures BlockSites(m, p, i, n)
            == EntrySites(BlockAddress(m, p), Entry(m, p, i)) + BlockSites(m, p, i + 1, n)
  {
  }

  lemma {:induction false} BlockSitesSame(m: Bytes, m': Bytes, lo: int, hi: int, p: nat, i: nat, n: nat)
    requires Agree(m, m', lo, hi) && lo <= p && p + SIZEOF_RELOCATION + 2 * n <= hi && hi <= |m| && i <= n
    ensures BlockSites(m, p, i, n) == BlockSites(m', p, i, n)
    decreases n - i
  {
    if i < n {
      FieldAgrees(m, m', lo, hi, p);
      EntryAgrees(m, m', lo, hi, p, i);
      BlockSitesSame(m, m', lo, hi, p, i + 1, n);
      BlockSitesUnfold(m, p, i, n);
      BlockSitesUnfold(m', p, i, n);
    }
  }

  lemma HeaderSame(m: Bytes, m': Bytes, lo: int, hi: int, p: nat)
    requires WellFormed(m, p) && Agree(m, m', lo, hi) && lo <= p && DirectoryEnd(m, p) <= hi <= |m|
    ensures BlockAddress(m', p) == BlockAddress(m, p)
    ensures BlockAddress(m, p) != 0 ==> BlockSize(m', p) == BlockSize(m, p)
  {
    FieldAgrees(m, m', lo, hi, p);
    if BlockAddress(m, p) != 0 {
      FieldAgrees(m, m', lo, hi, p + 4);
    }
  }

  /** The directory's own bytes determine where it ends ... */
  lemma {:induction false} ShapeSame(m: Bytes, m': Bytes, lo: int, hi: int, p: nat)
    requires WellFormed(m, p) && Agree(m, m', lo, hi) && lo <= p && DirectoryEnd(m, p) <= hi <= |m|
    ensures WellFormed(m', p) && DirectoryEnd(m', p) == DirectoryEnd(m, p)
    decreases |m| - p
  {
    HeaderSame(m, m', lo, hi, p);
    if BlockAddress(m, p) != 0 {
      ShapeSame(m, m', lo, hi, p + BlockSize(m, p));
    }
  }

  lemma NextBlock(m: Bytes, p: nat, size: nat)
    requires WellFormed(m, p) && BlockAddress(m, p) != 0 && size == BlockSize(m, p)
    ensures WellFormed(m, p + size) && DirectoryEnd(m, p + size) == DirectoryEnd(m, p) > p + size
    ensures size >= SIZEOF_RELOCATION && Sites(m, p) == BlockAll(m, p) + Sites(m, p + size)
  {
  }

  lemma BlockAllSame(m: Bytes, m': Bytes, lo: int, hi: int, p: nat)
    requires WellFormed(m, p) && BlockAddress(m, p) != 0
    requires Agree(m, m', lo, hi) && lo <= p && DirectoryEnd(m, p) <= hi <= |m|
    ensures BlockSize(m', p) == BlockSize(m, p) && BlockAll(m', p) == BlockAll(m, p)
  {
    HeaderSame(m, m', lo, hi, p);
    BlockSitesSame(m, m', lo, hi, p, 0, EntryCount(m, p));
  }

  /** ... and which sites it denotes. */
  lemma {:induction false} SitesSameIn(m: Bytes, m': Bytes, lo: int, hi: int, p: nat)
    requires WellFormed(m, p) && WellFormed(m', p)
    requires Agree(m, m', lo, hi) && lo <= p && DirectoryEnd(m, p) <= hi <= |m|
    ensures Sites(m', p) == Sites(m, p)
    decreases |m| - p
  {
    HeaderSame(m, m', lo, hi, p);
    if BlockAddress(m, p) != 0 {
      var size := BlockSize(m, p);
      NextBlock(m, p, size);
      NextBlock(m', p, size);
      SitesSameIn(m, m', lo, hi, p + size);
      BlockAllSame(m, m', lo, hi, p);
    }
  }

  lemma SitesSame(m: Bytes, m': Bytes, p: nat)
    requires WellFormed(m, p) && Agree(m, m', p, DirectoryEnd(m, p))
    ensures WellFormed(m', p) && Sites(m', p) == Sites(m, p) && DirectoryEnd(m', p) == DirectoryEnd(m, p)
  {
    ShapeSame(m, m', p, DirectoryEnd(m, p), p);
    SitesSameIn(m, m', p, DirectoryEnd(m, p), p);
  }

  /** No site lies in the directory itself. */
  ghost predicate ClearOf(sites: seq<Site>, lo: int, hi: int) {
    forall k :: 0 <= k < |sites| ==> sites[k].at + sites[k].Width() <= lo || hi <= sites[k].at
  }

  /** What relocation needs of an image: a well-formed directory whose sites lie
    * in the image and not in the directory. */
  ghost predicate Relocatable(m: Bytes, dir: nat) {
    WellFormed(m, dir) && InImage(m, Sites(m, dir)) && ClearOf(Sites(m, dir), dir, DirectoryEnd(m, dir))
  }

  /** The image relocated by its own directory; as it is, if it has none. */
  ghost function Relocated(m: Bytes, dir: nat, delta: uint32): Bytes {
    if WellFormed(m, dir) && InImage(m, Sites(m, dir)) then RelocateAll(m, Sites(m, dir), delta) else m
  }

  /** If the sites do not overlap, the value at each has moved by the distance, and nothing else
    * has changed. */
  ghost predicate Moved(m: Bytes, m': Bytes, dir: nat, distance: int) {
    WellFormed(m, dir) && (PairwiseApart(Sites(m, dir)) ==> Shifted(m, m', Sites(m, dir), distance))
  }

  lemma RelocatedMoves(m: Bytes, m': Bytes, dir: nat, distance: int)
    requires Relocatable(m, dir) && m' == Relocated(m, dir, U32(distance))
    ensures Moved(m, m', dir, distance)
  {
    if PairwiseApart(Sites(m, dir)) {
      SitesMoved(m, Sites(m, dir), distance);
    }
  }

  /** Relocation leaves its own directory alone, so relocating again is defined
    * by the same sites. */
  lemma DirectoryKept(m: Bytes, dir: nat, delta: uint32)
    requires Relocatable(m, dir)
    ensures Relocatable(Relocated(m, dir, delta), dir)
    ensures Sites(Relocated(m, dir, delta), dir) == Sites(m, dir)
  {
    var m' := Relocated(m, dir, delta);
    forall j | dir <= j < DirectoryEnd(m, dir)
      ensures m'[j] == m[j]
    {
      UntouchedStays(m, Sites(m, dir), delta, j);
    }
    SitesSame(m, m', dir);
  }

  /** A relocation in progress: in [lo, hi) memory is still the original, and
    * relocating the sites left to do completes the job that began at m. */
  ghost predicate Doing(m: Bytes, all: seq<Site>, now: Bytes, left: seq<Site>, delta: uint32, orig: Bytes,
                        lo: int, hi: int) {
    && Agree(orig, now, lo, hi) && InImage(now, left) && ClearOf(left, lo, hi)
    && InImage(m, all) && RelocateAll(now, left, delta) == RelocateAll(m, all, delta)
  }

  lemma DoFirst(m: Bytes, all: seq<Site>, now: Bytes, xs: seq<Site>, ys: seq<Site>, delta: uint32,
                orig: Bytes, lo: int, hi: int)
    requires Doing(m, all, now, xs + ys, delta, orig, lo, hi)
    ensures InImage(now, xs) && ClearOf(xs, lo, hi)
    ensures Doing(m, all, RelocateAll(now, xs, delta), ys, delta, orig, lo, hi)
  {
    RelocateSplit(now, xs, ys, delta);
    assert forall k :: 0 <= k < |xs| ==> xs[k] == (xs + ys)[k];
    assert forall k :: 0 <= k < |ys| ==> ys[k] == (xs + ys)[|xs| + k];
    forall j: nat | lo <= j < hi && j < |now|
      ensures RelocateAll(now, xs, delta)[j] == now[j]
    {
      UntouchedStays(now, xs, delta, j);
    }
  }

  /** Relocating m by its directory has come to the block at p. */
  ghost predicate AtBlock(m: Bytes, dir: nat, now: Bytes, p: nat, delta: uint32) {
    && WellFormed(m, dir) && dir <= p && WellFormed(m, p) && DirectoryEnd(m, p) == DirectoryEnd(m, dir)
    && Doing(m, Sites(m, dir), now, Sites(m, p), delta, m, dir, DirectoryEnd(m, dir))
  }

  lemma AtFirstBlock(m: Bytes, dir: nat, delta: uint32)
    requires Relocatable(m, dir)
    ensures AtBlock(m, dir, m, dir, delta)
  {
  }

  lemma AtBlockHeader(m: Bytes, dir: nat, now: Bytes, p: nat, delta: uint32)
    requires AtBlock(m, dir, now, p, delta)
    ensures p + 4 <= |now| && BlockAddress(now, p) == BlockAddress(m, p)
    ensures BlockAddress(m, p) != 0 ==> p + 8 <= |now| && BlockSize(now, p) == BlockSize(m, p)
  {
    HeaderSame(m, now, dir, DirectoryEnd(m, dir), p);
  }

  /** The block at p of orig can be relocated in now. */
  ghost predicate BlockReady(orig: Bytes, now: Bytes, p: nat, lo: nat, hi: nat) {
    && Agree(orig, now, lo, hi) && WellFormed(orig, p)
    && lo <= p && DirectoryEnd(orig, p) <= hi <= |orig| && BlockAddress(orig, p) != 0
    && InImage(now, BlockAll(orig, p)) && ClearOf(BlockAll(orig, p), lo, hi)
  }

  ghost predicate BlockDone(orig: Bytes, now: Bytes, now': Bytes, p: nat, delta: uint32) {
    && WellFormed(orig, p) && BlockAddress(orig, p) != 0 && InImage(now, BlockAll(orig, p))
    && now' == RelocateAll(now, BlockAll(orig, p), delta)
  }

  lemma AtBlockReady(m: Bytes, dir: nat, now: Bytes, p: nat, hi: nat, delta: uint32)
    requires AtBlock(m, dir, now, p, delta) && BlockAddress(m, p) != 0 && hi == DirectoryEnd(m, dir)
    ensures BlockReady(m, now, p, dir, hi)
  {
    var size := BlockSize(m, p);
    NextBlock(m, p, size);
    DoFirst(m, Sites(m, dir), now, BlockAll(m, p), Sites(m, p + size), delta, m, dir, hi);
  }

  /** A block just relocated still has its own header, ... */
  lemma AtBlockSize(m: Bytes, dir: nat, now: Bytes, now': Bytes, p: nat, delta: uint32)
    requires AtBlock(m, dir, now, p, delta) && BlockDone(m, now, now', p, delta)
    ensures p + 8 <= |now'| && BlockSize(now', p) == BlockSize(m, p)
  {
    DoFirst(m, Sites(m, dir), now, BlockAll(m, p), Sites(m, p + BlockSize(m, p)), delta, m, dir, DirectoryEnd(m, dir));
    HeaderSame(m, now', dir, DirectoryEnd(m, dir), p);
  }

  /** ... and leads on to the next one. */
  lemma AtBlockAfter(m: Bytes, dir: nat, now: Bytes, now': Bytes, p: nat, p': nat, delta: uint32)
    requires AtBlock(m, dir, now, p, delta) && BlockDone(m, now, now', p, delta) && p' == p + BlockSize(m, p)
    ensures p < p' < DirectoryEnd(m, dir) && AtBlock(m, dir, now', p', delta)
  {
    NextBlock(m, p, BlockSize(m, p));
    DoFirst(m, Sites(m, dir), now, BlockAll(m, p), Sites(m, p'), delta, m, dir, DirectoryEnd(m, dir));
  }

  lemma AtBlockEnd(m: Bytes, dir: nat, now: Bytes, p: nat, delta: uint32)
    requires AtBlock(m, dir, now, p, delta) && BlockAddress(m, p) == 0
    ensures now == Relocated(m, dir, delta)
  {
  }

  /** Relocating the block at p of orig, which began at m, has come to entry i. */
  ghost predicate AtEntry(orig: Bytes, m: Bytes, now: Bytes, p: nat, i: nat, delta: uint32, lo: nat, hi: nat) {
    && BlockReady(orig, m, p, lo, hi) && i <= EntryCount(orig, p)
    && Doing(m, BlockAll(orig, p), now, BlockSites(orig, p, i, EntryCount(orig, p)), delta, orig, lo, hi)
  }

  lemma AtFirstEntry(orig: Bytes, m: Bytes, p: nat, delta: uint32, lo: nat, hi: nat)
    requires BlockReady(orig, m, p, lo, hi)
    ensures AtEntry(orig, m, m, p, 0, delta, lo, hi)
    ensures p + 8 <= |m| && BlockSize(m, p) == BlockSize(orig, p)
  {
    HeaderSame(orig, m, lo, hi, p);
  }

  lemma BlockEntry(orig: Bytes, now: Bytes, lo: int, hi: int, p: nat, i: nat, n: nat)
    requires WellFormed(orig, p) && Agree(orig, now, lo, hi) && lo <= p && DirectoryEnd(orig, p) <= hi <= |orig|
    requires BlockAddress(orig, p) != 0 && i < n == EntryCount(orig, p)
    ensures p + SIZEOF_RELOCATION + 2 * n <= |now|
    ensures BlockSites(orig, p, i, n)
            == EntrySites(BlockAddress(now, p), Entry(now, p, i)) + BlockSites(orig, p, i + 1, n)
  {
    HeaderSame(orig, now, lo, hi, p);
    EntryAgrees(orig, now, lo, hi, p, i);
    BlockSitesUnfold(orig, p, i, n);
  }

  lemma AtEntryReady(orig: Bytes, m: Bytes, now: Bytes, p: nat, i: nat, delta: uint32, lo: nat, hi: nat)
    requires AtEntry(orig, m, now, p, i, delta, lo, hi) && i < EntryCount(orig, p)
    ensures p + SIZEOF_RELOCATION + 2 * i + 2 <= |now|
    ensures InImage(now, EntrySites(BlockAddress(now, p), Entry(now, p, i)))
  {
    var n := EntryCount(orig, p);
    BlockEntry(orig, now, lo, hi, p, i, n);
    DoFirst(m, BlockAll(orig, p), now, EntrySites(BlockAddress(now, p), Entry(now, p, i)),
            BlockSites(orig, p, i + 1, n), delta, orig, lo, hi);
  }

  lemma AtEntryAfter(orig: Bytes, m: Bytes, now: Bytes, now': Bytes, p: nat, i: nat, delta: uint32, lo: nat, hi: nat,
                     sites: seq<Site>)
    requires AtEntry(orig, m, now, p, i, delta, lo, hi) && i < EntryCount(orig, p)
    requires p + SIZEOF_RELOCATION + 2 * i + 2 <= |now| && sites == EntrySites(BlockAddress(now, p), Entry(now, p, i))
    requires InImage(now, sites) && now' == RelocateAll(now, sites, delta)
    ensures AtEntry(orig, m, now', p, i + 1, delta, lo, hi)
  {
    var n := EntryCount(orig, p);
    BlockEntry(orig, now, lo, hi, p, i, n);
    DoFirst(m, BlockAll(orig, p), now, sites, BlockSites(orig, p, i + 1, n), delta, orig, lo, hi);
  }

  lemma AtLastEntry(orig: Bytes, m: Bytes, now: Bytes, p: nat, delta: uint32, lo: nat, hi: nat)
    requires BlockReady(orig, m, p, lo, hi) && AtEntry(orig, m, now, p, EntryCount(orig, p), delta, lo, hi)
    ensures BlockDone(orig, m, now, p, delta)
  {
  }

  // ----- loading at different bases -----

  /** The load buffer with all sections copied. */
  function Buffer(garbage: Bytes, file: Bytes, secs: seq<Section>): Bytes
    requires SectionsFit(garbage, file, secs)
  {
    CopySections(garbage, file, secs, |secs|)
  }

  /** What the loader makes of a file in a buffer with arbitrary contents. */
  ghost function LoadAt(garbage: Bytes, file: Bytes, secs: seq<Section>, dir: nat, imageBase: uint32,
                        base: uint32): Bytes
    requires SectionsFit(garbage, file, secs)
  {
    Relocated(Buffer(garbage, file, secs), dir, U32(base - imageBase))
  }

  /** The sites, and the directory, lie in sections. */
  ghost predicate SitesLoaded(sites: seq<Site>, secs: seq<Section>) {
    forall k, j :: 0 <= k < |sites| && sites[k].Covers(j) ==> Loaded(secs, j)
  }

  ghost predicate DirectoryLoaded(m: Bytes, secs: seq<Section>, dir: nat)
    requires WellFormed(m, dir)
  {
    forall j :: dir <= j < DirectoryEnd(m, dir) ==> Loaded(secs, j)
  }

  /** m and m' hold the same bytes wherever a section was loaded. */
  ghost predicate SameLoaded(m: Bytes, m': Bytes, secs: seq<Section>) {
    |m| == |m'| && forall j :: 0 <= j < |m| && Loaded(secs, j) ==> m[j] == m'[j]
  }

  lemma BuffersSame(g: Bytes, g': Bytes, file: Bytes, secs: seq<Section>)
    requires |g| == |g'| && SectionsFit(g, file, secs) && SectionsFit(g', file, secs)
    ensures SameLoaded(Buffer(g, file, secs), Buffer(g', file, secs), secs)
  {
    forall j | 0 <= j < |g| && Loaded(secs, j)
      ensures Buffer(g, file, secs)[j] == Buffer(g', file, secs)[j]
    {
      LoadedSame(g, g', file, secs, |secs|, j);
    }
  }

  /** What a directory in loaded memory needs for loading to be predictable: it
    * and its sites lie in sections, and the sites do not overlap. */
  ghost predicate Predictable(m: Bytes, secs: seq<Section>, dir: nat, sites: seq<Site>) {
    && Relocatable(m, dir) && DirectoryLoaded(m, secs, dir)
    && sites == Sites(m, dir) && SitesLoaded(sites, secs) && PairwiseApart(sites)
  }

  lemma SameSites(m: Bytes, m': Bytes, secs: seq<Section>, dir: nat)
    requires Relocatable(m, dir) && DirectoryLoaded(m, secs, dir) && SameLoaded(m, m', secs)
    ensures Relocatable(m', dir) && Sites(m', dir) == Sites(m, dir)
  {
    SitesSame(m, m', dir);
  }

  /** Two loaded images: x was moved by da, y by the distance more. They agree on section bytes
    * off the sites, and at each site their values differ by the distance, except that a HIGH
    * site misses the carry of the low halves. */
  ghost predicate Differ(x: Bytes, y: Bytes, secs: seq<Section>, sites: seq<Site>, da: uint32, distance: int) {
    && |x| == |y| && InImage(x, sites)
    && (forall j :: 0 <= j < |x| && Loaded(secs, j) && !Touched(sites, j) ==> x[j] == y[j])
    && (forall k :: 0 <= k < |sites| ==>
          (MovedBy(sites[k].kind, ValueAt(x, sites[k]), ValueAt(y, sites[k]), distance)
           <==> !sites[k].kind.High? || NoCarry(da, U32(distance))))
  }

  lemma RelocatedIs(m: Bytes, dir: nat, delta: uint32, sites: seq<Site>)
    requires Relocatable(m, dir) && sites == Sites(m, dir)
    ensures InImage(m, sites) && Relocated(m, dir, delta) == RelocateAll(m, sites, delta)
  {
  }

  lemma MovedSite(m: Bytes, m': Bytes, sites: seq<Site>, k: nat, da: uint32, distance: int, db: uint32)
    requires |m| == |m'| && InImage(m, sites) && PairwiseApart(sites) && k < |sites|
    requires db == U32(da + U32(distance)) && ValueAt(m, sites[k]) == ValueAt(m', sites[k])
    ensures MovedBy(sites[k].kind, ValueAt(RelocateAll(m, sites, da), sites[k]),
                    ValueAt(RelocateAll(m', sites, db), sites[k]), distance)
            <==> !sites[k].kind.High? || NoCarry(da, U32(distance))
  {
    var s, x, y := sites[k], RelocateAll(m, sites, da), RelocateAll(m', sites, db);
    SitesAdjusted(m, sites, da, k);
    SitesAdjusted(m', sites, db, k);
    ValueBound(m, s);
    ValueBound(x, s);
    ValueBound(y, s);
    AdjustTwice(s.kind, ValueAt(m, s), da, U32(distance));
    AdjustedIff(s.kind, ValueAt(x, s), ValueAt(y, s), distance);
  }

  lemma MovedImages(m: Bytes, m': Bytes, secs: seq<Section>, sites: seq<Site>, da: uint32, distance: int, db: uint32)
    requires InImage(m, sites) && PairwiseApart(sites) && db == U32(da + U32(distance))
    requires SameLoaded(m, m', secs) && SitesLoaded(sites, secs)
    ensures Differ(RelocateAll(m, sites, da), RelocateAll(m', sites, db), secs, sites, da, distance)
  {
    var x, y := RelocateAll(m, sites, da), RelocateAll(m', sites, db);
    forall j | 0 <= j < |m| && Loaded(secs, j) && !Touched(sites, j)
      ensures x[j] == y[j]
    {
      UntouchedStays(m, sites, da, j);
      UntouchedStays(m', sites, db, j);
    }
    forall k | 0 <= k < |sites|
      ensures MovedBy(sites[k].kind, ValueAt(x, sites[k]), ValueAt(y, sites[k]), distance)
              <==> !sites[k].kind.High? || NoCarry(da, U32(distance))
    {
      ValueFrame(m, m', sites[k]);
      MovedSite(m, m', sites, k, da, distance, db);
    }
  }

  lemma LoadedMoved(m: Bytes, m': Bytes, secs: seq<Section>, dir: nat, da: uint32, distance: int, db: uint32,
                    sites: seq<Site>)
    requires Predictable(m, secs, dir, sites) && SameLoaded(m, m', secs) && db == U32(da + U32(distance))
    ensures Differ(Relocated(m, dir, da), Relocated(m', dir, db), secs, sites, da, distance)
  {
    SameSites(m, m', secs, dir);
    RelocatedIs(m, dir, da, sites);
    RelocatedIs(m', dir, db, sites);
    MovedImages(m, m', secs, sites, da, distance, db);
  }

  lemma Differences(i: uint32, a: uint32, b: uint32)
    ensures U32(U32(a - i) + U32(b - a)) == U32(b - i)
  {
  }

  /** Loading commutes with moving the base, from a to b, whatever the two load
    * buffers held before: at the sites the images differ by b - a. */
  lemma LoadsDiffer(g: Bytes, g': Bytes, file: Bytes, secs: seq<Section>, dir: nat,
                    imageBase: uint32, a: uint32, b: uint32, sites: seq<Site>)
    requires |g| == |g'| && SectionsFit(g, file, secs) && SectionsFit(g', file, secs)
    requires Predictable(Buffer(g, file, secs), secs, dir, sites)
    ensures Differ(LoadAt(g, file, secs, dir, imageBase, a), LoadAt(g', file, secs, dir, imageBase, b),
                   secs, sites, U32(a - imageBase), b - a)
  {
    BuffersSame(g, g', file, secs);
    Differences(imageBase, a, b);
    LoadedMoved(Buffer(g, file, secs), Buffer(g', file, secs), secs, dir,
                U32(a - imageBase), b - a, U32(b - imageBase), sites);
  }
}
