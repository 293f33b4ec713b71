/** fat16.c, the read path as values: where clusters lie, cluster chains, and
  * the bytes of a file.
  *
  * A volume's header and disk image are fixed. A file is the concatenation of
  * its clusters' bytes, in chain order.
  */
module FatVolume {
  import opened Machine
  import opened Streamer

  /** The header fields the read path uses (fat_header). */
  datatype Volume = Volume(reserved: uint16, sectorsPerCluster: uint8, fatCopies: uint8,
                           sectorsPerFat: uint16, rootEntries: uint16)
  {
    predicate Valid() {
      sectorsPerCluster > 0
    }

    function ClusterSize(): (n: nat)
      ensures Valid() ==> n > 0
    {
      sectorsPerCluster * FREE95_SECTOR_SIZE
    }

    /** fat16_get_root_directory: where the root directory starts ... */
    function RootSector(): nat {
      fatCopies * sectorsPerFat + reserved
    }

    function RootSize(): nat {
      rootEntries * 32
    }

    /** ... and its `ending_sector_pos`, a truncating division. */
    function EndingSector(): nat {
      RootSector() + RootSize() / FREE95_SECTOR_SIZE
    }

    /** fat16_cluster_to_sector */
    function ClusterSector(cluster: int): int {
      EndingSector() + (cluster - 2) * sectorsPerCluster
    }

    function ClusterPos(cluster: int): int {
      ClusterSector(cluster) * FREE95_SECTOR_SIZE
    }

    /** The position fat16_get_fat_entry seeks to: the FAT's byte offset times
      * the entry's, in `uint32_t`, handed over as an `int`. */
    function FatEntryPos(cluster: nat): int32 {
      I32(U32(reserved * FREE95_SECTOR_SIZE) * (cluster * 2))
    }
  }

  // ----- where clusters lie -----

  /** Different clusters have disjoint sector ranges. */
  lemma ClustersDisjoint(vol: Volume, c: int, d: int)
    requires vol.Valid() && c < d
    ensures vol.ClusterSector(c) + vol.sectorsPerCluster <= vol.ClusterSector(d)
  {
    var n: int := vol.sectorsPerCluster;
    MulAtLeast(d - c, n);
    assert (d - 2) * n == (c - 2) * n + (d - c) * n;
  }

  /** Where the i-th copy of the FAT starts; behind the last one comes the root directory. */
  function FatSector(vol: Volume, i: nat): nat {
    vol.reserved + i * vol.sectorsPerFat
  }

  lemma {:induction false} FatsInOrder(vol: Volume, i: nat, j: nat)
    requires i < j
    ensures FatSector(vol, i) + vol.sectorsPerFat <= FatSector(vol, j)
    ensures j == i + 1 ==> FatSector(vol, i) + vol.sectorsPerFat == FatSector(vol, j)
    decreases j
  {
    assert FatSector(vol, j) == FatSector(vol, j - 1) + vol.sectorsPerFat;
    if i < j - 1 {
      FatsInOrder(vol, i, j - 1);
    }
  }

  /** Each copy of the FAT ends at or before the root directory, and the last one where that
    * starts. */
  lemma FatsBeforeRoot(vol: Volume, i: nat)
    requires i < vol.fatCopies
    ensures FatSector(vol, i) + vol.sectorsPerFat <= vol.RootSector()
    ensures i == vol.fatCopies - 1 ==> FatSector(vol, i) + vol.sectorsPerFat == vol.RootSector()
  {
    FatsInOrder(vol, i, vol.fatCopies);
  }

  /** The clusters start where the root directory, cut to whole sectors, ends. */
  lemma FirstDataSector(vol: Volume)
    ensures vol.ClusterSector(2) == FatSector(vol, vol.fatCopies) + vol.rootEntries * 32 / 512
  {
  }

  lemma ClustersFrom(vol: Volume, c: int)
    requires vol.Valid() && c >= 2
    ensures vol.ClusterSector(c) >= vol.ClusterSector(2)
  {
    var n: int := vol.sectorsPerCluster;
    assert (c - 2) * n >= 0;
  }

  /** No cluster from 2 on meets a copy of the FAT, ... */
  lemma DataClearOfFats(vol: Volume, c: int, i: nat)
    requires vol.Valid() && c >= 2 && i < vol.fatCopies
    ensures vol.ClusterSector(c) >= FatSector(vol, i) + vol.sectorsPerFat
  {
    FirstDataSector(vol);
    ClustersFrom(vol, c);
    FatsInOrder(vol, i, vol.fatCopies);
  }

  /** ... and none meets the root directory, which starts behind the last copy, exactly when
    * that fills a whole number of sectors. */
  lemma DataClearOfRootIff(vol: Volume)
    requires vol.Valid()
    ensures (forall c :: c >= 2 ==>
               vol.ClusterPos(c) >= FatSector(vol, vol.fatCopies) * 512 + vol.rootEntries * 32)
            <==> vol.rootEntries % 16 == 0
  {
    FirstDataSector(vol);
    assert vol.ClusterPos(2) == vol.ClusterSector(2) * 512;
    forall c | c >= 2
      ensures vol.ClusterPos(c) >= vol.ClusterPos(2)
    {
      ClustersFrom(vol, c);
    }
  }

  /** The volume that the boot sector declares. */
  lemma BootVolumeExample(vol: Volume)
    requires vol == Volume(200, 128, 2, 256, 64)
    ensures FatSector(vol, 0) == 200 && FatSector(vol, 1) == 456 && vol.RootSector() == 712
    ensures vol.ClusterSector(2) == 716 && vol.ClusterSector(3) == 844
    ensures vol.ClusterSize() == 0x1_0000 && vol.ClusterPos(3) == 844 * 512
  {
  }

  lemma ProductEven(r: nat, c: nat)
    ensures (r * 512) * (c * 2) == 1024 * (r * c)
  {
  }

  lemma Multiple(k: int)
    ensures (FREE95_SECTOR_SIZE * k) % FREE95_SECTOR_SIZE == 0
  {
  }

  lemma WrapKeepsAlignment(x: int)
    requires x % FREE95_SECTOR_SIZE == 0
    ensures I32(x) % FREE95_SECTOR_SIZE == 0
  {
    var k, q := x / FREE95_SECTOR_SIZE, x / TWO_32;
    assert x % TWO_32 == FREE95_SECTOR_SIZE * (k - 0x80_0000 * q);
    Multiple(k - 0x80_0000 * q);
    Multiple(k - 0x80_0000 * q - 0x80_0000);
  }

  /** Whatever the multiplication gives, the position is sector-aligned, so the
    * two-byte read of an entry never leaves its sector buffer. */
  lemma FatEntryAligned(vol: Volume, cluster: nat)
    ensures vol.FatEntryPos(cluster) % FREE95_SECTOR_SIZE == 0
  {
    var p := vol.reserved * cluster;
    ProductEven(vol.reserved, cluster);
    assert U32(vol.reserved * FREE95_SECTOR_SIZE) == vol.reserved * FREE95_SECTOR_SIZE;
    assert vol.FatEntryPos(cluster) == I32(1024 * p);
    WrapKeepsAlignment(1024 * p);
  }

  // ----- where the entries are -----

  /** Where an entry lies by the FAT specification: in the FAT, two bytes each. */
  function SpecifiedPos(vol: Volume, cluster: nat): nat {
    vol.reserved * FREE95_SECTOR_SIZE + 2 * cluster
  }

  /** None of n numbers is a multiple of 16384 less 1 to 128: the first is s, modulo 16384, d
    * and b are their first and second differences, and 3072 is the third. */
  predicate Clear(s: nat, d: nat, b: nat, n: nat)
    decreases n
  {
    n == 0
    || (s < 16256
        && Clear(if s + d < 16384 then s + d else s + d - 16384,
                 if d + b < 16384 then d + b else d + b - 16384,
                 if b < 13312 then b + 3072 else b - 13312, n - 1))
  }

  /** So it is with e^2 + 512 e^3 for e below 256, which is computed in steps of eight. */
  lemma AllClear()
    ensures Clear(0, 513, 3074, 256)
  {
    assert Clear(12352, 5105, 11266, 8) && Clear(8448, 9185, 3074, 16) && Clear(4672, 13265, 11266, 24);
    assert Clear(1024, 961, 3074, 32) && Clear(13888, 5041, 11266, 40) && Clear(10496, 9121, 3074, 48);
    assert Clear(7232, 13201, 11266, 56) && Clear(4096, 897, 3074, 64) && Clear(1088, 4977, 11266, 72);
    assert Clear(14592, 9057, 3074, 80) && Clear(11840, 13137, 11266, 88) && Clear(9216, 833, 3074, 96);
    assert Clear(6720, 4913, 11266, 104) && Clear(4352, 8993, 3074, 112) && Clear(2112, 13073, 11266, 120);
    assert Clear(0, 769, 3074, 128) && Clear(14400, 4849, 11266, 136) && Clear(12544, 8929, 3074, 144);
    assert Clear(10816, 13009, 11266, 152) && Clear(9216, 705, 3074, 160) && Clear(7744, 4785, 11266, 168);
    assert Clear(6400, 8865, 3074, 176) && Clear(5184, 12945, 11266, 184) && Clear(4096, 641, 3074, 192);
    assert Clear(3136, 4721, 11266, 200) && Clear(2304, 8801, 3074, 208) && Clear(1600, 12881, 11266, 216);
    assert Clear(1024, 577, 3074, 224) && Clear(576, 4657, 11266, 232) && Clear(256, 8737, 3074, 240);
    assert Clear(64, 12817, 11266, 248);
  }

  function Cubic(e: int): int {
    e * e + 512 * (e * e * e)
  }

  function Difference(e: int): int {
    513 + 1538 * e + 1536 * (e * e)
  }

  lemma CubicSteps(e: int)
    ensures Cubic(e + 1) == Cubic(e) + Difference(e)
    ensures Difference(e + 1) == Difference(e) + 3074 + 3072 * e
  {
    var q := e * e;
    assert (e + 1) * (e + 1) == q + 2 * e + 1;
    assert (q + 2 * e + 1) * (e + 1) == q * e + 3 * q + 3 * e + 1;
  }

  lemma {:induction false} ClearAt(s: nat, d: nat, b: nat, n: nat, e: nat, i: nat, x: int, y: int, z: int)
    returns (k: int, t: nat)
    requires Clear(s, d, b, n) && i < n
    requires Cubic(e) == s + 16384 * x && Difference(e) == d + 16384 * y && 3074 + 3072 * e == b + 16384 * z
    ensures Cubic(e + i) == t + 16384 * k && t < 16256
    decreases n
  {
    if i == 0 {
      k, t := x, s;
    } else {
      CubicSteps(e);
      k, t := ClearAt(if s + d < 16384 then s + d else s + d - 16384,
                      if d + b < 16384 then d + b else d + b - 16384,
                      if b < 13312 then b + 3072 else b - 13312, n - 1, e + 1, i - 1,
                      if s + d < 16384 then x + y else x + y + 1,
                      if d + b < 16384 then y + z else y + z + 1,
                      if b < 13312 then z else z + 1);
    }
  }

  /** If both positions agree, modulo 2^32, the entry number is a multiple of 256, ... */
  lemma AgreeingEntry(r: int, c: int, q: int)
    requires 1024 * (r * c) == 512 * r + 2 * c + TWO_32 * q
    ensures c == 256 * (2 * (r * c) - r - 0x80_0000 * q)
  {
  }

  /** ... 256 e, and with e the reserved sectors make a multiple of 512, ... */
  lemma AgreeingSum(r: int, e: int, q: int)
    requires 1024 * (r * (256 * e)) == 512 * r + 2 * (256 * e) + TWO_32 * q
    ensures r + e == 512 * (r * e - 16384 * q)
  {
    assert r * (256 * e) == 256 * (r * e);
  }

  /** ... 512 m, where m and the cubic of e make a multiple of 16384. */
  lemma AgreeingCubic(e: int, m: int, q: int)
    requires m + 16384 * q == (512 * m - e) * e
    ensures m + Cubic(e) == 16384 * (16 * (m * e * e) - q * (1 + 512 * e))
  {
    var f, x := 1 + 512 * e, m * e;
    assert (512 * m - e) * e == 512 * x - e * e;
    assert m - 512 * x + 16384 * q == -(e * e);
    assert (m - 512 * x) * f == m - 512 * 512 * (x * e);
    assert (e * e) * f == Cubic(e);
  }

  lemma CubicRest(n: nat, e: nat) returns (k: int, t: nat)
    requires Clear(0, 513, 3074, n) && e < n
    ensures Cubic(e) == t + 16384 * k && t < 16256
  {
    k, t := ClearAt(0, 513, 3074, n, 0, e, 0, 0, 0);
  }

  lemma CubicFar(e: nat, m: nat, w: int)
    requires e < 256 && m <= 128 && m + Cubic(e) == 16384 * w
    ensures m == 0
  {
    AllClear();
    var k, t := CubicRest(256, e);
  }

  lemma AgreeingNone(r: nat, c: nat, q: int)
    requires r < 0x1_0000 && c < 0x1_0000 && 1024 * (r * c) == 512 * r + 2 * c + TWO_32 * q
    ensures r == 0 && c == 0
  {
    AgreeingEntry(r, c, q);
    var e := 2 * (r * c) - r - 0x80_0000 * q;
    AgreeingSum(r, e, q);
    var m := r * e - 16384 * q;
    assert r == 512 * m - e;
    AgreeingCubic(e, m, q);
    CubicFar(e, m, 16 * (m * e * e) - q * (1 + 512 * e));
  }

  /** The driver looks for an entry where the specification puts it if and only if that is
    * entry 0 of a volume without reserved sectors. */
  lemma FatEntryPosIff(vol: Volume, cluster: nat)
    requires cluster < 0x1_0000
    ensures vol.FatEntryPos(cluster) == SpecifiedPos(vol, cluster) <==> vol.reserved == 0 && cluster == 0
  {
    var r, c := vol.reserved, cluster;
    ProductEven(r, c);
    assert vol.FatEntryPos(c) == I32(1024 * (r * c));
    if vol.FatEntryPos(c) == SpecifiedPos(vol, c) {
      AgreeingNone(r, c, 1024 * (r * c) / TWO_32);
    }
  }

  lemma FatEntryPosExample(vol: Volume)
    requires vol.reserved == 1
    ensures vol.FatEntryPos(2) == 2048 && SpecifiedPos(vol, 2) == 516
  {
  }

  // ----- cluster chains -----

  function EntryAt(disk: Disk, p: int): uint16 {
    ByteAt(disk, p) as int + 0x100 * ByteAt(disk, p + 1) as int
  }

  /** An entry is a little-endian field: its low byte comes first. */
  lemma EntryBits(disk: Disk, p: int, k: nat)
    requires k < 16
    ensures Bit(EntryAt(disk, p), k) <==> if k < 8 then Bit(ByteAt(disk, p), k) else Bit(ByteAt(disk, p + 1), k - 8)
  {
    ByteBits(ByteAt(disk, p), ByteAt(disk, p + 1), k);
  }

  function NextEntry(disk: Disk, vol: Volume, cluster: nat): uint16 {
    EntryAt(disk, vol.FatEntryPos(cluster))
  }

  /** The FAT as the driver looks entries up in it. */
  type Lookup = nat -> uint16

  /** next is the lookup in this volume's FAT. Stated per cluster, so that it is
    * used where it is asked for. */
  ghost predicate LooksUp(disk: Disk, vol: Volume, next: Lookup, cluster: nat) {
    next(cluster) == NextEntry(disk, vol, cluster)
  }

  /** The values at which the walk gives up. */
  predicate EndsChain(entry: uint16) {
    entry == 0xFF8 || entry == 0xFFF || entry == 0xFF7 || entry == 0xFF0 || entry == 0xFF6 || entry == 0x00
  }

  /** The n-th cluster of a chain as the walk finds it: -EIO once an entry that
    * ends the chain has been read. */
  function ClusterAt(next: Lookup, start: nat, n: nat): (c: int)
    ensures c >= 0 || c == -EIO
  {
    if n == 0 then start
    else
      var c := ClusterAt(next, start, n - 1);
      if c < 0 then c
      else if EndsChain(next(c)) then -EIO
      else next(c)
  }

  /** Plain n-fold iteration of the FAT lookup, with no check at all. */
  function Iterated(next: Lookup, start: nat, n: nat): nat {
    if n == 0 then start else next(Iterated(next, start, n - 1))
  }

  /** The walk is iteration of the lookup, if no value read on the way ends the
    * chain, and fails otherwise. */
  lemma {:induction false} WalkIsIteration(next: Lookup, start: nat, n: nat)
    ensures ClusterAt(next, start, n)
            == if forall i :: 1 <= i <= n ==> !EndsChain(Iterated(next, start, i))
               then Iterated(next, start, n) else -EIO
    decreases n
  {
    if n > 0 {
      WalkIsIteration(next, start, n - 1);
    }
  }

  /** The values that the FAT specification gives to free, bad and last clusters of a FAT16
    * volume. */
  predicate SpecifiedEnd(entry: uint16) {
    entry == 0 || entry >= 0xFFF7
  }

  /** The walk stops where the specification says except that it follows all markers of a bad
    * or last cluster, and stops at five ordinary cluster numbers, which are 12-bit markers. */
  lemma EndsChainIff(entry: uint16)
    ensures (EndsChain(entry) <==> SpecifiedEnd(entry))
            <==> entry < 0xFFF7 && entry !in {0xFF0, 0xFF6, 0xFF7, 0xFF8, 0xFFF}
  {
  }

  /** So a walk of one step too many does not fail: it answers the marker as a cluster. */
  lemma MarkerFollowed(next: Lookup, start: nat, n: nat)
    requires ClusterAt(next, start, n) >= 0 && next(ClusterAt(next, start, n)) >= 0xFFF7
    ensures ClusterAt(next, start, n + 1) == next(ClusterAt(next, start, n))
  {
  }

  /** The walk by the specification. */
  function SpecifiedAt(next: Lookup, start: nat, n: nat): (c: int)
    ensures c >= 0 || c == -EIO
  {
    if n == 0 then start
    else
      var c := SpecifiedAt(next, start, n - 1);
      if c < 0 then c
      else if SpecifiedEnd(next(c)) then -EIO
      else next(c)
  }

  lemma {:induction false} SpecifiedIsIteration(next: Lookup, start: nat, n: nat)
    ensures SpecifiedAt(next, start, n)
            == if forall i :: 1 <= i <= n ==> !SpecifiedEnd(Iterated(next, start, i))
               then Iterated(next, start, n) else -EIO
    decreases n
  {
    if n > 0 {
      SpecifiedIsIteration(next, start, n - 1);
    }
  }

  /** Both walks answer the same if and only if each of them meets a value at which it stops,
    * or neither does. */
  lemma WalkAsSpecifiedIff(next: Lookup, start: nat, n: nat)
    ensures ClusterAt(next, start, n) == SpecifiedAt(next, start, n)
            <==> ((exists i :: 1 <= i <= n && EndsChain(Iterated(next, start, i)))
                  <==> (exists i :: 1 <= i <= n && SpecifiedEnd(Iterated(next, start, i))))
  {
    WalkIsIteration(next, start, n);
    SpecifiedIsIteration(next, start, n);
  }

  /** A walk may be cut anywhere: the second half starts where the first ended. */
  lemma {:induction false} WalkComposes(next: Lookup, start: nat, a: nat, b: nat)
    ensures ClusterAt(next, start, a + b)
            == if ClusterAt(next, start, a) < 0 then -EIO
               else ClusterAt(next, ClusterAt(next, start, a), b)
    decreases b
  {
    if b > 0 {
      WalkComposes(next, start, a, b - 1);
    }
  }

  lemma WalkFailsOn(next: Lookup, start: nat, a: nat, b: nat)
    requires a <= b && ClusterAt(next, start, a) < 0
    ensures ClusterAt(next, start, b) == -EIO
  {
    WalkComposes(next, start, a, b - a);
  }

  lemma WalkStep(next: Lookup, start: nat, i: nat, c: nat, n: nat)
    requires i < n && ClusterAt(next, start, i) == c
    ensures EndsChain(next(c)) ==> ClusterAt(next, start, n) == -EIO
    ensures !EndsChain(next(c)) ==> ClusterAt(next, start, i + 1) == next(c)
  {
    if EndsChain(next(c)) {
      WalkFailsOn(next, start, i + 1, n);
    }
  }

  /** fat16_get_cluster_for_offset as a function of the byte offset. */
  function ClusterForOffset(vol: Volume, next: Lookup, start: nat, offset: nat): int
    requires vol.Valid()
  {
    ClusterAt(next, start, Quot(offset, vol.ClusterSize()))
  }

  /** f(s, a + b) = f(f(s, a), b) when a is a whole number of clusters. */
  lemma OffsetsCompose(vol: Volume, next: Lookup, start: nat, a: nat, b: nat)
    requires vol.Valid() && Rem(a, vol.ClusterSize()) == 0
    ensures ClusterForOffset(vol, next, start, a + b)
            == if ClusterForOffset(vol, next, start, a) < 0 then -EIO
               else ClusterForOffset(vol, next, ClusterForOffset(vol, next, start, a), b)
  {
    var m := vol.ClusterSize();
    QuotRem(a, m);
    QuotAdd(Quot(a, m), b, m);
    WalkComposes(next, start, Quot(a, m), Quot(b, m));
  }

  // ----- the bytes of a file -----

  /** Where byte p of a file is on the disk. */
  function FilePos(vol: Volume, next: Lookup, start: nat, p: nat): int
    requires vol.Valid()
  {
    vol.ClusterPos(ClusterForOffset(vol, next, start, p)) + Rem(p, vol.ClusterSize())
  }

  /** Byte p of the file that starts at a cluster. */
  function FileByte(disk: Disk, vol: Volume, next: Lookup, start: nat, p: nat): uint8
    requires vol.Valid()
  {
    ByteAt(disk, FilePos(vol, next, start, p))
  }

  function ClusterBytes(disk: Disk, vol: Volume, cluster: int): Bytes {
    Slice(disk, vol.ClusterPos(cluster), vol.ClusterSize())
  }

  /** The contents of the first k clusters: start, next(start), ... concatenated. */
  function Contents(disk: Disk, vol: Volume, next: Lookup, start: nat, k: nat): (s: Bytes)
    ensures |s| == k * vol.ClusterSize()
  {
    if k == 0 then []
    else Contents(disk, vol, next, start, k - 1) + ClusterBytes(disk, vol, ClusterAt(next, start, k - 1))
  }

  /** Byte by byte, the file is the concatenation of its clusters. */
  lemma {:induction false} ContentsByte(disk: Disk, vol: Volume, next: Lookup, start: nat, k: nat, p: nat)
    requires vol.Valid() && p < k * vol.ClusterSize()
    ensures Contents(disk, vol, next, start, k)[p] == FileByte(disk, vol, next, start, p)
    decreases k
  {
    var m := vol.ClusterSize();
    var before := (k - 1) * m;
    assert k * m == before + m;
    if p < before {
      ContentsByte(disk, vol, next, start, k - 1, p);
    } else {
      QuotUnique(p, m, k - 1, p - before);
    }
  }

  // ----- rounds of a read -----

  /** Where a read at `offset` takes its j-th byte from. It goes in rounds of a cluster's size,
    * and each round looks up the cluster of its first byte only. */
  function TakenFrom(vol: Volume, next: Lookup, start: nat, offset: nat, j: nat): int
    requires vol.Valid()
    decreases j
  {
    if j < vol.ClusterSize() then FilePos(vol, next, start, offset) + j
    else TakenFrom(vol, next, start, offset + vol.ClusterSize(), j - vol.ClusterSize())
  }

  ghost predicate ReceivedByte(disk: Disk, vol: Volume, next: Lookup, start: nat, offset: nat, n: nat,
                               out: Bytes, at: nat, j: int)
    requires vol.Valid() && at + n <= |out|
  {
    at <= j < at + n ==> out[j] == ByteAt(disk, TakenFrom(vol, next, start, offset, j - at))
  }

  /** out holds, from `at` on, what a read of n bytes at `offset` takes. */
  ghost predicate Received(disk: Disk, vol: Volume, next: Lookup, start: nat, offset: nat, n: nat, out: Bytes, at: nat)
    requires vol.Valid()
  {
    at + n <= |out| && forall j :: ReceivedByte(disk, vol, next, start, offset, n, out, at, j)
  }

  /** The last round's cluster, counted from the start of the file. */
  function LastRound(vol: Volume, offset: nat, total: nat): nat
    requires vol.Valid()
  {
    Quot(offset, vol.ClusterSize()) + (if total == 0 then 0 else Quot(total - 1, vol.ClusterSize()))
  }

  /** Every copy of a read stays inside its sector buffer: it starts on a sector boundary, or
    * does not leave its sector. */
  ghost predicate Streamable(vol: Volume, offset: nat, total: nat)
    requires vol.Valid()
  {
    var within := Rem(offset, vol.ClusterSize()) % FREE95_SECTOR_SIZE;
    || total == 0 || within == 0
    || (vol.EndingSector() >= 2 * vol.sectorsPerCluster && within + total <= FREE95_SECTOR_SIZE)
  }

  lemma ClusterPosNonNegative(vol: Volume, c: nat)
    requires vol.Valid() && vol.EndingSector() >= 2 * vol.sectorsPerCluster
    ensures vol.ClusterPos(c) >= 0
  {
    var n: int := vol.sectorsPerCluster;
    assert (c - 2) * n == c * n - 2 * n && c * n >= 0;
  }

  lemma AlignedPlus(k: int, w: int)
    ensures (k * FREE95_SECTOR_SIZE + w) % FREE95_SECTOR_SIZE == w % FREE95_SECTOR_SIZE
  {
  }

  lemma RoundStays(vol: Volume, offset: nat, total: nat, n: nat, c: nat)
    requires vol.Valid() && Streamable(vol, offset, total)
    requires n == if total > vol.ClusterSize() then vol.ClusterSize() else total
    ensures StaysInBuffer(vol.ClusterPos(c) + Rem(offset, vol.ClusterSize()), n)
  {
    var within := Rem(offset, vol.ClusterSize());
    var p := vol.ClusterPos(c) + within;
    AlignedPlus(vol.ClusterSector(c), within);
    StaysInBufferIff(p, n);
    if within % FREE95_SECTOR_SIZE != 0 && total > 0 {
      ClusterPosNonNegative(vol, c);
    }
  }

  lemma NextCluster(vol: Volume, offset: nat)
    requires vol.Valid()
    ensures Quot(offset + vol.ClusterSize(), vol.ClusterSize()) == Quot(offset, vol.ClusterSize()) + 1
    ensures Rem(offset + vol.ClusterSize(), vol.ClusterSize()) == Rem(offset, vol.ClusterSize())
  {
  }

  lemma NextRound(vol: Volume, offset: nat, total: nat)
    requires vol.Valid() && Streamable(vol, offset, total) && total > vol.ClusterSize()
    ensures Streamable(vol, offset + vol.ClusterSize(), total - vol.ClusterSize())
    ensures LastRound(vol, offset + vol.ClusterSize(), total - vol.ClusterSize()) == LastRound(vol, offset, total)
  {
    NextCluster(vol, offset);
  }

  lemma FirstRoundNeeded(vol: Volume, offset: nat, total: nat)
    requires vol.Valid()
    ensures Quot(offset, vol.ClusterSize()) <= LastRound(vol, offset, total)
    ensures total <= vol.ClusterSize() ==> LastRound(vol, offset, total) == Quot(offset, vol.ClusterSize())
  {
  }

  /** The first round, then the others. */
  lemma ReceivedJoin(disk: Disk, vol: Volume, next: Lookup, start: nat, offset: nat, n: nat, first: Bytes, at: nat,
                 offset': nat, n': nat, out: Bytes, at': nat)
    requires vol.Valid() && n == vol.ClusterSize() && offset' == offset + n && at' == at + n && |first| == |out|
    requires Received(disk, vol, next, start, offset, n, first, at)
    requires Received(disk, vol, next, start, offset', n', out, at')
    requires forall j :: at <= j < at' ==> out[j] == first[j]
    ensures Received(disk, vol, next, start, offset, n + n', out, at)
  {
    var total := n + n';
    forall j
      ensures ReceivedByte(disk, vol, next, start, offset, total, out, at, j)
    {
      assert ReceivedByte(disk, vol, next, start, offset, n, first, at, j);
      assert ReceivedByte(disk, vol, next, start, offset', n', out, at', j);
    }
  }

  // ----- when a read takes the file's bytes -----

  /** The i-th byte that a round at `offset` takes off the disk is the file's. */
  ghost predicate TakesFileByte(vol: Volume, next: Lookup, start: nat, offset: nat, i: nat)
    requires vol.Valid()
  {
    FilePos(vol, next, start, offset + i) == FilePos(vol, next, start, offset) + i
  }

  lemma FilePosAt(vol: Volume, next: Lookup, start: nat, p: nat, q: nat, r: nat)
    requires vol.Valid() && r < vol.ClusterSize() && p == q * vol.ClusterSize() + r
    ensures FilePos(vol, next, start, p) == vol.ClusterPos(ClusterAt(next, start, q)) + r
  {
    QuotUnique(p, vol.ClusterSize(), q, r);
  }

  lemma PlusWithin(q: nat, m: nat, r: nat, i: nat)
    ensures q * m + r + i == q * m + (r + i)
    ensures q * m + r + i == (q + 1) * m + (r + i - m)
  {
  }

  /** A byte in the round's own cluster, ... */
  lemma SameClusterByte(vol: Volume, next: Lookup, start: nat, offset: nat, i: nat)
    requires vol.Valid() && Rem(offset, vol.ClusterSize()) + i < vol.ClusterSize()
    ensures TakesFileByte(vol, next, start, offset, i)
  {
    var m := vol.ClusterSize();
    var q, r := Quot(offset, m), Rem(offset, m);
    QuotRem(offset, m);
    PlusWithin(q, m, r, i);
    FilePosAt(vol, next, start, offset + i, q, r + i);
  }

  /** ... and one in the next. */
  lemma NextClusterByte(vol: Volume, next: Lookup, start: nat, offset: nat, i: nat, x: int, y: int)
    requires vol.Valid() && i < vol.ClusterSize() <= Rem(offset, vol.ClusterSize()) + i
    requires x == ClusterAt(next, start, Quot(offset, vol.ClusterSize()))
    requires y == ClusterAt(next, start, Quot(offset, vol.ClusterSize()) + 1)
    ensures FilePos(vol, next, start, offset) == vol.ClusterPos(x) + Rem(offset, vol.ClusterSize())
    ensures FilePos(vol, next, start, offset + i)
            == vol.ClusterPos(y) + (Rem(offset, vol.ClusterSize()) + i - vol.ClusterSize())
  {
    var m := vol.ClusterSize();
    var q, r := Quot(offset, m), Rem(offset, m);
    QuotRem(offset, m);
    PlusWithin(q, m, r, i);
    FilePosAt(vol, next, start, offset + i, q + 1, r + i - m);
  }

  lemma ClusterPosStep(vol: Volume, c: int)
    requires vol.Valid()
    ensures vol.ClusterPos(c + 1) == vol.ClusterPos(c) + vol.ClusterSize()
  {
  }

  lemma ClusterPosInjective(vol: Volume, c: int, d: int)
    requires vol.Valid()
    ensures vol.ClusterPos(c) == vol.ClusterPos(d) <==> c == d
  {
    if c < d {
      ClustersDisjoint(vol, c, d);
    } else if d < c {
      ClustersDisjoint(vol, d, c);
    }
  }

  /** The chain goes on, behind the cluster of `offset`, with its neighbour on the disk. */
  predicate Neighbours(vol: Volume, next: Lookup, start: nat, offset: nat)
    requires vol.Valid()
  {
    var q := Quot(offset, vol.ClusterSize());
    ClusterAt(next, start, q + 1) == ClusterAt(next, start, q) + 1
  }

  lemma TakesFileByteIff(vol: Volume, next: Lookup, start: nat, offset: nat, i: nat)
    requires vol.Valid() && i < vol.ClusterSize()
    ensures TakesFileByte(vol, next, start, offset, i)
            <==> Rem(offset, vol.ClusterSize()) + i < vol.ClusterSize() || Neighbours(vol, next, start, offset)
  {
    if Rem(offset, vol.ClusterSize()) + i < vol.ClusterSize() {
      SameClusterByte(vol, next, start, offset, i);
    } else {
      var q := Quot(offset, vol.ClusterSize());
      var x, y := ClusterAt(next, start, q), ClusterAt(next, start, q + 1);
      NextClusterByte(vol, next, start, offset, i, x, y);
      ClusterPosStep(vol, x);
      ClusterPosInjective(vol, x + 1, y);
    }
  }

  /** A round of n bytes stays in its cluster, or the chain goes on with the neighbour. */
  predicate RoundFits(vol: Volume, next: Lookup, start: nat, offset: nat, n: nat)
    requires vol.Valid()
  {
    Rem(offset, vol.ClusterSize()) + n <= vol.ClusterSize() || Neighbours(vol, next, start, offset)
  }

  /** One round of a read takes the n bytes of the file wanted exactly when it fits. */
  lemma RoundIsFileIff(vol: Volume, next: Lookup, start: nat, offset: nat, n: nat)
    requires vol.Valid() && n <= vol.ClusterSize()
    ensures (forall i :: 0 <= i < n ==> TakesFileByte(vol, next, start, offset, i))
            <==> RoundFits(vol, next, start, offset, n)
  {
    forall i: nat | i < n
      ensures TakesFileByte(vol, next, start, offset, i)
              <==> Rem(offset, vol.ClusterSize()) + i < vol.ClusterSize() || Neighbours(vol, next, start, offset)
    {
      TakesFileByteIff(vol, next, start, offset, i);
    }
    if n > 0 && forall i :: 0 <= i < n ==> TakesFileByte(vol, next, start, offset, i) {
      assert TakesFileByte(vol, next, start, offset, n - 1);
    }
  }

  /** Every round of a read fits. */
  predicate RoundsFit(vol: Volume, next: Lookup, start: nat, offset: nat, total: nat)
    requires vol.Valid()
    decreases total
  {
    var m := vol.ClusterSize();
    if total <= m then RoundFits(vol, next, start, offset, total)
    else RoundFits(vol, next, start, offset, m) && RoundsFit(vol, next, start, offset + m, total - m)
  }

  ghost predicate TakesByte(vol: Volume, next: Lookup, start: nat, offset: nat, j: nat)
    requires vol.Valid()
  {
    TakenFrom(vol, next, start, offset, j) == FilePos(vol, next, start, offset + j)
  }

  ghost predicate TakesFile(vol: Volume, next: Lookup, start: nat, offset: nat, total: nat)
    requires vol.Valid()
  {
    forall j: nat :: j < total ==> TakesByte(vol, next, start, offset, j)
  }

  lemma FirstTakes(vol: Volume, next: Lookup, start: nat, offset: nat, total: nat, n: nat)
    requires vol.Valid() && n <= total && n <= vol.ClusterSize()
    ensures TakesFile(vol, next, start, offset, total) ==>
              forall i :: 0 <= i < n ==> TakesFileByte(vol, next, start, offset, i)
    ensures n == total && (forall i :: 0 <= i < n ==> TakesFileByte(vol, next, start, offset, i))
            ==> TakesFile(vol, next, start, offset, total)
  {
    forall i: nat | i < n
      ensures TakesFileByte(vol, next, start, offset, i) <==> TakesByte(vol, next, start, offset, i)
    {
    }
  }

  lemma TakesLater(vol: Volume, next: Lookup, start: nat, offset: nat, offset': nat, j: nat)
    requires vol.Valid() && offset' == offset + vol.ClusterSize()
    ensures TakesByte(vol, next, start, offset', j) <==> TakesByte(vol, next, start, offset, vol.ClusterSize() + j)
  {
    assert offset' + j == offset + (vol.ClusterSize() + j);
  }

  lemma RestTakes(vol: Volume, next: Lookup, start: nat, offset: nat, total: nat)
    requires vol.Valid() && total > vol.ClusterSize()
    ensures var m := vol.ClusterSize();
            TakesFile(vol, next, start, offset, total)
            <==> (forall i :: 0 <= i < m ==> TakesFileByte(vol, next, start, offset, i))
                 && TakesFile(vol, next, start, offset + m, total - m)
  {
    var m := vol.ClusterSize();
    var offset' := offset + m;
    FirstTakes(vol, next, start, offset, total, m);
    forall j: nat | j < total - m
      ensures TakesByte(vol, next, start, offset', j) <==> TakesByte(vol, next, start, offset, m + j)
    {
      TakesLater(vol, next, start, offset, offset', j);
    }
    forall j: nat | j < total
      ensures TakesByte(vol, next, start, offset, j)
              <==> if j < m then TakesFileByte(vol, next, start, offset, j)
                   else TakesByte(vol, next, start, offset', j - m)
    {
      if j >= m {
        TakesLater(vol, next, start, offset, offset', j - m);
      }
    }
  }

  /** A whole read, at whatever position, takes the file's bytes if and only if every round
    * stays in its cluster or the chain goes on with the neighbouring one. */
  lemma {:induction false} ReadIsFileIff(vol: Volume, next: Lookup, start: nat, offset: nat, total: nat)
    requires vol.Valid()
    ensures TakesFile(vol, next, start, offset, total) <==> RoundsFit(vol, next, start, offset, total)
    decreases total
  {
    var m := vol.ClusterSize();
    var n := if total <= m then total else m;
    RoundIsFileIff(vol, next, start, offset, n);
    FirstTakes(vol, next, start, offset, total, n);
    if total > m {
      ReadIsFileIff(vol, next, start, offset + m, total - m);
      RestTakes(vol, next, start, offset, total);
    }
  }

  /** From a cluster boundary every round fits. */
  lemma {:induction false} AlignedFits(vol: Volume, next: Lookup, start: nat, offset: nat, total: nat)
    requires vol.Valid() && Rem(offset, vol.ClusterSize()) == 0
    ensures RoundsFit(vol, next, start, offset, total)
    decreases total
  {
    if total > vol.ClusterSize() {
      NextCluster(vol, offset);
      AlignedFits(vol, next, start, offset + vol.ClusterSize(), total - vol.ClusterSize());
    }
  }

  // ----- members -----

  ghost predicate HoldsByte(disk: Disk, vol: Volume, next: Lookup, start: nat, offset: nat, n: nat, out: Bytes,
                            at: nat, j: int)
    requires vol.Valid() && at + n <= |out|
  {
    at <= j < at + n ==> out[j] == FileByte(disk, vol, next, start, offset + (j - at))
  }

  /** out holds these n bytes of the file from `at` on. */
  ghost predicate Holds(disk: Disk, vol: Volume, next: Lookup, start: nat, offset: nat, n: nat, out: Bytes, at: nat)
    requires vol.Valid()
  {
    at + n <= |out| && forall j :: HoldsByte(disk, vol, next, start, offset, n, out, at, j)
  }

  /** What was taken is the file's, if every round fits. */
  lemma ReceivedIsFile(disk: Disk, vol: Volume, next: Lookup, start: nat, offset: nat, n: nat, out: Bytes, at: nat)
    requires vol.Valid() && Received(disk, vol, next, start, offset, n, out, at)
    requires RoundsFit(vol, next, start, offset, n)
    ensures Holds(disk, vol, next, start, offset, n, out, at)
  {
    ReadIsFileIff(vol, next, start, offset, n);
    forall j
      ensures HoldsByte(disk, vol, next, start, offset, n, out, at, j)
    {
      assert ReceivedByte(disk, vol, next, start, offset, n, out, at, j);
      if at <= j < at + n {
        var i: nat := j - at;
        assert TakesByte(vol, next, start, offset, i);
      }
    }
  }

  /** Two adjacent pieces make one. */
  lemma HoldsJoin(disk: Disk, vol: Volume, next: Lookup, start: nat, offset: nat, n: nat, out: Bytes, at: nat,
                  offset': nat, n': nat, at': nat)
    requires vol.Valid() && offset' == offset + n && at' == at + n
    requires Holds(disk, vol, next, start, offset, n, out, at)
    requires Holds(disk, vol, next, start, offset', n', out, at')
    ensures Holds(disk, vol, next, start, offset, n + n', out, at)
  {
    var total := n + n';
    forall j
      ensures HoldsByte(disk, vol, next, start, offset, total, out, at, j)
    {
      assert HoldsByte(disk, vol, next, start, offset, n, out, at, j);
      assert HoldsByte(disk, vol, next, start, offset', n', out, at', j);
    }
  }

  /** Where member i starts, one size after the other. */
  function MemberOffset(pos: nat, size: nat, i: nat): (o: nat)
    ensures o >= pos
  {
    if i == 0 then pos else MemberOffset(pos, size, i - 1) + size
  }

  lemma {:induction false} MemberOffsetClosed(pos: nat, size: nat, i: nat)
    ensures MemberOffset(pos, size, i) == pos + i * size
  {
    if i > 0 {
      MemberOffsetClosed(pos, size, i - 1);
      assert i * size == (i - 1) * size + size;
    }
  }

  lemma {:induction false} MembersOrdered(pos: nat, size: nat, i: nat, n: nat)
    requires i <= n
    ensures MemberOffset(pos, size, i) <= MemberOffset(pos, size, n)
    ensures MemberOffset(pos, size, i) == pos + MemberOffset(0, size, i)
    decreases n
  {
    if i < n {
      MembersOrdered(pos, size, i, n - 1);
    } else if i > 0 {
      MembersOrdered(pos, size, i - 1, n - 1);
    }
  }

  ghost predicate StreamableMember(vol: Volume, pos: nat, size: nat, n: nat, i: int)
    requires vol.Valid()
  {
    0 <= i < n ==> Streamable(vol, MemberOffset(pos, size, i), size)
  }

  ghost predicate StreamableMembers(vol: Volume, pos: nat, size: nat, n: nat)
    requires vol.Valid()
  {
    forall i :: StreamableMember(vol, pos, size, n, i)
  }

  /** Every round of every member fits. */
  predicate MembersFit(vol: Volume, next: Lookup, start: nat, pos: nat, size: nat, n: nat)
    requires vol.Valid()
  {
    n > 0 ==>
      && MembersFit(vol, next, start, pos, size, n - 1)
      && RoundsFit(vol, next, start, MemberOffset(pos, size, n - 1), size)
  }

  ghost predicate ReceivedMember(disk: Disk, vol: Volume, next: Lookup, start: nat, pos: nat, size: nat,
                                 n: nat, out: Bytes, i: int)
    requires vol.Valid()
  {
    0 <= i < n ==> Received(disk, vol, next, start, MemberOffset(pos, size, i), size, out, MemberOffset(0, size, i))
  }

  /** out holds what a read of n members takes. */
  ghost predicate ReceivedMembers(disk: Disk, vol: Volume, next: Lookup, start: nat, pos: nat, size: nat,
                                  n: nat, out: Bytes)
    requires vol.Valid()
  {
    MemberOffset(0, size, n) <= |out| && forall i :: ReceivedMember(disk, vol, next, start, pos, size, n, out, i)
  }

  lemma ReceivedKept(disk: Disk, vol: Volume, next: Lookup, start: nat, offset: nat, n: nat, before: Bytes,
                     out: Bytes, at: nat)
    requires vol.Valid() && Received(disk, vol, next, start, offset, n, before, at) && |out| == |before|
    requires forall j :: at <= j < at + n ==> out[j] == before[j]
    ensures Received(disk, vol, next, start, offset, n, out, at)
  {
    forall j
      ensures ReceivedByte(disk, vol, next, start, offset, n, out, at, j)
    {
      assert ReceivedByte(disk, vol, next, start, offset, n, before, at, j);
    }
  }

  lemma MemberKept(disk: Disk, vol: Volume, next: Lookup, start: nat, pos: nat, size: nat, n: nat, before: Bytes,
                   out: Bytes, i: nat)
    requires vol.Valid() && ReceivedMembers(disk, vol, next, start, pos, size, n, before) && |out| == |before|
    requires forall j :: 0 <= j < MemberOffset(0, size, n) ==> out[j] == before[j]
    requires i < n
    ensures Received(disk, vol, next, start, MemberOffset(pos, size, i), size, out, MemberOffset(0, size, i))
  {
    assert ReceivedMember(disk, vol, next, start, pos, size, n, before, i);
    MembersOrdered(0, size, i + 1, n);
    ReceivedKept(disk, vol, next, start, MemberOffset(pos, size, i), size, before, out, MemberOffset(0, size, i));
  }

  /** Members taken so far stay, and one more is added. */
  lemma MembersJoin(disk: Disk, vol: Volume, next: Lookup, start: nat, pos: nat, size: nat, n: nat, n': nat,
                    before: Bytes, out: Bytes)
    requires vol.Valid() && ReceivedMembers(disk, vol, next, start, pos, size, n, before) && |out| == |before|
    requires forall j :: 0 <= j < MemberOffset(0, size, n) ==> out[j] == before[j]
    requires Received(disk, vol, next, start, MemberOffset(pos, size, n), size, out, MemberOffset(0, size, n))
    requires n' == n + 1
    ensures ReceivedMembers(disk, vol, next, start, pos, size, n', out)
  {
    forall i
      ensures ReceivedMember(disk, vol, next, start, pos, size, n', out, i)
    {
      if 0 <= i < n {
        MemberKept(disk, vol, next, start, pos, size, n, before, out, i);
      }
    }
  }

  lemma MembersFewer(disk: Disk, vol: Volume, next: Lookup, start: nat, pos: nat, size: nat, n: nat, out: Bytes)
    requires vol.Valid() && n > 0 && ReceivedMembers(disk, vol, next, start, pos, size, n, out)
    ensures ReceivedMembers(disk, vol, next, start, pos, size, n - 1, out)
    ensures Received(disk, vol, next, start, MemberOffset(pos, size, n - 1), size, out, MemberOffset(0, size, n - 1))
  {
    var last := n - 1;
    forall i
      ensures ReceivedMember(disk, vol, next, start, pos, size, last, out, i)
    {
      assert ReceivedMember(disk, vol, next, start, pos, size, n, out, i);
    }
    assert ReceivedMember(disk, vol, next, start, pos, size, n, out, last);
  }

  /** Members that all fit are a stretch of the file. */
  lemma {:induction false} MembersAreFile(disk: Disk, vol: Volume, next: Lookup, start: nat, pos: nat,
                                          size: nat, n: nat, out: Bytes)
    requires vol.Valid() && ReceivedMembers(disk, vol, next, start, pos, size, n, out)
    requires MembersFit(vol, next, start, pos, size, n)
    ensures Holds(disk, vol, next, start, pos, MemberOffset(0, size, n), out, 0)
    decreases n
  {
    if n > 0 {
      MembersFewer(disk, vol, next, start, pos, size, n, out);
      MembersAreFile(disk, vol, next, start, pos, size, n - 1, out);
      var offset, at := MemberOffset(pos, size, n - 1), MemberOffset(0, size, n - 1);
      MembersOrdered(pos, size, n - 1, n - 1);
      ReceivedIsFile(disk, vol, next, start, offset, size, out, at);
      HoldsJoin(disk, vol, next, start, pos, at, out, 0, offset, size, at);
    }
  }

  /** The chain reaches what the last of n members needs. */
  ghost predicate Reaches(vol: Volume, next: Lookup, start: nat, pos: nat, size: nat, n: nat)
    requires vol.Valid()
  {
    n > 0 ==> ClusterAt(next, start, LastRound(vol, MemberOffset(pos, size, n - 1), size)) >= 0
  }

  lemma {:induction false} QuotMonotone(x: nat, y: nat, m: nat)
    requires x <= y && m > 0
    ensures Quot(x, m) <= Quot(y, m)
    decreases y
  {
    if x >= m {
      QuotMonotone(x - m, y - m, m);
    }
  }

  lemma ReachesLess(vol: Volume, next: Lookup, start: nat, pos: nat, size: nat, i: nat, n: nat)
    requires vol.Valid() && i <= n && Reaches(vol, next, start, pos, size, n)
    ensures Reaches(vol, next, start, pos, size, i)
  {
    if 0 < i {
      MembersOrdered(pos, size, i - 1, n - 1);
      QuotMonotone(MemberOffset(pos, size, i - 1), MemberOffset(pos, size, n - 1), vol.ClusterSize());
      if !Reaches(vol, next, start, pos, size, i) {
        WalkFailsOn(next, start, LastRound(vol, MemberOffset(pos, size, i - 1), size),
                    LastRound(vol, MemberOffset(pos, size, n - 1), size));
      }
    }
  }

  /** What one member's read says about the members so far, or about them all. */
  lemma MemberOutcome(vol: Volume, next: Lookup, start: nat, pos: nat, size: nat, i: nat, n: nat)
    requires vol.Valid() && i < n
    ensures var c := ClusterAt(next, start, LastRound(vol, MemberOffset(pos, size, i), size));
            (c >= 0 ==> Reaches(vol, next, start, pos, size, i + 1))
            && (c < 0 ==> !Reaches(vol, next, start, pos, size, n))
    ensures MemberOffset(pos, size, i) == pos + MemberOffset(0, size, i)
    ensures MemberOffset(0, size, i) + size == MemberOffset(0, size, i + 1) <= MemberOffset(0, size, n)
    ensures MemberOffset(pos, size, i) + size == MemberOffset(pos, size, i + 1) <= MemberOffset(pos, size, n)
  {
    MembersOrdered(pos, size, i, i);
    MembersOrdered(pos, size, i + 1, n);
    MembersOrdered(0, size, i + 1, n);
    if Reaches(vol, next, start, pos, size, n) {
      ReachesLess(vol, next, start, pos, size, i + 1, n);
    }
  }

  lemma MulAssoc(a: int, b: int, c: int)
    ensures a * (b * c) == (a * b) * c
  {
  }

  lemma WholeClusters(vol: Volume, size: nat, i: nat)
    requires vol.Valid() && Rem(size, vol.ClusterSize()) == 0
    ensures Rem(MemberOffset(0, size, i), vol.ClusterSize()) == 0
  {
    var m := vol.ClusterSize();
    MemberOffsetClosed(0, size, i);
    QuotRem(size, m);
    MulAssoc(i, Quot(size, m), m);
    QuotUnique(i * size, m, i * Quot(size, m), 0);
  }

  /** From the start of a file, one member of any size, or members of whole clusters, can be
    * read and always fit. */
  lemma {:induction false} MembersFitWhen(vol: Volume, next: Lookup, start: nat, size: nat, n: nat)
    requires vol.Valid() && (n <= 1 || Rem(size, vol.ClusterSize()) == 0)
    ensures StreamableMembers(vol, 0, size, n) && MembersFit(vol, next, start, 0, size, n)
    decreases n
  {
    forall i
      ensures StreamableMember(vol, 0, size, n, i)
    {
      if 0 < i < n {
        WholeClusters(vol, size, i);
      }
    }
    if n > 0 {
      MembersFitWhen(vol, next, start, size, n - 1);
      if n > 1 {
        WholeClusters(vol, size, n - 1);
      }
      AlignedFits(vol, next, start, MemberOffset(0, size, n - 1), size);
    }
  }

  lemma TwoMembersFit(vol: Volume, next: Lookup, start: nat, pos: nat, size: nat)
    requires vol.Valid()
    ensures MembersFit(vol, next, start, pos, size, 2)
            <==> RoundsFit(vol, next, start, pos, size) && RoundsFit(vol, next, start, pos + size, size)
  {
    assert MemberOffset(pos, size, 1) == MemberOffset(pos, size, 0) + size;
    assert MembersFit(vol, next, start, pos, size, 1) <==> RoundsFit(vol, next, start, pos, size);
  }

  lemma SmallQuot(m: nat)
    requires m == 1024
    ensures Quot(0, m) == 0 && Rem(0, m) == 0
    ensures Quot(1536, m) == 1 && Rem(1536, m) == 512
    ensures Quot(2048, m) == 2 && Rem(2048, m) == 0
    ensures Quot(2560, m) == 2 && Rem(2560, m) == 512
  {
    QuotUnique(1536, m, 1, 512);
    QuotUnique(2048, m, 2, 0);
    QuotUnique(2560, m, 2, 512);
  }

  /** An instance: two members of 1536 bytes on a volume with clusters of two sectors. The
    * second one starts inside the file's second cluster, and its first round takes bytes
    * 2048 to 2559 of the file from the neighbour of that cluster on the disk, wherever the
    * chain goes: the members are the file if and only if it goes there. */
  lemma UnalignedMembers(vol: Volume, next: Lookup, start: nat, i: nat)
    requires vol.Valid() && vol.sectorsPerCluster == 2 && i < 512
    ensures StreamableMembers(vol, 0, 1536, 2)
    ensures MembersFit(vol, next, start, 0, 1536, 2) <==> ClusterAt(next, start, 2) == ClusterAt(next, start, 1) + 1
    ensures TakenFrom(vol, next, start, 1536, 512 + i) == vol.ClusterPos(ClusterAt(next, start, 1) + 1) + i
    ensures FilePos(vol, next, start, 2048 + i) == vol.ClusterPos(ClusterAt(next, start, 2)) + i
  {
    var m := vol.ClusterSize();
    SmallQuot(m);
    ClusterPosStep(vol, ClusterAt(next, start, 1));
    TwoMembersFit(vol, next, start, 0, 1536);
    AlignedFits(vol, next, start, 0, 1536);
    assert RoundsFit(vol, next, start, 2560, 512);
    assert MemberOffset(0, 1536, 1) == MemberOffset(0, 1536, 0) + 1536;
    FilePosAt(vol, next, start, 2048 + i, 2, i);
    forall i
      ensures StreamableMember(vol, 0, 1536, 2, i)
    {
      if 0 <= i < 2 {
        assert i == 0 || i == 1;
      }
    }
  }

  /** fat16_get_first_cluster: the high half is or-ed in without a shift. */
  function FirstCluster(high: uint16, low: uint16): nat {
    BitOr(high, low)
  }

  /** It has the bits of both halves, and is the cluster the directory item names if and only if
    * the high half is zero. */
  lemma FirstClusterIff(high: uint16, low: uint16)
    ensures forall k :: Bit(FirstCluster(high, low), k) <==> Bit(high, k) || Bit(low, k)
    ensures FirstCluster(high, low) == high * 0x1_0000 + low <==> high == 0
    ensures high == 0 ==> FirstCluster(high, low) == low
  {
    forall k
      ensures Bit(FirstCluster(high, low), k) <==> Bit(high, k) || Bit(low, k)
    {
      BitOrBits(high, low, k);
    }
    BitOrZeroLeft(low);
    Pow2Of16();
    BitOrBound(high, low, 16);
  }

  /** What a read from position 0 leaves in `out` is a prefix of the file's
    * clusters concatenated. */
  lemma HoldsIsPrefix(disk: Disk, vol: Volume, next: Lookup, start: nat, n: nat, out: Bytes, k: nat)
    requires vol.Valid() && n <= k * vol.ClusterSize() && Holds(disk, vol, next, start, 0, n, out, 0)
    ensures out[..n] == Contents(disk, vol, next, start, k)[..n]
  {
    forall p | 0 <= p < n
      ensures out[p] == Contents(disk, vol, next, start, k)[p]
    {
      assert HoldsByte(disk, vol, next, start, 0, n, out, 0, p);
      ContentsByte(disk, vol, next, start, k, p);
    }
  }
}
