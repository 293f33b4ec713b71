/** fat16.c, the read path as the driver runs it: FAT lookups, chain walks and
  * recursive cluster reads over disk streams.
  */
module Fat16 {
  import opened Machine
  import opened Streamer
  import opened FatVolume

  const MAX_INT := 0x7FFF_FFFF

  class FileSystem {
    const disk: Disk
    const vol: Volume
    ghost const next: Lookup      // the FAT, as a function
    const clusterStream: DiskStream
    const fatStream: DiskStream

    ghost predicate Valid() {
      && vol.Valid() && clusterStream != fatStream
      && clusterStream.disk == disk && fatStream.disk == disk
      && forall c :: LooksUp(disk, vol, next, c)
    }

    constructor (disk: Disk, vol: Volume)
      requires vol.Valid()
      ensures Valid() && this.disk == disk && this.vol == vol && fresh(clusterStream) && fresh(fatStream)
    {
      this.disk := disk;
      this.vol := vol;
      this.next := c => NextEntry(disk, vol, c);
      clusterStream := new DiskStream(disk);
      fatStream := new DiskStream(disk);
    }

    /** fat16_get_fat_entry */
    method GetFatEntry(cluster: nat) returns (res: int)
      requires Valid()
      modifies fatStream`pos
      ensures res == NextEntry(disk, vol, cluster) == next(cluster)
    {
      assert LooksUp(disk, vol, next, cluster);
      FatEntryAligned(vol, cluster);
      var fatTablePosition := U32(vol.reserved * FREE95_SECTOR_SIZE);
      res := fatStream.Seek(I32(fatTablePosition * (cluster * 2)));
      StaysInBufferIff(fatStream.pos, 2);
      var result := new uint8[2](i => 0);
      res := fatStream.Read(result, 0, 2);
      res := Read16(result, 0);
    }

    /** fat16_get_cluster_for_offset */
    method GetClusterForOffset(startingCluster: nat, offset: nat) returns (res: int)
      requires Valid()
      modifies fatStream`pos
      ensures res == ClusterForOffset(vol, next, startingCluster, offset)
    {
      QuotIsDiv(offset, vol.ClusterSize());
      var clustersAhead := offset / vol.ClusterSize();
      res := WalkChain(startingCluster, clustersAhead);
    }

    /** Its loop. */
    method WalkChain(startingCluster: nat, clustersAhead: nat) returns (res: int)
      requires Valid()
      modifies fatStream`pos
      ensures res == ClusterAt(next, startingCluster, clustersAhead)
    {
      var clusterToUse: int := startingCluster;
      var i := 0;
      while i < clustersAhead
        invariant 0 <= i <= clustersAhead
        invariant clusterToUse >= 0 && clusterToUse == ClusterAt(next, startingCluster, i)
      {
        var entry := GetFatEntry(clusterToUse);
        WalkStep(next, startingCluster, i, clusterToUse, clustersAhead);
        if entry == 0xFF8 || entry == 0xFFF {
          return -EIO;
        }
        if entry == 0xFF7 {
          return -EIO;
        }
        if entry == 0xFF0 || entry == 0xFF6 {
          return -EIO;
        }
        if entry == 0x00 {
          return -EIO;
        }
        clusterToUse := entry;
        i := i + 1;
      }
      res := clusterToUse;
    }

    /** One cluster's share of a read: seek, then stream. */
    method ReadFromCluster(cluster: nat, clusterToUse: nat, offset: nat, n: nat, out: array<uint8>, at: nat)
      returns (res: int)
      requires Valid() && clusterToUse == ClusterForOffset(vol, next, cluster, offset)
      requires StaysInBuffer(vol.ClusterPos(clusterToUse) + Rem(offset, vol.ClusterSize()), n)
      requires n <= vol.ClusterSize() && at + n <= out.Length
      modifies clusterStream`pos, out
      ensures res == FREE95_ALL_OK && Received(disk, vol, next, cluster, offset, n, out[..], at)
      ensures forall j :: 0 <= j < out.Length && !(at <= j < at + n) ==> out[j] == old(out[j])
    {
      QuotIsDiv(offset, vol.ClusterSize());
      var offsetFromCluster := offset % vol.ClusterSize();
      var startingSector := vol.ClusterSector(clusterToUse);
      var startingPos := startingSector * FREE95_SECTOR_SIZE + offsetFromCluster;
      res := clusterStream.Seek(startingPos);
      res := clusterStream.Read(out, at, n);
      forall j
        ensures ReceivedByte(disk, vol, next, cluster, offset, n, out[..], at, j)
      {
      }
    }

    /** One round: find the cluster of the first byte, then read. */
    method ReadFirst(cluster: nat, offset: nat, total: nat, out: array<uint8>, at: nat)
      returns (res: int, n: nat)
      requires Valid() && Streamable(vol, offset, total) && at + total <= out.Length
      modifies clusterStream`pos, fatStream`pos, out
      ensures n == if total > vol.ClusterSize() then vol.ClusterSize() else total
      ensures res == FREE95_ALL_OK || res == -EIO
      ensures res != FREE95_ALL_OK ==> ClusterAt(next, cluster, LastRound(vol, offset, total)) < 0
      ensures res == FREE95_ALL_OK && total == n ==> ClusterAt(next, cluster, LastRound(vol, offset, total)) >= 0
      ensures res == FREE95_ALL_OK ==> Received(disk, vol, next, cluster, offset, n, out[..], at)
      ensures forall j :: 0 <= j < out.Length && !(at <= j < at + n) ==> out[j] == old(out[j])
    {
      n := if total > vol.ClusterSize() then vol.ClusterSize() else total;
      var clusterToUse := GetClusterForOffset(cluster, offset);
      FirstRoundNeeded(vol, offset, total);
      if clusterToUse < 0 {
        WalkFailsOn(next, cluster, Quot(offset, vol.ClusterSize()), LastRound(vol, offset, total));
        return clusterToUse, n;
      }
      RoundStays(vol, offset, total, n, clusterToUse);
      res := ReadFromCluster(cluster, clusterToUse, offset, n, out, at);
    }

    /** fat16_read_internal_from_stream: every round walks the chain again from
      * the file's first cluster. It succeeds exactly when the chain reaches the
      * last round's cluster. */
    method ReadInternalFromStream(cluster: nat, offset: nat, total: nat, out: array<uint8>, at: nat)
      returns (res: int)
      requires Valid() && Streamable(vol, offset, total) && at + total <= out.Length
      requires offset + total <= MAX_INT
      modifies clusterStream`pos, fatStream`pos, out
      ensures res == if ClusterAt(next, cluster, LastRound(vol, offset, total)) >= 0 then FREE95_ALL_OK else -EIO
      ensures res == FREE95_ALL_OK ==> Received(disk, vol, next, cluster, offset, total, out[..], at)
      ensures forall j :: 0 <= j < out.Length && !(at <= j < at + total) ==> out[j] == old(out[j])
      decreases total
    {
      var n;
      res, n := ReadFirst(cluster, offset, total, out, at);
      if res != FREE95_ALL_OK {
        return;
      }
      if total - n > 0 {
        NextRound(vol, offset, total);
        ghost var first := out[..];
        res := ReadInternalFromStream(cluster, offset + n, total - n, out, at + n);
        if res == FREE95_ALL_OK {
          ReceivedJoin(disk, vol, next, cluster, offset, n, first, at, offset + n, total - n, out[..], at + n);
        }
      }
    }
  }

  /** fat16_read: nmemb members of `size` bytes from `pos` on. It answers nmemb,
    * with what the rounds of all of them take in `out`, exactly when the chain is long
    * enough for the last member; otherwise it answers -EIO. */
  method ReadMembers(fs: FileSystem, start: nat, pos: nat, size: nat, nmemb: nat, out: array<uint8>)
    returns (res: int)
    requires fs.Valid() && MemberOffset(0, size, nmemb) <= out.Length
    requires StreamableMembers(fs.vol, pos, size, nmemb)
    requires MemberOffset(pos, size, nmemb) <= MAX_INT && nmemb <= MAX_INT
    modifies fs.clusterStream`pos, fs.fatStream`pos, out
    ensures res == if Reaches(fs.vol, fs.next, start, pos, size, nmemb) then nmemb else -EIO
    ensures res == nmemb ==> ReceivedMembers(fs.disk, fs.vol, fs.next, start, pos, size, nmemb, out[..])
    ensures forall j :: MemberOffset(0, size, nmemb) <= j < out.Length ==> out[j] == old(out[j])
  {
    var i, at, offset := 0, 0, pos;
    while i < nmemb
      invariant i <= nmemb && at == MemberOffset(0, size, i) && offset == MemberOffset(pos, size, i)
      invariant Reaches(fs.vol, fs.next, start, pos, size, i)
      invariant at <= out.Length && ReceivedMembers(fs.disk, fs.vol, fs.next, start, pos, size, i, out[..])
      invariant forall j :: MemberOffset(0, size, nmemb) <= j < out.Length ==> out[j] == old(out[j])
    {
      assert StreamableMember(fs.vol, pos, size, nmemb, i);
      MemberOutcome(fs.vol, fs.next, start, pos, size, i, nmemb);
      ghost var before := out[..];
      res := fs.ReadInternalFromStream(start, offset, size, out, at);
      if res < 0 {
        return;
      }
      MembersJoin(fs.disk, fs.vol, fs.next, start, pos, size, i, i + 1, before, out[..]);
      at := at + size;
      offset := offset + size;
      i := i + 1;
    }
    res := nmemb;
  }

  /** fat16_read of a file just opened. If every round of every member fits, which holds for
    * one member of any size and for members of whole clusters, `out` receives the first
    * size * nmemb bytes of the file's clusters concatenated. */
  method Read(fs: FileSystem, high: uint16, low: uint16, size: nat, nmemb: nat, out: array<uint8>)
    returns (res: int)
    requires fs.Valid() && MemberOffset(0, size, nmemb) <= out.Length
    requires StreamableMembers(fs.vol, 0, size, nmemb)
    requires MemberOffset(0, size, nmemb) <= MAX_INT && nmemb <= MAX_INT
    modifies fs.clusterStream`pos, fs.fatStream`pos, out
    ensures res == if Reaches(fs.vol, fs.next, FirstCluster(high, low), 0, size, nmemb) then nmemb else -EIO
    ensures nmemb <= 1 || Rem(size, fs.vol.ClusterSize()) == 0 ==>
              MembersFit(fs.vol, fs.next, FirstCluster(high, low), 0, size, nmemb)
    ensures res == nmemb && MembersFit(fs.vol, fs.next, FirstCluster(high, low), 0, size, nmemb) ==>
              forall k: nat :: MemberOffset(0, size, nmemb) <= k * fs.vol.ClusterSize() ==>
                var n := MemberOffset(0, size, nmemb);
                out[..n] == Contents(fs.disk, fs.vol, fs.next, FirstCluster(high, low), k)[..n]
  {
    ghost var start, n := FirstCluster(high, low), MemberOffset(0, size, nmemb);
    if nmemb <= 1 || Rem(size, fs.vol.ClusterSize()) == 0 {
      MembersFitWhen(fs.vol, fs.next, start, size, nmemb);
    }
    res := ReadMembers(fs, FirstCluster(high, low), 0, size, nmemb, out);
    if res == nmemb && MembersFit(fs.vol, fs.next, start, 0, size, nmemb) {
      MembersAreFile(fs.disk, fs.vol, fs.next, start, 0, size, nmemb, out[..]);
      forall k: nat | n <= k * fs.vol.ClusterSize()
        ensures out[..n] == Contents(fs.disk, fs.vol, fs.next, start, k)[..n]
      {
        HoldsIsPrefix(fs.disk, fs.vol, fs.next, start, n, out[..], k);
      }
    }
  }
}
