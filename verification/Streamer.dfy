/** streamer.c: byte streams over a disk that is read sector by sector.
  */
module Streamer {
  import opened Machine

  const FREE95_SECTOR_SIZE := 512

  type Sector = s: Bytes | |s| == FREE95_SECTOR_SIZE witness seq(512, i => 0)

  /** The disk, by sector number as the driver is handed it. Reads never fail. */
  type Disk = int -> Sector

  /** The byte at a position of the disk image. */
  function ByteAt(disk: Disk, p: int): uint8 {
    disk(p / FREE95_SECTOR_SIZE)[p % FREE95_SECTOR_SIZE]
  }

  /** The image is the sectors one after the other. */
  lemma ByteOfSector(disk: Disk, sector: int, i: nat)
    requires i < FREE95_SECTOR_SIZE
    ensures ByteAt(disk, sector * 512 + i) == disk(sector)[i]
  {
    assert (sector * 512 + i) / 512 == sector && (sector * 512 + i) % 512 == i;
  }

  /** The n bytes of the image from p on. */
  function Slice(disk: Disk, p: int, n: nat): (s: Bytes)
    ensures |s| == n
    ensures forall i :: 0 <= i < n ==> s[i] == ByteAt(disk, p + i)
  {
    seq<uint8>(n, i => ByteAt(disk, p + i))
  }

  /** The remainder of C: it has the sign of the dividend. */
  function CRemainder(x: int, m: nat): int
    requires m > 0
  {
    if x >= 0 then x % m else -(-x % m)
  }

  function CQuotient(x: int, m: nat): int
    requires m > 0
  {
    if x >= 0 then x / m else -(-x / m)
  }

  /** Every copy that a read makes stays inside its 512-byte sector buffer. */
  predicate StaysInBuffer(pos: int, total: int)
    decreases total
  {
    && (total > 0 ==>
          var offset := CRemainder(pos, FREE95_SECTOR_SIZE);
          0 <= offset && offset + (if total > FREE95_SECTOR_SIZE then FREE95_SECTOR_SIZE else total)
                         <= FREE95_SECTOR_SIZE)
    && (total > FREE95_SECTOR_SIZE ==> StaysInBuffer(pos + FREE95_SECTOR_SIZE, total - FREE95_SECTOR_SIZE))
  }

  /** Exactly the reads that are sector-aligned or do not leave their sector do. */
  lemma {:induction false} StaysInBufferIff(pos: int, total: int)
    ensures StaysInBuffer(pos, total)
            <==> total <= 0 || pos % FREE95_SECTOR_SIZE == 0
                 || (pos >= 0 && pos % FREE95_SECTOR_SIZE + total <= FREE95_SECTOR_SIZE)
    decreases total
  {
    if total > FREE95_SECTOR_SIZE {
      StaysInBufferIff(pos + FREE95_SECTOR_SIZE, total - FREE95_SECTOR_SIZE);
    }
  }

  /** Positions that share a sector buffer. */
  lemma SameSector(p: int, i: nat)
    requires 0 <= CRemainder(p, FREE95_SECTOR_SIZE) && CRemainder(p, FREE95_SECTOR_SIZE) + i < FREE95_SECTOR_SIZE
    ensures (p + i) / FREE95_SECTOR_SIZE == CQuotient(p, FREE95_SECTOR_SIZE)
    ensures (p + i) % FREE95_SECTOR_SIZE == CRemainder(p, FREE95_SECTOR_SIZE) + i
  {
  }

  class DiskStream {
    const disk: Disk
    var pos: int

    /** diskstreamer_new */
    constructor (disk: Disk)
      ensures pos == 0 && this.disk == disk
    {
      this.pos := 0;
      this.disk := disk;
    }

    /** diskstreamer_seek */
    method Seek(pos: int) returns (res: int)
      modifies this`pos
      ensures this.pos == pos && res == FREE95_ALL_OK
    {
      this.pos := pos;
      res := FREE95_ALL_OK;
    }

    /** diskstreamer_read: `out` receives exactly the image bytes from the
      * stream's position on, and the position moves past them. */
    method Read(out: array<uint8>, at: nat, total: int) returns (res: int)
      requires StaysInBuffer(pos, total)
      requires at + total <= out.Length && at <= out.Length
      modifies this`pos, out
      ensures res == FREE95_ALL_OK && pos == old(pos) + total
      ensures forall j :: at <= j < at + total ==> out[j] == ByteAt(disk, old(pos) + (j - at))
      ensures forall j :: 0 <= j < out.Length && !(at <= j < at + total) ==> out[j] == old(out[j])
      decreases total
    {
      StaysInBufferIff(pos, total);
      ghost var start := pos;
      var sector := CQuotient(pos, FREE95_SECTOR_SIZE);
      var offset := CRemainder(pos, FREE95_SECTOR_SIZE);
      var buf: Bytes := disk(sector);
      res := FREE95_ALL_OK;
      var totalToRead := if total > FREE95_SECTOR_SIZE then FREE95_SECTOR_SIZE else total;
      var i := 0;
      while i < totalToRead
        invariant 0 <= i && (i == 0 || i <= totalToRead) && at + i <= out.Length && pos == start
        invariant forall j :: at <= j < at + i ==> out[j] == ByteAt(disk, start + (j - at))
        invariant forall j :: 0 <= j < out.Length && !(at <= j < at + i) ==> out[j] == old(out[j])
      {
        SameSector(start, i);
        out[at + i] := buf[offset + i];
        i := i + 1;
      }
      pos := pos + totalToRead;
      if total > FREE95_SECTOR_SIZE {
        res := Read(out, at + totalToRead, total - FREE95_SECTOR_SIZE);
      }
    }
  }
}
