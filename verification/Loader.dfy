/** loader.c: loading a PE image into memory. The load buffer is an array; `base`
  * is the address its first byte has.
  */
module Loader {
  import opened Machine
  import opened PeImage
  import opened RelocDirectory

  /** memcpy, from a file's bytes into the buffer. */
  method Memcpy(mem: array<uint8>, dest: nat, file: Bytes, src: nat, len: nat)
    requires dest + len <= mem.Length && src + len <= |file|
    modifies mem
    ensures forall j :: 0 <= j < mem.Length ==>
              mem[j] == if dest <= j < dest + len then file[src + (j - dest)] else old(mem[j])
  {
    var n := 0;
    while n < len
      invariant n <= len
      invariant forall j :: 0 <= j < mem.Length ==>
        mem[j] == if dest <= j < dest + n then file[src + (j - dest)] else old(mem[j])
    {
      mem[dest + n] := file[src + n];
      n := n + 1;
    }
  }

  /** LdrCpySections */
  method CopyAllSections(mem: array<uint8>, file: Bytes, secs: seq<Section>)
    requires SectionsFit(mem[..], file, secs)
    modifies mem
    ensures mem[..] == Buffer(old(mem[..]), file, secs)
  {
    ghost var before := mem[..];
    for i := 0 to |secs|
      invariant mem[..] == CopySections(before, file, secs, i)
    {
      var s := secs[i];
      assert s.Fits(before, file);
      ghost var m := mem[..];
      Memcpy(mem, s.virtualAddress, file, s.pointerToRawData, s.sizeOfRawData);
      IsCopy(m, mem[..], file, s);
    }
  }

  /** The switch of LdrRelocMemory, for one entry. */
  method RelocEntry(mem: array<uint8>, address: uint32, entry: uint16, delta: uint32)
    requires InImage(mem[..], EntrySites(address, entry))
    modifies mem
    ensures mem[..] == RelocateAll(old(mem[..]), EntrySites(address, entry), delta)
  {
    ghost var sites := EntrySites(address, entry);
    assert sites != [] ==> sites[0].at + sites[0].Width() <= mem.Length && sites[1..] == [];
    var at := address + entry % 0x1000;
    var kind := entry / 0x1000;
    GetIsLoad(mem[..], at);
    if kind == IMAGE_REL_BASED_HIGH {
      var w := Read16(mem, at);
      PutIsStore16(mem[..], at, (w + delta / 0x1_0000) % 0x1_0000);
      Write16(mem, at, (w + delta / 0x1_0000) % 0x1_0000);
    } else if kind == IMAGE_REL_BASED_LOW {
      var w := Read16(mem, at);
      PutIsStore16(mem[..], at, (w + delta % 0x1_0000) % 0x1_0000);
      Write16(mem, at, (w + delta % 0x1_0000) % 0x1_0000);
    } else if kind == IMAGE_REL_BASED_HIGHLOW {
      var w := Read32(mem, at);
      PutIsStore32(mem[..], at, U32(w + delta));
      Write32(mem, at, U32(w + delta));
    } else if kind == IMAGE_REL_BASED_DIR32 {
      var w := Read32(mem, at);
      PutIsStore32(mem[..], at, U32(w + delta));
      Write32(mem, at, U32(w + delta));
    }
  }

  /** The inner loop of LdrRelocMemory. The block's header and entries are read
    * from the memory being relocated, which in [lo, hi) still is the original. */
  method RelocBlock(mem: array<uint8>, p: nat, delta: uint32,
                    ghost orig: Bytes, ghost m: Bytes, ghost lo: nat, ghost hi: nat)
    requires m == mem[..] && BlockReady(orig, m, p, lo, hi)
    modifies mem
    ensures BlockDone(orig, m, mem[..], p, delta)
  {
    ghost var count := EntryCount(orig, p);
    AtFirstEntry(orig, m, p, delta, lo, hi);
    var n := (BlockSize(mem[..], p) - SIZEOF_RELOCATION) / 2;
    var i := 0;
    while i < n
      invariant 0 <= i <= n == count
      invariant AtEntry(orig, m, mem[..], p, i, delta, lo, hi)
    {
      ghost var now := mem[..];
      AtEntryReady(orig, m, now, p, i, delta, lo, hi);
      var address := BlockAddress(mem[..], p);
      var entry := Entry(mem[..], p, i);
      RelocEntry(mem, address, entry, delta);
      AtEntryAfter(orig, m, now, mem[..], p, i, delta, lo, hi, EntrySites(address, entry));
      i := i + 1;
    }
    AtLastEntry(orig, m, mem[..], p, delta, lo, hi);
  }

  /** The block at p is relocated; the next one is behind it. */
  method RelocNext(mem: array<uint8>, p: nat, delta: uint32, ghost m: Bytes, ghost dir: nat, ghost hi: nat)
    returns (p': nat)
    requires AtBlock(m, dir, mem[..], p, delta) && BlockAddress(m, p) != 0 && hi == DirectoryEnd(m, dir)
    modifies mem
    ensures p < p' < hi && AtBlock(m, dir, mem[..], p', delta)
  {
    ghost var now := mem[..];
    AtBlockReady(m, dir, now, p, hi, delta);
    RelocBlock(mem, p, delta, m, now, dir, hi);
    ghost var done := mem[..];
    AtBlockSize(m, dir, now, done, p, delta);
    p' := p + BlockSize(mem[..], p);
    AtBlockAfter(m, dir, now, done, p, p', delta);
  }

  /** The loop of LdrRelocMemory. */
  method RelocBlocks(mem: array<uint8>, dir: nat, relocOffset: uint32)
    requires Relocatable(mem[..], dir)
    modifies mem
    ensures mem[..] == Relocated(old(mem[..]), dir, relocOffset)
  {
    ghost var m, hi := mem[..], DirectoryEnd(mem[..], dir);
    var p: nat := dir;
    AtFirstBlock(m, dir, relocOffset);
    AtBlockHeader(m, dir, m, p, relocOffset);
    while BlockAddress(mem[..], p) != 0
      invariant p + 4 <= mem.Length && BlockAddress(mem[..], p) == BlockAddress(m, p)
      invariant AtBlock(m, dir, mem[..], p, relocOffset)
      decreases hi - p
    {
      p := RelocNext(mem, p, relocOffset, m, dir, hi);
      AtBlockHeader(m, dir, mem[..], p, relocOffset);
    }
    AtBlockEnd(m, dir, mem[..], p, relocOffset);
  }

  /** LdrRelocMemory: on an image with a well-formed directory whose sites do not
    * lie in the directory, it terminates, having relocated every site once, in
    * directory order: if the sites do not overlap, the value at each has moved by
    * base - imageBase. */
  method RelocMemory(mem: array<uint8>, base: uint32, imageBase: uint32, dir: nat)
    requires Relocatable(mem[..], dir)
    modifies mem
    ensures mem[..] == Relocated(old(mem[..]), dir, U32(base - imageBase))
    ensures Moved(old(mem[..]), mem[..], dir, base - imageBase)
  {
    ghost var m := mem[..];
    RelocBlocks(mem, dir, U32(base - imageBase));
    RelocatedMoves(m, mem[..], dir, base - imageBase);
  }

  /** LdrLoadPe from the section copies on. */
  method Load(mem: array<uint8>, file: Bytes, secs: seq<Section>, dir: nat, base: uint32, imageBase: uint32)
    requires SectionsFit(mem[..], file, secs) && Relocatable(Buffer(mem[..], file, secs), dir)
    modifies mem
    ensures mem[..] == LoadAt(old(mem[..]), file, secs, dir, imageBase, base)
    ensures Moved(Buffer(old(mem[..]), file, secs), mem[..], dir, base - imageBase)
  {
    CopyAllSections(mem, file, secs);
    RelocMemory(mem, base, imageBase, dir);
  }
}
