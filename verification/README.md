# Free95 kernel model

Free95 is a small i386 kernel written in C. This project models the parts of it that manage
memory, read files, load programs and handle text, in Dafny, and proves what they do over all
inputs and all runs. Check it with `dafny verify dfyconfig.toml`.

The machine is the one the kernel runs on: integers have the width the C code gives them and wrap
where it lets them wrap (`Machine`), memory is a sequence of bytes with little-endian fields, and
the disk is an immutable sequence of sectors whose reads never fail. Code that works in place is
modelled in place: classes for the heap, disk streams, the file system, the static cursor of
`strtok`, the terminal and the task list; arrays for the block table, the memory pool, load buffers
and strings. Every such method is proved against a specification function, and the properties of
that function are separate lemmas.

| modules | what they cover |
|---|---|
| `BlockHeap`, `KernelHeap` | the first-fit allocator over a byte table with chain bits; kmalloc, kzalloc, kfree over a memory pool |
| `Paging`, `AddressSpaces` | two-level page tables kept in heap blocks, read as a flat map from pages to entries (Intel SDM volume 3A, section 4.3) |
| `Paths`, `PathParser` | what a path means; the linked list the parser builds in heap memory |
| `Streamer`, `FatVolume`, `Fat16` | disk streams; cluster chains and file contents; the driver's reads (Microsoft FAT specification 1.03) |
| `PeImage`, `RelocDirectory`, `Loader` | section copies and base relocation (Microsoft PE Format, section "The .reloc Section (Image Only)") |
| `Strings`, `Tokenizer`, `StrTok`, `BatchScript` | tokens of a string; whole runs of strtok; the line loop for batch scripts |
| `Page`, `Screen`, `Terminal` | the terminal as a window on a page that never scrolls |
| `TaskLinks`, `TaskMemory`, `TaskOwnership`, `TaskLedger`, `TaskSetup`, `Tasks`, `TaskLeak` | the doubly linked task list, its structures in heap memory, what tasks own, creating and freeing them, a run that loses memory |
| `Decimal`, `ScreenSize` | printing a number and reading a screen size back |

## Main results

- Every run of the allocator keeps the table the exact encoding of the live runs, and releasing
  them in any order gives the all-free table (`EveryRunEncodes`, `ReleaseAnyOrder`).
- An address space is the identity map when it is new (`New4gb`, `DirectoryEntry`; for a task
  `TaskList.New`), walks like a flat map after any run of updates (`NewThenRun`), and building,
  using and freeing one leaves the block table byte for byte as it was (`LifeCycle`).
- Path parsing leaks nothing (`ParseThenFree`), and parser and printer undo each other
  (`ParsePrint`, and `PrintParse` with the exact condition).
- A file read returns the clusters of the chain concatenated (`Fat16.Read`), although each round
  walks the chain again. The chain is the one the code looks up, which is not the one the FAT
  specification means (see below). At any position a read returns the file's bytes if and only if
  its rounds fit their clusters (`ReadIsFileIff`).
- Relocation moves the value at each site by the distance between the bases and changes nothing
  else (`RelocMemory`, `SitesMoved`), and images loaded at different bases differ by exactly that,
  but for a carry at HIGH sites (`LoadsDiffer`).
- Repeated strtok calls return the maximal delimiter-free pieces in order, then NULL for ever
  (`CallReturns`, `TokensAreMaximal`, `OnlyDelimitersCut`).
- The screen is the last window of the unscrolled text, and each character still on it is seen at
  its own place (`TextTerminal.Print`, `OnScreen`, `PrintedText`).
- The task ring visits every task once (`RoundVisitsAll`), and any run of creations and removals
  keeps it so if and only if every removal mends the list, by a condition on the task's prev
  (`RunLinkedIff`).
- Creating a task and freeing it leaves nothing behind (`NewThenFree`), and an empty task list,
  after any run whose removals keep the books, means that everything was given back (`NoneLeft`);
  other clients may use the heap meanwhile (`ClientActed`). A removal keeps the books if and only
  if the prev of the removed task meets a condition (`BalancedFreed`); a run with one that does not
  keep them loses a block for good (`LeakRun`).

## Where the code does less than its names and comments say

The model keeps the code as it is. Each case has a lemma or contract with the exact condition.

- `heap_get_start_block` tests only `bs == -1`, so with no fitting run and free blocks at the end
  of the table it answers a run that is too short. The heap survives a call if and only if a run
  fits, no block is asked for, or the table ends in a taken block (`Heap.Malloc`;
  `ShortTailCorrupts`, `ShortTailExample`). One-block requests are not affected.
- `paging_map_range` stops at its first success. `MapRange` and `MapTo` state what it does;
  `FirstPageOnlyIff` and `MapToIntendedIff` say when that is enough, `MapToFails` that it never is
  in a new address space, `MapToExample` gives an instance; `MapRangeIntended` is the loop that
  stops at a failure instead, under a name that says so.
- `fat16_get_fat_entry` multiplies the FAT's offset by the entry's, where the FAT specification
  adds. Both agree only on entry 0 of a volume without reserved sectors (`FatEntryPosIff`;
  `FatEntryPosExample`), so the driver never looks at the entry that the specification names.
  The lookup is the function of the disk image that the code computes; all chain results hold for it.
- The chain walk tests for 12-bit markers. It follows the 16-bit ones of bad and last clusters as
  cluster numbers, and stops at five ordinary ones (`EndsChainIff`, `MarkerFollowed`,
  `WalkAsSpecifiedIff`).
- `fat16_get_first_cluster` or-s the high half of the cluster number in without a shift, so the
  answer is right if and only if that half is zero (`FirstClusterIff`).
- A file read that starts inside a cluster can run on into the neighbouring one.
  `RoundIsFileIff` and, for whole reads, `ReadIsFileIff` give the exact condition,
  `UnalignedMembers` an instance that the driver reads.
- `diskstreamer_read` does not split a read at a sector boundary unless it starts on one
  (`StaysInBufferIff`).
- `ending_sector_pos` truncates, so clusters overlap the root directory unless that fills whole
  sectors (`DataClearOfRootIff`).
- Relocation of HIGH sites ignores the carry from the low half, so moving twice is not moving by
  the sum (`AdjustTwice`, `RelocateTwiceIff`, `HighCarryExample`). Type 6, DIR32, is handled as the
  code does, on 32 bits, since DWORD64 is a 32-bit type there.
- `heap_free` does not check its address: behind the first block of a run it corrupts the table
  (`FreeInside`, `Heap.Free`).
- `task_list_remove` does not mend the next task's prev. After a removal at the front the new
  first task's prev names freed memory, and the first-fit heap gives that very block to the next
  task when nothing below is free (`FreedComesBack`, `FreeFirstThenNew`). Removing the first task
  then writes into the list: it is linked afterwards if and only if its prev named no other task
  on it (`RemovedLinked`). `ReuseBreaks` shows the whole family of runs that lose tasks this way,
  `LostTasks` that the tasks never come up again, `ReuseExample` the smallest one. If the
  freed block has become a page table, a page is remapped instead (`StalePrevRemaps`), and if it
  has become a directory, that one leads to a task and no longer to one of its tables
  (`DirectoryLost`, `LeakRun`). `KeptIff` says exactly when no memory in use is written to. Removals
  of the tail are always safe (`LastOnlyKeeps`); one in the middle works once (`RemovedMiddle`).
- `terminal_make_char` takes a signed character: from 128 on its sign replaces the colour
  (`OnScreen`).
- The comment in the batch line loop speaks of leading and trailing spaces; only leading ones are
  removed (`LineIsTrimmed`, `TrimmedIff`; `TrailingSpaceExample`).

## Model

| member | source | states |
|---|---|---|
| BlockHeap.FoundUnique | free95/base/txos/ke/memory/heap/heap.c:90-124 | the answer of the block search is determined by the table and the request: leftmost fit, else -ENOMEM, else the start of the free tail |
| BlockHeap.OneBlockFits | free95/base/txos/ke/memory/heap/heap.c:90-124 | a one-block request can be met exactly if some block is free |
| BlockHeap.MarkBits | free95/base/txos/ke/memory/heap/heap.c:131-150 | a chained byte is not free, has HAS_NEXT on all but the last block and IS_FIRST on the first only |
| BlockHeap.MarkExample | free95/base/txos/ke/memory/heap/heap.c:85-150 | the bytes of a run of three blocks and of one block, and that an entry is free if its low four bits are 0 |
| BlockHeap.FreeIsZero | free95/base/txos/ke/memory/heap/heap.c:85-88 | in a well-formed table free entries are the zero bytes, and they are those no live run covers |
| BlockHeap.RunsDetermined | free95/base/txos/ke/memory/heap/heap.c:131-150 | the table determines the live runs |
| BlockHeap.TableDetermined | free95/base/txos/ke/memory/heap/heap.c:131-150 | the live runs determine the table byte for byte |
| BlockHeap.TakeRun | free95/base/txos/ke/memory/heap/heap.c:131-150 | marking a free run adds exactly that run to the live ones and keeps the encoding |
| BlockHeap.FreedChain | free95/base/txos/ke/memory/heap/heap.c:171-183 | following HAS_NEXT clears exactly the rest of a chain |
| BlockHeap.ReleaseRun | free95/base/txos/ke/memory/heap/heap.c:171-183 | freeing a live block number clears its run, no more and no less, and removes one live run |
| BlockHeap.TakeThenRelease | free95/base/txos/ke/memory/heap/heap.c:131-183 | allocating and freeing restores every byte of the table |
| BlockHeap.EveryRunEncodes | free95/base/txos/ke/memory/heap/heap.c:152-200 | after any sequence of satisfiable requests and frees of live runs the table still encodes exactly the live runs, which are disjoint and inside the table |
| BlockHeap.PutRequests | free95/base/txos/ke/memory/heap/heap.c:152-200 | the calls of such a sequence, made on a heap, leave the table and the runs that the sequence is said to |
| BlockHeap.ReleaseAnyOrder | free95/base/txos/ke/memory/heap/heap.c:171-200 | freeing all live runs in any order gives the all-free table |
| BlockHeap.ReleaseEvery | free95/base/txos/ke/memory/heap/heap.c:171-200 | the same for the calls made on a heap |
| BlockHeap.ShortTailCorrupts | free95/base/txos/ke/memory/heap/heap.c:117-150 | marking more blocks than the free tail has leaves a table that encodes no set of runs |
| BlockHeap.ShortTailExample | free95/base/txos/ke/memory/heap/heap.c:117-150 | a concrete heap and request where the search answers a run that is too short |
| BlockHeap.BlocksForEnough | free95/base/txos/ke/memory/heap/heap.c:73-83 | rounding a size up to blocks is enough and wastes less than a block, except that size 0 and the last 4095 sizes give no block |
| BlockHeap.Heap.Create | free95/base/txos/ke/memory/heap/heap.c:46-71 | accepted exactly if both ends are aligned and the table has one entry per block of the wrapped size; then every entry is free, and a pool that does not wrap has a heap; else -EINVARG and an untouched table |
| BlockHeap.FreeUnused | free95/base/txos/ke/memory/heap/heap.c:171-183 | freeing a block number that no run covers, also one already free, changes nothing |
| BlockHeap.FreeInside | free95/base/txos/ke/memory/heap/heap.c:171-183 | freeing from behind the first block of a run leaves a table that encodes no set of runs |
| BlockHeap.FreedComesBack | free95/base/txos/ke/memory/heap/heap.c:90-124 | a block just freed is the next one handed out if and only if no block below it is free |
| BlockHeap.Heap.GetStartBlock | free95/base/txos/ke/memory/heap/heap.c:90-124 | for every table and request the exact answer: leftmost fit, or -ENOMEM, or the start of a short free tail |
| BlockHeap.Heap.MarkBlocksTaken | free95/base/txos/ke/memory/heap/heap.c:131-150 | writes the n chained marks and nothing else |
| BlockHeap.Heap.MarkBlocksFree | free95/base/txos/ke/memory/heap/heap.c:171-183 | clears along the chain and nothing else |
| BlockHeap.Heap.Malloc | free95/base/txos/ke/memory/heap/heap.c:152-195 | which run is taken in each of the three outcomes of the search; the heap stays well-formed if and only if a run fits, or none was asked for, or the table ends in a taken block |
| BlockHeap.Heap.Free | free95/base/txos/ke/memory/heap/heap.c:185-200 | for every address not in front of the pool: in the first block of a live run that run goes; outside all runs nothing happens; inside a run the table is corrupted |
| KernelHeap.Clear | free95/base/txos/ke/memory/heap/kheap.c:48-56 | zeroes the given bytes and keeps all others |
| KernelHeap.Kernel.KMalloc | free95/base/txos/ke/memory/heap/kheap.c:43-46 | a run that was free, at the leftmost fit; NULL with nothing changed if none fits |
| KernelHeap.Kernel.KZalloc | free95/base/txos/ke/memory/heap/kheap.c:48-56 | NULL with nothing changed, or a fresh run with its bytes zero and the rest of the pool kept; a free block suffices for one-block sizes |
| KernelHeap.Kernel.KFree | free95/base/txos/ke/memory/heap/kheap.c:58-61 | the run that starts at the block goes, and a one-block run makes exactly its block free; a block that no run covers changes nothing |
| Paging.TableOfIsMask | free95/base/txos/ke/memory/paging/paging.c:55-57 | rounding an entry down to 4096 is the bit mask 0xfffff000 |
| Paging.MaskRecoversTable | free95/base/txos/ke/memory/paging/paging.c:31-57 | masking a directory entry gives back the aligned table address that was or-ed with the flags and the writeable bit |
| Paging.IndexesGiveAddress | free95/base/txos/ke/memory/paging/paging.c:74-87 | the two indices of an aligned address determine it |
| Paging.IndexInjective | free95/base/txos/ke/memory/paging/paging.c:74-87 | different aligned addresses have different index pairs |
| Paging.IndexSurjective | free95/base/txos/ke/memory/paging/paging.c:74-87 | every index pair belongs to an aligned address |
| Paging.AlignAddress | free95/base/txos/ke/memory/paging/paging.c:89-97 | the first page boundary from the address on, or 0 past the last one |
| Paging.EntriesApart | free95/base/txos/ke/memory/paging/paging.c:168-170 | entries of different pages do not overlap in memory |
| Paging.WalkReachesEntry | free95/base/txos/ke/memory/paging/paging.c:168-170 | the page walk ends at the word that belongs to the page |
| Paging.SetEntryExact | free95/base/txos/ke/memory/paging/paging.c:153-173 | writing one entry changes what the named page walks to, no other page, and keeps the two-level structure |
| Paging.RefinesFlatMap | free95/base/txos/ke/memory/paging/paging.c:98-106 | after any run of updates, walking memory gives what a flat map with the same updates gives |
| Paging.StoreOutside | free95/base/txos/ke/memory/paging/paging.c:168-170 | a store outside the blocks of an address space changes none of its pages |
| Paging.SetEntryIsolated | free95/base/txos/ke/memory/paging/paging.c:153-173 | updating one address space changes no page of another one |
| Paging.GetIndexes | free95/base/txos/ke/memory/paging/paging.c:74-87 | -EINVARG for an unaligned address, else indices below 1024 that add up to the address |
| Paging.Set | free95/base/txos/ke/memory/paging/paging.c:153-173 | an aligned address has its entry written, any other is rejected with memory unchanged |
| Paging.Map | free95/base/txos/ke/memory/paging/paging.c:98-106 | maps exactly if both addresses are aligned |
| Paging.MapRange | free95/base/txos/ke/memory/paging/paging.c:107-120 | the loop as written: at most the first page is mapped, and the result says whether the addresses were aligned |
| Paging.MapTo | free95/base/txos/ke/memory/paging/paging.c:122-152 | the exact condition for success, and that only the page at virt is mapped |
| Paging.MapPagesExact | free95/base/txos/ke/memory/paging/paging.c:107-120 | intended meaning: every page of a range is mapped to its own frame, around the 4 GB circle, and no other page changes |
| Paging.FirstPageOnlyIff | free95/base/txos/ke/memory/paging/paging.c:113-114 | mapping the first page only gives the intended address space if and only if the other pages already held their entries |
| Paging.MapToIntendedIff | free95/base/txos/ke/memory/paging/paging.c:122-152 | what paging_map_to makes of an accepted range is what was asked for if and only if the pages behind the first already held their entries |
| Paging.MapRangeIntended | free95/base/txos/ke/memory/paging/paging.c:107-120 | the loop with its test reversed (the intended version) makes all the updates of the range |
| Paging.PageAtClosed | free95/base/txos/ke/memory/paging/paging.c:115-116 | stepping a pointer i pages is adding 4096 * i modulo 2^32 |
| AddressSpaces.OffsetWraps | free95/base/txos/ke/memory/paging/paging.c:28-36 | the signed offset, wrapped past 2^31, still yields the right unsigned page address |
| AddressSpaces.FillTable | free95/base/txos/ke/memory/paging/paging.c:32-35 | one table of the identity map, each entry the page plus the flags, touching no other block |
| AddressSpaces.IdentityWalks | free95/base/txos/ke/memory/paging/paging.c:25-43 | in a finished identity space every aligned address v walks to v + flags |
| Machine.BitOrBits | free95/base/txos/ke/memory/paging/paging.c:34-37 | the bits of a | b are those set in a or in b |
| Machine.BitAndBits | free95/base/txos/ke/memory/paging/paging.c:56-56 | the bits of a & b are those set in both |
| Paging.OrAligned | free95/base/txos/ke/memory/paging/paging.c:34-34 | or-ing flags below 4096 into an aligned address adds them |
| Paging.WriteableBits | free95/base/txos/ke/memory/paging/paging.c:37-37 | flags | PAGING_IS_WRITEABLE has bit 1 set and every other bit as in the flags |
| Paging.OrTable | free95/base/txos/ke/memory/paging/paging.c:37-37 | the directory entry is the table address plus these low bits |
| AddressSpaces.DirectoryEntry | free95/base/txos/ke/memory/paging/paging.c:27-38 | in a new space each directory entry is its table's address plus low bits in which the writeable bit is set and every other bit is the flags' own |
| AddressSpaces.BuildTables | free95/base/txos/ke/memory/paging/paging.c:27-38 | 1025 distinct fresh blocks are taken, and all directory entries point at identity tables |
| AddressSpaces.New4gb | free95/base/txos/ke/memory/paging/paging.c:25-43 | exactly 1026 fresh blocks are taken and hold chunk, directory and identity tables; page entries are page + flags, directory entries table + flags with the writeable bit; nothing live changes |
| AddressSpaces.NewKernelSpace | free95/base/txos/init/kernel.c:903-903 | the kernel's own space, with flags 7: directory entries are table + 7, every page v has entry v + 7 |
| AddressSpaces.Free4gb | free95/base/txos/ke/memory/paging/paging.c:51-62 | frees exactly the blocks found by masking the directory's entries, whatever they lead to, each one once, with directory and chunk |
| AddressSpaces.LifeCycle | free95/base/txos/ke/memory/paging/paging.c:25-62 | new, any run of updates, free: the block table is byte for byte what it was and no live block changed |
| AddressSpaces.RunCalls | free95/base/txos/ke/memory/paging/paging.c:98-173 | a run of paging_set and paging_map calls makes exactly the updates they accept |
| AddressSpaces.NewThenRun | free95/base/txos/ke/memory/paging/paging.c:25-173 | a new space after any run of calls is the flat identity map with the accepted updates, the last one of a page winning |
| AddressSpaces.LastCallWins | free95/base/txos/ke/memory/paging/paging.c:98-173 | in a run of calls the last one that is for a page and not rejected decides its entry |
| AddressSpaces.MapToFails | free95/base/txos/ke/memory/paging/paging.c:107-152 | in a new address space mapping two pages or more to another place always leaves the second page where it was |
| AddressSpaces.MapToExample | free95/base/txos/ke/memory/paging/paging.c:107-152 | a concrete range of two pages, its entry as written and as intended |
| Paths.StrNLen | free95/base/txos/ke/string/string.c:43-53 | the length, cut at max |
| Paths.StrLen | free95/base/txos/ke/string/string.c:31-41 | the length |
| Paths.PartEnd | free95/base/txos/ke/fs/pparser.c:59-64 | the first slash, or the end, from the cursor on |
| Paths.SplitIsSplit | free95/base/txos/ke/fs/pparser.c:55-79 | the reference split: no piece contains a slash and joining the pieces gives the text back |
| Paths.PartsAreSplit | free95/base/txos/ke/fs/pparser.c:138-149 | a parse finds the slash-split of the rest cut at the first empty piece |
| Paths.ParsePrint | free95/base/txos/ke/fs/pparser.c:115-153 | parsing a printed drive and parts gives them back, up to 108 characters |
| Paths.PrintParse | free95/base/txos/ke/fs/pparser.c:115-153 | printing what was parsed gives the path back if and only if nothing follows the drive or no piece is empty |
| PathParser.GetPathPart | free95/base/txos/ke/fs/pparser.c:55-79 | a fresh buffer holding exactly the part, within its 108 bytes; an empty part leaves nothing allocated |
| PathParser.CopyPart | free95/base/txos/ke/fs/pparser.c:58-64 | copies up to the slash and stays inside the buffer |
| PathParser.ParsePathPart | free95/base/txos/ke/fs/pparser.c:81-99 | buffer and node of one part, linked behind the last part |
| PathParser.CreateRoot | free95/base/txos/ke/fs/pparser.c:46-52 | a root record with the drive and no part |
| PathParser.ListAppend | free95/base/txos/ke/fs/pparser.c:89-96 | linking a new node behind the last one appends its part to the list in memory |
| PathParser.RootWords | free95/base/txos/ke/fs/pparser.c:46-52 | the root's words in memory: the drive, and the address of the first part or NULL |
| PathParser.PartWords | free95/base/txos/ke/fs/pparser.c:81-99 | a part's words in memory: the address of its NUL-terminated text, and that of the next part or NULL |
| PathParser.ParseParts | free95/base/txos/ke/fs/pparser.c:138-149 | the list in memory is the parts from the cursor on, built from fresh blocks only |
| PathParser.Parse | free95/base/txos/ke/fs/pparser.c:115-153 | NULL and nothing changed for an invalid path, else the list of its drive and parts |
| PathParser.Free | free95/base/txos/ke/fs/pparser.c:101-113 | every block of the list is freed exactly once |
| PathParser.ParseThenFree | free95/base/txos/ke/fs/pparser.c:55-153 | parse then free restores the block table byte for byte and changes no live block, the last probe's buffer included |
| Streamer.StaysInBufferIff | free95/base/txos/ke/disk/streamer.c:37-48 | the reads that stay inside the sector buffer are those that are aligned or do not leave their sector |
| Streamer.ByteOfSector | free95/base/txos/ke/disk/streamer.c:25-43 | byte sector * 512 + i of the image is byte i of that sector |
| Streamer.DiskStream.Seek | free95/base/txos/ke/disk/streamer.c:19-23 | sets the position |
| Streamer.DiskStream.Read | free95/base/txos/ke/disk/streamer.c:25-51 | writes exactly the image bytes from the position on, nothing else, and moves past them |
| FatVolume.ClustersDisjoint | free95/base/txos/ke/fs/fat/fat16.c:363-366 | different clusters have disjoint sectors |
| FatVolume.FatsBeforeRoot | free95/base/txos/ke/fs/fat/fat16.c:224-224 | each copy of the FAT ends at or before the root directory, and the last one where that starts |
| FatVolume.FirstDataSector | free95/base/txos/ke/fs/fat/fat16.c:224-258 | cluster 2 starts behind the last FAT and the whole sectors of the root directory |
| FatVolume.DataClearOfFats | free95/base/txos/ke/fs/fat/fat16.c:224-366 | no cluster from 2 on meets a copy of the FAT |
| FatVolume.DataClearOfRootIff | free95/base/txos/ke/fs/fat/fat16.c:224-258 | all clusters lie past the root directory, which starts behind the last FAT, if and only if it fills whole sectors |
| FatVolume.BootVolumeExample | free95/base/txos/boot/fat/x86fboot.asm:31-38 | the volume of the repository's own boot sector: FATs at 200 and 456, root directory at 712, cluster 2 at 716, cluster 3 at 844 |
| FatVolume.FatEntryAligned | free95/base/txos/ke/fs/fat/fat16.c:383-384 | the position looked up in the FAT is sector-aligned, whatever the multiplication gives |
| FatVolume.FatEntryPosIff | free95/base/txos/ke/fs/fat/fat16.c:383-384 | the entry of a cluster number below 65536 is looked up where the FAT specification puts it if and only if it is entry 0 of a volume without reserved sectors |
| FatVolume.FatEntryPosExample | free95/base/txos/ke/fs/fat/fat16.c:383-384 | one reserved sector, cluster 2: position 2048 where the specification has 516 |
| FatVolume.EntryBits | free95/base/txos/ke/fs/fat/fat16.c:390-396 | the low byte of an entry comes first: its bits are the low ones |
| FatVolume.FirstClusterIff | free95/base/txos/ke/fs/fat/fat16.c:358-361 | the first cluster has the bits of both halves, and is the one the item names if and only if the high half is zero |
| FatVolume.WalkIsIteration | free95/base/txos/ke/fs/fat/fat16.c:412-445 | the walk is n-fold iteration of the lookup if no value read ends the chain, else -EIO |
| FatVolume.EndsChainIff | free95/base/txos/ke/fs/fat/fat16.c:415-439 | the walk stops at an entry just as the FAT specification does if and only if the entry is below 0xFFF7 and not one of five values that are 12-bit markers |
| FatVolume.MarkerFollowed | free95/base/txos/ke/fs/fat/fat16.c:412-445 | a FAT16 marker of a bad or last cluster, 0xFFF7 to 0xFFFF, is answered as a cluster number |
| FatVolume.WalkAsSpecifiedIff | free95/base/txos/ke/fs/fat/fat16.c:405-448 | a walk of n steps answers what the specified one does if and only if both or neither meet a value at which they stop |
| FatVolume.WalkComposes | free95/base/txos/ke/fs/fat/fat16.c:412-445 | a walk may be cut at any cluster |
| FatVolume.OffsetsCompose | free95/base/txos/ke/fs/fat/fat16.c:405-448 | f(s, a + b) = f(f(s, a), b) for a whole number of clusters a |
| FatVolume.ContentsByte | free95/base/txos/ke/fs/fat/fat16.c:450-489 | byte p of a file, found by walking the chain, is byte p of the clusters concatenated |
| FatVolume.RoundIsFileIff | free95/base/txos/ke/fs/fat/fat16.c:463-474 | one round of a read takes the file's bytes if and only if they stay in the cluster or the chain goes on with the neighbouring one |
| FatVolume.ReadIsFileIff | free95/base/txos/ke/fs/fat/fat16.c:450-489 | a whole read at any position takes the file's bytes if and only if every one of its rounds stays in its cluster or continues with the neighbouring one |
| FatVolume.UnalignedMembers | free95/base/txos/ke/fs/fat/fat16.c:450-489 | two members of 1536 bytes, clusters of two sectors: the driver reads them, they fit if and only if the third cluster of the chain is the neighbour of the second, and bytes 2048 to 2559 are taken from that neighbour in any case |
| FatVolume.RoundStays | free95/base/txos/ke/fs/fat/fat16.c:465-474 | the stream copies of a round stay in the sector buffer, for reads that start on a sector boundary or do not leave their sector |
| FatVolume.AlignedFits | free95/base/txos/ke/fs/fat/fat16.c:450-489 | reads from a cluster boundary take the file's bytes |
| FatVolume.MembersAreFile | free95/base/txos/ke/fs/fat/fat16.c:668-678 | members whose rounds all fit are a stretch of the file |
| FatVolume.MembersFitWhen | free95/base/txos/ke/fs/fat/fat16.c:662-678 | from the start of a file, one member of any size or members of whole clusters can be read and all fit |
| Fat16.FileSystem.GetFatEntry | free95/base/txos/ke/fs/fat/fat16.c:373-400 | the 16-bit entry at the computed position |
| Fat16.FileSystem.WalkChain | free95/base/txos/ke/fs/fat/fat16.c:410-443 | the n-th cluster of the chain, or -EIO |
| Fat16.FileSystem.GetClusterForOffset | free95/base/txos/ke/fs/fat/fat16.c:405-448 | the walk of offset / cluster size steps |
| Fat16.FileSystem.ReadInternalFromStream | free95/base/txos/ke/fs/fat/fat16.c:450-489 | terminates; exactly if the chain reaches the last round's cluster every byte is the one its round takes off the disk and nothing else is overwritten; else -EIO |
| Fat16.ReadMembers | free95/base/txos/ke/fs/fat/fat16.c:662-683 | nmemb, with what the rounds of all members take in place, exactly if the chain is long enough for the last one; else -EIO |
| Fat16.Read | free95/base/txos/ke/fs/fat/fat16.c:662-683 | from position 0 the buffer receives the first size * nmemb bytes of the clusters concatenated whenever all rounds fit, which one member and members of whole clusters always do |
| PeImage.RelocateExact | free95/base/txos/init/loader.c:252-270 | one entry adjusts the value at its site and changes no other byte |
| PeImage.SitesAdjusted | free95/base/txos/init/loader.c:240-275 | after relocating all sites, each holds its old value adjusted once |
| PeImage.UntouchedStays | free95/base/txos/init/loader.c:240-275 | a byte no site covers keeps its value |
| PeImage.SitesMoved | free95/base/txos/init/loader.c:234-275 | HIGHLOW and type 6 values grow by the distance modulo 2^32, LOW ones modulo 2^16, HIGH ones by its upper half modulo 2^16, and no other byte changes |
| PeImage.MoveExample | free95/base/txos/init/loader.c:260-262 | 0x401000 in an image made for 0x400000 and loaded at 0x500000 becomes 0x501000 |
| PeImage.AdjustTwice | free95/base/txos/init/loader.c:252-266 | adjusting by a then b is adjusting by a + b, for HIGH sites if and only if the low halves do not carry |
| PeImage.HighCarryExample | free95/base/txos/init/loader.c:254-256 | a concrete pair of moves where a HIGH site comes out wrong |
| PeImage.RelocateTwiceIff | free95/base/txos/init/loader.c:240-275 | moving an image twice is moving it once by the sum, if and only if there is no HIGH site or no carry |
| PeImage.CopiedByte | free95/base/txos/init/loader.c:210-215 | each byte comes from the last section that covers it |
| PeImage.UncopiedByte | free95/base/txos/init/loader.c:210-215 | a byte no section covers stays |
| PeImage.LoadedSame | free95/base/txos/init/loader.c:206-216 | loaded bytes do not depend on what the buffer held |
| RelocDirectory.SitesSame | free95/base/txos/init/loader.c:234-274 | the directory's own bytes determine its end and its sites |
| RelocDirectory.DirectoryKept | free95/base/txos/init/loader.c:230-276 | relocation leaves the directory readable with the same sites |
| RelocDirectory.EntryFields | free95/base/txos/init/loader.c:248-269 | an entry's low twelve bits are the offset, its high four the type, and which types have a site of which kind |
| RelocDirectory.EntryExample | free95/base/txos/init/loader.c:248-269 | entry 0x3010 of page 0x1000 is a HIGHLOW site at 0x1010; entry 0 is none |
| RelocDirectory.DirectoryExample | free95/base/txos/init/loader.c:240-275 | a directory of sixteen bytes, with its end and its one site |
| RelocDirectory.LoadsDiffer | free95/base/txos/init/loader.c:206-276 | images loaded at a and at b agree on section bytes off the sites, and their values differ by b - a at each site, modulo its width, except for the carry at HIGH sites |
| Loader.Memcpy | free95/base/txos/init/loader.c:214-214 | copies the given range and keeps every other byte |
| Loader.CopyAllSections | free95/base/txos/init/loader.c:206-216 | the buffer is the sections copied in order |
| Loader.RelocEntry | free95/base/txos/init/loader.c:252-270 | one entry of any type, adjusted in memory |
| Loader.RelocBlock | free95/base/txos/init/loader.c:243-271 | all entries of a block, read from the memory being relocated |
| Loader.RelocNext | free95/base/txos/init/loader.c:241-274 | one block relocated, and the pointer moved by its own SizeOfBlock, as read after relocating |
| Loader.RelocMemory | free95/base/txos/init/loader.c:230-276 | terminates, every site of the directory relocated once, in order; where sites do not overlap each value has moved by base - imageBase and no other byte has changed |
| Loader.Load | free95/base/txos/init/loader.c:342-344 | copying and relocating give the image that the file denotes at that base, its sites moved by base - imageBase |
| Strings.StrChr | free95/base/txos/ke/string/string.c:187-203 | the first occurrence, the terminator for NUL, or none |
| Strings.TokensAreMaximal | free95/base/txos/ke/string/string.c:150-185 | the tokens are exactly the maximal non-empty pieces without delimiters |
| Strings.TokensInOrder | free95/base/txos/ke/string/string.c:150-185 | the tokens come in text order and do not touch |
| Strings.TokensSame | free95/base/txos/ke/string/string.c:175-177 | the tokens still to come do not depend on text before the cursor, so cutting behind it does not disturb them |
| Tokenizer.StepTakesToken | free95/base/txos/ke/string/string.c:155-184 | one call returns the first pending token, writes at most one NUL right behind it, and leaves the other tokens pending |
| Tokenizer.RunTakesTokens | free95/base/txos/ke/string/string.c:150-185 | any number of calls: buffer and results of the whole run |
| Tokenizer.CallReturns | free95/base/txos/ke/string/string.c:150-185 | call i returns token i, and NULL for ever after the last |
| Tokenizer.OnlyDelimitersCut | free95/base/txos/ke/string/string.c:175-177 | only delimiters are overwritten, each the one right behind its own token |
| Tokenizer.TokenText | free95/base/txos/ke/string/string.c:150-185 | after any number of calls, every token handed out still reads as its own text, ended by a NUL |
| StrTok.Cutter.SkipLeading | free95/base/txos/ke/string/string.c:159-162 | moves the static cursor over leading delimiters |
| StrTok.Cutter.SkipToken | free95/base/txos/ke/string/string.c:171-174 | moves the static cursor to the token's end |
| StrTok.Cutter.NextToken | free95/base/txos/ke/string/string.c:150-185 | the call with NULL does one step on buffer and cursor |
| StrTok.Cutter.FirstToken | free95/base/txos/ke/string/string.c:150-185 | the call with a string starts over at its beginning |
| StrTok.AllTokens | free95/base/txos/ke/string/string.c:150-185 | a call with a string and k calls with NULL leave buffer and cursor, and return, what the run of k + 1 calls is said to |
| BatchScript.CommandsAreLines | free95/base/txos/init/loader.c:375-383 | the commands run are the lines, one each and in order, of exactly those maximal pieces between line ends in which some byte is not a space |
| BatchScript.LineIsTrimmed | free95/base/txos/init/loader.c:377-379 | what is cut from a line is its leading spaces, all of them |
| BatchScript.TrimmedIff | free95/base/txos/init/loader.c:377-380 | a line has no leading and no trailing space if and only if its piece is all spaces or does not end in one |
| BatchScript.TrailingSpaceExample | free95/base/txos/init/loader.c:377-380 | a line that ends in a space is handed on with it |
| BatchScript.LineAt | free95/base/txos/init/loader.c:377-378 | the line as it is handed on, read from the buffer that is being cut |
| BatchScript.ExecLines | free95/base/txos/init/loader.c:375-383 | the loop runs exactly the non-blank lines of the original text, in order |
| Page.CursorMovesOn | free95/base/txos/init/kernel.c:102-113 | the cursor only moves forward, so glyphs never share a place |
| Page.GlyphStays | free95/base/txos/init/kernel.c:79-113 | on the unbounded page a character is seen where the cursor was: low byte the character, high byte the colour, or 0xFF from 128 on |
| Page.RestIsBackground | free95/base/txos/init/kernel.c:89-119 | where nothing was written the page is blank or as cleared |
| Page.TextRunsOn | free95/base/txos/init/kernel.c:105-113 | text without line ends runs on from row to row |
| Page.LinesAreRows | free95/base/txos/init/kernel.c:102-113 | lines of less than 80 characters are the rows of the page |
| Screen.WindowPut | free95/base/txos/init/kernel.c:84-87 | a cell that shows the character, written in the window, is the character written on the page |
| Screen.WindowScroll | free95/base/txos/init/kernel.c:89-119 | scrolling moves the window down the page by one row |
| Screen.OnScreen | free95/base/txos/init/kernel.c:79-119 | every character whose row has not left the screen is seen at its own place: low byte the character, high byte the colour, or 0xFF from 128 on |
| Screen.PrintedText | free95/base/txos/init/kernel.c:149-156 | printed text without line ends reads back from the low bytes where the cursor was |
| Screen.PrintExample | free95/base/txos/init/kernel.c:149-156 | "A" on a cleared screen is 0x1F41 in the first cell |
| Screen.RestOfScreen | free95/base/txos/init/kernel.c:96-99 | every other cell is blank or as cleared |
| Terminal.TextTerminal.constructor | free95/base/txos/init/kernel.c:121-133 | the first 30 rows are cleared and no others |
| Terminal.TextTerminal.Scroll | free95/base/txos/init/kernel.c:89-100 | the in-place copy moves every row up by one and loses none |
| Terminal.TextTerminal.WriteChar | free95/base/txos/init/kernel.c:102-119 | row < 20 and col < 80 hold again, and the screen is the window on the page with the glyph added |
| Terminal.TextTerminal.Print | free95/base/txos/init/kernel.c:149-156 | the screen is the window on the page with the whole string added, and every character still on it is seen at its own place |
| TaskLinks.AddedLinked | free95/base/txos/ke/task/task.c:56-67 | creating a task at any address not on the list, also one a stale prev names, keeps the list linked and prev the reverse of next |
| TaskLinks.RemovedLinked | free95/base/txos/ke/task/task.c:87-108 | a removal leaves a linked list, and next in order, if and only if the first task's prev names no other task on the list, or any other task's prev is right |
| TaskLinks.RemovedPrev | free95/base/txos/ke/task/task.c:87-108 | which prev links stay right, and that the one behind a gap does not |
| TaskLinks.RemovedCurrent | free95/base/txos/ke/task/task.c:104-107 | when the current task goes, the one behind it becomes current, or the first one |
| TaskLinks.RemovedEnds | free95/base/txos/ke/task/task.c:87-108 | removals at either end keep prev the reverse of next; at the tail they always mend the list |
| TaskLinks.RemovedMiddle | free95/base/txos/ke/task/task.c:87-108 | a removal in the middle works once, and removing the task behind the gap then breaks the list |
| TaskLinks.CreatedThenRemoved | free95/base/txos/ke/task/task.c:56-108 | creating a task and removing it gives the list back |
| TaskLinks.RoundAt | free95/base/txos/ke/task/task.c:77-85 | m steps from the i-th task lead to the (i + m)-th, around the ring |
| TaskLinks.RoundVisitsAll | free95/base/txos/ke/task/task.c:77-85 | every task comes up exactly once before the round is over |
| TaskLinks.ShortCircuit | free95/base/txos/ke/task/task.c:87-108 | removing a first task whose prev names the j-th makes that one lead back to the head |
| TaskLinks.LostTasks | free95/base/txos/ke/task/task.c:77-108 | then the tasks behind the j-th never come up again |
| TaskLinks.ReuseBreaks | free95/base/txos/ke/task/task.c:43-108 | free the first task, create one at its address, and any more: removing the first task then breaks the list and loses the later ones |
| TaskLinks.ReuseExample | free95/base/txos/ke/task/task.c:43-108 | the smallest instance, with all links before and after |
| TaskLinks.RunLinkedIff | free95/base/txos/ke/task/task.c:40-108 | any run of creations and removals anywhere keeps the list linked throughout if and only if every removal mends it |
| TaskLinks.LastOnlyKeeps | free95/base/txos/ke/task/task.c:40-108 | with creations and removals of the tail no condition is needed: creation order, and prev its exact reverse |
| TaskLinks.EndsOnlyKeeps | free95/base/txos/ke/task/task.c:40-108 | with removals at both ends the list stays linked if and only if no removed first task has a prev that names another task on the list |
| TaskMemory.StoredNext | free95/base/txos/ke/task/task.c:91-91 | writing p->next in memory is the rewriting of the links, for a p on the list or off it |
| TaskLedger.Created | free95/base/txos/ke/task/task.c:40-75 | after creating a task, what has been taken from the heap is what the tasks own and what other clients hold, all in place |
| TaskLedger.BalancedFreed | free95/base/txos/ke/task/task.c:87-118 | the same after freeing a task if and only if its prev is right, or, for the first one, null or the address of neither another task nor another task's directory |
| TaskLedger.KeepsMends | free95/base/txos/ke/task/task.c:87-108 | such a removal mends the list |
| TaskLedger.KeptIff | free95/base/txos/ke/task/task.c:87-92 | every block still in use but the predecessor's keeps its bytes if and only if prev is right or null, or names a free block or one of the task's own, or the word to be written is there already |
| TaskLedger.DirectoryLost | free95/base/txos/ke/task/task.c:89-92 | a stale prev of the first task that names another one's directory: entry 14 then leads to the second task's block, and no longer to its page table |
| TaskLedger.BalancedClient | free95/base/txos/ke/task/task.c:40-118 | the books stay balanced when another client uses the heap without touching what the tasks own |
| TaskLedger.StalePrevRemaps | free95/base/txos/ke/task/task.c:89-92 | a stale prev that names a block which has become a page table: removing the first task remaps a page of that table's address space |
| TaskLedger.FirstIs | free95/base/txos/ke/task/task.c:43-43 | the first free block is a given free one if and only if everything below is in use |
| TaskSetup.SetFields | free95/base/txos/ke/task/task.c:122-136 | all fields after task_init: the five it sets, the others zero, no links |
| TaskSetup.Allocate | free95/base/txos/ke/task/task.c:40-54 | 1027 free blocks, task and directory the first ones in this order, become a task and its address space, in which every page v has entry v + 5 and every table is writeable as well; no block in use changes |
| TaskSetup.ProgramPages | free95/base/txos/ke/task/task.c:124-132 | in that space the program address has entry 0x400005 and the stack address 0x3FF005 |
| Tasks.TaskList.Join | free95/base/txos/ke/task/task.c:56-65 | the new task is linked behind the tail |
| Tasks.TaskList.Enlist | free95/base/txos/ke/task/task.c:56-65 | a task just allocated goes to the end of the list and the books stay balanced |
| Tasks.TaskList.New | free95/base/txos/ke/task/task.c:40-75 | the list with the new task at its end, task and directory in the first free blocks, its fields as task_init leaves them and its space as allocated; the books stay balanced |
| Tasks.TaskList.GetNext | free95/base/txos/ke/task/task.c:77-85 | the next task, the head behind the last one |
| Tasks.TaskList.ListRemove | free95/base/txos/ke/task/task.c:87-108 | head, tail, current task and memory after a removal, for whatever prev names |
| Tasks.TaskList.Free | free95/base/txos/ke/task/task.c:110-118 | the exact effect on links, memory and heap for any task on the list; linked afterwards if and only if the removal mends it, other memory in use untouched if and only if prev is harmless, the books balanced if and only if it keeps them |
| Tasks.TaskList.ClientActed | free95/base/txos/ke/task/task.c:40-118 | another client may use the heap in between: the list goes on with what is held then |
| Tasks.TaskList.NoneLeft | free95/base/txos/ke/task/task.c:110-118 | once the list is empty, after any run whose removals keep the books, the block table is byte for byte one of what the other clients hold |
| Tasks.TaskList.NewThenFree | free95/base/txos/ke/task/task.c:40-118 | creating a task and freeing it restores the list, the block table byte for byte, and every block in use |
| Tasks.TaskList.FreeFirstThenNew | free95/base/txos/ke/task/task.c:43-118 | a task created after the first one is freed gets its address if and only if all blocks below are in use, and then the next first task can no longer be removed safely |
| TaskLeak.StaleDirectory | free95/base/txos/ke/task/task.c:40-118 | a run that reaches such a prev: two tasks, the first freed, a lower block freed by another client, and a task created, which gets that block and for its directory the one the stale prev names |
| TaskLeak.FreeBoth | free95/base/txos/ke/task/task.c:87-118 | freeing both tasks from there leaves the list empty and one page table taken, by no one |
| TaskLeak.LeakRun | free95/base/txos/ke/task/task.c:40-118 | the whole run, from an empty list to an empty one: a block that was free before is taken for good |
| Decimal.DigitsCanonical | free95/applications/appinclude/print.c:60-86 | the notation has no leading zero and denotes the number |
| Decimal.CanonicalIsDigits | free95/applications/appinclude/print.c:60-86 | it is the only such notation |
| Decimal.DigitsExample | free95/applications/appinclude/print.c:60-86 | the notation of 1204 |
| Decimal.EmittedIsReversed | free95/applications/appinclude/print.c:71-75 | the digit loop emits the notation backwards |
| Decimal.Emit | free95/applications/appinclude/print.c:71-75 | the digits, last one first, and nothing else written |
| Decimal.ReversePrefix | free95/applications/appinclude/print.c:80-85 | the swap loop reverses the prefix in place |
| Decimal.CreateStringFromUint | free95/applications/appinclude/print.c:60-86 | the canonical notation and a NUL, and no other byte |
| ScreenSize.ReadDigits | free95/base/txos/init/kernel.c:311-323 | a run of digits and its value as a wrapping int |
| ScreenSize.FetchWH | free95/base/txos/init/kernel.c:305-325 | 2 exactly for digits, x, digits, end of text or line, with the two numbers modulo 2^32 |
| ScreenSize.PrintThenFetch | free95/base/txos/init/kernel.c:305-325 | two numbers written in decimal are read back the same if and only if they are below 2^31 |

## Left out

- BlockHeap.Heap.Create: the half-filled heap record that a failed heap_create leaves behind, and heaps whose pool wraps around or is larger than 2 GiB, where offsets overflow an int.
- BlockHeap.Heap.Malloc: in the one case where the allocator marks past its table, the memory behind the table must belong to the entries array; what such a mark does to unrelated memory is not modelled.
- BlockHeap.Heap.Free: addresses in front of the pool, for which C writes in front of the table.
- KernelHeap.Kernel.KMalloc: the case of a free tail too short for the request, in which the table is corrupted; BlockHeap.Heap.Malloc covers it.
- KernelHeap.Kernel.KZalloc: sizes 0 and above 2^32 - 4096, for which no block is taken and memory is cleared all the same.
- AddressSpaces.New4gb: requires 1026 free blocks; the C code uses the results of kzalloc without checking them.
- Paging.MapRangeIntended: aligned addresses only; it is the intended version, and the source has no such loop.
- Paging.MapPagesExact: at most 2^20 pages, the whole address space; more would map pages twice.
- PathParser.Parse: requires a block for each allocation; the C code checks only the root's. The current_directory_path argument is unused in the source.
- PathParser.GetPathPart: requires the part to be shorter than the 108-byte buffer, which the length test of pathparser_parse ensures.
- Streamer.DiskStream.Read: requires that the copy stays inside the 512-byte sector buffer; beyond it C reads stack memory.
- FatVolume.ReadIsFileIff: positions are unbounded integers; a byte position of 2 GiB or more, which no volume within the FAT16 limits has, would overflow an int in C.
- Fat16.FileSystem.GetFatEntry: the stream of the FAT always exists.
- Fat16.ReadMembers: requires sizes, offsets and counts below 2^31, since C keeps them in an int; and only reads whose copies stay in the sector buffer, as stated by StreamableMembers, since C returns stack memory otherwise. An ERROR-coded result is the negative number itself.
- Loader.RelocMemory: only well-formed directories whose sites lie in the image and not in the directory; elsewhere C writes outside the buffer or over the directory it is reading. SizeOfBlock below 8 does not end the loop in C and is not modelled.
- RelocDirectory.LoadsDiffer: sites that overlap each other.
- Loader.Load: the parsed header is a set of parameters; header parsing, the null processedFile and the fixed 6200-byte file buffer are not modelled.
- StrTok.Cutter.NextToken: strings in other buffers that share memory with the one being cut; the buffer is a whole array and the string starts at its beginning.
- BatchScript.ExecLines: commands that use strtok themselves, such as one that runs another batch script and so moves the shared cursor; opening and reading the file.
- Terminal.TextTerminal.WriteChar: `char` is signed and characters are bytes here; from 128 on the sign fills the colour byte, as in the source.
- Tasks.TaskList.New: requires 1027 free blocks; on failure C frees a task that has no address space, or reads a null pointer. The process pointer is a word that is only stored.
- Tasks.TaskList.Free: lists whose books an earlier removal has upset. TaskLinks.RunLinkedIff covers the links on every run, TaskLeak.FreeBoth the memory in one such state.
- Tasks.TaskList.FreeFirstThenNew: requires the first removal to keep the books; Tasks.TaskList.Free covers the others.
- TaskLeak.LeakRun: requires room for three tasks, although one is freed before the third is created.
- TaskSetup.Allocate: scheduling itself; nothing in the kernel sets the current task or runs one.
- ScreenSize.ReadDigits: overflow of `int` wraps, which C leaves undefined.
- ScreenSize.PrintThenFetch: two printed numbers put together by this method; no function of the kernel does so.
- FAT subdirectories, file names and directory search: the source overwrites the directory type, so a subdirectory is never walked as one. There is no write path.
- paging_switch, CR0 and CR3, the GDT, IDT and TSS, the PIC, ATA and VGA ports: they act on hardware.
- Process loading: process_load_binary is a stub in the source.
- Debug output, the shell prompt, fonts, keyboard scan codes and the demo applications: they only produce output or read devices, and none of the results above depends on them.
- memset, strcpy, strncpy, string comparison and mode-string parsing have no contracts of their own; memset is modelled where memory is cleared.
