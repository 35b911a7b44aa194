# TownOS kernel model

A Dafny model of the TownOS kernel: its FAT32 driver, its memory stack (frame bitmap, heap, page tables, SYS_MMAP
regions, the libc allocator, the ELF loader) and its process kernel (tasks, descriptors, pipes, signals, scheduling).
Nothing here executes; every statement below is a contract the verifier proves.

Three results carry most of the weight.

* **FAT32.** The disk is an array of 512-byte sectors and the driver is a class whose ghost log holds every disk state,
  one per sector written. `Fat32Driver.Fat32.WriteFile` is proved crash-atomic over that log, and
  `Fat32Driver.Fat32.Run` shows that over any run of writes and deletes every name reads as what was last written to it.
  `Fat32Format` writes the format down from the sectors alone, and the driver is proved to read and write that.
* **Memory.** The heap works on raw bytes: headers, footers and doubly linked lists are read and written through them,
  and the proofs relate those bytes to a list of blocks (`HeapCells`, `HeapBlocks`, `Heap`). Page tables are records
  of 512 entries, kept by frame address; `PageTables.WalkIsTree` ties the processor's four-level walk through them to
  the tree a task owns, and `Paging.Paging.Run` shows that no frame is ever within reach of two programs. Every call
  that can run out of memory succeeds exactly when a stated number of frames is free.
* **Processes.** `Machine.Machine` holds the task table, the files and pipes, the key ring, the trees and the live
  frame. `Runs` says what a step from one moment outside the kernel to the next may be, and proves for every run of such
  steps what becomes of a call that waits, how long a ready task waits, that programs stay in ring 3, and that the
  bytes read from a pipe are a prefix of those written to it.
  `Kernel.System` drives the machine with traps, ticks, keys and idle wake-ups in any order and records every moment:
  its `Good` invariant contains the single-runner, descriptor, pipe-count, lost-wake-up and address-space invariants and
  says that the record is a run.

## Files

| file | models |
|---|---|
| `Bytes.dfy` | little-endian fields, bits, splicing |
| `Grants.dfy` | the answers `kmalloc` gives the FAT32 driver and the process kernel, as a list that is an input |
| `Fat32Disk.dfy`, `Fat32Volume.dfy`, `Fat32Layout.dfy`, `Fat32Alloc.dfy`, `Fat32Names.dfy`, `Fat32Commit.dfy`, `Fat32Format.dfy`, `Fat32Driver.dfy` | `fs/fat32.c` |
| `Frames.dfy` | `kernel/memory.c` |
| `HeapCells.dfy`, `HeapBlocks.dfy`, `Heap.dfy`, `KernelHeap.dfy` | `kernel/heap.c` |
| `PageTables.dfy`, `Paging.dfy` | `kernel/paging.c` |
| `Regions.dfy` | SYS_MMAP and SYS_MUNMAP in `kernel/syscall.c` |
| `UserHeap.dfy` | `libc/malloc.c` |
| `Elf.dfy` | `kernel/elf.c` |
| `Pipes.dfy`, `Signals.dfy` | `kernel/pipe.c`, `kernel/signal.c`, one pipe or one task at a time |
| `Processes.dfy`, `Machine.dfy`, `Runs.dfy`, `Kernel.dfy`, `Counterexamples.dfy` | `kernel/scheduler.c`, `kernel/file.c`, `kernel/syscall.c`, `kernel/signal.c` together |

`dafny verify dfyconfig.toml` checks the whole project.

## Where the code and its words disagree

The model follows the code.

* `include/syscalls.h` says SYS_READKEY returns 0 when no key is waiting; the code parks the caller.
* `kernel/paging.h` says the kernel half is shared by reference; the code copies its directory entries by value.
* `fat32_delete` frees the chain before it marks the entry, so a crash in between leaves a live entry that names free
  clusters, exactly when the file had any (`Fat32Commit.DeleteGap`, `Fat32Driver.Fat32.Delete`). Every name still reads
  as before, or the deleted one as nothing. A write leaves no such moment.
* `fat32_write_file` accepts a name that begins with byte 0xE5; the entry it writes counts as deleted, so the name stays
  absent and its clusters belong to nobody (`Fat32Driver.Fat32.WriteFile`, `Fat32Names.LostNames`,
  `Fat32Driver.LoseClusters`).
* `free_chain` reports a cycle only when the walk has covered every cluster of the volume (`Fat32Driver.Fat32.FreeChain`).
* `malloc` rounds the seven largest sizes to 0, and `calloc` then clears more than it was given
  (`UserHeap.Round8Covers`, `UserHeap.Libc.Calloc`, `UserHeap.Overrun`, `UserHeap.Overruns`).
* `kmalloc` cuts its page count to an int, so it may grow by too little from 2^43 - 4135 bytes on (`KernelHeap.PagesEnough`).
* `deliver_to_handler` checks 184 bytes from the saved frame upward but writes eight bytes below it, which for sixteen
  values of the stack pointer lie below the ring-3 region (`Signals.WritesContained`, `Signals.WritesBelowRegion`).
* The comment in `sys_mmap` says a refused call cost the task nothing; the page table of the heap slot stays exactly
  when there was none and two frames were free (`Regions.UserSpace.Mmap`, `Regions.RefusedKeepsTable`,
  `Regions.FiveFrames`).
* The comment in `el_append_pages_to_heap` says the heap is the frame pool's only consumer; address spaces take frames
  too, and the model lets growth be refused.
* The comment above `check_signals` speaks of every return to ring 3; after a death the incoming task is not looked at
  until its next kernel entry (`Machine.Machine.CheckSignals`, `Counterexamples.Unchecked`).
* The comment in `task_block` says one signal cuts one syscall short; when the interrupted call succeeds on re-issue the
  mark stays, and a later call with no signal behind it fails (`Runs.GoesStale`, `Runs.StaysStale`,
  `Counterexamples.StaleMark`).

## Model

| member | source | states |
|---|---|---|
| `Fat32Names.NameTo83` | fs/fat32.c:699-728 | for a spelling whose first dot, or end, is at d: nothing exactly when d is 0 or above 8 or more than three bytes follow the dot; otherwise the base in capitals and blanks to eight bytes, the extension in capitals and blanks to three |
| `Fat32Names.StoredBytes` | fs/fat32.c:699-728 | the same of the stored name every other result speaks of |
| `Fat32Names.SameStored` | fs/fat32.c:689-728 | two spellings without blanks have the same stored name if and only if, a final dot aside, they differ only in letter case |
| `Fat32Names.CaseInsensitive` | fs/fat32.c:689-728 | spellings that differ in letter case only have the same stored name or both have none |
| `Fat32Names.LostNames` | fs/fat32.c:699-728 | a stored name starts with the deleted mark exactly when its spelling starts with that byte: the names a write cannot make findable |
| `Fat32Commit.NothingReadsDeleted` | fs/fat32.c:1100-1164 | no search finds a name that starts with the deleted mark |
| `Fat32Driver.Fat32.GetEntry` | fs/fat32.c:356-377 | the entry read is the abstract table entry and the low 28 bits of the word in the first copy of the table on the disk |
| `Bytes.LowestFirst` | fs/fat32.c:369-374 | words are little-endian: the lowest byte first, a longer word two shorter ones |
| `Fat32Driver.Fat32.SetCopy` | fs/fat32.c:425-456 | one copy: the new value in the low 28 bits, the reserved top bits kept, no other slot, cluster or sector changed |
| `Fat32Driver.Fat32.SetEntry` | fs/fat32.c:425-456 | all copies end up with the value in their low 28 bits; from the first sector on a reader already sees the final table; copies in step stay in step |
| `Fat32Driver.Fat32.ScanSpan` | fs/fat32.c:489-534 | the sector-at-a-time scan of a span finds its first free cluster, or shows there is none |
| `Fat32Driver.Fat32.FindFreeCluster` | fs/fat32.c:489-534 | the wrapping scan succeeds exactly when some cluster is free, picks the first one at or after the hint in cyclic order, and moves the hint past it |
| `Fat32Driver.Fat32.FreeCount` | fs/fat32.c:542-571 | the block-wise count is the number of free clusters |
| `Fat32Driver.Fat32.FreeChain` | fs/fat32.c:592-629 | terminates on every table, cyclic ones included; zeroes exactly the in-range clusters walked from the start and nothing else; when it reports failure |
| `Fat32Alloc.WalkIsReach` | fs/fat32.c:592-629 | the clusters the bounded walk visits are exactly those reachable from the start through non-free in-range links |
| `Fat32Driver.Fat32.AllocChain` | fs/fat32.c:644-683 | succeeds exactly when the clusters asked for are free; then a fresh END-terminated chain of that many previously free clusters; otherwise every table slot is restored |
| `Fat32Alloc.AskedExact` | fs/fat32.c:644-648 | the 32-bit cluster count is right exactly when bytes + cluster size - 1 fits 32 bits; past that it is 0 |
| `Fat32Driver.Fat32.LocateRootEntry` | fs/fat32.c:1100-1164 | with its buffer granted the directory walk answers what the pure search of the volume answers: found where, not found, or a broken chain; an error for want of memory exactly when the buffer is refused |
| `Fat32Driver.Fat32.ReadFile` | fs/fat32.c:1005-1084 | with its two buffers granted it returns exactly the contents of the file of that name on the disk, found from the sectors alone as the format says, if they fit the caller's buffer; on every disk, damaged ones included |
| `Fat32Format.ReadsFormat` | fs/fat32.c:1005-1164 | on every disk a name reads as given bytes if and only if the sectors hold such a file: an entry with those eleven name bytes, first in the root's chain, neither deleted nor a label nor part of a long name nor a directory, its start cluster and size where the format has them, and clusters linked through the table that hold the bytes |
| `Fat32Format.SlotPlace` | fs/fat32.c:356-456 | slot c of copy k of the table is the little-endian word at byte 4 (c mod 128) of sector reserved + k spf + c / 128 |
| `Fat32Format.ChainPlace` | fs/fat32.c:592-683 | the driver's chains are the format's: clusters linked through the first copy, none twice, the last entry 0x0FFFFFF8 or above |
| `Fat32Driver.Fat32.ReadEntry` | fs/fat32.c:1037-1084 | the cluster loop with its partial last copy equals the recursive reading of the chain |
| `Fat32Driver.Fat32.FillChain` | fs/fat32.c:1443-1488 | after the loop the chain holds exactly the source bytes and nothing outside the chain changed |
| `Fat32Driver.Fat32.FindSlot` | fs/fat32.c:1178-1215 | the first free or deleted slot in directory order, or the last cluster of a directory that has none |
| `Fat32Driver.Fat32.GrowDirectory` | fs/fat32.c:1216-1259 | the new cluster is zeroed before it is linked, so no name reads differently at any moment; failure restores the volume |
| `Fat32Driver.Fat32.FindFreeDirent` | fs/fat32.c:1178-1259 | succeeds exactly when its one or two buffers are granted and a slot exists or a cluster is free to make one; the slot is the first free one; every disk state on the way reads the same |
| `Fat32Driver.Fat32.WriteDirentAt` | fs/fat32.c:1265-1276 | one sector write replaces exactly one 32-byte entry of the directory |
| `Fat32Driver.Fat32.FsinfoInvalidate` | fs/fat32.c:1292-1324 | both hints become 0xFFFFFFFF exactly when there is an FSInfo sector with its three signatures, and nothing else on the disk ever changes |
| `Fat32Driver.Fat32.StageData` | fs/fat32.c:1433-1488 | the new contents go into free clusters only; succeeds exactly when the buffer is granted and as many clusters are free as the bytes need; every disk state on the way reads as before; failure leaves no trace |
| `Fat32Driver.Fat32.CommitEntry` | fs/fat32.c:1489-1520 | one sector write is the commit point: before it the name reads as it did, after it as the new bytes |
| `Fat32Commit.NewEntryMeans` | fs/fat32.c:1489-1520 | the entry written: the name, attribute 0x20, the two halves of the start cluster at 20 and 26, the size at 28, zeros elsewhere |
| `Fat32Driver.Fat32.ReplaceEntry` | fs/fat32.c:1501-1533 | over an existing entry: commit, then the old chain comes back; free count up by the old chain, down by the new |
| `Fat32Driver.Fat32.AddEntry` | fs/fat32.c:1501-1533 | for a new name: a slot, perhaps a grown directory, then the commit; succeeds exactly when the buffers are granted and, for a full directory, one cluster more than the data needs is free; failure gives the staged chain back |
| `Fat32Driver.Fat32.WriteFile` | fs/fat32.c:1405-1533 | crash-atomic replace: once it succeeds the disk holds the file, by the format; after every single-sector write the volume has a layout and every name reads as before, or the written one as exactly the new bytes; success exactly when the name has a stored form, is a file or new, clusters suffice and every buffer the call asks for is granted; free count and unowned clusters accounted for exactly, including the leak for a name starting with the deleted mark |
| `Fat32Driver.CrashNoGap` | fs/fat32.c:1405-1533 | a sequence of disk states that all satisfy that has no moment without a layout |
| `Fat32Driver.CallerFits` | kernel/syscall.c:419-433 | a buffer that passes the range check of SYS_WRITEFILE is short enough for the 32-bit cluster count |
| `Fat32Driver.Fat32.WriteThenRead` | fs/fat32.c:1005-1533 | read after write under any spelling with the same stored form returns the bytes written, when the buffers of both calls are granted |
| `Fat32Driver.Fat32.Delete` | fs/fat32.c:1330-1370 | succeeds exactly when the search buffer is granted and the name is a file with a sound chain; then the name is gone, exactly its clusters come back and no other name changes; a refused one writes nothing; after every single-sector write every name reads as before or the deleted one as nothing; there is a moment without a layout if and only if the file owned clusters |
| `Fat32Driver.PartlyReads` | fs/fat32.c:1330-1370 | with any part of a file's chain already freed its name reads as before or as nothing, and every other name as before |
| `Fat32Commit.DeleteGap` | fs/fat32.c:1330-1370 | between freeing the chain and marking the entry the volume is well formed under no layout exactly when the file owns clusters |
| `Fat32Driver.Fat32.Run` | fs/fat32.c:1330-1533 | over any run of writes and deletes SYS_WRITEFILE and SYS_DELETE can ask for, failing ones and names that start with 0xE5 included: each call succeeds exactly when it can where it stands; at the end every name reads as the last bytes successfully written to it, or as nothing after its delete; chains stay acyclic, terminated and disjoint, FAT copies and reserved bits are kept, and the unowned clusters grow by exactly those of the files written under names nobody can find |
| `Fat32Driver.NothingLost` | fs/fat32.c:1405-1533 | without a successful write of a name that starts with 0xE5 that number is 0 |
| `Fat32Driver.LoseClusters` | fs/fat32.c:1405-1533 | on a blank volume, writing any bytes that fit under the one-byte name 0xE5 succeeds, leaves every name absent, and leaves as many clusters as the bytes need owned by nobody |
| `Frames.FramePool.AllocFrame` | kernel/memory.c:202-210 | the lowest free frame is marked and returned; 0 exactly when none is free |
| `Frames.FramePool.AllocContiguous` | kernel/memory.c:218-238 | the one-pass run counter finds the lowest run of the length asked for, or shows there is none |
| `Frames.FramePool.FreeFrame` | kernel/memory.c:240-248 | clears exactly the bit of the address; addresses outside the pool change nothing |
| `Frames.FramePool.ReserveRange` | kernel/memory.c:124-139 | marks exactly the frames of the pool that overlap the range |
| `Frames.FramePool.FramesUsed` | kernel/memory.c:250-258 | the loop counts exactly the frames marked used |
| `Frames.UsedCount` | kernel/memory.c:250-258 | the number of set bits is the number of frames marked used |
| `Frames.MarkUnmark` | kernel/memory.c:218-248 | giving back a run that was free when taken restores the bitmap |
| `Frames.InitPool` | kernel/memory.c:160-200 | a pool as memory_init leaves it on a machine without memory holes: exactly the frames of 4M to 10M are taken |
| `Heap.ElHeap.constructor` | kernel/heap.c:318-355 | el_init on raw bytes: one available block tiling the slab, both lists set up, nothing else written |
| `Heap.ElHeap.AddFront` | kernel/heap.c:196-205 | the block becomes the first node of the list of its state; counters follow; no header field but links changes |
| `Heap.ElHeap.Remove` | kernel/heap.c:207-216 | the block leaves its doubly linked list, whose other nodes keep their order |
| `Heap.ElHeap.FindFirstAvail` | kernel/heap.c:222-233 | a fitting node of the available list, or a proof that no available block fits |
| `Heap.ElHeap.Split` | kernel/heap.c:235-249 | the block is cut exactly when the rest can hold its own tags; header and footer of both parts agree |
| `Heap.ElHeap.Malloc` | kernel/heap.c:251-265 | first fit in list order; the new lists and blocks are exactly those of the pure allocation; no handed-out byte is written; nothing changes on failure |
| `Heap.ElHeap.BlockAbove` | kernel/heap.c:158-166 | the next block in address order, NULL for the last |
| `Heap.ElHeap.BlockBelow` | kernel/heap.c:168-175 | the previous block in address order, found through its footer, NULL for the first |
| `Heap.ElHeap.MergeWithAbove` | kernel/heap.c:271-291 | two available neighbours become one at the front of the list; anything else is left alone |
| `Heap.ElHeap.Free` | kernel/heap.c:293-309 | a live block is returned and merged both ways; a header not marked used changes nothing; other payloads are untouched |
| `Heap.ElHeap.Append` | kernel/heap.c:371-394 | the new memory becomes the last block; every payload survives |
| `Heap.ElHeap.UsedBytes` | kernel/heap.c:522-540 | the whole-heap walk sums exactly the payload bytes in use and never exceeds its bound |
| `HeapBlocks.Resplice` | kernel/heap.c:235-309 | blocks in neither list may be replaced by others covering the same span: the lemma behind split, merge and growth |
| `HeapBlocks.FreedApart` | kernel/heap.c:271-309 | no two available blocks are ever neighbours |
| `HeapBlocks.FreedUsed` | kernel/heap.c:293-309 | after a free exactly the other used blocks are in use |
| `HeapBlocks.CarveUsed` | kernel/heap.c:235-265 | after an allocation exactly the new block and the old used ones are in use |
| `HeapBlocks.TotalAll` | kernel/heap.c:196-216 | available bytes plus used bytes are the bytes of the heap |
| `HeapBlocks.AllFreeIsOne` | kernel/heap.c:293-309 | with every block given back, in any order, the heap is a single block |
| `KernelHeap.PagesEnough` | kernel/heap.c:476-493 | the pages kmalloc asks for hold the request exactly when size + 40 + 4095 is below 2^43, and are never more than 16 or what the request needs |
| `KernelHeap.LiveApart` | kernel/heap.c:251-309 | payloads of live blocks share no byte |
| `KernelHeap.KernelHeap.constructor` | kernel/heap.c:467-471 | the heap starts as one block on the first free run of 16 frames |
| `KernelHeap.KernelHeap.AppendPages` | kernel/heap.c:357-394 | the slab grows exactly when the lowest free run of that length starts at its end; otherwise the run goes back and nothing changes |
| `KernelHeap.KernelHeap.Kmalloc` | kernel/heap.c:476-493 | a new live block of at least the size and fewer than 40 bytes over, payloads kept; fails exactly when nothing fits and the slab cannot grow, for every size whose page count fits an int |
| `KernelHeap.KernelHeap.Kfree` | kernel/heap.c:495-499 | exactly one live block goes away; other payloads keep their bytes |
| `KernelHeap.KernelHeap.Run` | kernel/heap.c:196-499 | over any run of kmalloc, valid kfree, payload writes and frame allocations each step takes one block, gives one back, changes one byte or is refused for the reason Kmalloc gives; the pointers held are exactly those of the live blocks, and when everything is given back one block is left |
| `KernelHeap.Remembers` | kernel/heap.c:196-499 | over any such run a byte written into a block reads back until the block is freed or the byte written again, whatever is allocated and freed around it |
| `PageTables.WalkIsTree` | kernel/paging.c:76-220 | the processor's four-level walk through a task's tables reaches exactly the task's pages, with their write permission, and no kernel memory |
| `PageTables.KernelHalf` | kernel/paging.c:134-195 | the walk as ring 0 makes it through a task's tables reaches, in the first gigabyte outside the three program slots, exactly what the boot directory gives, in those slots the task's pages, and nothing beyond |
| `Paging.Paging.AllocTable` | kernel/paging.c:107-114 | a blank table in a frame nothing owns; fails, taking nothing, exactly when no frame is free |
| `Paging.Paging.NextTable` | kernel/paging.c:123-132 | the existing table of the slot, or a new blank one linked under it; fails exactly when there is none and no frame is free |
| `Paging.Paging.CreateAddressSpace` | kernel/paging.c:134-195 | three fresh frames form a tree whose directory is the boot directory entry by entry, but for the three program slots, which are empty; the kernel is reached through it as through the boot tables; succeeds exactly when the handle was allocated and three frames are free; a failure on the way returns every frame |
| `Paging.Paging.KernelKept` | kernel/paging.c:134-195 | whatever is mapped in it, through every live tree the kernel is reached where the boot directory has it |
| `Paging.Paging.MapPage` | kernel/paging.c:197-220 | the page reaches the frame, at most one page table is added, all other translations of all trees stay; fails, changing nothing, exactly when its table is missing and no frame is free |
| `Paging.Paging.LookupPte` | kernel/paging.c:333-351 | finds the page-table entry of a user page exactly when its slot has a table |
| `Paging.Paging.UnmapRange` | kernel/paging.c:353-375 | exactly the mapped pages of the range go, and exactly their frames are freed |
| `Paging.Paging.MapRange` | kernel/paging.c:377-415 | all pages mapped to zeroed fresh frames exactly when as many frames are free as pages and missing tables need; otherwise the leaves are as before, and of the tables the first is kept exactly when it was there or two frames were free |
| `Paging.CostOneSlot` | kernel/paging.c:377-415 | within one slot that number is the number of pages, and one more if the slot has no table |
| `Paging.Paging.DestroyPageTable` | kernel/paging.c:235-243 | frees the leaf frames of one slot and the table itself |
| `Paging.Paging.DestroyAddressSpace` | kernel/paging.c:245-327 | exactly the frames the tree owned are marked free |
| `Paging.Paging.Isolated` | kernel/paging.c:76-327 | two translations of live trees reach the same frame only if they are the same page of the same tree; the frame is marked used and not the kernel's |
| `Paging.Paging.TakeForKernel` | kernel/memory.c:218-238 | frames taken for the kernel heap are no tree's |
| `Paging.Paging.Run` | kernel/paging.c:76-415 | over any run of creations, mappings, unmappings, destructions and kernel growth each operation does to the trees and the frames in use exactly what the free frames decide, and every frame has one owner, so no frame is within reach of two programs; through every live tree the kernel is where the boot directory has it |
| `Paging.Booted` | kernel/memory.c:160-200 | with 4M to 10M reserved at start-up, over any such run every frame a program reaches lies above 10M, clear of the addresses its own page tables take away from the kernel |
| `Paging.Paging.FramesHeld` | kernel/paging.c:353-375 | mapped pages of a tree hold as many used frames as there are pages |
| `Regions.UserSpace.Mmap` | kernel/syscall.c:677-727 | granted exactly for 1 to 2M bytes with an entry free, the rounded length fitting between the highest end and 10M, and as many frames free as pages and a missing table need; the reason of every refusal follows in the order of the checks, and the total-bytes rejection never happens; a grant is pages ring 3 can write, in frames that were free and full of zeros, right above all regions, in the first free entry; a refusal leaves regions and leaves as they were, and keeps the heap slot's page table exactly when it was there or two frames were free |
| `Regions.UserSpace.SaysMeans` | kernel/syscall.c:677-727 | the same condition, in numbers, for the verdict other results speak of |
| `Regions.UserSpace.HeapSeen` | kernel/syscall.c:677-766 | of the heap slot ring 3 reaches exactly the pages of the regions, and can write them |
| `Regions.UserSpace.Munmap` | kernel/syscall.c:744-766 | succeeds exactly for a region held, named by start and rounded length; then exactly its pages go, and as many frames as it has pages are free again |
| `Regions.UserSpace.Run` | kernel/syscall.c:677-766 | over any run each call is granted or refused, and changes table and free frames, exactly as the regions, the free frames and the page tables it finds say; the regions are aligned, disjoint and in the heap slot, and the mapped heap pages are exactly their union |
| `Regions.HeldBelowTop` | kernel/syscall.c:687-719 | the bytes of all regions fit below the highest end: why the sum check cannot fire where the ceiling check passed |
| `Regions.RefusedCost` | kernel/paging.c:377-415 | a refused SYS_MMAP keeps the heap slot's page table, one frame that was free, or nothing at all |
| `Regions.HeapCost` | kernel/paging.c:377-415 | n pages of the heap slot need n frames, and one more if the slot has no table |
| `Regions.RefusedKeepsTable` | kernel/paging.c:377-415 | with two frames free, no table yet and two pages asked for, the call answers SYSCALL_ERROR and one frame is gone |
| `Regions.FiveFrames` | kernel/paging.c:377-415 | on a machine with five frames beyond the reserved ones, one task's first SYS_MMAP of two pages is refused with two frames free before it and one after |
| `UserHeap.Round8Covers` | libc/malloc.c:414-444 | malloc's rounding is the next multiple of 8 for sizes up to 2^64 - 8 and 0 for the seven above |
| `UserHeap.RoundingWraps` | libc/malloc.c:414-444 | the largest size is rounded to 0 |
| `UserHeap.DivTest` | libc/malloc.c:456-460 | calloc's division test detects exactly the products that do not fit 64 bits |
| `UserHeap.SlabHeap.NewSlab` | libc/malloc.c:363-404 | the new slab lands at the heap's end exactly when SYS_MMAP grants it and malloc is its only caller; one that lands elsewhere is given back |
| `UserHeap.SlabHeap.AppendPages` | libc/malloc.c:363-404 | succeeds exactly when SYS_MMAP, asked in the state before the call, grants the pages and malloc is its only caller; payloads survive growth |
| `UserHeap.SlabHeap.Allocate` | libc/malloc.c:414-444 | grow and retry: NULL, for a sole caller, exactly when no available block fits and SYS_MMAP refuses the pages, for sizes whose page count fits an int; every live block and its bytes are kept |
| `UserHeap.Libc.Init` | libc/malloc.c:320-361 | the first slab becomes one available block exactly when SYS_MMAP grants it; otherwise nothing is set up |
| `UserHeap.Libc.Malloc` | libc/malloc.c:414-444 | an 8-aligned new live block of at least the size, all others live still with their bytes; for a sole caller NULL exactly when neither the blocks at hand nor SYS_MMAP can serve the rounded size, for every size that rounds to at most 2^43 - 4136, the wrapped ones included |
| `UserHeap.Libc.BlockSeen` | libc/malloc.c:363-444 | every byte of every block handed out and not given back lies in a page ring 3 reaches and can write |
| `UserHeap.Libc.Free` | libc/malloc.c:446-451 | a live block goes away and no other live byte changes; NULL is allowed |
| `UserHeap.Libc.Calloc` | libc/malloc.c:456-468 | all count * size bytes read zero, or NULL, with all other payloads kept; NULL exactly when the product does not fit 64 bits or malloc cannot serve it; for a sole caller the block is shorter than the bytes to clear exactly when the product lies in (2^64 - 8, 2^64) and malloc can serve an empty block |
| `UserHeap.Overrun` | libc/malloc.c:456-468 | in any heap not yet set up whose first slab SYS_MMAP grants, calloc(1, 2^64 - 1) returns a block shorter than the bytes it clears |
| `UserHeap.Overruns` | libc/malloc.c:456-468 | a new program on a machine with twenty frames beyond the reserved ones is such a case |
| `UserHeap.Libc.Run` | libc/malloc.c:320-468 | over any run of malloc, calloc, free in any order, writes through the pointers held and regions mapped elsewhere, the pointers held are exactly those of the live blocks, and when all are given back one block is left |
| `Elf.Validate` | kernel/elf.c:153-261 | accepts exactly the files whose header fields, read at their offsets, are those of a 64-bit little-endian x86-64 executable with 1 to 32 program headers of 56 bytes inside the file, at least one of them to load, and every one of those with its bytes in the file, no fewer in memory, and whole pages |
| `Elf.HeaderFields` | kernel/elf.c:153-261 | each field of a program header the loader uses is the word at its offset in the file, and a segment is writable exactly when bit 1 of its flags is set |
| `Elf.ImageLast` | kernel/elf.c:273-375 | a page shows the last segment that covers it, zero past its file size |
| `Elf.ImageOnly` | kernel/elf.c:350-375 | a page no segment covers is not part of the image |
| `Elf.LoadPage` | kernel/elf.c:310-344 | one page of a segment is in place exactly when a frame is free for it and one for its table if that is missing; otherwise the image built so far still is, and the one frame taken for the page is lost when only the table could not be had |
| `Elf.LoadSegment` | kernel/elf.c:273-348 | the whole segment is in place exactly when it lies in the program window and the frames that were free before the load cover the pages loaded so far, its own and every page table they all miss |
| `Elf.Load` | kernel/elf.c:350-375 | succeeds exactly when the file is well formed, every loadable segment lies in the program window, and as many frames are free as all pages of all segments and the page tables they miss need; then the tree holds exactly the image of the file, in frames that were free, and other trees are untouched |
| `Elf.ImageSeen` | kernel/elf.c:350-375 | what ring 3 reads through the hardware walk after a load is exactly the image, writable where the covering segment is, and nothing outside the window is mapped |
| `Elf.FileSeen` | kernel/elf.c:273-375 | after a load into an empty tree, from the bytes of the file alone: a page is within reach of ring 3 exactly when some header to load covers it; it is writable exactly when bit 1 of the flags of the last such header is set; each of its bytes is the file's at that header's offset, or zero past its file size |
| `Elf.WindowMeans` | kernel/elf.c:273-308 | segments pass the window check exactly when they lie in 0x400000 to 0x7C0000 |
| `Pipes.Drain` | kernel/pipe.c:36-68 | the read loop takes the oldest bytes in order and leaves the rest |
| `Pipes.Fill` | kernel/pipe.c:70-109 | the write loop appends the bytes behind what is buffered |
| `Pipes.Stream.Read` | kernel/pipe.c:36-68 | end of file exactly when everything written was read and no writer is left, and for ever after |
| `Pipes.Stream.Write` | kernel/pipe.c:70-109 | as many bytes as fit; broken exactly when no reader is left; parks exactly when full |
| `Pipes.Stream.Run` | kernel/pipe.c:29-109 | over any interleaving each call moves, parks, ends or breaks exactly as the pipe it finds says; the bytes read are a prefix of the bytes written and the ring holds exactly the rest; after an end of file only ends of file |
| `Signals.Target.Install` | kernel/signal.c:262-288 | accepted exactly for signals 1 to 31 but 9, a handler that is 0 or in 0x400000 to 0xA00000, and a trampoline there; then one handler changes |
| `Signals.Target.Deliver` | kernel/signal.c:101-169 | exactly for a stack pointer from 0x400130 to below 0xA00080 the task goes on at the handler with the signal in rdi, all other registers but rsp as before, rsp mod 16 = 8, the trampoline at rsp and the whole old frame, register by register, above it; otherwise it dies with status 139 and memory untouched |
| `Signals.Target.CheckSignals` | kernel/signal.c:182-260 | the lowest pending signal kills with 128 + its number, is delivered with everything Deliver says, or nothing happens, case by case |
| `Signals.Target.SigReturn` | kernel/signal.c:290-340 | with a handler running and its frame in the region every register is the word at its place in that frame, but for ring-3 selectors and flags with bits 1 and 9 set and every other bit kept; otherwise death with status 139 |
| `Signals.FlagBits` | kernel/signal.c:336-336 | bits 1 and 9 of the flags are set and every other bit is as it was |
| `Signals.DeliveryMeans` | kernel/signal.c:101-169 | the forged memory and frame, word by word |
| `Signals.StackTakes` | kernel/signal.c:101-149 | the range check on the frame to save passes exactly for stack pointers from 0x400130 to below 0xA00080 |
| `Signals.RangeMeans` | kernel/memory.h:42-47 | a range is accepted exactly when all of it lies in 0x400000 to 0xA00000 |
| `Signals.RoundTrip` | kernel/signal.c:101-340 | delivery then return with the saved bytes unmodified restores the ring-3 frame exactly |
| `Signals.Target.Interrupt` | kernel/signal.c:101-340 | a handler that does anything short of touching the saved area returns the program to where it was |
| `Signals.ForgedBelow` | kernel/signal.c:101-169 | everything written lies below the 128-byte red zone; the handler is entered with rsp mod 16 = 8, section 3.2.2 of the System V AMD64 psABI |
| `Signals.WritesContained` | kernel/signal.c:137-160 | the writes stay inside the ring-3 region exactly when rsp >= 0x400000 + 320 |
| `Signals.WritesBelowRegion` | kernel/signal.c:137-160 | the eight bytes below the saved frame start below the region although the check passes exactly for the sixteen stack pointers 0x400000 + 304 to 0x400000 + 319 |
| `Processes.CountsAreSlots` | kernel/file.c:92-171 | a pipe's counts are the numbers of its read and write ends across all descriptor tables, and it exists exactly while some table holds one |
| `Machine.Machine.constructor` | kernel/scheduler.c:430-458 | the state scheduler_start enters satisfies every invariant |
| `Machine.Machine.Wake` | kernel/scheduler.c:613-637 | everyone waiting for that reason, and nobody else, becomes ready |
| `Machine.Machine.FindNextReady` | kernel/scheduler.c:490-501 | the first ready task above the given one, else the first from 0 up to it, or none exactly when none is ready |
| `Machine.Machine.IsParentAlive` | kernel/scheduler.c:692-703 | true exactly when the parent exists and is not a zombie |
| `Machine.Machine.Fell` | kernel/scheduler.c:727-744 | a zombie that is not current loses its tree: one that exists, is its own, and is not in CR3 |
| `Machine.Machine.Bury` | kernel/scheduler.c:744-755 | a task_t is freed only after its tree |
| `Machine.Machine.ReapSweep` | kernel/scheduler.c:720-756 | every zombie but the current task is left without a tree and with a live parent; exactly those nobody can wait for may be gone; statuses and everyone else are kept |
| `Machine.Machine.Dispatch` | kernel/scheduler.c:997-1033 | the picked task runs on its own frame and its own tree |
| `Machine.Machine.Schedule` | kernel/scheduler.c:920-1033 | sweep, save, round robin: the next ready task runs or the idle loop is entered; parked tasks stay as they are; no other task's frame, descriptors or tree change |
| `Machine.Machine.TaskBlock` | kernel/scheduler.c:538-611 | an interrupted call is told so; any other is parked with rip two bytes back, onto its int instruction, and nothing shared changed, and the next ready task after the caller runs, or with none ready the idle loop |
| `Machine.Rearmed` | kernel/scheduler.c:538-611 | re-executing the int the parked frame points at rebuilds the original frame |
| `Machine.Machine.FileAllocPipe` | kernel/file.c:92-110 | with its memory granted, and only then, a fresh file counted as one more end of the pipe; otherwise nothing |
| `Machine.Machine.FileDup` | kernel/file.c:112-129 | with its memory granted, and only then, a copy of the file counted as one more end of its pipe; otherwise nothing |
| `Machine.Machine.FileClose` | kernel/file.c:131-162 | the end is uncounted, last-end sleepers are woken, and the pipe is freed exactly when both counts are 0 |
| `Machine.Machine.CloseFd` | kernel/file.c:164-171 | the slot is cleared and its file closed |
| `Machine.Machine.AllocFd` | kernel/file.c:173-183 | the lowest free slot, or none |
| `Machine.Machine.SysClose` | kernel/syscall.c:181-188 | succeeds exactly for an open descriptor; then that file alone is closed |
| `Machine.Machine.SysPipe` | kernel/syscall.c:198-245 | succeeds exactly when the pointer is in range, two slots are free and all three allocations are granted; then two fresh ends of a fresh pipe in the two lowest free slots; every other path leaves files, pipes and slots as before |
| `Machine.Machine.SysReadKey` | kernel/syscall.c:273-293 | the oldest key, or a park that changes nothing shared |
| `Machine.Machine.SysRead` | kernel/syscall.c:135-173 | a call that need not wait has exactly the effect and answer of the atomic read; any other is parked or cut short and changes nothing shared |
| `Machine.Machine.SysWrite` | kernel/syscall.c:84-120 | the same for write, SIGPIPE case included |
| `Machine.ReadMeans` | kernel/syscall.c:135-173 | a read that is served takes the oldest bytes of the pipe, or the oldest keys, as many as there are, were asked for, and fit a page, leaves the rest in order, and answers their number |
| `Machine.WriteMeans` | kernel/syscall.c:84-120 | a write that is served appends the first bytes brought, as many as fit 4095 in all, and answers their number; with no reader left it appends none, answers the error and makes signal 13 pending |
| `Machine.Machine.ReadPipe` | kernel/pipe.c:36-68 | bytes in order with writers woken, end of file, or park |
| `Machine.Machine.WritePipe` | kernel/pipe.c:70-109 | bytes appended with readers woken, SIGPIPE, or park |
| `Machine.Machine.SysWait` | kernel/syscall.c:536-542 | the first dead child is buried, its status returned and its number stored as a little-endian word if a pointer is given; a bad pointer or no child fails; otherwise the caller parks |
| `Machine.Machine.TaskExit` | kernel/scheduler.c:758-830 | the status is kept, exactly the dead task's descriptors are closed and their files gone, pipe counts drop by them, the parent is woken, the next ready task runs or the idle loop; the dead task's tree still exists; pipe bytes of others survive; nobody else's record changes but by a wake-up |
| `Machine.Machine.Spawn` | kernel/scheduler.c:219-349 | succeeds exactly when a number is left and every allocation, those of the copied descriptors included, is granted; then a ready child of the caller on a tree nobody had, in the group asked for, about to start at the entry with nothing pending, with the inherited descriptors; otherwise every file, pipe and tree as before |
| `Machine.Machine.Register` | kernel/scheduler.c:120-217 | succeeds exactly when a number is left and every allocation is granted; then the next number, a tree nobody had and two consoles; otherwise nothing is taken |
| `Machine.Machine.SysRun` | kernel/syscall.c:340-377 | succeeds exactly when the path, the group, the descriptors, the program and the memory it needs are good; the child inherits exactly the files named, the caller's record and every pipe's bytes are kept |
| `Machine.StartsInRing3` | kernel/scheduler.c:160-172 | the forged first frame runs in ring 3 with interrupts on, at the entry point, with the stack at 8M and zeros in every general register |
| `Machine.UserMeans` | kernel/signal.c:320-338 | a frame counts as one of ring 3 exactly when its selectors are 0x1B and 0x23 and flag bits 1 and 9 are set |
| `Machine.BufferMeans` | kernel/syscall.c:84-173 | a transfer is let through exactly when its first 4096 bytes, or all, lie in the ring-3 region |
| `Machine.StoreMeans` | kernel/syscall.c:536-542 | SYS_WAIT stores exactly through no pointer or one whose eight bytes lie in the ring-3 region |
| `Machine.Machine.MayUseGroup` | kernel/scheduler.c:373-391 | true exactly for the caller's own group and those of its children that are not dead |
| `Machine.Machine.SysSetFg` | kernel/syscall.c:557-562 | the foreground changes exactly when the caller may use the group |
| `Machine.Machine.Raise` | kernel/signal.c:23-69 | the bit is set, and a parked task, and no other, is made ready with its call marked cut short; zombies, holes and bad numbers change nothing; no other field and no other task changes |
| `Machine.Machine.RaiseGroup` | kernel/signal.c:71-87 | exactly the live members of the group are struck |
| `Machine.Machine.SysKill` | kernel/syscall.c:614-624 | strikes the named live task, or fails and changes nothing |
| `Machine.Machine.SysSignal` | kernel/syscall.c:578-583 | one handler and the trampoline of the caller change, exactly for a catchable signal and good addresses |
| `Machine.Machine.CheckSignals` | kernel/signal.c:182-260 | on the way to ring 3 the lowest pending signal kills with 128 + its number, or with 139 for want of stack, with everything TaskExit says, or the task goes on at its handler with the number in rdi and no other register but rsp changed; afterwards the task that goes on has a signal that may be delivered if and only if the checked one died and this one had it before |
| `Counterexamples.Unchecked` | kernel/signal.c:182-260 | from the start, with every allocation granted: a child in the same group, Ctrl-C, the parent dies of it with status 128 + 2, and the child goes on in ring 3 with the signal waiting |
| `Machine.Machine.SigReturn` | kernel/signal.c:290-340 | the frame saved with ring-3 selectors and the interrupt flag forced, all other bits kept, while a handler runs; else the task dies with status 139 and everything TaskExit says |
| `Machine.Machine.Key` | drivers/keyboard.c:283-297 | the character is queued or dropped when full, and no key sleeper is left asleep |
| `Machine.Machine.CtrlC` | drivers/keyboard.c:254-263 | exactly the foreground group is interrupted |
| `Machine.Machine.CtrlD` | drivers/keyboard.c:264-276 | end of input is noted and no key sleeper is left asleep |
| `Machine.Machine.Resume` | kernel/scheduler.c:524-530 | the idle loop ends exactly when someone is ready, and then the round robin goes on from the current task |
| `Machine.Machine.Tick` | kernel/scheduler.c:920-1033 | a tick never idles: the interrupted task is ready and the next ready task runs |
| `Runs.SoundNext` | kernel/syscall.c:825-910 | every step of the kernel keeps, of every task: it stands on the int of the call it waits in, a parked one has such a call, a handler on top of a call is running, and it goes on with cs mod 4 = 3 and flag bit 9 set |
| `Runs.ByNumber` | kernel/syscall.c:825-898 | which step a trap is, by the number in rax: 1, 2, 6 and 11 may wait, 0 and 16 end the task or return from a handler, the rest are answered, and those the process kernel does not know change nothing in it |
| `Runs.EntersHandler` | kernel/signal.c:101-260 | in any run a signal with a handler leads into that handler, register by register, or to death with status 139 for want of stack |
| `Runs.AnswerKeeps` | kernel/syscall.c:84-173 | a call that is answered leaves the caller's record alone, but for a signal it brings on itself |
| `Runs.Fate` | kernel/scheduler.c:538-611 | over any run a call that had to wait is pending still with the frame it was first made with, or was answered as one step, or came to nothing: cut short by the mark of a signal, its task dead, or its handler gone elsewhere |
| `Runs.BackOnCall` | kernel/signal.c:290-340 | a handler that leaves the saved frame alone brings the program back onto its call |
| `Runs.GoesStale` | kernel/scheduler.c:554-557 | the mark of an interrupted call outlives its call exactly when that call is answered after all or a handler returns elsewhere |
| `Runs.StaysStale` | kernel/scheduler.c:554-557 | a stale mark goes away exactly when the next call of the task that has to wait fails for it, or the task dies |
| `Counterexamples.StaleMark` | kernel/scheduler.c:554-557 | from the start: a key wait interrupted by Ctrl-C, handler run and returned from, the key taken, and the next wait fails with no signal pending |
| `Runs.RunsWithin` | kernel/scheduler.c:490-501 | in any stretch of any run in which a task stays ready the scheduler picks fewer times than there are task numbers at its end, tasks created in between included |
| `Runs.TurnsNext` | kernel/scheduler.c:490-501 | each pick brings the rotation nearer to every task that stays ready, and no other step moves it |
| `Runs.FlowNext` | kernel/pipe.c:29-109 | each step of the kernel, whatever it is, moves bytes through a pipe by a read or a write of one task only: what was inside and what is put in is what is taken out and what is inside then, in order |
| `Runs.Flow` | kernel/pipe.c:29-109 | over any stretch of any run in which a pipe exists, what it held and what all tasks wrote is what all tasks read and what it holds then |
| `Runs.ReadsArePrefix` | kernel/pipe.c:29-109 | from an empty pipe on, what all tasks have read is a prefix of what all tasks have written, short of it by less than the ring |
| `Kernel.System.constructor` | kernel/scheduler.c:430-458 | the state scheduler_start enters is a run of one moment |
| `Kernel.System.Conduct` | kernel/syscall.c:84-173 | a call that may wait happens as one step with the frame it was first made with, or changes nothing shared and the caller stands on it, or, with the mark of an interrupted call set, fails |
| `Kernel.System.Perform` | kernel/syscall.c:825-898 | a trap of a task that stands on a call makes that call, to the letter; any other call is answered with exactly the effect its number and arguments have on descriptors, pipes, tasks and signals, returns from a handler, or ends the task |
| `Kernel.System.Inspect` | kernel/signal.c:182-260 | nothing, the lowest pending signal delivered on top of the call the task stands on, or death, exactly as handler and stack say |
| `Kernel.System.OnTrap` | kernel/syscall.c:825-910 | dispatch, then the check for signals: exactly those steps join the run, and what the call brought or started is the trap's own |
| `Kernel.System.OnTimer` | kernel/isr.c:281-302 | nothing in the idle loop, else a switch and the check for signals: exactly those steps join the run |
| `Kernel.System.OnKeyboard` | drivers/keyboard.c:254-297 | the character, end of input or Ctrl-C takes effect and the check for signals follows: exactly those steps join the run |
| `Kernel.System.OnAwake` | kernel/scheduler.c:524-530 | the idle loop goes on with the next ready task or stays: exactly that step joins the run |
| `Kernel.System.Run` | kernel/syscall.c:825-910 | over any sequence of traps, ticks, keys and idle wake-ups each event adds to the run exactly the steps it has to take, each of which says what changes and that nothing else does; one runner on its own live tree, no lost wake-up, exact pipe counts, no tree destroyed twice; every live task goes on with cs mod 4 = 3 and flag bit 9 set; every call pending before is pending still, was answered as one step of the run, or was cut short in a step of the run |

## Left out

- Disk, port, screen, timer, interrupt-table and assembly code: hardware access, replaced by parameters and events.
- Disk errors in the middle of an operation: reads and writes succeed, and a crash is a prefix of the sector writes.
- Keyboard decoding and modifier keys: a key event carries the character it produced.
- Processor exceptions: a fault halts the machine, in ring 3 too.
- TLB flushes and cache behaviour: CR3 is a variable.
- Multiboot parsing and the memory map: the frame pool starts from an initialised bitmap.
- Directory listing, SYS_STAT, SYS_TASKS and debug reports: output only.
- fat32_init: its checks and the layout they do not check form the geometry predicates of `Fat32Disk.dfy`.
- map_user_stack: the same calls as the ELF loader, on a fixed range; like the loader it loses one frame when a page table cannot be had.
- elf_load_file and the file buffer it reads into: the loader is given the bytes.
- User memory in `Machine.dfy`: bytes read or written by a call, and the frame SYS_SIGRETURN finds, are parameters or results; `Signals.dfy` models the bytes of one task's stack.
- The address-space handle and its cached CR3 value are one number in `Machine.dfy`, and a tree there is a name; `Paging.dfy` models what it stands for.
- Which requests `kmalloc` refuses the FAT32 driver and the process kernel is an input to both, one answer a request (`Grants.dfy`); `KernelHeap.dfy` says when the real one refuses. The three are not put on one pool.
- Locks: interrupts are off inside the kernel, so each kernel entry is one step.
- WriteFile: lengths whose sum with the cluster size passes 2^32 are excluded; `AskedExact` says what the count becomes there, and `CallerFits` that SYS_WRITEFILE cannot pass one.
- WriteThenRead: excludes the same lengths.
- StageData: excludes the same lengths.
- Calloc: for a product in (2^64 - 8, 2^64) the model reports the overrun and does not perform the memset.
- MapPage: on user pages and with a frame nothing owns, as every caller uses it.
- MapRange: on pages not mapped yet, as SYS_MMAP uses it.
- UnmapRange: on user pages, as SYS_MUNMAP uses it.
- Key: the ring buffer of keys is a sequence of at most 127 characters; its index arithmetic is that of the pipe ring.
