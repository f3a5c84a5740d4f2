# OnyxKernel, verified in Dafny

This project models the parts of OnyxKernel that carry the most state and proves what they promise.
`dafny verify dfyconfig.toml` checks all of it.

**Memory.** Physical pages come from a bitmap (`Pmm`), small objects from slab pages (`Slab`),
larger ones from a heap of linked blocks (`Heap`); `Memory` has page and slab calls mixed in any
order. Page tables (`PageTables`, `AddressSpaces`, `Vmm`) follow Sv39, section 4.4 of the RISC-V
Privileged Architecture, version 20211203. An address space is what a three-level lookup shows for
every virtual address; walking, splitting leaves and choosing leaf sizes are proved invisible at
that level, and tearing a space down frees each page once (`Teardown`). The program loader
(`Loader`) puts the segments of an OnyxExec image, compressed by the host tool or not (`Rle`),
behind such a page table.

**Storage.** The device is a sequence of 4096-byte blocks (`Disks`) whose block writes are atomic.
`Journal` has the redo log with power loss at every write, `Snapshot` creating and rolling back
snapshots, `SnapshotFiles` what that means for the files, `Files` inodes, bitmap and data blocks
down to their bytes, `Writes` a whole file write with its cost and with power loss at every block,
and `Dirent` directory blocks as finite maps.

**Scheduling and streams.** `Scheduler` has the run queues of eight harts as values, with every
interleaving of atomic steps, from boot on, and `Turns` says who runs next; `Runqueue` refines them
with linked queues and waiting lists. `Ring`, `Channel` and `Tcp` have the byte rings with counters
that wrap, and `Checksum` the Internet checksum.

In most files a specification on values comes first, with its properties as lemmas, and then a class
with the kernel's fields, whose methods are proved to do what the specification says. Machine words
are natural numbers with their wrap-around written out where it matters. Calls into devices, clocks
and trap frames are parameters or left out.

## Where the code does less than it seems to

These are theorems here, each with the exact condition:

- Recovering a journal twice is recovering once exactly when the log held a single reachable commit
  marker; `JournalSpec.StaleMarkerReverts` is a device on which an old marker takes new bytes back.
- Rolling back restores a captured block exactly when its compressed form is not 4096 bytes long;
  `SnapshotSpec.AwkwardNotRestored` gives such a block.
- A read is right for every file exactly when it starts in the first block or has nothing to return
  (`FilesSpec.ReadRightIff`), because the block loop always starts at the first block.
- A write leaves its file in order exactly when no block before it is missing, apart from those it
  takes (`WriteSpec.NoHoleIff`, `Files.Files.Write`): one behind the end must skip no block
  (`WriteSpec.GapIff`), and even writing nothing raises the size. `WriteSpec.SecondBlockFirst` is
  a concrete one that fails.
- The fifth snapshot of an image made by mkimage overwrites the journal, and the root directory as
  well exactly if at least 16 blocks are live (`SnapshotSpec.MkimageFifthIff`,
  `SnapshotSpec.MkimageFifthHitsJournal`), because mkimage leaves room for four and the kernel counts
  to 64. In general a snapshot can be rolled back to, with all others, exactly when its blocks and
  the blocks captured by any do not meet (`SnapshotSpec.AddImageIff`).
- Adding a directory entry keeps names unique exactly when the string is a name there already, or its
  first 32 bytes are a new one (`Directories.AddDirent`); longer strings are cut but never compared.
- A yield keeps each process in one place exactly when the running one is not stranded by its
  affinity (`SchedulerSpec.YieldInvIff`, `SchedulerSpec.AloneStranded`); new processes have affinity
  0, not -1, because the process slot is zeroed.
- The wake-up of channels marks processes ready without queueing them, whatever their state: it keeps
  the invariant exactly when every listed process was ready already
  (`SchedulerSpec.ChannelWakeInvIff`); `SchedulerSpec.LoneReceiverLost` loses one process alone.
- A process that waits on a channel while it is still listed cuts off those behind it
  (`Runqueue.ListedIff`, `Runqueue.RelistedLosesRest`).
- A process entered while ready is queued and running at once until its hart's first yield
  (`SchedulerSpec.FirstYieldInvIff`).
- A 4 KiB entry maps its page exactly when its flags have R or X (`PageTables.MappedIffRights`).
- The heap's rounding is sound exactly up to 2^64 - 48 bytes (`HeapSpec.NeededIff`), and `used` is
  never lowered.
- A file write succeeds exactly when the log has room for what it costs and enough blocks are free
  (`Files.Files.Write`); an empty 32-block journal always has room. Once the journal is full, every
  write fails and leaves it full, because only a finished operation rewinds it.

## Model

| member | source | states |
|---|---|---|
| `PageTables.LinkKeepsViews` | kernel/src/mm/vmm/walk.rs:22-48 | Hanging a table that shows what its slot showed changes no address's translation or flags in any address space, and keeps the tables a forest |
| `PageTables.SplitShowsSame` | kernel/src/mm/vmm/walk.rs:57-76 | The 512 leaves of a split show every address of the split leaf exactly as before, at either level |
| `PageTables.WriteLeafView` | kernel/src/mm/vmm/map.rs:43-48 | A leaf written where the walk for `va` ends changes the translation of exactly the addresses of that 4 KiB, 2 MiB or 1 GiB piece, in that address space only |
| `PageTables.MappedIffRights` | kernel/src/mm/vmm/map.rs:43-48 | An entry written for a 4 KiB page maps it exactly when its flags grant reading or execution; otherwise it is taken for a table pointer |
| `PageTables.PathUnique` | kernel/src/mm/vmm/walk.rs:11-51 | Only one root and one set of higher slots lead to a table, so no table page is referenced twice |
| `PageTables.IdxParts` | kernel/src/arch/regs.rs:44-54 | The slots of the three levels and the offset in the page are the digits of an address below 2^39: 2^30, 2^21 and 2^12 are their weights |
| `AddressSpaces.LinkInvisible` | kernel/src/mm/vmm/walk.rs:22-48 | One step of a walk (new table or split leaf) is invisible: same views, pages only added, owned pages stay owned |
| `AddressSpaces.WriteAfterWalk` | kernel/src/mm/vmm/map.rs:43-48 | A walk and the leaf write after it remap one piece, seen from before the walk; a spare page given to a user keeps user pages distinct |
| `AddressSpaces.MappedMore` | kernel/src/mm/vmm/map.rs:9-29 | Two mappings side by side are one mapping, whatever leaf sizes they used |
| `AddressSpaces.WithoutSpace` | kernel/src/mm/vmm/mod.rs:47-51 | Taking a whole address space away leaves the rest a forest with distinct user pages and every other root in place |
| `Vmm.BestLevel` | kernel/src/mm/vmm/map.rs:60-70 | The chosen level is the coarsest whose piece is aligned on both sides and fits what is left |
| `Vmm.Vmm.AllocZero` | kernel/src/mm/pmm/bitmap.rs:91-93 | A page nobody used, zeroed; it fails, and memory is unchanged, exactly when no page is free |
| `Vmm.Vmm.FillSplit` | kernel/src/mm/vmm/walk.rs:64-72 | The fill loop writes the 512 consecutive pieces of the leaf and no other page |
| `Vmm.Vmm.SplitLeaf` | kernel/src/mm/vmm/walk.rs:57-76 | The split table replaces the leaf and shows the same; out of memory changes nothing |
| `Vmm.Vmm.Descend` | kernel/src/mm/vmm/walk.rs:20-48 | One level of the walk is invisible and yields the table below the slot; with `create` a missing one costs exactly one page, and none left is the only failure; without it NoEnt for an empty slot, Inval for a leaf |
| `Vmm.Vmm.Walk` | kernel/src/mm/vmm/walk.rs:11-51 | With `create`, no address of any address space changes translation or flags, whether the walk succeeds, splits at one or two levels, or runs out of memory; it takes exactly one page per missing table and fails exactly when there are fewer free; without it nothing changes, it succeeds exactly when only tables are on the way, and NoEnt or Inval says whether the address is unmapped |
| `Vmm.Vmm.TranslateWalk` | kernel/src/mm/vmm/mod.rs:72-129 | The level loops of `translate` and `translate_user` compute the three-level lookup, with 0 for no mapping or a missing U bit |
| `Vmm.Vmm.MapOne` | kernel/src/mm/vmm/map.rs:43-48 | On success exactly one piece is remapped; it fails exactly when there are fewer free pages than missing tables, and then nothing is visible; a spare page as a 4 KiB user leaf keeps user pages distinct |
| `Vmm.Vmm.Map` | kernel/src/mm/vmm/map.rs:9-29 | After success every address of the range, and no other address of any address space, translates to the same offset from `pa`: the choice of leaf sizes is invisible; it fails only with no free page left, and then exactly a prefix of whole pages is mapped |
| `Teardown.SlotsDisjoint` | kernel/src/mm/vmm/mod.rs:53-70 | Different slots of a table own different pages |
| `Teardown.SpacesDisjoint` | kernel/src/mm/vmm/mod.rs:47-70 | Two address spaces share no table and no user page |
| `Teardown.RemainingForest` | kernel/src/mm/vmm/mod.rs:47-70 | The tables outside a torn-down space never refer into it |
| `Teardown.SpaceIff` | kernel/src/mm/vmm/mod.rs:53-70 | A page is below a root exactly when a lookup of some address below 2^39 finds it with the U bit or passes it as a table |
| `Vmm.Vmm.FreeSubtree` | kernel/src/mm/vmm/mod.rs:53-70 | Frees every table and user page below a table, each once: as many calls as pages; recursion ends on the level |
| `Vmm.Vmm.DestroyRoot` | kernel/src/mm/vmm/mod.rs:47-51 | Gives back exactly its root and the tables and user pages that some address below 2^39 uses, each once; `free_pages` rises by that number; every other address space stays |
| `PageAllocator.Pmm.BmSet` | kernel/src/mm/pmm/bitmap.rs:12-17 | Setting a clear bit takes exactly that page; the free count stays the number of clear bits |
| `PageAllocator.Pmm.BmClr` | kernel/src/mm/pmm/bitmap.rs:18-23 | Clearing a set bit frees exactly that page, counted |
| `PageAllocator.Pmm.Alloc` | kernel/src/mm/pmm/bitmap.rs:37-51 | Takes the lowest free page; fails exactly when every page is in use |
| `PageAllocator.Pmm.AllocN` | kernel/src/mm/pmm/bitmap.rs:53-80 | Takes the lowest run of `n` free pages; fails only when there is none, or with Inval exactly for 0 |
| `PageAllocator.Pmm.Free` | kernel/src/mm/pmm/bitmap.rs:82-89 | Frees that page; pages outside the range or already free are ignored |
| `SlabSpec.ClassFor` | kernel/src/mm/pmm/slab.rs:22-29 | The smallest class whose objects are large enough; none exactly over 1024 bytes |
| `SlabSpec.ObjectInPage` | kernel/src/mm/pmm/slab.rs:44-50 | Every slot lies inside its page, behind the header |
| `SlabSpec.LiveDisjoint` | kernel/src/mm/pmm/slab.rs:31-78 | Two live objects, of whatever classes and pages, never overlap |
| `SlabSpec.NoObjectNoPage` | kernel/src/mm/pmm/slab.rs:102-119 | A size class without a live object holds no page |
| `SlabSpec.SlotTaken` | kernel/src/mm/pmm/slab.rs:43-50 | Taking a free slot makes exactly that object live and keeps all page lists, counts and bits in order |
| `SlabSpec.PageAdded` | kernel/src/mm/pmm/slab.rs:56-77 | A new page at the head of the list brings exactly its first object |
| `SlabSpec.SlotGiven` | kernel/src/mm/pmm/slab.rs:100-101 | Giving a slot back ends exactly that object |
| `SlabSpec.PageReleased` | kernel/src/mm/pmm/slab.rs:102-119 | Giving the last slot back ends that object, unlinks the page from any place of the list and frees it |
| `SlabSpec.LastObject` | kernel/src/mm/pmm/slab.rs:102 | The count reaches the capacity exactly when no other object of the page is live |
| `SlabSpec.AddressParts` | kernel/src/mm/pmm/slab.rs:81-99 | A pointer leads back to its page and slot |
| `Slab.Slab.FindSlot` | kernel/src/mm/pmm/slab.rs:44-51 | Finds the lowest free slot |
| `Slab.Slab.FindPage` | kernel/src/mm/pmm/slab.rs:40-55 | Follows the links to the first page with a free slot; none exactly when every page is full |
| `Slab.Slab.TakeSlot` | kernel/src/mm/pmm/slab.rs:43-50 | Taking a free slot makes exactly that object live |
| `Slab.Slab.AddPage` | kernel/src/mm/pmm/slab.rs:56-77 | A new page at the head of the list brings exactly its first object; fails exactly with no free page |
| `Slab.Slab.Alloc` | kernel/src/mm/pmm/slab.rs:31-78 | The lowest free slot of the first page that has one, or the first slot of a new page exactly when all are full; the object is new, the only one more, of the smallest class that is large enough; fails only for a size over 1024 or with every page full and no page left |
| `Slab.Slab.Unlink` | kernel/src/mm/pmm/slab.rs:105-117 | Takes the page out of the linked list and changes no other link |
| `Slab.Slab.Free` | kernel/src/mm/pmm/slab.rs:80-121 | For any pointer: refused exactly when it names no slot (no slab header, inside the header with the offset wrapping, misaligned, or past the last slot); a live object is ended and no other, and the page goes back exactly with its last object |
| `SlabSpec.OffsetWraps` | kernel/src/mm/pmm/slab.rs:94-97 | The wrapped offset of a pointer into the header is never a multiple of an object size |
| `SlabSpec.StepAllocInv` | kernel/src/mm/pmm/slab.rs:31-78 | Each way of handing out an object keeps all lists in order and makes exactly that object live |
| `SlabSpec.StepFreeInv` | kernel/src/mm/pmm/slab.rs:80-121 | Each way of taking one back keeps all lists in order and ends exactly that object |
| `MemorySpec.NextInv` | kernel/src/mm/pmm/bitmap.rs:37-89 | Every page call and every slab call keeps the pages of page clients and of the slab apart, and every taken page with one of them |
| `MemorySpec.RunMeans` | kernel/src/mm/pmm/slab.rs:31-121 | At every state of every mixed run of page and slab calls: taken pages are those of page clients plus those of the slab, no two objects overlap or lie in a client's page, and no class keeps a page without an object |
| `MemorySpec.AllReturned` | kernel/src/mm/pmm/slab.rs:102-119 | When everything has been given back, in whatever order, every page is free again |
| `Memory.KernelMemory.FreeCount` | kernel/src/mm/pmm/bitmap.rs:12-23 | `free_pages`, clients' pages and slab pages always add up to all pages |
| `Memory.KernelMemory.AllocPage` | kernel/src/mm/pmm/bitmap.rs:37-51 | Is a step that takes one page for a client and leaves the slab valid; fails only with no free page |
| `Memory.KernelMemory.AllocPages` | kernel/src/mm/pmm/bitmap.rs:53-80 | Is a step that takes a run of pages for a client and leaves the slab valid |
| `Memory.KernelMemory.FreePage` | kernel/src/mm/pmm/bitmap.rs:82-89 | Is a step that gives a client's page back and leaves the slab valid; a page that nobody has is ignored |
| `Memory.KernelMemory.AllocObject` | kernel/src/mm/pmm/slab.rs:31-78 | Is a step that hands out a new object, beside any page calls |
| `Memory.KernelMemory.FreeObject` | kernel/src/mm/pmm/slab.rs:80-121 | Is a step that takes back exactly the named object, or nothing |
| `HeapSpec.NeededIff` | kernel/src/mm/heap.rs:59-60 | Rounding to 16 and adding a header are sound in 64-bit arithmetic exactly for sizes up to 2^64 - 48 |
| `HeapSpec.FirstFitIsFirst` | kernel/src/mm/heap.rs:61-65 | The block found is the first that fits, and none is found exactly when none fits |
| `HeapSpec.LiveDisjoint` | kernel/src/mm/heap.rs:51-86 | Live payloads never overlap and lie inside the 4 MiB |
| `HeapSpec.AllocatedLive` | kernel/src/mm/heap.rs:64-82 | Serving a request adds exactly one live payload, as large as asked for, or the whole block exactly when less than 80 bytes would be left over |
| `HeapSpec.RequestServed` | kernel/src/mm/heap.rs:51-86 | A request of any size gets one new payload of at least that size and less than 96 bytes more, and every other stays; none exactly when no free block holds it and a header |
| `HeapSpec.AllocatedInv` | kernel/src/mm/heap.rs:65-80 | Splitting keeps the blocks tiling the heap with no two free neighbours |
| `HeapSpec.FreedLive` | kernel/src/mm/heap.rs:88-114 | Freeing takes away exactly that payload |
| `HeapSpec.FreedInv` | kernel/src/mm/heap.rs:96-113 | Joining with both free neighbours keeps the tiling, and again no two free neighbours |
| `HeapSpec.AllFree` | kernel/src/mm/heap.rs:35-49 | With nothing live the heap is the single initial block |
| `HeapSpec.RunKeepsInv` | kernel/src/mm/heap.rs:51-114 | Over every run of requests and frees the blocks tile the heap exactly, with no two free neighbours |
| `HeapSpec.RunRestores` | kernel/src/mm/heap.rs:51-114 | Freeing everything, in any order, restores the single initial block |
| `Heap.HalvesRep` | kernel/src/mm/heap.rs:66-78 | After a split the headers in memory, with next and prev, spell out the split list |
| `Heap.AbsorbedRep` | kernel/src/mm/heap.rs:97-104 | After a merge the headers in memory, with next and prev, spell out the merged list |
| `Heap.Heap.constructor` | kernel/src/mm/heap.rs:35-49 | One free block that fills the heap |
| `Heap.Heap.Split` | kernel/src/mm/heap.rs:66-78 | The header writes of a split refine cutting the block in two |
| `Heap.Heap.Kmalloc` | kernel/src/mm/heap.rs:51-86 | First fit over the linked headers: one new payload, less than 96 bytes larger than asked for, behind the pointer returned; `used`; Inval for 0, NoMem exactly when no free block holds the request and a header |
| `Heap.Heap.Absorb` | kernel/src/mm/heap.rs:97-104 | The header writes of a merge refine joining two neighbours |
| `Heap.Heap.Kfree` | kernel/src/mm/heap.rs:88-114 | Freeing a live pointer refines marking and merging on both sides; null does nothing; `used` is not lowered |
| `Rle.RoundTrip` | kernel/src/fs/onyxfs/compress.rs:16-99 | Decompressing the compressed form gives every sequence back, in any buffer that holds it |
| `Rle.SizeBound` | kernel/src/fs/onyxfs/compress.rs:16-65 | Compression adds at most one byte per started 128: a short literal is repaid by the run that must follow |
| `Rle.SizeReached` | kernel/src/fs/onyxfs/compress.rs:16-65 | The bound is reached wherever no three equal bytes follow each other |
| `Rle.NotOwnCompression` | kernel/src/fs/onyxfs/compress.rs:16-65 | No non-empty sequence is its own compressed form |
| `Rle.RleCompress` | kernel/src/fs/onyxfs/compress.rs:16-65 | The scanning loops write exactly the compressed form and nothing behind it, or return 0 exactly when it does not fit the buffer |
| `Rle.RleDecompress` | kernel/src/fs/onyxfs/compress.rs:69-99 | The decoding loops expand exactly, and return 0 for a stream that is cut short or does not fit |
| `Rle.HostCompress` | tools/src/elf2onx/compress.rs:1-45 | The host tool's loops compute the same compressed form and never outgrow their buffer |
| `LoaderSpec.PatchStores` | kernel/src/proc/onx/segments.rs:43-48 | Copying into one page changes the bytes at those virtual addresses and at no other, because user pages are distinct |
| `LoaderSpec.PageMapped` | kernel/src/proc/onx/segments.rs:11-18 | A zeroed page mapped at a virtual page reads as zeros there; all other addresses, all other spaces and all other pages stay |
| `LoaderSpec.UnpackAgrees` | kernel/src/proc/onx/segments.rs:27-68 | The clamping decoder of the loader agrees with the snapshot decoder wherever that succeeds |
| `LoaderSpec.PackedBytes` | tools/src/elf2onx/convert.rs:93-97 | What the host tool stored, compressed if shorter and raw otherwise, unpacks to the original bytes |
| `LoaderSpec.LoadsSegment` | kernel/src/proc/onx/segments.rs:7-25 | Mapping the missing pages and then filling them puts exactly the segment's bytes in place and keeps every other byte |
| `LoaderSpec.LoadedOwn` | kernel/src/proc/onx/load.rs:30-36 | In byte-disjoint segments each keeps its own bytes, with zeros behind them, whatever the order and whichever share pages |
| `LoaderSpec.NewSpace` | kernel/src/proc/onx/load.rs:23-28 | The new root with its three kernel leaves shows no user page and leaves every other space alone |
| `LoaderSpec.KernelRootIdentity` | kernel/src/proc/onx/load.rs:23-28 | Through the new root every address below 3 GiB translates to itself |
| `LoaderSpec.ViewsMore` | kernel/src/proc/onx/segments.rs:7-25 | Loading one more segment: the pages it touches first get its own R, W and X with U, A and D; pages mapped before keep their rights |
| `LoaderSpec.LoadedViews` | kernel/src/proc/onx/load.rs:17-58 | The whole page table of a loaded program, for every address below 2^39: stack and heap are readable and writable but not executable, each segment page has the rights of the first segment that touches it, and the rest is the kernel's or nothing |
| `LoaderSpec.ImageReads` | kernel/src/proc/onx/load.rs:17-58 | End to end: at vaddr + i the three-level lookup of the program's root finds a user page that holds the byte packed for i < filesz, and zero up to memsz, for disjoint segments clear of stack and heap |
| `Loader.MapPage` | kernel/src/proc/onx/segments.rs:11-18 | Takes and maps a zeroed page with the given rights; with no free page left nobody sees anything |
| `Loader.StoreBytes` | kernel/src/proc/onx/segments.rs:41-49 | The page loop stores the bytes across page borders and nothing else |
| `Loader.ReadPacket` | kernel/src/proc/onx/segments.rs:33-56 | One packet, cut to the room left; not ok exactly when the stream ends inside it |
| `Loader.DecompressToPages` | kernel/src/proc/onx/segments.rs:27-68 | Stores exactly the unpacked bytes through the page table; Inval exactly when the stream is cut short |
| `Loader.CopyRawToPages` | kernel/src/proc/onx/segments.rs:70-90 | Stores exactly the file bytes, page by page |
| `Loader.MapMissing` | kernel/src/proc/onx/segments.rs:8-18 | Maps pages only where none are, with the given rights, so every byte reads as before and pages there keep their rights; it fails only with no free page left |
| `Loader.MapSegmentData` | kernel/src/proc/onx/segments.rs:7-25 | Loads one segment and nothing else: its new pages have exactly its rights with V, U, A and D; NoMem only with no free page left, Inval only for a stream cut short |
| `Loader.MapKernel` | kernel/src/proc/onx/load.rs:24-28 | Exactly the first three slots hold 1 GiB kernel leaves, onto themselves; every other slot is empty |
| `Loader.NewAddressSpace` | kernel/src/proc/onx/load.rs:23-28 | A root that shows no user page and maps the first 3 GiB onto themselves, apart from all other spaces; fails only with no free page left |
| `Loader.LoadSegments` | kernel/src/proc/onx/load.rs:30-36 | After success every address reads as the segments in order leave it, with the rights of the first that touches its page; otherwise the error is the fault of the first segment with one, or NoMem with no free page left |
| `Loader.MapZeroed` | kernel/src/proc/onx/load.rs:38-54 | Stack and heap pages read as zeros and are user pages without X; all else as before; fails only with no free page left |
| `Loader.Load` | kernel/src/proc/onx/load.rs:17-58 | The whole load, with stack and heap: what every address below 2^39 shows, with its rights; it fails when a segment has a fault, with the first one's unless pages ran out before, and else only with no free page left; other spaces and pages taken before stay, whether it succeeds or fails |
| `JournalSpec.RecoveredBlock` | kernel/src/fs/onyxfs/journal.rs:108-129 | Recovery gives each block outside the journal the 4088 bytes logged last for it and its own 8-byte tail, or leaves it |
| `JournalSpec.RecoveredBytes` | kernel/src/fs/onyxfs/journal.rs:82-137 | In bytes: a block logged before the first marker ends with bytes 8 to 4095 of its last entry and its own last eight, one not logged is unchanged, and the entries up to the marker are zero |
| `JournalSpec.NoMarker` | kernel/src/fs/onyxfs/journal.rs:91-112 | A log in which no marker follows known entries only changes nothing |
| `JournalSpec.CrashKeepsOutcome` | kernel/src/fs/onyxfs/journal.rs:82-137 | Power loss after any write of a recovery leaves a log with a single marker, and every block settles as it would have |
| `JournalSpec.RecoveryReentrant` | kernel/src/fs/onyxfs/journal.rs:82-137 | Interrupted any number of times and rerun, recovery ends with the same blocks outside the journal as one full run |
| `JournalSpec.SecondRunFindsNothing` | kernel/src/fs/onyxfs/journal.rs:82-137 | A second mount finds nothing to replay exactly when the log held a single reachable marker |
| `JournalSpec.RecoveryIdempotentIff` | kernel/src/fs/onyxfs/journal.rs:82-137 | Recovering twice is recovering once, on the whole device, exactly in that case |
| `JournalSpec.TransactionCrashSafe` | kernel/src/fs/onyxfs/journal.rs:32-137 | One transaction on an empty log, cut off at any step: recovery changes no block outside the journal |
| `JournalSpec.MirrorsLogged` | kernel/src/fs/onyxfs/journal.rs:32-51 | Logging a block and then writing it home keeps the log a mirror of the blocks, whatever was logged before |
| `JournalSpec.MarkedRecovers` | kernel/src/fs/onyxfs/journal.rs:58-137 | Recovery from a marker behind such a log changes no block outside the journal |
| `JournalSpec.StaleMarkerReverts` | kernel/src/fs/onyxfs/journal.rs:58-75 | A concrete device on which the marker an earlier transaction left behind makes a second mount take a block back to old bytes |
| `Journal.Journal.JournalLog` | kernel/src/fs/onyxfs/journal.rs:32-51 | Appends the redo entry; NoSpace exactly when the log is full; nothing happens without a journal |
| `Journal.Journal.JournalCommit` | kernel/src/fs/onyxfs/journal.rs:58-75 | Writes the marker if there is room and rewinds the log |
| `Journal.Journal.Transaction` | kernel/src/fs/onyxfs/write.rs:40-81 | Every device state on the way is a cut-off state of the transaction; NoSpace exactly with more writes than journal blocks |
| `Journal.Journal.JournalRecover` | kernel/src/fs/onyxfs/journal.rs:82-137 | Ends in the recovered device, and every state on the way is a crash state of the recovery |
| `SnapshotSpec.SlotsDisjoint` | kernel/src/fs/onyxfs/snapshot.rs:89-93 | Slots of different snapshots, and of one, share no block and are no header |
| `SnapshotSpec.RestoredIff` | kernel/src/fs/onyxfs/snapshot_io.rs:52-67 | A captured block gets its bytes back exactly when their compressed form is not 4096 bytes long |
| `SnapshotSpec.AwkwardNotRestored` | kernel/src/fs/onyxfs/snapshot.rs:96-101 | A concrete block that compresses to 4096 bytes and is not given back |
| `SnapshotSpec.RollbackExact` | kernel/src/fs/onyxfs/snapshot_io.rs:40-71 | Rolling back restores every captured block, exactly in that case, and touches no other |
| `SnapshotSpec.CollectExact` | kernel/src/fs/onyxfs/snapshot.rs:38-87 | The enumeration finds each live block once |
| `SnapshotSpec.CollectFails` | kernel/src/fs/onyxfs/snapshot.rs:38-87 | It fails exactly when a block is offered after 31 different ones |
| `SnapshotFiles.CapturedIff` | kernel/src/fs/onyxfs/snapshot.rs:60-87 | A snapshot captures a block exactly if it is one of the inode table, the bitmap, or a non-zero direct block of an inode whose mode is not 0, as the filesystem decodes inodes |
| `SnapshotFiles.CapturedSuffices` | kernel/src/fs/onyxfs/snapshot.rs:38-87 | A device with the same captured blocks is a filesystem in order with the same inodes and the same files in use |
| `SnapshotSpec.SnapshotRoundTrip` | kernel/src/fs/onyxfs/snapshot.rs:30-150 | Create, any writes outside the blocks the snapshot uses, roll back: each captured block holds its captured bytes exactly if they do not compress to 4096 bytes, and every other block is as before the rollback |
| `SnapshotSpec.ImagesSurvive` | kernel/src/fs/onyxfs/snapshot.rs:89-119 | Snapshots survive every write outside the header and slots they use |
| `SnapshotSpec.AddImageIff` | kernel/src/fs/onyxfs/snapshot.rs:89-148 | After one more snapshot all can be rolled back to exactly when what it captured is used by no snapshot and its own blocks were captured by none |
| `SnapshotSpec.OverwritesLiveIff` | kernel/src/fs/onyxfs/snapshot.rs:89-119 | A snapshot overwrites a live block exactly when its header and slots, placed by the count alone, meet bitmap, inode table or data blocks |
| `SnapshotSpec.MkimageFifthIff` | tools/src/mkimage/main.rs:80-90 | On an image that mkimage wrote, a snapshot overwrites live blocks exactly if it is the fifth and at least 16 blocks are live, and then the root directory's block is among them |
| `SnapshotSpec.MkimageFifthHitsJournal` | tools/src/mkimage/main.rs:12-14 | There the fifth snapshot always writes into the journal; the first four never do |
| `SnapshotSpec.MkimageClearIff` | tools/src/mkimage/main.rs:80-90 | Over a whole run of snapshots there, whatever was live at each, the next keeps all usable exactly unless it is the fifth with 16 or more live blocks |
| `Snapshots.Enumerate` | kernel/src/fs/onyxfs/snapshot.rs:38-87 | The scan of inode table, bitmap and inodes collects the live blocks in order, without repeats |
| `Snapshots.Snapshots.StoreBlock` | kernel/src/fs/onyxfs/snapshot.rs:89-109 | Stores one compressed block in its two slot blocks |
| `Snapshots.Snapshots.SnapshotCreate` | kernel/src/fs/onyxfs/snapshot.rs:30-150 | Exactly when it succeeds; it adds the image of the live blocks and writes exactly its header, its slots, the metadata block and the superblock, live or not; earlier images stay in place, and all can be rolled back to exactly when there was room; a failure leaves every snapshot as it was |
| `Snapshots.Snapshots.WriteOutside` | kernel/src/fs/onyxfs/snapshot.rs:89-119 | Any other write to a block that no snapshot uses keeps all of them |
| `Snapshots.Snapshots.SnapshotRollback` | kernel/src/fs/onyxfs/snapshot_io.rs:18-73 | Writes the image back and nothing else; every snapshot stays usable; NoSys and NoEnt exactly when they apply |
| `SnapshotFiles.RollbackRestoresFiles` | kernel/src/fs/onyxfs/snapshot_io.rs:18-73 | Whatever became of a filesystem in order, rolling back to its snapshot gives one in order again, with every file in use as it was, if no captured block compresses to 4096 bytes |
| `SnapshotFiles.SaveAndRestore` | kernel/src/fs/onyxfs/snapshot.rs:30-150 | End to end: create a snapshot of a filesystem in order, write anything to blocks no snapshot uses, roll back: a filesystem in order, with every file in use as it was |
| `FilesSpec.AddBit` | kernel/src/fs/onyxfs/alloc/bitmap.rs:17-18 | Setting a clear bit of a byte sets it and no other |
| `FilesSpec.PutInodeDecode` | core/src/formats/onyxfs_fmt/inode.rs:33-80 | An inode stored in its 128-byte slot is read back as it was, and the other 31 as before |
| `FilesSpec.OwnedOnce` | kernel/src/fs/onyxfs/write.rs:46-58 | No data block belongs to two (inode, place) pairs, and every one that belongs to any is marked in the bitmap |
| `FilesSpec.ClearUnheld` | kernel/src/fs/onyxfs/alloc/bitmap.rs:8-27 | A block whose bit is clear belongs to nobody |
| `FilesSpec.OpenBlock` | kernel/src/fs/onyxfs/write.rs:46-58 | A block taken, zeroed and entered in the inode changes no file |
| `FilesSpec.OpenData` | kernel/src/fs/onyxfs/write.rs:59-70 | Writing into a block of a file overwrites the file there and no other file |
| `FilesSpec.GivenUp` | kernel/src/fs/onyxfs/write.rs:48-69 | A write given up at any step keeps every invariant: the old inode counts and shows what was copied into the blocks it already had |
| `FilesSpec.Finish` | kernel/src/fs/onyxfs/write.rs:75-80 | Storing the inode makes the overwritten file the one on the device |
| `FilesSpec.ReadRightIff` | kernel/src/fs/onyxfs/read.rs:27-51 | Reads are the bytes from the offset up to the length or the end, for every file of a size, exactly when they start in the first block or get nothing |
| `FilesSpec.ReadMissesSpike` | kernel/src/fs/onyxfs/read.rs:27-51 | Any other read is wrong on the file of zeros with a one at the offset |
| `FilesSpec.ReadExact` | kernel/src/fs/onyxfs/read.rs:27-51 | A read that starts in the first block returns as many bytes as asked for or there, and exactly those |
| `FilesSpec.ReadLength` | kernel/src/fs/onyxfs/read.rs:30 | Any read returns as many bytes as it should, right or wrong |
| `FilesSpec.SoundUnique` | kernel/src/fs/onyxfs/read.rs:7-52 | A device holds one inode table and one set of files |
| `FilesSpec.LowestTaken` | kernel/src/fs/onyxfs/alloc/bitmap.rs:8-27 | Marking the lowest clear bit takes a block on the device exactly when a free one is there, and then one fewer is left |
| `WriteSpec.GapIff` | kernel/src/fs/onyxfs/write.rs:40-80 | A write that starts behind the end leaves no hole exactly when it touches the last block or the next one, or writes nothing and the last block reaches so far |
| `WriteSpec.NoHoleIff` | kernel/src/fs/onyxfs/write.rs:40-80 | The inode that a write stores is in order exactly when no block before the write is missing, apart from those it takes |
| `WriteSpec.SecondBlockFirst` | kernel/src/fs/onyxfs/write.rs:40-80 | One byte at offset 4096 of an empty file leaves a hole |
| `Files.Files.WriteSecondBlockFirst` | kernel/src/fs/onyxfs/write.rs:40-80 | That write, when it succeeds, leaves the filesystem out of order |
| `WriteSpec.WritingData` | kernel/src/fs/onyxfs/write.rs:59-73 | Copying the next bytes in keeps a write in progress, inside the file or behind its end, and every other file |
| `WriteSpec.CostStep` | kernel/src/fs/onyxfs/write.rs:46-69 | Each block costs one log entry, and two more and a free block if it has to be taken |
| `WriteSpec.CostBound` | kernel/src/fs/onyxfs/write.rs:40-80 | No write needs more than 31 log entries |
| `WriteSpec.Closed` | kernel/src/fs/onyxfs/write.rs:75-80 | Storing the inode: its places are its own; the filesystem is in order exactly when the inode is; then the file is the old one overwritten, or continued behind a gap |
| `WriteSpec.MidwayRests` | kernel/src/fs/onyxfs/write.rs:40-69 | Every device a write passes through before its inode is stored is a filesystem in order with the old files overlaid by a start of the write |
| `WriteSpec.LastSurvives` | kernel/src/fs/onyxfs/write.rs:79-81 | The devices of storing the inode and committing recover to such a filesystem or to the finished one |
| `Files.Files.Update` | kernel/src/fs/onyxfs/write.rs:66-67 | Logs and writes one block, exactly when the log has room and the block is on the device; outside the journal nothing else changes, and every device on the way is the old one or the new one there |
| `Files.Files.FindClear` | kernel/src/fs/onyxfs/alloc/bitmap.rs:12-17 | The nested scan finds the lowest clear bit, none exactly when all are set |
| `Files.Files.AllocDataBlock` | kernel/src/fs/onyxfs/alloc/bitmap.rs:8-27 | Marks the lowest free block, which nobody holds, and changes no file; fails exactly with a full bitmap or log |
| `Files.Files.WriteChunk` | kernel/src/fs/onyxfs/write.rs:41-73 | One pass of the block loop: the next bytes are in place, and what it cost; fails exactly for lack of log entries or of a free block |
| `Files.Files.WriteInode` | kernel/src/fs/onyxfs/inode/write.rs:10-30 | Stores one inode in its slot of the table |
| `Files.Files.WriteBlocks` | kernel/src/fs/onyxfs/write.rs:40-74 | The block loop at any offset: succeeds exactly when log and free blocks suffice; the places of the inode afterwards, and the file overwritten up to the end of the tenth block |
| `Files.Files.Write` | kernel/src/fs/onyxfs/write.rs:16-83 | For any offset: succeeds exactly when the log has room for three entries per missing block, one per present one and one for the inode, and enough free blocks are on the device; places, size and time of the stored inode; in order afterwards exactly if it skipped no block; how many bytes are written, up to byte 40960; the file overwritten there, byte by byte, or continued behind a gap, and every other file kept; the exact outcome of a failure; from an empty log every device on the way recovers to the old files overlaid by a start of the write, or to the new ones |
| `Files.Files.EmptyJournalSuffices` | tools/src/mkimage/main.rs:14 | With an empty 32-block journal a write succeeds exactly when enough blocks are free |
| `Files.Files.WriteAll` | kernel/src/fs/onyxfs/write.rs:16-83 | After any run of in-range writes each file is the plain byte sequence overwritten in the same way; if one fails, those before it have been done and the first bytes of it show |
| `Files.ReadBlocks` | kernel/src/fs/onyxfs/read.rs:27-51 | The read loop returns the file's bytes from the offset within its first block on |
| `Files.Files.Read` | kernel/src/fs/onyxfs/read.rs:7-52 | For any offset and length, how many bytes come back; from an offset in the first block exactly the file's bytes there, as many as asked for or there |
| `Files.Files.Truncate` | kernel/src/fs/onyxfs/write.rs:120-148 | The file is empty, its ten places and two indirect places are zero and its other fields stay; the other files stay, and the marks of its blocks stay set; fails exactly with a full log |
| `Directories.MatchIff` | kernel/src/fs/onyxfs/alloc/add.rs:73-80 | The byte-by-byte comparison is equality of names up to NULs at the end, in a slot in order, for any byte string |
| `Directories.EntryCount` | kernel/src/fs/onyxfs/alloc/add.rs:94-130 | The map has as many entries as there are live slots, so it is full with exactly 102 |
| `Directories.EmptyDirectory` | kernel/src/fs/onyxfs/alloc/add.rs:37-46 | A zeroed block is the empty map |
| `Directories.EntryPut` | kernel/src/fs/onyxfs/alloc/add.rs:80-128 | Filling or retargeting one slot is map update, and names stay unique |
| `Directories.EntryDropped` | kernel/src/fs/onyxfs/alloc/remove.rs:65-72 | Zeroing the inode of a slot is map removal |
| `Directories.FindName` | kernel/src/fs/onyxfs/alloc/add.rs:56-80 | The scan finds the live slot that a byte string names, none exactly when there is none |
| `Directories.AddDirent` | kernel/src/fs/onyxfs/alloc/add.rs:48-131 | For any byte string and inode: NoSpace exactly with 102 entries and the name absent; one slot is written, with inode and type; the directory stays in order exactly when the addition is safe (the name is there, the inode is 0, or the cut string is a new name), and then the map is updated |
| `Directories.FillEntry` | kernel/src/fs/onyxfs/alloc/add.rs:94-130 | A filled slot keeps the directory in order exactly when the addition is safe: a string of more than 32 bytes can repeat a name, an empty one is none |
| `Directories.ProperAdd` | kernel/src/fs/onyxfs/alloc/add.rs:48-131 | For names of 1 to 32 bytes without NUL and inodes other than 0 that is always so, and adding is map update |
| `Directories.RemoveDirent` | kernel/src/fs/onyxfs/alloc/remove.rs:34-76 | Map removal for any byte string; NoEnt exactly when it names no entry, and then nothing changes |
| `Directories.LookupIn` | kernel/src/fs/onyxfs/lookup.rs:83-107 | Map lookup, for any byte string |
| `Directories.RunChanges` | kernel/src/fs/onyxfs/alloc/add.rs:48-131 | Any run of adds and removes does to the block what it does to the map |
| `SchedulerSpec.StealFailsIff` | kernel/src/proc/scheduler/sched.rs:24-46 | Stealing finds nothing exactly when no other hart has a head that may run here |
| `SchedulerSpec.YieldInvIff` | kernel/src/proc/scheduler/sched.rs:48-128 | A yield keeps every process in one place exactly when the running one is not stranded: pinned elsewhere, with nothing queued here or to steal |
| `SchedulerSpec.AloneStranded` | kernel/src/proc/scheduler/sched.rs:66-72 | A concrete state in which a yield leaves a pinned process both queued and running |
| `SchedulerSpec.BlockInv` | kernel/src/proc/spawn.rs:103-144 | Blocking keeps the invariant for every process |
| `SchedulerSpec.CreateInv` | kernel/src/proc/spawn.rs:19-57 | Creating a process keeps the invariant |
| `SchedulerSpec.WakeInv` | kernel/src/proc/signals.rs:14-25 | A signal's wake-up keeps the invariant |
| `SchedulerSpec.ExitInv` | kernel/src/proc/lifecycle.rs:88-117 | Exiting and waking the parent keeps the invariant |
| `SchedulerSpec.PinInv` | kernel/src/syscall/proc_sys.rs:97-111 | Changing affinity keeps the invariant |
| `SchedulerSpec.ChannelWakeInvIff` | kernel/src/ipc/channel/ringbuf.rs:25-34 | The channel wake-up marks every listed process ready, whatever its state, and queues none: the invariant survives exactly when all of them were ready already |
| `SchedulerSpec.LoneReceiverLost` | kernel/src/proc/scheduler/sched.rs:113-116 | A process alone on the machine that waits on an empty channel goes on running, still listed; the next message marks it ready although a hart runs it |
| `SchedulerSpec.RunKeepsInv` | kernel/src/proc/scheduler/sched.rs:24-128 | Over every interleaving of steps on eight harts the invariant holds |
| `SchedulerSpec.FirstYieldInvIff` | kernel/src/proc/lifecycle.rs:65-86 | A process entered while ready is queued and running at once; the first yield of its hart restores the invariant exactly when the hart finds a process |
| `SchedulerSpec.BootedInv` | kernel/src/proc/lifecycle.rs:65-86 | Creating process 1, entering it and the first yield reach a state with the invariant |
| `SchedulerSpec.BootKeepsInv` | kernel/src/proc/scheduler/sched.rs:24-128 | So it holds in every state that any run from boot reaches |
| `SchedulerSpec.InvMeans` | kernel/src/proc/scheduler/sched.rs:24-128 | In every such state a process is in at most one queue, once, or current on at most one hart, never both, and no ready process is lost |
| `SchedulerTurns.YieldTakesFirst` | kernel/src/proc/scheduler/sched.rs:48-128 | A yield runs the first in line, which is the queue and then the process that ran; the others keep their order |
| `SchedulerTurns.YieldSendsFirst` | kernel/src/proc/scheduler/sched.rs:66-72 | A first in line that is pinned elsewhere goes to the end of that hart's queue, and the second runs |
| `SchedulerTurns.YieldSteals` | kernel/src/proc/scheduler/sched.rs:24-46 | With nobody in line, the nearest hart whose head may run here gives that one |
| `SchedulerTurns.YieldStays` | kernel/src/proc/scheduler/sched.rs:90-116 | With nobody to run, an exited process is dropped and any other goes on running |
| `SchedulerTurns.TurnComes` | kernel/src/proc/scheduler/sched.rs:48-128 | Round robin: whoever is at place i of a queue runs after i + 1 yields, if nobody up to there belongs elsewhere |
| `SchedulerTurns.ExitDoes` | kernel/src/proc/lifecycle.rs:88-117 | An exit marks the process, and a waiting parent becomes ready at the end of this hart's queue |
| `SchedulerTurns.WakeDoes` | kernel/src/proc/signals.rs:14-25 | A waiting process becomes ready at the end of the queue; any other is left alone |
| `SchedulerTurns.CreateDoes` | kernel/src/proc/spawn.rs:19-57 | A new process is ready, pinned as asked, at the end of the creating hart's queue |
| `SchedulerTurns.BlockWaits` | kernel/src/proc/spawn.rs:103-144 | A process that blocks waits in no queue while its hart runs the next one |
| `Runqueue.RunQueues.Enqueue` | kernel/src/proc/scheduler/runqueue.rs:30-42 | The link writes append to the queue; `on_rq` and `nr_ready` stay exact |
| `Runqueue.RunQueues.Dequeue` | kernel/src/proc/scheduler/runqueue.rs:53-65 | The link writes take the head of the queue |
| `Runqueue.RunQueues.Remove` | kernel/src/proc/scheduler/runqueue.rs:67-90 | The link writes take a process out of any place of the queue; false exactly when it is not there |
| `Runqueue.RunQueues.Steal` | kernel/src/proc/scheduler/sched.rs:24-46 | The loop over the harts refines stealing, with unsuitable heads moved to the back |
| `Runqueue.RunQueues.SchedYield` | kernel/src/proc/scheduler/sched.rs:48-128 | The whole yield on linked queues refines the yield on values, in any state; it keeps the invariant exactly when nobody is stranded |
| `Runqueue.RunQueues.CreateUser` | kernel/src/proc/spawn.rs:19-57 | Creation on linked queues refines creation on values |
| `Runqueue.RunQueues.Exit` | kernel/src/proc/lifecycle.rs:88-117 | Exit on linked queues refines exit on values |
| `Runqueue.RunQueues.Wait` | kernel/src/proc/spawn.rs:103-144 | Waiting on linked queues refines blocking on values |
| `Runqueue.RunQueues.Wake` | kernel/src/proc/signals.rs:14-25 | A signal on linked queues refines the wake-up on values |
| `Runqueue.RunQueues.EnterUser` | kernel/src/proc/lifecycle.rs:65-86 | Entering a process on linked queues refines entering it on values |
| `Runqueue.ListedIff` | kernel/src/ipc/channel/ringbuf.rs:18-23 | Waiting keeps a waiting list in order exactly when the process is not on it yet |
| `Runqueue.RelistedLosesRest` | kernel/src/ipc/channel/ringbuf.rs:18-34 | A process that waits again while listed cuts off everybody behind its old place: the next wake-up does not reach them |
| `Runqueue.VisitedList` | kernel/src/ipc/channel/ringbuf.rs:25-34 | On a list in order the wake-up reaches everybody, in order |
| `Runqueue.WaitLists.ChannelWait` | kernel/src/ipc/channel/ringbuf.rs:18-23 | Puts the process at the front of the list and yields, refining blocking on values |
| `Runqueue.WaitLists.WaitWakeAll` | kernel/src/ipc/channel/ringbuf.rs:25-34 | Ends on every list, even a cyclic one, marks exactly the processes it leads to ready, clears exactly their links, and keeps the invariant exactly when all were ready |
| `Ring.WindowPut` | kernel/src/ipc/channel/ringbuf.rs:65-71 | Putting a byte into the next cell overwrites none that is still in the window |
| `Ring.WrapFindsCell` | kernel/src/ipc/channel/ringbuf.rs:67 | A wrapped counter finds the same cell, because 4096 divides 2^32 |
| `Ring.WrapDifference` | kernel/src/ipc/channel/ringbuf.rs:54 | The wrapped difference of the wrapped counters is the number of bytes in flight |
| `Channels.Channel.SendBytes` | kernel/src/ipc/channel/ringbuf.rs:45-71 | The ring of a send, all or nothing: Pipe exactly on a closed or unused channel, Perm exactly for a process that is not allowed on an open one, Busy exactly when the bytes do not fit |
| `Channels.Channel.RecvBytes` | kernel/src/ipc/channel/ringbuf.rs:89-116 | The ring of a receive: the oldest bytes in flight, as many as asked for or there; Pipe and Perm exactly as in a send |
| `Channels.Channel.SendCall` | kernel/src/ipc/channel/ringbuf.rs:36-78 | The whole send: a blocking caller without room is listed and yields, a send that fits wakes every listed receiver and empties their list, and nothing else changes |
| `Channels.Channel.RecvCall` | kernel/src/ipc/channel/ringbuf.rs:80-123 | The whole receive: a blocking caller that finds nothing is listed and yields, one that finds bytes wakes every listed sender, and nothing else changes |
| `Channels.Channel.CloseChannel` | kernel/src/ipc/channel/channel.rs:104-115 | From then on every call by anybody is refused with Pipe |
| `Channels.Channel.Run` | kernel/src/ipc/channel/ringbuf.rs:54-116 | Over every run of calls by any processes, with a close anywhere, bytes accepted are bytes received followed by at most 4096 in flight, however often the counters wrap |
| `Tcp.PlaceOfNext` | kernel/src/net/tcp.rs:129-131 | Below 2^32 bytes the next sequence number names only the next place of the stream |
| `Tcp.Conn.Accept` | kernel/src/net/tcp.rs:131-137 | Copies what fits behind the bytes in the ring, across its end |
| `Tcp.Conn.Handle` | kernel/src/net/tcp.rs:115-157 | How many bytes a segment adds: none unless it is next, else all, or as many as fill the 2048 bytes of the ring; both sequence numbers and the state that follow, for every segment that agrees with the stream: late, early, repeated, partly accepted or with FIN |
| `Tcp.Conn.Receive` | kernel/src/net/tcp.rs:98-106 | Hands out the oldest bytes in stream order |
| `Tcp.Conn.Run` | kernel/src/net/tcp.rs:98-151 | Whatever arrives in whatever order, all that was read is a prefix of the peer's stream |
| `Checksums.FoldStep` | kernel/src/net/ip.rs:22-24 | Adding the halves keeps the sum modulo 65535 and keeps a positive sum positive |
| `Checksums.SumWeights` | kernel/src/net/ip.rs:12-21 | Bytes at even places weigh 256 and those at odd places 1, an odd last byte included |
| `Checksums.Rechecks` | kernel/src/net/ip.rs:65-66 | Storing the checksum in its zeroed field makes every content sum to zero |
| `Checksums.RechecksBehind` | kernel/src/net/tcp.rs:55-57 | The same behind a pseudo-header |
| `Checksums.PseudoSum` | kernel/src/net/tcp.rs:25-29 | The parts added up one by one are the sum over the pseudo-header |
| `Checksums.Finish` | kernel/src/net/ip.rs:22-25 | The folding loop computes the one's complement fold |
| `Checksums.ComputeChecksum` | kernel/src/net/ip.rs:12-26 | The checksum of any data, with the 32-bit accumulator wrapping; below 128 KiB it cannot wrap |
| `Checksums.TcpChecksum` | kernel/src/net/tcp.rs:24-40 | Equals the checksum over pseudo-header and segment for every length below 65536 |
| `Checksums.IpHeader` | kernel/src/net/ip.rs:50-66 | The header built for a packet has its fields in place and sums to zero |
| `Checksums.SealSegment` | kernel/src/net/tcp.rs:42-60 | A sealed segment keeps its other bytes and the receiver's sum over it is zero |

## Left out

- `map_anon`, `init`, `install_root` and the satp register: the page-at-a-time mapping is the one of `Loader.MapZeroed`.
- Vmm.Vmm.Map: asks for page-aligned addresses below 2^39, and for flags with R or X; what an entry without them does is `PageTables.MappedIffRights`.
- Loader.Load: asks for segments whose flags have R or X and which end below 2^39; parsing the image header and the ring of the result are not modelled.
- Loader.StoreBytes: one page loop stands for the two inner loops of the decoder, which fill and copy in the same way.
- Heap.Heap.Kmalloc: asks for sizes up to 2^64 - 48 and models the block list; trying the slab allocator first is modelled apart, in `Slab`.
- Heap.Heap.Kfree: asks for null or a live pointer, as the kernel has no check of its own.
- Slab.Slab.Free: asks for a live object when its argument names a slot, as the kernel has no check of its own; a free bitmap is the set of its set bits.
- `krealloc` and over-aligned allocation: the old size and the original pointer are not kept.
- PageAllocator.Pmm.Alloc: page contents are in `Vmm`, which reads each page both as a table and as bytes; a page is used in one of the two ways.
- Journal.Journal.Transaction: a device that fails to read or write a block on the device is not modelled.
- Snapshots.Snapshots.SnapshotCreate: the inode table lies on the device; the snapshot's name and time are a given 64-byte record, and listing snapshots is left out.
- Files.Files.Write: the bytes in a gap behind the old end are whatever lay in the last block, or zeros, and are left open; OnyxFS version 1 is left out.
- Files.Files.Read: versions and errors of the device are left out; sizes stay below 2^32.
- `create`, `alloc_inode`, `unlink`, `rename` and path lookup: compositions of the operations modelled, with an inode bitmap like the data bitmap.
- Directories.AddDirent: taking a first block for the directory is as in `Files`, and writing the block back is the caller's.
- Directories.LookupIn: the `stat` of the inode it finds is left out.
- SchedulerSpec.RunKeepsInv: steps are atomic, as under the run-queue lock; trap frames, time slices and the idle loop are left out.
- Channels.Channel.SendCall: channel numbers, names and the list of clients are left out; the caller is the process its hart runs.
- Tcp.Conn.Handle: one connection whose port matched; the send buffer, acknowledgements sent and ICMP are left out.
- Drivers, framebuffer, shell, procfs, FAT32, signal frames, fork and the system-call policy.
