# A verified model of ModulOS

ModulOS is an x86-64 kernel. This project models its ext2 driver, its memory
stack, its scheduling and blocking, and four self-contained algorithms in Dafny
4.11, and proves what they keep over every run. `dafny verify dfyconfig.toml`
checks everything.

| files | component |
|---|---|
| `Ext2Layout`, `Ext2Tree`, `Ext2Bitmap`, `Ext2Bytes`, `Ext2Store`, `Ext2Volume`, `Ext2File`, `Ext2Flat`, `Ext2Session` | ext2: block map, allocator, reads and writes, runs of many handles |
| `PageTables`, `PageSpaces`, `PageRights`, `PageViews`, `Paging` | four-level page tables, mapping operations with the rights and guards they give, the shared kernel half |
| `PageFork`, `PageRelease`, `PageChild` | duplicating and freeing a lower half, and how the copy joins the other spaces |
| `HeapArena`, `Heap` | kmalloc and kfree |
| `Ranges`, `RangeAllocator` | the range allocator of physical and virtual memory |
| `Shootdown`, `ShootdownProgress` | deferred frees and the TLB shootdown protocol |
| `SchedLists`, `Scheduler`, `SchedLife` | the intrusive lists, the scheduler, and the life of a process between the lists |
| `Reaping` | waiting for a child, step by step |
| `CanonPath`, `Tty`, `ElfStack` | path canonicalisation, cooked terminal, initial stack |
| `Checksums`, `CrcPoly` | CRC-32 and FNV-1a, and CRC-32 as a remainder of polynomials |
| `Sequences`, `Wrappers` | shared helpers |

How the model is built. Objects that the kernel changes in place are classes with
the same fields, and each method follows the code it cites. A `Valid()` predicate
is kept by every method, so it holds over every run of them. Specifications are
separate: a flat byte array for files, a translation function for page tables, a
set of free addresses for ranges, a map of live blocks for the heap, a stack of
components for paths, a queue plus an edited line and a screen for the terminal, the
psABI's reading of the initial stack, polynomials over two elements for CRC-32. Protocols (shootdown, reaping, multi-CPU scheduling)
are state machines over their atomic steps, with lemmas about all interleavings.
Integers are unbounded; 32- and 64-bit wrap-around is written out where the code
depends on it. Disk contents, the clock, allocator results and random words are
state or parameters.

## What turned out not to hold

Each of these has the exact condition under which the code does what it is meant to
do, and an input for which it does not.

- `ext2_write` that writes nothing beyond the end of a file still stores the new
  size, so the block of the last byte can be a hole, and `ext2_read` then returns
  up to a whole block past the size. Input: `Ext2Session.FreshReadPastEnd`.
  Conditions: `Ext2Flat.ReadExactIff` for one read, `Ext2Flat.TailSafeIff` for one
  write, `Ext2Session.Run` for runs.
- `alloc_block` wraps to group 0 one group early, so a scan that starts at a full
  last group leaves the table, although other groups have blocks. Condition:
  `Ext2Store.LeavesTable`, one of the two ways in which `Ext2Volume.Volume.AllocBlock`
  finds nothing. Input: `Ext2Volume.FullLastGroup`.
- `kmalloc` covers the request exactly up to 2^64 - 48 bytes
  (`Heap.AdjustedCoversIff`). Above that the size wraps to a bare header or to less
  than one (`Heap.AdjustedIntactIff`). Input: `Heap.HugeRequestIsShort`.
- `mm_alloc_max` serves a request for which the search finds a range exactly if
  neither the rounding nor the sum with the alignment wraps
  (`Ranges.ServedIffNoWrap`). Inputs: `Ranges.HugeSizeStaysFree`,
  `Ranges.WrappedSumInventsMemory`.
- `insert_node` only warns when a freed range overlaps the range before it, and
  links it in. The list keeps its normal form exactly if nothing reaches over the
  new base (`Ranges.JoinedOKIff`). Input: `Ranges.DoubleFreeIsLinked`.
- The sleep queue is in descending order and drained from its head, so all sleepers
  are woken if all are due, and otherwise none: `SchedModel.AllOrNone`. Input:
  `Scheduler.DueSleeperWaits`.
- A terminal line that fills the ring before it is committed blocks the terminal
  for good, and nothing else does (`Terminal.WedgedIff`). A plain line arrives
  exactly if it fits (`Terminal.TypedLineArrivesIff`). Input:
  `Terminal.LongLineFillsRing`.
- The escape flag survives every control sequence (`Terminal.EscapeSetIff`), so
  the next '[' is swallowed: `Terminal.BracketAfterSequenceIsLost`. A '[' is kept
  exactly if the ring has room and no flag is set (`Terminal.BracketKeptIff`).
- `paging_update_perms` keeps a page a page exactly if it does not make an absent 2M
  or 1G entry present: `Paging.PermittedStaysPageIff`. Input:
  `Paging.PermsWithoutPage`.
- A CPU that fills its TLB before it registers for shootdowns can keep a page that is
  free again (`ShootdownProgress.StaleWithoutRegistration`); one that registers first never
  does (`Shootdown.NoStaleTranslation`).
- The barrier of the shootdown is registered by APIC id but disarmed by arbitration
  id. That is safe for any injective assignment of ids, by counting
  (`Shootdown.CountFinished`, `Shootdown.AllFinished`), but an entry can be left that
  nobody disarms. Condition: `ShootdownProgress.CanFinishIff`. Input:
  `ShootdownProgress.SwappedIdsWaitForEver`.
- The worker gives up the lock between its look at the barrier and its sleep, so the
  wake-up of the last handler can be lost, also with equal ids. The batch then waits
  for somebody else's free. A waiting batch is freed in every interleaving exactly if
  the barrier is clear and the worker will look again, or the worker sleeps and one
  handler is left (`ShootdownProgress.AlwaysFinishesIff`). Input:
  `ShootdownProgress.WakeUpIsLost`.
- The same happens between batches: a free that comes between the worker's look at
  the list and its sleep stays pending. Condition: `ShootdownProgress.FreeTakenIff`.
  Input: `ShootdownProgress.FreeIsOverlooked`.

## Model

| member | source | states |
|---|---|---|
| Ext2Layout.PlaceOfIsLeaf | drivers/ext2/ext2.c:459-525 | every mappable logical block has a leaf place in the 15-slot tree |
| Ext2Layout.PlaceOfInjective | drivers/ext2/ext2.c:459-525 | different logical blocks have different places, across all four depths |
| Ext2Layout.PlacesInOrder | drivers/ext2/ext2.c:459-525 | the blocks of a file are in the order of their places: direct blocks, then the trees of the last three slots, each from left to right |
| Ext2Layout.DriverPlaceCorrect | drivers/ext2/ext2.c:442-696 | the driver's divisions and remainders give that place, and fail exactly beyond the last mappable block |
| Ext2Tree.SetPtrEffect | drivers/ext2/ext2.c:442-696 | storing a 32-bit little-endian pointer in an indirect block reads back and changes no other entry |
| Ext2Tree.ReferencedOnce | drivers/ext2/ext2.c:442-696 | no block is referenced from two places of any inodes |
| Ext2Tree.LinkEffect | drivers/ext2/ext2.c:442-696 | linking a zeroed block changes the pointer at exactly one place, at any depth |
| Ext2Tree.LinkKeepsTree | drivers/ext2/ext2.c:442-696 | linking keeps every nonzero pointer unique, with its one owner |
| Ext2Tree.DataWriteKeepsTree | drivers/ext2/ext2.c:1297-1380 | writing a data block keeps the trees of all inodes |
| Ext2Tree.OwnedIsReachable | drivers/ext2/ext2.c:442-696 | the blocks counted for an inode are exactly those reachable from it |
| Ext2Bitmap.CountZeroIffFull | drivers/ext2/ext2.c:334-381 | a group's free count is zero exactly if all its bits are set |
| Ext2Bitmap.FindBit | drivers/ext2/ext2.c:356-357 | the first clear bit of a word |
| Ext2Bitmap.FindClear | drivers/ext2/ext2.c:342-358 | scanning word by word finds the first clear bit or none |
| Ext2Bitmap.MarkCounts | drivers/ext2/ext2.c:358-361 | setting one clear bit keeps group and superblock counts equal to the clear bits |
| Ext2Bitmap.MarkUsed | drivers/ext2/ext2.c:358-368 | the set of used block numbers gains exactly the block of that bit |
| Ext2Store.FreshIsConsistent | drivers/ext2/ext2.c:80-204 | a freshly made volume meets the volume invariant |
| Ext2Store.GrownBy | drivers/ext2/ext2.c:442-696 | allocating and linking one block keeps the whole volume invariant, with i_blocks counting it modulo 2^32; the block was the first free one from the inode's group on |
| Ext2Store.EntryGrown | drivers/ext2/ext2.c:496-514 | the same for an entry of an indirect block |
| Ext2Store.SlotGrown | drivers/ext2/ext2.c:459-493 | and for a slot of the inode |
| Ext2Store.FirstStays | drivers/ext2/ext2.c:334-440 | a block taken by first fit stays one before which the scan finds nothing, while bits are only set |
| Ext2Store.MapIsOK | drivers/ext2/ext2.c:698-833 | no two logical blocks of any files share a device block |
| Ext2Store.AssignMaps | drivers/ext2/ext2.c:442-696 | an assignment changes the mapping of one index of one inode and nothing else |
| Ext2Store.Locate | drivers/ext2/ext2.c:698-833 | found exactly for mappable indices, with the right place |
| Ext2Store.HomeGroup | drivers/ext2/ext2.c:443-443 | the group whose range of inode numbers holds the inode |
| Ext2Volume.Volume.constructor | drivers/ext2/ext2.c:186-195 | a consistent image gives a valid volume |
| Ext2Volume.Volume.TakeBit | drivers/ext2/ext2.c:358-368 | one clear bit is taken and counted, and the block number returned |
| Ext2Volume.Volume.TakeFrom | drivers/ext2/ext2.c:340-373 | the first clear bit of one group is taken, or none exactly if the group is full |
| Ext2Volume.Volume.AllocBlock | drivers/ext2/ext2.c:334-381 | first fit in scan order from any group; 0 exactly if every scanned group is full, or the scan starts at a full last group and leaves the table; then nothing changes |
| Ext2Volume.FullLastGroup | drivers/ext2/ext2.c:334-381 | a freshly made volume on which a scan from the full last group finds nothing, although the first group has blocks |
| Ext2Volume.Volume.AllocAndZero | drivers/ext2/ext2.c:432-440 | the block taken is the first free one in scan order, reads as zeros, and no other block changes |
| Ext2Volume.Volume.EnsureSlot | drivers/ext2/ext2.c:459-493 | an empty inode slot is filled with the first free block from the inode's group on; the volume invariant is kept |
| Ext2Volume.Volume.EnsureEntry | drivers/ext2/ext2.c:496-514 | an empty entry of an indirect block is filled in the same way; the volume invariant is kept |
| Ext2Volume.Volume.Walk | drivers/ext2/ext2.c:698-833 | follows the pointers to the one stored at a place |
| Ext2Volume.Volume.GetBlock | drivers/ext2/ext2.c:698-833 | error exactly beyond the mappable blocks, otherwise the mapped block or a hole |
| Ext2Volume.Volume.AssignPlace | drivers/ext2/ext2.c:442-696 | fills a place with the missing indirect blocks on the way, also when it fails half-way |
| Ext2Volume.Volume.AssignBlock | drivers/ext2/ext2.c:442-696 | afterwards get_block yields the result, a new block is the first free one from the inode's group on and reads as zeros, every other mapping and every byte of every file is unchanged; 0 means that the scan from the inode's group finds no block |
| Ext2Volume.Volume.PutBytes | drivers/ext2/ext2.c:1338-1354 | replaces exactly the given bytes of one file |
| Ext2Volume.Volume.SetSize | drivers/ext2/ext2.c:288-316 | stores a size and keeps all mappings and bytes |
| Ext2File.Handle.constructor | drivers/ext2/ext2.c:1189-1209 | a new handle is at position 0 |
| Ext2File.Handle.GetSeek | drivers/ext2/ext2.c:845-850 | the cursor as a byte position |
| Ext2File.Handle.Seek | drivers/ext2/ext2.c:1287-1295 | sets the cursor to any position |
| Ext2File.Handle.ReadChunk | drivers/ext2/ext2.c:1235-1270 | one pass of the read loop, clamped to the size only in mapped blocks |
| Ext2File.Handle.Read | drivers/ext2/ext2.c:1211-1285 | returns exactly the bytes at the cursor, and exactly how many; moves the cursor by that |
| Ext2File.Handle.WriteChunk | drivers/ext2/ext2.c:1329-1357 | maps a hole and replaces the bytes, or fails and changes no byte |
| Ext2File.Handle.WriteLoop | drivers/ext2/ext2.c:1316-1369 | the prefix written is replaced, all other bytes of all files are kept; short only at the capacity or when the scan from the inode's group finds no block |
| Ext2File.Handle.Write | drivers/ext2/ext2.c:1297-1380 | the same, and the size becomes the maximum of the old size and the end |
| Ext2Flat.WriteIsFlatWrite | drivers/ext2/ext2.c:1297-1380 | a write refines a write on a flat array: the gap is zero-filled, bytes past the size stay zero |
| Ext2Flat.WriteKeepsOthers | drivers/ext2/ext2.c:1297-1380 | other files are untouched |
| Ext2Flat.ReadExactIff | drivers/ext2/ext2.c:1211-1285 | a read returns min(count, size - pos) bytes if and only if the tail is mapped, or the size is a whole number of blocks, or the request ends inside the file |
| Ext2Flat.ReadBeyondCapacity | drivers/ext2/ext2.c:1211-1285 | a size beyond the mappable blocks stops reads at the last mappable byte |
| Ext2Flat.ReadIsFlatRead | drivers/ext2/ext2.c:1211-1285 | an exact read is the slice of the flat array |
| Ext2Flat.TailStaysMappedIff | drivers/ext2/ext2.c:1371-1377 | a write keeps the tail mapped exactly if it writes something, or starts inside the file, or right behind a mapped block |
| Ext2Flat.TailSafeIff | drivers/ext2/ext2.c:1316-1377 | before the call: the tail stays mapped however many bytes get written, exactly if the write does not start past the end, or the byte before it is mapped |
| Ext2Flat.WriteIsUpdate | drivers/ext2/ext2.c:1297-1380 | on the arrays of all files at once, a write replaces one of them by its flat write |
| Ext2Session.Perform | drivers/ext2/ext2.c:1211-1380 | a seek, read or write on one of many handles acts on the flat arrays and the cursors |
| Ext2Session.ReadIsExact | drivers/ext2/ext2.c:1211-1285 | with a mapped tail a read is the slice of the flat array |
| Ext2Session.TailsAfterWrite | drivers/ext2/ext2.c:1297-1380 | a write that does not start past the end keeps all tails mapped |
| Ext2Session.DoWrite | drivers/ext2/ext2.c:1297-1380 | a write through a handle changes one flat array and one cursor |
| Ext2Session.DoRead | drivers/ext2/ext2.c:1211-1285 | a read changes one cursor and returns the slice when the tail is mapped |
| Ext2Session.DoSeek | drivers/ext2/ext2.c:1287-1295 | a seek changes one cursor |
| Ext2Session.Run | drivers/ext2/ext2.c:1211-1380 | every sequence of seeks, reads and writes on any handles equals its replay on flat arrays and cursors; if the tails are mapped at first, then as long as no write starts past the end of its file they stay mapped and every read returns exactly min(count, size - pos) bytes of the array |
| Ext2Session.ReadPastEnd | drivers/ext2/ext2.c:1211-1380 | with an empty file: seek to 1, write nothing, seek to 0, and a read of two bytes returns two |
| Ext2Session.FreshReadPastEnd | drivers/ext2/ext2.c:1211-1380 | so on every freshly made volume and with every inode |
| Shootdown.FreedPagesAreInvalidated | kernel/core/mm.c:427-458 | the pages given back are exactly the pages that were invalidated |
| Shootdown.CountFinished | kernel/apic/ipi.c:94-120 | cleared entries need as many finished CPUs, for any injective ids |
| Shootdown.AllFinished | kernel/core/mm.c:546-567 | when the worker has seen all entries clear, every CPU of the batch has finished and no handler runs |
| Shootdown.ClearIsFinished | kernel/core/mm.c:546-567 | the same whenever the entries are clear behind the arming, wherever the worker is |
| Shootdown.InvHolds | kernel/core/mm.c:504-615 | the protocol invariant holds in every state of every run |
| Shootdown.ShootdownSafety | kernel/core/mm.c:504-615 | no page is on the free list while a CPU registered at arming time caches it, in every interleaving |
| Shootdown.HandlersWalkLiveNodes | kernel/apic/ipi.c:107-120 | no handler reads a list node that was freed |
| Shootdown.NoStaleTranslation | kernel/apic/ipi.c:94-120 | if CPUs register before they cache anything, nobody ever caches a free page |
| ShootdownProgress.StaleWithoutRegistration | kernel/apic/ipi.c:94-120 | a run after which a CPU that did not register caches a free page |
| Shootdown.PagesConserved | kernel/core/mm.c:504-615 | in every state of every run and interleaving, the free, owned, pending and transacted pages together are the pages of the start, and each page is in one of these only |
| Shootdown.BatchGivenBack | kernel/core/mm.c:569-583 | every page of a batch is on the free list before the worker is idle again |
| Shootdown.FreedBeforeReused | kernel/core/mm.c:504-583 | a freed page is handed out again only after it was on the free list |
| ShootdownProgress.HandlerStepsBounded | kernel/apic/ipi.c:107-120 | while the worker waits, the handlers take boundedly many steps whatever others do |
| ShootdownProgress.CanFinishIff | kernel/core/mm.c:546-583 | in every state of every run, for all injective ids: the worker and the handlers can free a waiting batch if and only if every armed entry has an unfinished handler that answers for it, and the worker does not rest with all handlers finished |
| ShootdownProgress.OrphanNeverServed | kernel/core/mm.c:553-567 | with an armed entry that has no handler left, the worker waits for ever, whatever anybody does |
| ShootdownProgress.ArmOwedIff | kernel/core/mm.c:546-549 | arming an entry keeps every entry answered for, exactly if the CPU that answers for it is interrupted now or still busy |
| ShootdownProgress.BatchCanFinishIff | kernel/core/mm.c:543-583 | with equal ids and the vector installed, a batch under way can be freed from every state of every run, exactly unless the worker rests with all handlers finished |
| ShootdownProgress.AlwaysFinishesIff | kernel/core/mm.c:553-583 | in every state of every run, for all injective ids: every interleaving of worker and handlers frees a waiting batch, if and only if the barrier is clear and the worker does not rest, or the worker is asleep, exactly one handler is left and it answers for whatever is armed |
| ShootdownProgress.BatchRunsEnd | kernel/core/mm.c:553-583 | every interleaving of worker and handlers behind the arming ends, after boundedly many steps |
| ShootdownProgress.SettledIsFree | kernel/core/mm.c:553-583 | once a batch has settled, exactly its pages have joined the free list, in every interleaving of worker and handlers |
| ShootdownProgress.UnassuredIsForgotten | kernel/core/mm.c:553-567 | otherwise some interleaving ends with the worker asleep and no handler left |
| ShootdownProgress.NextFreeRouses | kernel/core/mm.c:504-518 | after the next free a worker asleep always finishes, exactly if the barrier is clear by then |
| ShootdownProgress.FreeTakenIff | kernel/core/mm.c:529-544 | in every state of every run between batches: a pending free is taken up without another free, exactly if the worker has not seen the list empty before |
| ShootdownProgress.SwappedIdsWaitForEver | kernel/apic/ipi.c:107-120 | for any two CPUs with swapped ids, a run after which the worker waits for ever |
| ShootdownProgress.WakeUpIsLost | kernel/core/mm.c:553-567 | for any CPU, a run after which the barrier is clear and the worker sleeps on |
| ShootdownProgress.FreeIsOverlooked | kernel/core/mm.c:532-534 | a run after which a free is pending and the worker asleep |
| PageTables.PathIsPage | kernel/core/paging.c:39-42 | for all canonical addresses and all three page sizes: the leading indices agree exactly if the addresses lie in the same page |
| PageTables.PathSpells | kernel/core/paging.c:39-42 | the four indices and the offset spell the low 48 bits of every canonical address; the first index tells the upper half |
| PageSpaces.WalkEnds | kernel/core/paging.c:55-90 | the hardware walk ends in the entry that the table positions lead to |
| PageSpaces.EditEffect | kernel/core/paging.c:147-218 | storing a leaf entry changes the translation of exactly the addresses behind it, in all spaces |
| PageSpaces.LinkKeepsTree | kernel/core/paging.c:92-119 | linking an empty table keeps every table at its one position |
| PageSpaces.LinkKeepsTranslation | kernel/core/paging.c:92-119 | linking an empty table changes no translation |
| PageSpaces.KernelHalfCoherent | kernel/core/paging.c:276-297 | equal and present top entries make every space translate upper-half addresses alike |
| PageSpaces.NewRootKeepsTree | kernel/core/paging.c:276-297 | a new space joins without disturbing the tables, and shares the kernel half |
| PageRights.AccessEnds | kernel/core/paging.c:55-119 | the write, user and execute rights the hardware gives at an address are those of all entries on its walk |
| PageRights.ForkGrantsAlike | kernel/core/paging.c:340-399 | after a duplication parent and child have the same rights at every lower-half address |
| PageViews.EditView | kernel/core/paging.c:147-274 | storing a leaf entry changes the rights and the guard of exactly the addresses behind it, in all spaces |
| PageViews.LinkView | kernel/core/paging.c:92-119 | linking an empty table changes no rights and no guard |
| PageViews.MoreViews | kernel/core/paging.c:276-399 | nor does a new space, empty or duplicated |
| PageViews.ForkUnguarded | kernel/core/paging.c:340-399 | the lower half of a duplicated space has no guarded page |
| Paging.Paging.PageWalk | kernel/core/paging.c:55-90 | level, table and index where the walk ends |
| Paging.Paging.IncreaseGranularity | kernel/core/paging.c:92-119 | tables down to the wanted level that take away no right; no translation, right or guard changed even when memory runs out; fails exactly if it does |
| Paging.Paging.MapProc | kernel/core/paging.c:147-179 | success maps exactly one page, of the given size, at the given physical address and with each of the given flags (page-size bit set for large pages); the rights of the address are those flags under its tables; every other address keeps translation, rights and guard; a finer page, a present page or lack of memory changes none of them; which outcome occurs and when |
| Paging.Paging.SetPage | kernel/core/paging.c:173-218 | writing a page entry changes translation and guard of exactly its addresses, and gives them its rights under those of the tables |
| Paging.Paging.Unmap | kernel/core/paging.c:204-218 | removes exactly one page and its guard, or nothing at another granularity |
| Paging.Paging.UpdatePerms | kernel/core/paging.c:185-202 | gives exactly one page each of the new flags, and the rights they leave under its tables, and keeps its address, size and guard; every other address is untouched; the tables stay well formed exactly if that entry stays a page |
| Paging.PermittedStaysPageIff | kernel/core/paging.c:185-202 | new permissions keep a page a page if and only if they do not make an absent large entry present |
| Paging.PermsWithoutPage | kernel/core/paging.c:185-202 | right after start-up, for any upper-half address: making a 1G page present where nothing is mapped succeeds and breaks the tables |
| Paging.Paging.InstallGuard | kernel/core/paging.c:228-248 | marks exactly one unmapped page and changes no translation; done exactly if the page is unmapped and memory suffices |
| Paging.Paging.RemoveGuard | kernel/core/paging.c:250-263 | clears exactly one page, exactly if it is guarded; it is not guarded afterwards |
| Paging.Paging.CheckGuard | kernel/core/paging.c:265-274 | tells exactly the guarded pages |
| Paging.Paging.EnsureMapped | kernel/core/paging.c:125-145 | gives every upper-half entry a table, which is empty and for the kernel only, and adds no other; changes no translation, right or guard; establishes the coherence that all operations keep |
| Paging.Paging.CreatePml4 | kernel/core/paging.c:276-297 | a new space: empty below, equal to the kernel's above; no other space changes |
| Paging.SpacesAgree | kernel/core/paging.c:125-297 | in every valid state, with duplicated spaces, any two spaces translate every upper-half address alike, with the same rights and guards |
| PageTrees.TranslateIsLookup | kernel/core/paging.c:55-90 | the hardware walk reads the tree of tables |
| PageTrees.AllReleasedIsFrames | kernel/core/paging.c:299-326 | the order in which a tree is freed lists the same chunks as the order in which it is copied |
| PageTrees.CopiesTranslateAlike | kernel/core/paging.c:340-381 | copied trees map the same addresses to equal contents, with equal present, write, user, execute and size bits and no guard |
| PageFork.Memory.FreePages | kernel/core/paging.c:299-326 | queues what hangs below a table, then the table |
| PageFork.Memory.FreeUserspace | kernel/core/paging.c:328-338 | queues the lower half, then the top-level table |
| PageFork.Memory.CopyPages | kernel/core/paging.c:340-381 | a copy of the tree in frames of the allocator alone, in order; everything older is kept |
| PageFork.Memory.CopySlot | kernel/core/paging.c:346-379 | the copy of one entry: fresh frame, kept flags, equal contents |
| PageFork.Memory.DuplicateLower | kernel/core/paging.c:383-399 | a space with a copied lower half and the kernel's upper half, made of exactly the frames it took |
| PageFork.ForkTranslatesAlike | kernel/core/paging.c:383-399 | parent and child map the same lower-half addresses, with equal present, write, user, execute and size bits and no guard, to pages of equal contents |
| PageFork.ForkSharesNothing | kernel/core/paging.c:383-399 | no frame of the child held a table or a page before |
| PageFork.ForkThenFree | kernel/core/paging.c:328-399 | freeing the copy releases exactly what duplication allocated |
| PageFork.MappedPagesReleased | kernel/core/paging.c:299-338 | every page mapped in the lower half is released with its size |
| PageFork.LowerTablesReleased | kernel/core/paging.c:299-338 | every table of a space's lower half is released |
| PageRelease.EntriesApart | kernel/core/paging.c:299-338 | different entries of a lower half lead to different frames |
| PageRelease.QueuedOnce | kernel/core/paging.c:299-338 | freeing any space queues no chunk twice |
| PageRelease.QueuedDisjoint | kernel/core/paging.c:299-338 | freeing any space gives back no byte twice: the queued ranges are pairwise disjoint, for all page sizes |
| PageRelease.QueuedTables | kernel/core/paging.c:299-338 | the tables queued are exactly the space's top level and its lower-half tables; none of the shared upper half and none of another space |
| PageRelease.QueuedPages | kernel/core/paging.c:299-338 | everything else queued is a page of the lower half, with its size |
| PageRelease.LeafIsQueued | kernel/core/paging.c:299-338 | and every such page is queued |
| PageFork.ForkReleasesOnce | kernel/core/paging.c:328-399 | freeing a duplicated space queues no frame twice |
| PageFork.SpacesAreTrees | kernel/core/paging.c:55-297 | the spaces of the mapping operations are such trees |
| PageChild.TableInInjective | kernel/core/paging.c:340-399 | different paths of a copy lead to different tables |
| PageChild.ForkKeepsSpaces | kernel/core/paging.c:383-399 | duplication keeps every table at its one position and every space on the kernel's upper half, with the child's tables added |
| PageChild.ForkKeepsOld | kernel/core/paging.c:383-399 | every old space translates as before |
| Paging.Paging.DuplicateLower | kernel/core/paging.c:383-399 | a duplicated space is one of the valid spaces: same mappings and rights below with equal contents and no guards, the kernel's above, no other space changed |
| HeapArena.BlocksTileArena | kernel/core/alloc.c:53-91 | every byte behind the arena header lies in exactly one block |
| HeapArena.NothingUsedIsOneBlock | kernel/core/alloc.c:306-350 | an arena with nothing in use is one free block of INIT_BLOCK_SIZE |
| HeapArena.SplitKeepsTiles | kernel/core/alloc.c:162-187 | cutting a block keeps the tiling, prev links and LAST flags |
| HeapArena.MergeKeepsTiles | kernel/core/alloc.c:318-350 | merging two blocks keeps the tiling, prev links and LAST flags |
| HeapArena.UnlinkEffect | kernel/core/alloc.c:131-146 | the list without one block is still doubly linked |
| HeapArena.ChainEffect | kernel/core/alloc.c:176-184 | the list with one more block is still doubly linked |
| HeapArena.Arena.constructor | kernel/core/alloc.c:262-273 | a new arena is one free block |
| HeapArena.Arena.FindFit | kernel/core/alloc.c:228-238 | the first fitting block of the free list, or none fits |
| HeapArena.Arena.PatchList | kernel/core/alloc.c:131-146 | takes exactly one block off the list |
| HeapArena.Arena.Split | kernel/core/alloc.c:161-187 | the rest becomes a free block behind the first on the list |
| HeapArena.Arena.Claim | kernel/core/alloc.c:189-194 | marks USED, unlinks, remembers the arena; restores the arena invariant |
| HeapArena.Arena.Alloc | kernel/core/alloc.c:148-204 | one new live block, of exactly the size asked for if a header fits behind it; the rest takes its place on the free list; all other live blocks kept, invariant kept |
| HeapArena.Arena.JoinPrev | kernel/core/alloc.c:318-326 | the free block before absorbs the freed one |
| HeapArena.Arena.Push | kernel/core/alloc.c:327-337 | otherwise the freed block goes to the front of the list |
| HeapArena.Arena.JoinNext | kernel/core/alloc.c:340-350 | a free block behind is absorbed and leaves the list |
| HeapArena.Arena.Rejoin | kernel/core/alloc.c:306-338 | first half of kfree: a free block before absorbs the freed one and the list stays, otherwise the block is first on the list |
| HeapArena.Arena.JoinBehind | kernel/core/alloc.c:340-350 | second half: a free block behind leaves the list; fully coalesced again |
| HeapArena.Arena.Release | kernel/core/alloc.c:288-357 | exactly the freed block stops being live; fully coalesced again; which blocks are on the free list, in which order |
| Heap.AdjustedCoversIff | kernel/core/alloc.c:212-215 | the block covers the request if and only if no 64-bit addition wraps |
| Heap.AdjustedIntactIff | kernel/core/alloc.c:212-215 | the adjusted size holds a header exactly for requests up to 2^64 - 48 and above 2^64 - 16 |
| Heap.HugeRequestIsShort | kernel/core/alloc.c:206-286 | kmalloc of 2^64 - 1 bytes on a new heap succeeds with a smaller block |
| Heap.Heap.constructor | kernel/core/alloc.c:109-113 | an empty heap |
| Heap.Heap.AllocIn | kernel/core/alloc.c:229-237 | serving a request from one arena keeps the whole heap invariant |
| Heap.Heap.Extend | kernel/core/alloc.c:249-281 | a new arena in front of the chain |
| Heap.Heap.Search | kernel/core/alloc.c:217-246 | the first arena in the chain with a fitting free block, and the first such block on its list; or none has one |
| Heap.Heap.Kmalloc | kernel/core/alloc.c:206-286 | a new live block disjoint from all others, which covers the request exactly up to 2^64 - 48 bytes; the first fitting block of the first arena that has one, without a new arena, and a new arena exactly if none has; panics exactly if no free block fits and there is no memory or the request exceeds an arena |
| Heap.Heap.Kfree | kernel/core/alloc.c:288-357 | exactly that block stops being live; null and double frees change nothing |
| Heap.Heap.LiveBlock | kernel/core/alloc.c:203-203 | live payloads are 16-byte aligned, inside one arena, and marked USED there |
| Heap.Heap.LiveBlocksApart | kernel/core/alloc.c:131-357 | live blocks do not overlap |
| Heap.Heap.AllFreed | kernel/core/alloc.c:288-357 | freeing everything leaves one INIT_BLOCK_SIZE block per arena |
| Ranges.JoinedOK | kernel/core/mm.c:149-177 | insertion with coalescing keeps the list sorted, page-aligned, disjoint and maximally coalesced |
| Ranges.JoinedAdds | kernel/core/mm.c:149-177 | and adds exactly the range |
| Ranges.JoinedOKIff | kernel/core/mm.c:138-177 | an accepted range keeps the normal form if and only if no free range that starts below reaches over its base |
| Ranges.JoinedAscends | kernel/core/mm.c:138-177 | an accepted range keeps the list in order of starts, whatever it overlaps |
| Ranges.DoubleFreeIsLinked | kernel/core/mm.c:144-152 | a page freed twice that is linked in |
| Ranges.HitIsNext | kernel/core/mm.c:136-142 | only the range at the place found can be run into |
| Ranges.JoinedIsGlued | kernel/core/mm.c:155-177 | merging with the neighbours one after the other is the merge of all |
| Ranges.RoundedCoversIff | kernel/core/mm.c:349-353 | rounding covers the request if and only if it does not wrap |
| Ranges.ServedIffNoWrap | kernel/core/mm.c:349-392 | when the search finds a range, the request is served exactly if and only if neither addition wraps: the range was free, covers the request, is aligned and below max, and exactly it left the list |
| Ranges.TakesHighestRun | kernel/core/mm.c:349-399 | the request is served in the highest run of free addresses below max that has room for it and its alignment, at its start or at the first multiple of the alignment behind it; 0 exactly if there is no such run |
| Ranges.HugeSizeStaysFree | kernel/core/mm.c:349-392 | a request that rounds to 0 gets memory that stays free, and with an alignment leaves two adjacent ranges |
| Ranges.WrappedSumInventsMemory | kernel/core/mm.c:355-392 | a size and an alignment that add up to 2^64 leave a list that claims memory nobody freed |
| Ranges.DisjointIsClear | kernel/core/mm.c:138-147 | a range that touches no free address is accepted and keeps the normal form |
| Ranges.CarvedFree | kernel/core/mm.c:371-399 | carving removes exactly the allocated addresses |
| Ranges.CarvedOK | kernel/core/mm.c:371-399 | and keeps the list in normal form |
| Ranges.AdjustAligns | kernel/core/mm.c:371-371 | the adjusted base is aligned |
| Ranges.NormalFormUnique | kernel/core/mm.c:133-180 | the free set determines the list |
| Ranges.AllocThenFree | kernel/core/mm.c:328-458 | freeing what was allocated restores the very same list |
| RangeAllocator.LinkedChain | kernel/core/mm.c:149-153 | a node linked in leaves the list doubly linked |
| RangeAllocator.UnlinkedChain | kernel/core/mm.c:160-161 | a node taken out leaves the list doubly linked |
| RangeAllocator.RangeList.constructor | kernel/core/mm.c:89-94 | two guards and nothing between |
| RangeAllocator.RangeList.AllocNode | kernel/core/mm.c:116-131 | a node that is on no list, spare or new |
| RangeAllocator.RangeList.FreeNode | kernel/core/mm.c:109-114 | the node becomes the first spare one |
| RangeAllocator.RangeList.Place | kernel/core/mm.c:136-136 | the first node that does not start below, or the guard |
| RangeAllocator.RangeList.LinkBefore | kernel/core/mm.c:149-153 | the list gains one node at one position |
| RangeAllocator.RangeList.Unlink | kernel/core/mm.c:390-391 | the list loses one node |
| RangeAllocator.RangeList.Join | kernel/core/mm.c:149-177 | linking and merging with both neighbours, the emptied nodes becoming spare |
| RangeAllocator.RangeList.Insert | kernel/core/mm.c:133-180 | rejected exactly if it runs into a following range; otherwise exactly the range joins the free set, also on a list with overlaps, which stays in order of starts; a normal form is kept exactly if nothing reaches over the range |
| RangeAllocator.RangeList.Release | kernel/core/mm.c:427-458 | the same for a freed range of whole pages; memory that is not free is accepted and keeps a normal form |
| RangeAllocator.RangeList.Search | kernel/core/mm.c:360-364 | the last qualifying range, or none qualifies |
| RangeAllocator.RangeList.Carve | kernel/core/mm.c:371-408 | front, middle and back of a node in 64-bit arithmetic, with the spare node used for the front |
| RangeAllocator.RangeList.Alloc | kernel/core/mm.c:328-425 | for every size and alignment: 0 and no change if the size is 0, the alignment is bad or no range qualifies; otherwise, from a list in normal form, served exactly if and only if nothing wraps, and then in the highest run of free addresses with room |
| Reaping.NoLostWakeup | kernel/core/signal.c:33-96 | in every interleaving, a waiter on the queue with plock free means no zombie; sleepers on a zombie are being woken; none sleeps once the reaper has finished |
| Reaping.WaitersExcludeEachOther | kernel/core/process.c:498-507 | plock excludes waiters and reaper; nobody returns before the child is a zombie |
| Reaping.NoDeadlock | kernel/core/signal.c:33-96 | somebody can always move until all are done |
| Reaping.StepsDecrease | kernel/core/process.c:461-463 | every step brings the end nearer |
| Reaping.EveryWaiterReturns | kernel/core/process.c:498-514 | every maximal run ends with the reaper finished and all waiters returned, after boundedly many steps |
| SchedLists.OnOneListOnce | kernel/core/scheduler.c:38-49 | a process is on one list, at one position |
| SchedLists.AttachKeepsWired | kernel/core/scheduler.c:38-49 | linking into one list disturbs no other list that shares the next field |
| SchedModel.EventConserves | kernel/core/scheduler.c:65-140 | every critical section keeps each live process on exactly one list once, and loses or duplicates nobody |
| SchedModel.RunConserves | kernel/core/process.c:269-281 | over every run, the processes live before and those born are those live after and those buried, with multiplicity |
| SchedModel.LiveUnlessBuried | kernel/core/process.c:480-489 | over every run a live process stays on its one list unless the reaper finishes it |
| SchedModel.QueueAdvances | kernel/core/scheduler.c:117-126 | only dispatches move a process forward, each by one place |
| SchedModel.DispatchedInTurn | kernel/core/scheduler.c:117-139 | the process at active position k is run by the (k+1)-th dispatch |
| SchedModel.NeverEarly | kernel/core/scheduler.c:107-115 | a sleeper is neither runnable nor running before its wake time |
| SchedModel.AllOrNone | kernel/core/scheduler.c:81-115 | the wake-up loop wakes all sleepers or none |
| SchedLife.NextEffect | kernel/core/scheduler.c:65-140 | what each critical section does to the lists: which list loses whom from which end, which one gains him where, and that all others stay |
| SchedLife.EventEdges | kernel/core/scheduler.c:65-140 | a process moves only along the edges of its life cycle, and only a Bury takes it off all lists |
| SchedLife.KilledNeverRuns | kernel/core/process.c:269-281 | over every run a killed process is on no active, sleep, wait or CPU list again unless it is spawned anew, and stays with the reaper until it is buried |
| SchedLife.BlockedUntilWoken | kernel/core/signal.c:33-96 | over every run a blocked process leaves its wait queue only by a Take of that queue, and the waker's list only by a later WakeNext of the same waker |
| Scheduler.DueSleeperWaits | kernel/core/scheduler.c:77-139 | two processes go to sleep, and a dispatch at a time when one is due leaves it asleep and the CPU idle |
| Scheduler.Scheduler.constructor | kernel/core/scheduler.c:57-63 | all lists empty |
| Scheduler.Scheduler.Schedule | kernel/core/scheduler.c:38-49 | appends to the active queue, head and tail consistent |
| Scheduler.Scheduler.InsertSleep | kernel/core/scheduler.c:77-91 | inserts by descending wake time |
| Scheduler.Scheduler.PushFront | kernel/core/signal.c:38-41 | pushes in front of a wait or reap queue |
| Scheduler.Scheduler.TakeAll | kernel/core/signal.c:82-85 | takes a whole wait queue to a waker, or the reap queue to the reaper |
| Scheduler.Scheduler.WakeSleepers | kernel/core/scheduler.c:107-115 | moves the due sleepers to the active queue in order |
| Scheduler.Scheduler.RunNext | kernel/core/scheduler.c:117-126 | the head of the active queue becomes current |
| Scheduler.Scheduler.Preempted | kernel/core/scheduler.c:95-98 | a ready process goes from its CPU to the end of the active queue; all lists stay wired, no other list moves |
| Scheduler.Scheduler.Napping | kernel/core/scheduler.c:77-91 | the current process goes to its place in the sleep queue; all lists stay wired, no other list moves |
| Scheduler.Scheduler.Blocked | kernel/core/signal.c:33-46 | the current process goes to the front of a wait queue; all lists stay wired, no other list moves |
| Scheduler.Scheduler.Killed | kernel/core/process.c:269-281 | the current process goes to the reap queue; all lists stay wired, no other list moves |
| Scheduler.Scheduler.Executed | kernel/core/process.c:655-667 | the process is queued again and the stale pcb goes to the reap queue; all lists stay wired, no other list moves |
| Scheduler.Scheduler.Took | kernel/core/signal.c:80-88 | a whole wait queue becomes the waker's list; all lists stay wired, no other list moves |
| Scheduler.Scheduler.WokeNext | kernel/core/signal.c:90-95 | the first process of the waker's list is queued, its successor read before the link is overwritten; all lists stay wired, no other list moves |
| Scheduler.Scheduler.Collected | kernel/core/process.c:480-483 | the whole reap queue becomes the reaper's list; all lists stay wired, no other list moves |
| Scheduler.Scheduler.Finished | kernel/core/process.c:485-489 | the first process of the reaper's list leaves all lists; all lists stay wired, no other list moves |
| Scheduler.Scheduler.Spawned | kernel/core/scheduler.c:51-55 | a new process is queued; all lists stay wired, no other list moves |
| Scheduler.Scheduler.Dispatched | kernel/core/scheduler.c:105-139 | due sleepers are queued in order, then the head of the active queue runs or the CPU idles; all lists stay wired, no other list moves |
| CanonPath.BackIsWalk | kernel/core/fs.c:400-435 | right-to-left with a skip counter equals left-to-right with a stack |
| CanonPath.AtSlash | kernel/core/fs.c:402-423 | what the scan does at a slash |
| CanonPath.Scan | kernel/core/fs.c:400-435 | the loop as a whole: what is written is what has been decided |
| CanonPath.Canonicalise | kernel/core/fs.c:385-441 | for every path the buffer holds the clean one: all components resolved behind the first slash, what stands before it kept; no write leaves the buffer |
| CanonPath.ResolveIsProper | kernel/core/fs.c:400-435 | no ".", "..", empty component or slash is left |
| CanonPath.CanonIsIdempotent | kernel/core/fs.c:385-441 | canonicalising a clean path changes nothing |
| Terminal.TypeKeepsOK | kernel/devfs/tty.c:170-288 | every typed byte keeps the order of the indices, the bound of the control sequence, and "full implies cursor at line end" |
| Terminal.TypeAppends | kernel/devfs/tty.c:266-272 | typing only ever appends whole lines to the committed bytes |
| Terminal.ReadersGetCommitted | kernel/devfs/tty.c:122-154 | over every run readers receive exactly the committed bytes, in order |
| Terminal.EchoShowsLine | kernel/devfs/tty.c:170-288 | after every typed byte the screen, which has only the echo, shows the line and the cursor as they are |
| Terminal.ArrowMoves | kernel/devfs/tty.c:187-222 | ESC [ D moves the cursor left by one and ESC [ C right by one, within the line; nothing else changes |
| Terminal.SequenceObeyedUpTo31 | kernel/devfs/tty.c:181-222 | a control sequence of up to 31 parameter bytes moves the cursor by its final byte; with 32 the final byte is dropped; either way it ends there and changes nothing else |
| Terminal.LeftReplacesLast | kernel/devfs/tty.c:170-288 | a line, cursor left, a plain byte and return commit the line with its last byte replaced |
| Terminal.RightUndoesLeft | kernel/devfs/tty.c:170-288 | with cursor right behind cursor left the byte is appended |
| Terminal.BackspaceReplacesLast | kernel/devfs/tty.c:224-288 | backspace turns the last byte into a space, which the next byte replaces |
| Terminal.TakenOrNot | kernel/devfs/tty.c:170-288 | which bytes change the line, and how |
| Terminal.TypedLineArrivesIff | kernel/devfs/tty.c:170-288 | a plain line and a return arrive as typed if and only if the ring has room for them |
| Terminal.LongLineFillsRing | kernel/devfs/tty.c:170-288 | typing as many plain bytes as the ring holds reaches the blocked state |
| Terminal.FullLineWedges | kernel/devfs/tty.c:122-174 | a line that fills the ring blocks the terminal for good |
| Terminal.WedgedIff | kernel/devfs/tty.c:122-288 | the terminal is blocked for good if and only if nothing is committed and the line fills the ring |
| Terminal.BracketKeptIff | kernel/devfs/tty.c:181-222 | a '[' reaches the line if and only if the ring has room and no escape flag is set |
| Terminal.EscapeSetIff | kernel/devfs/tty.c:172-222 | which bytes leave the escape flag set |
| Terminal.ControlHasEscape | kernel/devfs/tty.c:181-222 | a control sequence is open only with the escape flag set, in every reachable state |
| Terminal.BracketAfterSequenceIsLost | kernel/devfs/tty.c:181-222 | every control sequence, however it ends, leaves the flag set, and the next '[' is swallowed |
| TtyRing.IndicesCompare | kernel/devfs/tty.c:40-42 | the index comparisons decide empty, full, start and end of line |
| TtyRing.Tty.constructor | kernel/devfs/tty.c:84-95 | an empty terminal |
| TtyRing.Tty.QueueControl | kernel/devfs/tty.c:187-222 | the control-sequence automaton, never past its buffer |
| TtyRing.Tty.QueueEdit | kernel/devfs/tty.c:224-285 | editing, with its echo |
| TtyRing.Tty.Queue | kernel/devfs/tty.c:170-291 | the ring refines the abstract terminal for every byte, with result and echo |
| TtyRing.Tty.Drain | kernel/devfs/tty.c:131-150 | returns the committed bytes up to the count or the first newline |
| ElfImage.StackParses | kernel/core/elf.c:475-504 | words laid out this way parse to argc, argv, envp and an AT_NULL-terminated vector |
| ElfStack.StackPointerAligned | kernel/core/elf.c:454-463 | the stack pointer is 16-byte aligned for every parity, and the strings end below the top |
| ElfStack.VectorDescribes | kernel/core/elf.c:462-473 | looking up a type in the vector gives the program headers, their size and number, the page size, the address of the random bytes and the clock; no privileges |
| ElfStack.RandomHeld | kernel/core/elf.c:467-468 | the two random words lie right below the strings |
| ElfStack.TotalLength | kernel/core/elf.c:441-451 | lengths with terminators |
| ElfStack.PlaceStrings | kernel/core/elf.c:454-460 | where the strings start |
| ElfStack.CopyString | kernel/core/elf.c:482-489 | copies a string and its terminator, nothing else |
| ElfStack.PushStrings | kernel/core/elf.c:482-501 | strings upwards, pointers downwards, neither touching the other |
| ElfStack.WriteAux | kernel/core/elf.c:462-473 | the default vector with its entries filled in, and the random words |
| ElfStack.BuiltStackParses | kernel/core/elf.c:437-504 | such an image parses to what it was built from |
| ElfStack.Build | kernel/core/elf.c:437-504 | for all lists that fit, parsing the built stack gives back argc, argv, envp and the vector; AT_RANDOM points to the random words; rsp is aligned |
| Folding.BurstDetected | kernel/lib/hash.c:40-59 | a shift register detects every burst that fits it |
| Checksums.ShiftLinear | kernel/lib/hash.c:48-55 | the shift step is linear over exclusive or |
| Checksums.ShiftBack | kernel/lib/hash.c:48-55 | the shift step can be undone |
| Checksums.ComputeCrc32 | kernel/lib/hash.c:40-59 | the loops compute the checksum of the message that CrcPoly.CrcIsUnique characterises |
| Polynomials.RemainderUnique | kernel/lib/hash.c:40-59 | a polynomial has one remainder modulo a generator of degree 32 |
| Remainders.ChecksumRemains | kernel/lib/hash.c:40-59 | a reflected shift register that starts with ones and ends complemented computes a remainder, for any width and generator |
| CrcPoly.CrcIsRemainder | kernel/lib/hash.c:40-59 | for every message: the complement of the checksum is the remainder of the message as a polynomial (bits low first, first 32 complemented, times x^32) modulo x^32 + x^26 + x^23 + x^22 + x^16 + x^12 + x^11 + x^10 + x^8 + x^7 + x^5 + x^4 + x^2 + x + 1 |
| CrcPoly.CrcIsUnique | kernel/lib/hash.c:40-59 | and it is the only 32-bit word with that property |
| Checksums.Crc32DetectsBurst | kernel/lib/hash.c:40-59 | messages that differ only within four consecutive bytes have different checksums |
| Checksums.ComputeFnv64 | kernel/lib/hash.c:61-72 | the loop computes the hash, modulo 2^64 |
| Checksums.FnvIsSum | kernel/lib/hash.c:61-72 | for every message the hash is the offset basis times a power of the prime plus what each byte contributes, modulo 2^64 |
| Checksums.MixIsSmall | kernel/lib/hash.c:66-66 | what a byte contributes is less than 256 either way |
| Checksums.FnvTimesInjective | kernel/lib/hash.c:67-67 | multiplying by the prime loses nothing modulo 2^64 |
| Checksums.Fnv64DetectsByte | kernel/lib/hash.c:61-72 | messages that differ in one byte have different hashes |

## Left out

- ext2: failing disk I/O, the byte layout of superblock, descriptors and inode table, and locking between operations; a volume whose s_first_data_block is not 0; `alloc_inode`, directories and path lookup.
- Ext2Volume.Volume.AllocBlock: where the scan leaves the table of groups (`Ext2Store.LeavesTable`) the code reads memory behind it; the model ends the call there as if no block were left.
- Ext2Session.Run: how much of a write is done is a result of the run and not of its specification (it is short when the volume is full); positions and counts stay below 2^64.
- Heap.Heap.Kmalloc: requests from 2^64 - 47 to 2^64 - 16 bytes, whose adjusted size is smaller than a header, so that the code cuts a block inside its own header. Arena locks are not modelled, each call is one step.
- Heap.Heap.Kfree: stated for pointers to a block header of the heap, live or free; any other pointer, also one to a header that coalescing absorbed, makes the kernel read memory that is no header.
- RangeAllocator.RangeList.Insert: stated for ranges of whole pages above address 0, the only ones its callers pass; address 0 marks the guards.
- RangeAllocator.RangeList.Release: the same. The node of a rejected range is not given back, as in the code. The trimming of memory segments in `mm_init` is not modelled.
- RangeAllocator.RangeList.Alloc: whether a request is served exactly is stated for lists in normal form, which the code keeps until a page is freed twice or a request wraps; on other lists in order of starts only the resulting list is given. A request with an alignment that fails keeps its spare node, as in the code.
- Paging.Paging.MapProc: addresses are given by their four indices (`PathOf`); physical addresses are frame addresses without low bits. Page sizes are 4K, 2M and 1G, as all callers use.
- PageFork.Memory.CopyPages: lower halves of 4K pages, and enough frames. No caller maps larger pages; `mm_alloc_p` aligns to 4K only, so that the copy of a 2M page would not be aligned; and the code does not test for failure, so that without frames it copies to address 0.
- PageFork.Memory.CopySlot: 4K pages and enough frames, as for `CopyPages`.
- PageFork.Memory.DuplicateLower: 4K pages and enough frames, as for `CopyPages`.
- Paging.Paging.DuplicateLower: 4K pages and enough frames, as for `CopyPages`.
- PageFork.Memory.FreeUserspace: the deferred frees are the queue; their processing is the shootdown protocol.
- PageRelease.QueuedOnce: for spaces whose lower-half pages are mapped once and are no tables, since the code frees a page as often as it is mapped; `PageRelease.QueuedDisjoint` likewise for pages without common bytes.
- Shootdown: the virtual range list is a set of pages; allocation from it is one step, and so is a free with its wake-up.
- ShootdownProgress.AlwaysFinishesIff: about the steps of the worker and the handlers; a free by somebody else in between can wake the worker early (`ShootdownProgress.NextFreeRouses`).
- Scheduler: saving and restoring registers, SCHED_SKIP, and a zombie that is still running (the code logs it); a CPU's current process is cleared when it leaves the CPU.
- Reaping: one child; exit codes and freeing of the child's pcb.
- CanonPath.Canonicalise: the mount lookup behind the scan is not modelled.
- Tty: raw mode (the code ignores input in it) and blocking in `tty_read` between two locked passes.
- ElfStack.Build: the ELF segments, and lists that do not fit the eight stack pages, for which the code does not check.
- semaphores, hash tables, array lists, string helpers, open-file table, AHCI, PCIe, HPET, APIC set-up, serial and framebuffer drivers, boot and assembly code: hardware plumbing or easier members.
