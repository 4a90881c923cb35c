# Verified model of the PenelopeOS kernel core

PenelopeOS is a small Xinu-style kernel for x86-64. This project models its four stateful cores and
proves what they keep, and where they do not, exactly when they do:

- **the physical memory allocator** (`memorylist.cpp`): a free list whose headers lie inside the
  memory it manages. `FreeList` says what one operation does to the list, `AllocatorRuns` what whole
  runs do, `HeapMemory` how the list lies in memory as 64-bit words, and `PhysicalHeap` holds the
  class whose methods write those words;
- **the queue table** (`queuetable.cpp`): several doubly linked queues in one array (`QueueSpec` for
  the queues as sequences, `QueueTable` for the array);
- **page frames and paging** (`pages.cpp`, `memory.cpp`, `pstructs.hpp`): the boot memory map
  (`MemoryMap`), the frame map (`PageFrames`), linear addresses (`LinearAddress`) and the four-level
  walk with its PML4 updates (`PageWalk`);
- **small loop kernels**: overlapping copies (`ByteCopy`), the process-slot search (`ProcTable`) and
  the number printers (`Logger`).

`dafny verify dfyconfig.toml` checks everything.

## How the code is modelled

The code as it stands is the model. A null dereference, an access to unmapped memory, an index of -1
and a write past a buffer are outcomes a method can return, so that the proofs say when they happen.
64-bit and byte-wide arithmetic wraps where the code's does. Where a function does something else than
its comments or the hardware manual say, the function is modelled as written and the exact condition
under which it meets its promise is proved. For `free` and `insert` alone a repaired form stands beside it
under a name that says so (`FreeMeant`, `FreeRepaired`, `MeantSpot`, `InsertRepaired`). The departures:

- `free`, line 185 of `memorylist.cpp`, compares with the function `getHead` instead of its result, so
  the merge with the head never happens. Line 211 tests `current >= mptr` where line 207 tests
  `current <= mptr`, so a chunk above the second free block goes in one block too late, or the walk
  runs into null. Repair: call `getHead`, and repeat the test of line 207.
- `allocHeap` reads `mptr->next` in line 125 after `mptr` may have become null, so it faults where its
  callers expect -1. `round` wraps for the eight largest requests. The header is not added to requests
  of 16 bytes or more, and rounding is to the nearest multiple.
- `insert` (`queuetable.cpp`) walks while `key <=` the next key, starting at the head, so on a queue in
  priority order it always leaves the table, and it never stores the key. Its comments ask for
  ascending order and for the tail's key to end the walk. Repair: start at the first process, pass the
  keys up to and including `key`, link in before the entry reached, store the key.
- `CheckBootPages` prints that fewer pages are tracked than available; it halts in the opposite case.
  The model follows the code.
- `InitialisePageFrames` keeps the index of the first usable region in a byte whose zero means "unset",
  so `startOfRam` can come from a later region or from none. Page numbers are then wrong even in the first
  region (`FirstRegionMissed` gives a map); `FirstRegionFoundAfterBootIff` says exactly when they are right.
- The mask in `PagingEntryDescriptor::address` is an `int` whose sign bit is set; widening makes it keep
  bits 63 to 52 of an entry, which section 4.5 of volume 3A of the Intel SDM does not count as address.
- The walk looks at neither the present nor the page-size bit. `ManualWalk` is the walk of 4-KiB pages as
  section 4.5 has it, for 52-bit physical addresses; a large page counts as none. Where it has a page, the
  code finds the same one exactly if no entry on the way (nor cr3) has a bit above 51; without such bits,
  the code departs from it exactly where it comes through to a page over an entry the manual rejects.

What the environment supplies is a parameter: the boot memory map, the direct-map offset, the address of
the function `getHead`, cr3, the memory contents. The boot map is assumed to be what the Limine protocol
promises of usable entries (`MemoryMap.BootMap`): page-aligned, ascending, disjoint. `InitialiseHeaders`
further needs 1 to 19 usable entries, for its array of 20 is read one past the last. The queue table's
callers keep the system constraint of `queuetable.hpp`: a process is in one queue at a time.
`NPROC`, the number of queues, the size of the frame map and the size of the process table are parameters.

## Model

| member | source | states |
|---|---|---|
| MemoryMap.CalculateAvailableMemory | kernel/src/memory/memory.cpp:56-71 | the loop returns the sum of the usable lengths modulo 2^64 |
| MemoryMap.GetBootPages | kernel/src/memory/pages.hpp:22-36 | the loop returns the number of whole pages in the usable regions modulo 2^64 |
| MemoryMap.PagesTimesSize | kernel/src/memory/pages.hpp:30-31 | whole pages times the page size never exceed the memory, fall short of it by less than a page per region, and equal it if and only if every length is page-aligned |
| MemoryMap.BootPagesAreAvailableMemory | kernel/src/memory/memory.cpp:63-68 | on every boot map neither sum wraps and boot pages times 0x1000 is the available memory |
| MemoryMap.AvailableMemoryIsByteCount | kernel/src/memory/memory.cpp:56-71 | on every boot map the available memory is the number of addresses that lie in usable entries |
| FreeList.ChunkSizeBounds | kernel/src/memory/memorylist.cpp:82-86 | below the wrapping range a chunk is a positive multiple of 16 within 8 of the padded request |
| FreeList.ChunkSizeZero | kernel/src/memory/memorylist.cpp:236-238 | the chunk size is zero exactly for the eight largest 64-bit requests |
| FreeList.PayloadHoldsRequest | kernel/src/memory/memorylist.cpp:82-86 | the bytes behind the header can hold the request exactly when it is 8 to 15 bytes |
| FreeList.FirstFit | kernel/src/memory/memorylist.cpp:92-127 | the chosen block is longer than the chunk and every earlier block is not |
| FreeList.AllocOutcome | kernel/src/memory/memorylist.cpp:74-129 | -1 is answered for the empty request only; null is dereferenced exactly when no free block is strictly longer than the chunk |
| FreeList.AllocExact | kernel/src/memory/memorylist.cpp:74-129 | on any list: no chunk and no change for an empty request or when no block is longer, no change when the size wraps to zero, and otherwise the first longer block gives up its front and every other block and chunk stays |
| FreeList.AllocFresh | kernel/src/memory/memorylist.cpp:93-119 | the chunk handed out lies outside every free block if and only if the request does not wrap to size zero |
| FreeList.AllocKeepsInv | kernel/src/memory/memorylist.cpp:93-119 | any allocation keeps blocks and chunks aligned, inside one region each, clear of region ends where live, and tiling usable memory |
| FreeList.AllocKeepsSorted | kernel/src/memory/memorylist.cpp:101-117 | allocation keeps the list sorted by address |
| FreeList.LastCellIsFree | kernel/src/memory/memorylist.cpp:93-115 | the last 16 bytes of each usable region always lie in one free block that ends with the region |
| FreeList.ReleaseKeepsInv | kernel/src/memory/memorylist.cpp:199-233 | putting any live chunk back at any place of the list, joined or not, keeps memory tiled without overlap |
| FreeList.HeadMergeNeverFires | kernel/src/memory/memorylist.cpp:183-192 | no live chunk ends at the function getHead, so the merge with the head is dead code |
| FreeList.FreeWrittenKeepsInv | kernel/src/memory/memorylist.cpp:166-234 | free as written keeps the tiling whenever its walk stops, sorted list or not |
| FreeList.WrittenSpotFromPlace | kernel/src/memory/memorylist.cpp:195-212 | on a sorted list the walk finds places 0 and 1, goes one too far for every later place, and runs into null for the last |
| FreeList.MeantSpotIsPlace | kernel/src/memory/memorylist.cpp:207-212 | the repaired walk stops at the one place that keeps a sorted list sorted |
| FreeList.FreeMeantCorrect | kernel/src/memory/memorylist.cpp:166-234 | the repaired free never runs into null and keeps the list sorted and memory tiled, for every live chunk |
| FreeList.FreeWrittenExact | kernel/src/memory/memorylist.cpp:166-234 | as written, on any list: null is dereferenced if and only if the chunk has no place; otherwise it is put back before the first block, the second, or the first later one that starts, like the one before it, at the chunk or above; it is joined if and only if it is not the new head and touches; every other block and chunk keeps its place |
| FreeList.FreeMeantExact | kernel/src/memory/memorylist.cpp:166-234 | repaired, on any list: the same with the place where the neighbours enclose the chunk, joined whenever the two touch |
| FreeList.FreeWrittenSortedIff | kernel/src/memory/memorylist.cpp:195-233 | on any reachable list, sorted or not, free as written succeeds with a sorted list if and only if the list was sorted and the chunk lies below the second free block |
| FreeList.ReleaseSortedOnlyIfSorted | kernel/src/memory/memorylist.cpp:199-233 | putting a chunk back at any place, joined or not, never brings an unsorted list into order |
| FreeList.AllocSortedIff | kernel/src/memory/memorylist.cpp:93-119 | the list is sorted after an allocation if and only if it was before |
| AllocatorRuns.WrittenRunSortedIff | kernel/src/memory/memorylist.cpp:74-234 | a completed run as written, from any list, ends sorted if and only if it began so and every free in it was of a chunk below the second block |
| FreeList.FreeWrittenFaultIff | kernel/src/memory/memorylist.cpp:208-212 | on a sorted list it dereferences null if and only if there are three blocks or more and the chunk lies above the last but one |
| AllocatorRuns.FreeWrittenFaultIffAny | kernel/src/memory/memorylist.cpp:195-212 | on any reachable list, sorted or not, the exact condition under which free as written dereferences null |
| FreeList.WrittenIsMeantIff | kernel/src/memory/memorylist.cpp:183-227 | on a sorted list it does what its comments say if and only if the chunk lies below the second block and does not touch the head |
| AllocatorRuns.AllocIsFirstFit | kernel/src/memory/memorylist.cpp:92-119 | one block gives up its front, all earlier ones were too short, no other block changes, the block count stays |
| AllocatorRuns.FreeMeantUndoesAlloc | kernel/src/memory/memorylist.cpp:183-227 | repaired: freeing the chunk just allocated restores list and chunks exactly |
| AllocatorRuns.FreeWrittenUndoesAllocIff | kernel/src/memory/memorylist.cpp:195-227 | as written, on any reachable list: it restores them if and only if the split block is where the walk first stops (condition WayBack on the list before) |
| AllocatorRuns.FreeWrittenUndoesAllocSorted | kernel/src/memory/memorylist.cpp:195-227 | as written, on a sorted list: it restores them if and only if the second block was split |
| AllocatorRuns.RunSafety | kernel/src/memory/memorylist.cpp:74-234 | over every run from the initial list, with either free: no overlap, every usable byte in exactly one block or chunk, free plus live sizes equal usable memory, list never empty, last cells free |
| AllocatorRuns.MeantRunProgress | kernel/src/memory/memorylist.cpp:74-234 | repaired: every reachable list is sorted, and the next operation fails exactly for lack of a longer block or for freeing nothing live |
| AllocatorRuns.NestedRunRestores | kernel/src/memory/memorylist.cpp:74-234 | repaired: the run of a properly nested program is completed if and only if each allocation in it gets a chunk of its own, and then leaves free list and chunks as they were |
| AllocatorRuns.WrittenFreeFaultsOnLastGap | kernel/src/memory/other.hpp:61-106 | a run of six operations on one page after which free as written faults on a live chunk and the repaired one does not |
| HeapMemory.SpellingUnique | kernel/src/memory/memorylist.cpp:49-61 | the words of memory from the head on determine the free list |
| PhysicalHeap.Heap.InitialiseHeaders | kernel/src/memory/memorylist.cpp:8-47 | memory then spells the usable regions, sorted, all free, with their total length |
| PhysicalHeap.Heap.CollectUsable | kernel/src/memory/memorylist.cpp:15-27 | the array holds exactly the usable regions in map order |
| PhysicalHeap.Heap.LinkHeaders | kernel/src/memory/memorylist.cpp:29-43 | every region starts with a header that records its length and leads to the next, the last to null |
| PhysicalHeap.Heap.AllocHeap | kernel/src/memory/memorylist.cpp:74-129 | memory spells the list the specification gives, the result is its result, and it is one step of a run; without a chunk no word changes, and with one only the two headers in the split block and the link to it; no word of an older live chunk changes |
| PhysicalHeap.Heap.Search | kernel/src/memory/memorylist.cpp:88-127 | the walk over the headers ends at the first fitting block with its neighbours, or at null |
| PhysicalHeap.Heap.Split | kernel/src/memory/memorylist.cpp:94-119 | the stores carve the chunk off the block's front, relink the list, write the chunk's size and end into its header, and change no other word; a carve of size zero changes nothing |
| PhysicalHeap.Heap.Free | kernel/src/memory/memorylist.cpp:166-234 | as written: faults exactly when the chunk has no place and then writes nothing; otherwise chunk and list are as FreeWrittenExact says, only the chunk's header and the link before it change, and the head changes if and only if the chunk lies below it |
| PhysicalHeap.Heap.WalkWritten | kernel/src/memory/memorylist.cpp:195-212 | the loop over the headers computes the specified place, or null |
| PhysicalHeap.Heap.FreeRepaired | kernel/src/memory/memorylist.cpp:166-234 | the repaired form keeps the heap valid, puts the chunk where FreeMeantExact says, and changes only its header, the link before it or the head |
| PhysicalHeap.Heap.WalkRepaired | kernel/src/memory/memorylist.cpp:195-212 | the repaired loop computes the repaired place, or null |
| PhysicalHeap.Heap.MergeWithHead | kernel/src/memory/memorylist.cpp:187-191 | the stores make chunk and old head one block at the front of the spelled list |
| PhysicalHeap.Heap.Prepend | kernel/src/memory/memorylist.cpp:199-204 | the chunk becomes the head of the spelled list |
| PhysicalHeap.Heap.Insert | kernel/src/memory/memorylist.cpp:217-233 | the chunk is linked in between two blocks, joined with the second exactly when they touch |
| PhysicalHeap.Heap.ClientStore | kernel/src/memory/memorylist.cpp:118-119 | whatever the owner stores behind a chunk's header leaves the heap valid |
| PhysicalHeap.Heap.PrintEntries | kernel/src/memory/memorylist.cpp:49-61 | the walk meets every free block once, in order, with its length |
| PhysicalHeap.Heap.ValidIsSafe | kernel/src/memory/memorylist.cpp:74-234 | every valid heap has all the properties of RunSafety |
| PhysicalHeap.Heap.WordsOfValid | kernel/src/memory/memorylist.cpp:49-61 | in every valid heap the head is the first block, the word at a block is the address of the next or null, and the word 8 bytes on is its length, as for live chunks |
| QueueSpec.RunIsFifo | kernel/src/proc/queuetable.cpp:27-56 | over every run and for every queue, there before or made on the way, what it held and was given is what it gave and holds, in order; each New adds one empty queue under the next even step of ids |
| QueueSpec.PoppedIsPrefixOfPushed | kernel/src/proc/queuetable.cpp:27-56 | from an empty queue on, or one not yet made, the pids popped are a prefix of the pids pushed |
| QueueSpec.RunKeepsOneQueueEach | kernel/src/proc/queuetable.hpp:28-29 | over every run a process is in one queue at most, once |
| QueueSpec.RoundRobin | kernel/src/proc/queuetable.cpp:27-56 | as many pop-then-push rounds as there are processes serve each once in order and restore the state |
| QueueSpec.InsertOrdered | kernel/src/proc/queuetable.cpp:65-66 | one insertion at the meant place keeps keys ascending and comes last among equal keys |
| QueueSpec.InsertAllSortsStably | kernel/src/proc/queuetable.cpp:65-66 | any number of insertions is a stable sort: ascending, and for each key the arrivals in order |
| QueueTable.SpellingUnique | kernel/src/proc/queuetable.cpp:96-114 | the links of a head determine its queue |
| QueueTable.LinksDetermined | kernel/src/proc/queuetable.hpp:16-22 | the queues determine both link chains of every entry in them |
| QueueTable.Table.LinksOfValid | kernel/src/proc/queuetable.hpp:16-22 | in every valid table the links lead from the head over the processes in order to the tail and back, entry by entry |
| QueueTable.Table.AbstractOfValid | kernel/src/proc/queuetable.hpp:28-29 | the laws of runs apply to the queues of every valid table |
| QueueTable.InsertFailsWhenAscending | kernel/src/proc/queuetable.cpp:63-73 | insert as written has no place to stop on any queue in ascending key order |
| QueueTable.InsertStopsInsideIff | kernel/src/proc/queuetable.cpp:67-69 | it stops inside a queue if and only if the first key is not below the new one and some key is |
| QueueTable.Table.IsEmpty | kernel/src/proc/queuetable.hpp:35-35 | the head leads to the tail if and only if the queue has no process |
| QueueTable.Table.NewQueue | kernel/src/proc/queuetable.cpp:82-94 | an empty queue is added, the table stays well formed, all other queues stay; the table is overrun if and only if fewer than two entries are left; otherwise it is the New step of a run, and the four links and the tail's key are as given |
| QueueTable.Table.PushQueue | kernel/src/proc/queuetable.cpp:27-38 | the process is appended to one queue, both link chains stay well formed, no entry but the process and its neighbours changes, all keys stay; it is the Push step of a run |
| QueueTable.Table.PopQueue | kernel/src/proc/queuetable.cpp:40-56 | the first process is returned and dropped with its links at -1, or -1 and no change when empty; no other entry but its neighbours changes, all keys stay; it is the Pop step of a run |
| QueueTable.Table.Insert | kernel/src/proc/queuetable.cpp:58-80 | as written: links in exactly when the loop stops at a process, there before the one preceding the smaller key, and otherwise indexes with -1; keys never change |
| QueueTable.Table.WalkWritten | kernel/src/proc/queuetable.cpp:63-69 | where the loop stops, or that it runs past the tail |
| QueueTable.Table.LinkIn | kernel/src/proc/queuetable.cpp:70-78 | the four stores put the process at any given place of one queue and leave the rest |
| QueueTable.Table.InsertRepaired | kernel/src/proc/queuetable.cpp:58-80 | repaired: the queue with keys is the old one with the item at its place, the key is stored, other queues and keys stay |
| QueueTable.Table.WalkRepaired | kernel/src/proc/queuetable.cpp:65-69 | the repaired walk ends at the first greater key, at the latest at the tail |
| QueueTable.Table.PrintQueue | kernel/src/proc/queuetable.cpp:96-114 | prints head, the processes in order, tail |
| PageFrames.FramesVersusFullPages | kernel/src/memory/pages.cpp:25-36 | pages begun are never fewer than whole pages, and as many on aligned lengths |
| PageFrames.FramesIncreasing | kernel/src/memory/pages.cpp:16-43 | on a boot map the frames are aligned and strictly increasing, so no page is repeated |
| PageFrames.FramesAreTheUsablePages | kernel/src/memory/pages.cpp:16-43 | a page is among the frames if and only if it lies in a usable region |
| PageFrames.CheckedBootFillsMap | kernel/src/memory/pages.cpp:62-67 | a boot that passes the check has a frame for every slot, for any lengths; on a boot map the two are equivalent |
| PageFrames.StartOfRamIsFirstIff | kernel/src/memory/pages.cpp:12-41 | startOfRam is taken from the first usable region if and only if that region is done before the cap, has index 255 at most and, at index 0, is not followed by another such region that is done; it is never set if and only if one of the first two fails |
| PageFrames.StartEntryExact | kernel/src/memory/pages.cpp:12-41 | startOfRam is taken from the first usable entry behind entry 0, if that is done and has index 255 at most; failing that from entry 0, if usable and done; failing that from none |
| PageFrames.PageMap.InitialisePageFrames | kernel/src/memory/pages.cpp:9-48 | slots hold the frames in order up to the cap, the rest is untouched, the goto is taken exactly when the frames fill the map, and startOfRam is the base of the entry StartEntryExact names, or unchanged |
| PageFrames.PageMap.FillRegion | kernel/src/memory/pages.cpp:25-37 | one region's pages go in one after the other, stopping exactly at the end of the map |
| PageFrames.PageMap.CheckBootPages | kernel/src/memory/pages.cpp:62-67 | the kernel halts exactly when there are more slots than boot pages |
| PageFrames.PageMap.PageNumberRightIff | kernel/src/memory/pages.hpp:63-65 | whatever startOfRam is, an address in frame j is numbered j, and its page found again by PageAddress, if and only if exactly j pages lie between startOfRam and that page |
| PageFrames.PageMap.FirstRegionFoundIff | kernel/src/memory/pages.cpp:78-80 | in the part of the first usable region that the map reaches, PageAddress of PhysicalToPageN is the address's page if and only if startOfRam is the region's base |
| PageFrames.PageMap.FirstRegionFoundAfterBootIff | kernel/src/memory/pages.cpp:5-48 | after InitialisePageFrames that is so if and only if startOfRam was taken from the first region (the condition of StartOfRamIsFirstIff), or was never set and the region begins at 0 |
| PageFrames.FirstRegionMissed | kernel/src/memory/pages.cpp:12-41 | a boot map with regions at index 0 and 1 on which startOfRam ends at the second and every address of the first is numbered 2^52 - 4 |
| PageFrames.PageNumber | kernel/src/memory/pages.hpp:63-65 | the number counts the whole pages in the distance from startOfRam, taken modulo 2^64 below it |
| LinearAddress.FormLinearAddress | kernel/src/memory/memory.cpp:126-147 | the shifts compose ones and the five masked fields at bits 48, 39, 30, 21, 12 and 0 |
| LinearAddress.ExtractAfterForm | kernel/src/memory/memory.cpp:149-155 | extraction after forming gives each argument masked to 9 or 12 bits |
| LinearAddress.FormAfterExtractIff | kernel/src/memory/memory.cpp:126-155 | forming after extraction is the identity if and only if the top 16 bits are ones |
| LinearAddress.OrderIsLexicographic | kernel/src/memory/memory.cpp:149-155 | with equal top bits, address order is lexicographic order of the five fields, in both directions |
| PageWalk.AddressIsManualsIff | kernel/src/memory/pstructs.hpp:41-41 | address() agrees with the manual's physical-address field if and only if bits 63 to 52 of the entry are clear |
| PageWalk.EntryIsWord | kernel/src/memory/pages.cpp:91-100 | the word of an entry has the address of its table with the index in bits 11 to 3 |
| PageWalk.BitsRead | kernel/src/memory/pstructs.hpp:38-41 | which bits of a word the address, the manual's address field, the present bit and the page-size bit are |
| PageWalk.EntryInPage | kernel/src/memory/pages.cpp:91-100 | all eight bytes of an entry with a 9-bit index lie in the page of its table |
| PageWalk.EntriesDistinct | kernel/src/memory/pages.cpp:91-100 | different indices select different 8-byte words |
| PageWalk.DescentStaysInPages | kernel/src/memory/pages.cpp:89-103 | whatever the tables hold, every read of a walk lies in the page of its table |
| PageWalk.DescentIsManualsIff | kernel/src/memory/pages.cpp:89-103 | over entries with bits 63 to 52 clear, the manual translates if and only if all are present and none maps a large page, and the code does the same if and only if that holds or it faults |
| PageWalk.TranslatedAlikeIff | kernel/src/memory/pages.cpp:89-103 | in memory of 52-bit addresses, where the manual translates, the code yields the same page if and only if every entry read has bits 63 to 52 clear |
| PageWalk.WalkIsManualsIff | kernel/src/memory/pages.cpp:82-104 | the same for whole translations, cr3 included |
| PageWalk.WalkIgnoresBitsIff | kernel/src/memory/pages.cpp:82-104 | with all those bits clear a translation is the manual's if and only if all entries are usable or the code faults |
| PageWalk.AbsentPageTranslated | kernel/src/memory/pages.cpp:82-104 | four tables with no present entry: the manual has no page for address 0, the code finds one |
| PageWalk.SetLeavesOthersIff | kernel/src/memory/pstructs.hpp:94-98 | in memory of 52-bit addresses, a translation survives every new value of PML4 entry e if and only if its walk does not read that entry |
| PageWalk.SetLeavesOthers | kernel/src/memory/pstructs.hpp:94-98 | in any memory, an update of PML4 entry e leaves the translation of every address whose walk does not read it |
| PageWalk.OffTableNotRead | kernel/src/memory/pages.cpp:89-103 | a walk with another top index that does not re-enter the PML4 page does not read entry e |
| PageWalk.SetTakesEffect | kernel/src/memory/pstructs.hpp:94-98 | addresses with top index e are then translated through the new entry, by the old tables unless the descent reads entry e again |
| PageWalk.DeletedEntryIsWalked | kernel/src/memory/pstructs.hpp:88-92 | a deleted entry is still walked, through physical address 0, where the manual has no page |
| PageWalk.SelfReferenceSeesUpdate | kernel/src/memory/pstructs.hpp:94-98 | with an entry leading back to the PML4 the update is seen under another top index |
| PageWalk.FormedAddressTranslation | kernel/src/memory/pages.cpp:82-104 | an address formed from indices is translated to a page if and only if the words those indices select lead there, each 8 bytes per index above its table |
| PageWalk.TranslationOverWords | kernel/src/memory/pages.cpp:82-104 | the same for any address and its bits 47 to 12, and for the manual's walk with its present and page-size bits |
| PageWalk.FourTables | kernel/src/memory/pages.cpp:82-104 | four tables with entries 1, 2, 3 and 4 in use: the page found, by the manual only once the entries are present |
| PageWalk.SamePageSameBase | kernel/src/memory/pages.cpp:82-87 | the translation depends on bits 12 to 47 only |
| PageWalk.Mmu.VirtualToPageBase | kernel/src/memory/pages.cpp:82-104 | the four lookups compute the walk, faults included: a page is returned if and only if the words selected by the address lead there; in memory of 52-bit addresses, where the manual has a page it is returned if and only if cr3 and the entries have bits 63 to 52 clear |
| PageWalk.Mmu.SetPM4LE | kernel/src/memory/pstructs.hpp:94-98 | exactly the word 8 times the index above the PML4 changes, or the access faults |
| PageWalk.Mmu.DeletePM4LE | kernel/src/memory/pstructs.hpp:88-92 | exactly the word 8 times the index above the PML4 becomes zero, or the access faults |
| PageWalk.Pm4lIsPage | kernel/src/memory/pstructs.cpp:11-15 | the PML4 address is cr3 with its low 12 bits cleared |
| ByteCopy.Memcpy | kernel/include/string.h:14-23 | byte i of the destination is the old byte i of the source, or, when the destination begins above the source, old byte i modulo their distance; nothing else changes, overlapping or not |
| ByteCopy.Memmove | kernel/include/string.h:37-52 | the destination holds the old source bytes and nothing else changes, for every pair of ranges |
| ByteCopy.CopiedIsMovedIff | kernel/include/string.h:14-52 | the two agree if and only if the destination does not begin inside the source, or the source repeats at their distance |
| ProcTable.Table.constructor | kernel/src/proc/proctable.cpp:4-8 | every slot is free and the search starts at 0 |
| ProcTable.Table.NewPid | kernel/src/proc/proctable.cpp:10-22 | the first free slot from last to the end, failing that the first one below last, and -1 if and only if no slot is free |
| ProcTable.SlotsCoverTable | kernel/src/proc/proctable.cpp:12-19 | the circular order meets every slot exactly once |
| Logger.DigitsEvaluate | kernel/include/logger.hpp:51-55 | the digits evaluate back to the number, with no leading zero |
| Logger.PrintedIsNumeralIff | kernel/include/logger.hpp:42-106 | for bases 2 to 16 the bytes printed are the one row of digit characters that reads back as the number, with a leading 0 for zero alone |
| Logger.WordDigits | kernel/include/logger.hpp:45-103 | 64-bit numbers need at most 20 decimal and 16 hexadecimal digits; 20 binary ones suffice exactly below 2^20 |
| Logger.PrintedInjective | kernel/include/logger.hpp:42-106 | different numbers print differently in every base |
| Logger.PrintedIntDiffersIff | kernel/include/logger.hpp:25-40 | signed numbers print differently if and only if not both are negative, for a negative number prints nothing |
| Logger.Logger.FillBuffer | kernel/include/logger.hpp:51-55 | the buffer holds the digits backwards, and suffices exactly when it has a place for each |
| Logger.Logger.Emit | kernel/include/logger.hpp:56-58 | the bytes of the buffer are sent in reverse, and no others |
| Logger.Logger.LogUnsigned | kernel/include/logger.hpp:42-59 | the bytes sent are the decimal numeral, and the buffer of 30 always suffices |
| Logger.Logger.LogHex | kernel/include/logger.hpp:61-82 | the bytes sent are the hexadecimal numeral, and the buffer of 20 always suffices |
| Logger.Logger.LogBin | kernel/include/logger.hpp:85-106 | stays in its buffer of 20 if and only if the number is below 2^20, and then sends its binary numeral |
| Logger.Logger.LogInt | kernel/include/logger.hpp:25-40 | the bytes sent are the decimal numeral, and none for a negative number |

## Left out

- `allocStack`: it puts the chunk below the last block instead of at its top, neither rounds nor checks a length, and breaks the allocator's invariants.
- `popFirst` and `popLast`: they leave the back link of the new first entry stale, and `popLast` removes the first process.
- Bytes inside 64-bit words: the heap is modelled word by word. Headers and payloads are made of whole aligned words, so a client's stores of bytes are new values of payload words.
- The addresses of large pages: `ManualWalk` counts them as no 4-KiB page; the code never looks for them.
- Physical addresses of fewer than 52 bits: the manual's walk takes all of bits 51 to 12 as address.
- Serial ports, `outb`, ATA, PCI, CPUID, control registers, interrupt and segment tables, framebuffer: hardware access or single bit-slicing expressions.
- `processTable::create`: a stub. `pnew.cpp`: thin wrappers around `allocHeap` and `free`.
- `memset` and `memcmp`: they would only add easy members.
- The printing of the paging tables and of the memory map, and the memory probes: output loops.
- `log(const char*)`: it copies characters to the port.
