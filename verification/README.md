# A verified model of the kernel's core

This project models the stateful core of a small x86_64 kernel and proves what
that core is for. The models are imperative where the kernel is: memory is one
`array<byte>`, the free lists, heap headers and page tables are 64-bit words
written into it, and the methods of `PageAllocator`, `PageMap`, `HeapAllocator`,
`Vector`, `TarObject` and `IOAPIC` follow the source statement by statement.
Ghost fields say which runs, blocks and tables the bytes stand for.

- **One memory, three users** (`Memory`, `FreeList`, `PhysicalPages`,
  `PageTables`, `BootMap`, `TableDemand`, `Paging`, `HeapBlocks`, `Heap`,
  `HeapDamage`, `HeapRuns`, `KernelMemory`, `StartUp`). The page allocator threads its runs through the free pages, the
  heap threads its blocks through pages it took, and the page tables are a tree of
  such pages, made exactly where the mappings need them.
  Each is proved against a value-level specification, and `KernelMemory` puts
  all three on the same bytes: in whatever order calls come, where growth and
  split are sound every usable page keeps exactly one owner, mapping never touches
  the heap, and the heap never changes a translation. `Paging` states translations
  by the hardware's own 4-level walk (Intel SDM volume 3A, section 4.5) over the
  bytes in memory. `StartUp` runs it all in the kernel's order: page allocator, page
  map, any list of ACPI tables, heap.
- **Clients of the page map** (`AcpiFormat`, `AcpiTables`): mapping every page an
  ACPI table touches, against an independent writer of such tables.
- **Concurrency** (`PageAllocSteps`, `LockOrder`, `StartupBarrier`): step
  relations over any number of cores, with proofs about every state of every run.
- **Containers and formats** (`Vectors`, `Strings`, `Tar`, `Numbers`): sequence
  refinement, amortised cost, and round trips against independently written
  encoders.
- **Hardware arithmetic** (`Timer`, `Apic`): the wrap-around timer, the MADT
  record walk and the 64-bit redirection entries.

`Options` and `Arithmetic` hold a shared datatype and a shared lemma.

Where the code does not meet its intent, the code is kept as it is and the exact
condition is proved: a heap split stays inside its block exactly if the remainder
is 0 or at least 16 bytes, and else it overwrites what lies behind
(`SplitStaysInsideExactly`, `SmallRemainderRun`); growing the heap leaves every
byte one owner exactly if the list of page runs starts with one stretch
(`GrowthSoundExactly`, `FreePageScatters`); `Reallocate`'s copy stays inside its new
block exactly if the size does not shrink (`CopyStaysInsideExactly`); a 4 KiB
mapping under a 2 MiB page maps nothing (`MappingTakesEffect`); a 2 MiB mapping is
linear only for aligned frames (`LargeIsLinear`); the boot core gets past its loop
exactly if no two increments overlapped (`PassesExactly`), and else waits forever
(`OverlapHangs`); an archive of 65536 files or more hides some of them
(`EveryFileFound`); `Vector::remove` panics on full storage (`Vector.Remove`);
`itoa` fails on the smallest int only (`DecimalInverts`); the timer product wraps
for very long sleeps (`TargetExactly`); virtual windows overlap exactly if their
first page numbers and lengths say so (`WindowsExactly`); and chained interrupt
overrides go astray (`NoChainAsMeant`, `RedirectedAsMeant`, `ChainCanReturn`).

Conventions: addresses stored in memory are virtual, that is physical plus the
higher-half offset `off`; the model's array is indexed by physical address.
64-bit arithmetic wraps explicitly (`Wrap`). Parameters marked `ghost` carry
proof-only knowledge, such as which live block a pointer names.

## Model

| member | source | states |
|---|---|---|
| Memory.WriteWord | kernel/src/mm/pmm.cpp:29-30 | a 64-bit store changes the eight bytes it names and reads back as the value stored |
| Memory.LoadAfterStore | kernel/src/mm/heap.cpp:15-19 | little-endian load inverts store for every width and value that fits |
| Memory.WordInBytes | kernel/src/mm/heap.cpp:15-19 | a 64-bit word is the sum of its eight bytes, the lowest first |
| Memory.Memset | kernel/src/mm/mem.c:21-30 | exactly the n bytes from the destination take the low byte of the value |
| Memory.Memcpy | kernel/src/mm/mem.c:8-19 | memory afterwards is that of n single-byte copies, lowest first |
| Memory.CopiedIsMove | kernel/src/mm/mem.c:8-19 | onto lower or disjoint addresses that ascending copy moves the source intact |
| FreeList.ThreadedIsUnique | kernel/src/mm/pmm.cpp:19-24 | the words in memory determine the list: two readings of the same links are equal, so the list is acyclic |
| FreeList.PushFront | kernel/src/mm/pmm.cpp:26-32 | writing size and the old head at a block outside all headers pushes exactly that block |
| FreeList.Unlink | kernel/src/mm/heap.cpp:52-53 | redirecting a predecessor's next word removes exactly the block after it |
| PhysicalPages.PageAllocator.InsertNode | kernel/src/mm/pmm.cpp:26-32 | the header is written, the head moves, and nothing else changes |
| PhysicalPages.PageAllocator.RemovePage | kernel/src/mm/pmm.cpp:34-48 | pops the first page of the list or reports null; only free pages are written |
| PhysicalPages.PageAllocator.AllocatePage | kernel/src/mm/pmm.cpp:70-80 | the first free page leaves the list all zero; on exhaustion the caller sees 2^64 - off and nothing changed |
| PhysicalPages.PageAllocator.FreePage | kernel/src/mm/pmm.cpp:83-91 | the page becomes the first free page; only its header bytes change |
| PhysicalPages.PageAllocator.InitializePMM | kernel/src/mm/pmm.cpp:51-67 | afterwards the free pages are exactly the aligned pages of usable entries, and both totals are the sums modulo 2^64 |
| PhysicalPages.TakePopsPage | kernel/src/mm/pmm.cpp:34-48 | splitting the head run takes exactly the first page off the page list |
| PhysicalPages.FreePushesPage | kernel/src/mm/pmm.cpp:83-91 | a returned page is apart from every run and adds exactly itself |
| PhysicalPages.TakeKeepsRuns | kernel/src/mm/pmm.cpp:34-48 | the runs left are still aligned in base and length, inside memory and disjoint |
| PhysicalPages.RunsGivePages | kernel/src/mm/pmm.cpp:34-48 | sound runs list pages that are aligned, inside memory and all different |
| PhysicalPages.UsableRunsOk | kernel/src/mm/pmm.cpp:52-61 | the runs made from a memory map the boot protocol allows are sound |
| PhysicalPages.AllUsablePages | kernel/src/mm/pmm.cpp:52-61 | a page is free after start-up exactly if it lies in a usable entry |
| PageTables.FrameAlone | kernel/include/hal/vmm.hpp:10-22 | writing PhysicalAddr sets the 40-bit frame and leaves the 12 bits below and above it as they were |
| PageTables.LargeAlone | kernel/include/hal/vmm.hpp:10-22 | setting PageSize sets bit 7 and leaves every other bit |
| PageTables.WalkFollowsTree | kernel/src/hal/vmm.cpp:36-50 | the hardware walk over memory gives what the tree of tables promises, for every page |
| PageTables.HangTable | kernel/src/hal/vmm.cpp:39-48 | hanging a zeroed page under an absent entry extends the tree and changes no translation |
| PageTables.StoreLeaf | kernel/src/hal/vmm.cpp:83-85 | storing a 4 KiB entry keeps the tree and changes the translation of its own page only |
| PageTables.StoreLarge | kernel/src/hal/vmm.cpp:75-85 | storing a 2 MiB entry keeps the tree and changes the translations of its region's 512 pages only |
| PageTables.TreeElsewhere | kernel/src/hal/vmm.cpp:36-88 | writes outside all tables keep the tree and every translation |
| PageTables.TreeIsKernelOnly | kernel/src/hal/vmm.cpp:44-46 | whatever the hardware walk maps can be written, and not reached from user mode, by bits 1 and 2 of every entry on the way (Intel SDM volume 3A, section 4.6.1) |
| PageTables.MappedWord | kernel/src/hal/vmm.cpp:83-85 | the lowest entry of a mapped page is its frame times 0x1000 plus 3, no other bit set |
| Paging.NewEntryInNumbers | kernel/src/hal/vmm.cpp:83-85 | into a zero slot goes 0x1000 times the frame plus 3, or plus 0x83 with PageSize |
| BootMap.FlatMapExact | kernel/src/hal/vmm.cpp:101-124 | with disjoint windows each listed page goes to its own frame, and a page faults exactly if it is not listed |
| BootMap.WindowIsLinear | kernel/src/hal/vmm.cpp:103-118 | for aligned entries virtual and physical address differ by kernel_virtual - kernel_physical, or by the direct-map offset |
| BootMap.MappedIsListed | kernel/src/hal/vmm.cpp:101-124 | whatever the flat map maps is some listed page, to that page's frame |
| BootMap.ListedIsMapped | kernel/src/hal/vmm.cpp:101-124 | every listed page is mapped |
| Paging.IndexBits | kernel/src/hal/vmm.cpp:63-66 | the masks and shifts cut out the four 9-bit indices of bits 12 to 47 |
| Paging.PageMap.GetNextLevel | kernel/src/hal/vmm.cpp:36-50 | follows a present entry, or enters one fresh zeroed table taken from the allocator; no translation changes and the tree stays a tree |
| Paging.PageMap.MemoryMap | kernel/src/hal/vmm.cpp:54-88 | fails exactly without a page map; otherwise the walk of the page, or of the 512 pages of the region, changes as asked and every other walk is what it was; the entry is the frame times 0x1000 plus 3 (0x83 with PageSize), and all that is mapped stays writable and supervisor-only; tables and free stack are those of TablesAfter; under a 2 MiB page it makes one stray write instead |
| Paging.PageMap.MapSmall | kernel/src/hal/vmm.cpp:73-85 | the 4 KiB branch, both with and without a 2 MiB page in the way |
| Paging.PageMap.MapLarge | kernel/src/hal/vmm.cpp:75-85 | the 2 MiB branch cuts any lower table out of the tree and maps the region |
| Paging.PageMap.InitPaging | kernel/src/hal/vmm.cpp:90-127 | with a free page for the root and for each table place on the way to a listed page, every page translates exactly as the flat map of the memory map says, writable and supervisor-only; the tables are exactly those places, and no further page is taken |
| Paging.PageMap.MapEntry | kernel/src/hal/vmm.cpp:104-109 | the inner loop maps every page of an entry, a partial last page included, and takes a page for each table that was missing |
| Paging.TablesComeFromStack | kernel/src/hal/vmm.cpp:36-50 | the tables created are a prefix of the free stack, one page for each missing table and at most three; nothing else leaves the stack |
| Paging.MissingIsOwed | kernel/src/hal/vmm.cpp:36-50 | the tables created number the places on the path that had none |
| Paging.StepOfGoal | kernel/src/hal/vmm.cpp:101-124 | mapping one page of a set pays for its path, and what is left of the set stays affordable to the page |
| TableDemand.NumberAdvances | kernel/src/hal/vmm.cpp:103-118 | addresses a page apart have consecutive page numbers, wrap-around of 64 and of 36 bits included |
| TableDemand.TablesBounded | kernel/src/hal/vmm.cpp:63-71 | n consecutive pages need at most n/512 + n/512^2 + n/512^3 + 6 tables below the root |
| TableDemand.AllPlacesBounded | kernel/src/hal/vmm.cpp:101-124 | so the tables of a whole memory map are bounded by that sum over its entries |
| Paging.TableEntered | kernel/src/hal/vmm.cpp:39-48 | allocation, zeroing and the three field writes together extend the tree with frames that are no longer free |
| Paging.StrayWriteMapsNothing | kernel/src/hal/vmm.cpp:49 | a 4 KiB mapping under a 2 MiB page changes no translation, unless the word it hits is in a table |
| Paging.MappingTakesEffect | kernel/src/hal/vmm.cpp:54-88 | so it takes effect exactly if no 2 MiB page is in the way, or that page already sends the page to that frame |
| Paging.LargeIsLinear | kernel/src/hal/vmm.cpp:75-85 | a 2 MiB entry sends its 512 pages to 512 consecutive frames exactly if the frame is 2 MiB-aligned |
| AcpiTables.MapPages | kernel/src/hal/acpi.cpp:54-62 | either loop maps exactly the pages touched, changes only tables and free pages, and takes a page for each missing table |
| AcpiTables.MemoryMapACPITable | kernel/src/hal/acpi.cpp:46-66 | every byte of header and table, as far as its length field says, is seen by loads through the page map at the direct-map offset; pages without such a byte translate as before |
| AcpiTables.WrittenTableReadsBack | kernel/src/hal/acpi.cpp:46-66 | so a table written as signature, length in four bytes, and rest reads back through the page map byte for byte, and every page without a byte of it translates as before |
| AcpiFormat.LengthField | kernel/include/hal/acpi.hpp:11-22 | the four bytes from the fifth on hold the length of a written table |
| AcpiTables.CoverExact | kernel/src/hal/acpi.cpp:54-62 | mapping n consecutive pages sends each to its own frame and leaves the rest alone |
| HeapBlocks.FitsMeansRoom | kernel/src/mm/heap.cpp:50-51 | the two size tests, wrap-around included, hold exactly if the block has 16 + size bytes |
| HeapBlocks.TakeTiles | kernel/src/mm/heap.cpp:52-61 | splitting a block keeps free and live blocks tiling the regions: no byte lost, none shared |
| HeapBlocks.GiveTiles | kernel/src/mm/heap.cpp:95-100 | so does giving a block back |
| HeapBlocks.HeadRunContiguous | kernel/src/mm/pmm.cpp:39-42 | a head run of n pages is handed out in ascending consecutive order |
| HeapBlocks.GrowthExact | kernel/src/mm/heap.cpp:32-44 | the block ExpandHeap inserts covers only pages it took exactly if these are the n pages from the first one up |
| HeapBlocks.ContiguousByRuns | kernel/src/mm/pmm.cpp:34-48 | they are so exactly if the list of runs starts with runs that make up one stretch, as their headers show |
| HeapBlocks.FreePageScatters | kernel/src/mm/pmm.cpp:83-91 | two allocations and a FreePage leave a list on which growing by ten pages claims a page still held |
| HeapBlocks.GrowthTakesAll | kernel/src/mm/heap.cpp:32-44 | and then no page taken lies outside it |
| HeapBlocks.NoGrowthWhileFitting | kernel/src/mm/heap.cpp:46-73 | the heap never grows while some free block fits |
| HeapBlocks.GrowthEnds | kernel/src/mm/heap.cpp:71-72 | on any page list the growth steps number at most one for each free page, and they end served or without a page |
| HeapBlocks.ServedExactly | kernel/src/mm/heap.cpp:46-73 | a request is served exactly if some free block fits, or it asks for at most 40944 bytes and a page is free; a larger one takes every page and fails |
| HeapBlocks.OneGrowthIsEnough | kernel/src/mm/heap.cpp:71-72 | requests of up to 40944 bytes with ten contiguous pages on top grow the heap at most once and succeed |
| HeapBlocks.SixteensSplit | kernel/src/mm/heap.cpp:55-61 | with sizes in multiples of 16 a split is clean, and sizes stay multiples of 16 |
| Heap.TakeKeepsHeap | kernel/src/mm/heap.cpp:52-61 | unlinking, inserting the remainder and writing the size leave a heap with exactly the new lists, writing only free blocks |
| Heap.SmallRemainderBreaks | kernel/src/mm/heap.cpp:57-61 | after a remainder of 1 to 15 bytes the list starts with a node too small for a header, so no reading of memory is a heap of whole blocks |
| Heap.TakeSafeExactly | kernel/src/mm/heap.cpp:50-61 | serving a request leaves a heap of whole blocks exactly if the remainder is 0 or at least 16 |
| HeapDamage.SplitStaysInsideExactly | kernel/src/mm/heap.cpp:55-59 | in every memory the split writes inside its block only, exactly if the remainder is 0 or at least 16 |
| HeapDamage.NeighbourSurvivesExactly | kernel/src/mm/heap.cpp:57-59 | the size word of the live block behind becomes Overrun(remainder, list head, old size), and survives exactly if that is the old size |
| HeapDamage.EightLeftDestroys | kernel/src/mm/heap.cpp:57-59 | eight bytes left over put the list head in place of the size of the live block behind |
| HeapDamage.SmallRemainderReached | kernel/src/mm/heap.cpp:86-100 | from one growth, allocations of 24 and 16 bytes and freeing the first lead to a heap where a request for 16 leaves 8 bytes with a live block right behind |
| HeapDamage.ScarredIsHeap | kernel/src/mm/heap.cpp:86-100 | that heap in concrete bytes is a sound one |
| HeapDamage.SmallRemainderExample | kernel/src/mm/heap.cpp:50-61 | and there the request puts a pointer in place of the live block's size |
| HeapDamage.SearchOverruns | kernel/src/mm/heap.cpp:46-73 | the search itself does so, in every heap with these blocks, wherever it lies |
| HeapDamage.SmallRemainderRun | kernel/src/mm/heap.cpp:46-100 | a new machine of ten usable pages that starts its heap and makes these four calls ends with 0xFFFF800000001048 as the size of the live block at 0x1028 |
| HeapRuns.SixteensAlwaysSplit | kernel/src/mm/heap.cpp:55-61 | in every state reached by requests in multiples of 16 the next such request splits cleanly |
| Heap.HeapAllocator.ExpandHeap | kernel/src/mm/heap.cpp:32-44 | for any count and any page list: up to n pages leave the list, the block inserted has n * 4096 bytes modulo 2^64, and the list can still be searched; from a heap and one stretch of n pages, a heap |
| Heap.HeapAllocator.TakeAfter | kernel/src/mm/heap.cpp:52-63 | the block after the current node is unlinked, what is left over, however small, gets a header in front of the list, and the node its size; free and live lists are as specified; a heap stays one if the remainder is sound |
| Heap.HeapAllocator.FindSuitableNode | kernel/src/mm/heap.cpp:46-73 | from every list that can be searched it terminates, with the growth steps of Grown, never growing while a block fits, and answers the first fitting block, or null only if nothing fits and no page is left; in memory, sound or not, growth writes free pages only and then the three steps of TakeAfter follow, or nothing; where growth and split are sound a heap stays one |
| Heap.HeapAllocator.InitializeHeap | kernel/src/mm/heap.cpp:76-83 | any size: heapSize / 4096 pages become the first free block; a heap stays one if they are one stretch |
| Heap.HeapAllocator.Allocate | kernel/src/mm/heap.cpp:86-92 | as the search, in answer and memory, from any list that can be searched, with sizeof(Node) added even to null |
| Heap.HeapAllocator.Free | kernel/src/mm/heap.cpp:95-100 | the block moves to the front of the free list; only its header bytes change |
| Heap.HeapAllocator.Reallocate | kernel/src/mm/heap.cpp:103-123 | for any new size, where growth and split are sound: the copy faults exactly if there is something to copy and nothing fits, or the old payload would run past memory; else a payload no larger than the new size moves byte for byte, the old block is free, no other live byte changes and the heap stays one; a larger payload runs over whatever lies behind; with nothing to copy and nothing that fits, the block is freed and the answer is 16 |
| HeapDamage.CopyStaysInsideExactly | kernel/src/mm/heap.cpp:109-116 | the copy of the whole old payload stays inside the new one, in every memory, exactly if the new size is no smaller |
| Heap.GrowKeepsHeap | kernel/src/mm/heap.cpp:32-44 | pages joining the heap keep it a heap and stay apart from the pages still free |
| Heap.LiveKeptByAllocate | kernel/src/mm/heap.cpp:86-92 | allocation changes no byte of a live block |
| StartUp.Boot | kernel/src/early/start.cpp:45-48 | from memory map to page allocator and page map: translations as intended, every usable page accounted for; the root and one table for each place needed are the first pages of the stack, and what is left of it keeps its order |
| StartUp.EnoughMemory | kernel/src/hal/vmm.cpp:90-127 | usable memory that holds the closed bound on tables is enough to start |
| StartUp.SmallMachineBoots | kernel/src/early/start.cpp:45-48 | a 16 MiB machine with kernel, reserved and two usable entries meets everything Boot asks |
| StartUp.StartUp | kernel/src/early/start.cpp:44-57 | start-up from memory map to heap: the page tables are exactly those needed, made from the first pages of the stack; every byte of every ACPI table is mapped at its direct-map address and every other page as the memory map has it, all of it writable and supervisor-only; the heap's block begins at the next page, and the joint invariant holds if that block is one stretch |
| StartUp.TableLengthAsWritten | kernel/src/hal/acpi.cpp:59-62 | of a table as firmware writes it all bytes are mapped, no more and no fewer |
| StartUp.FirstRunIsEnough | kernel/src/mm/pmm.cpp:34-48 | it is one stretch if the first run has room for the page tables and the heap |
| StartUp.SmallMachineStarts | kernel/src/early/start.cpp:44-57 | the 16 MiB machine, whatever its memory holds, starts with an ACPI table in its reserved stretch and a heap of ten pages |
| StartUp.SmallMachineWindows | kernel/src/hal/vmm.cpp:101-124 | its virtual windows overlap nowhere |
| TableDemand.WindowsExactly | kernel/src/hal/vmm.cpp:101-124 | the windows of a memory map overlap nowhere exactly if none is longer than 2^36 pages and each begins, around the 36 bits, no sooner after another's first page than that one ends |
| KernelMemory.GrowthSoundExactly | kernel/src/mm/heap.cpp:32-44 | after growing by n pages the heap is a heap and every byte has one owner exactly if the list of runs starts with one stretch of n pages |
| KernelMemory.LedgerGrowsExactly | kernel/src/mm/heap.cpp:32-44 | the same on the page list: else the new block covers memory that is free, a table, in a caller's hands or unusable |
| KernelMemory.SharedMemory.MapTable | kernel/src/hal/acpi.cpp:46-66 | mapping an ACPI table keeps the joint invariant and every byte the heap owns, maps no 2 MiB page, and takes one page off the stack for each missing table, so that the next table can follow |
| KernelMemory.SharedMemory.InitializeHeap | kernel/src/mm/heap.cpp:76-83 | the block begins at the first free page and its pages leave the stack; no translation changes, and the joint invariant is kept when they are one stretch |
| KernelMemory.SharedMemory.Map | kernel/src/hal/vmm.cpp:54-88 | mapping keeps the joint invariant and every byte the heap owns; tables and free stack are those of TablesAfter |
| KernelMemory.SharedMemory.Allocate | kernel/src/mm/heap.cpp:86-92 | the answer and what is written, in every state; where growth and split are sound, the joint invariant, every translation and every live block are kept |
| KernelMemory.SharedMemory.Free | kernel/src/mm/heap.cpp:95-100 | freeing keeps the joint invariant, every translation and the other live blocks |
| KernelMemory.SharedMemory.Reallocate | kernel/src/mm/heap.cpp:103-123 | the outcome for any new size; without a fault and to a size no smaller, the joint invariant, every translation and the other live blocks are kept |
| KernelMemory.SharedMemory.TakePage | kernel/src/mm/pmm.cpp:70-80 | another caller gets the top page of the stack and the rest stays in order; the page is zero and in nobody else's hands |
| KernelMemory.SharedMemory.GivePage | kernel/src/mm/pmm.cpp:83-91 | a page given back is the new top of the stack and disturbs neither heap nor tables |
| KernelMemory.LedgerMap | kernel/src/hal/vmm.cpp:36-50 | new tables move pages from the free stack to the tables: each byte keeps one owner |
| KernelMemory.LedgerGrow | kernel/src/mm/heap.cpp:32-44 | heap growth moves pages from the free stack to the heap: each byte keeps one owner |
| KernelMemory.HeapSparesTables | kernel/src/mm/heap.cpp:23-73 | heap writes leave every table byte alone |
| KernelMemory.MappingSparesHeap | kernel/src/hal/vmm.cpp:36-88 | table writes leave every heap byte alone |
| PageAllocSteps.RunInv | kernel/src/mm/pmm.cpp:34-80 | the invariant of the step model holds in every state of every run of any number of cores |
| PageAllocSteps.AllocationIsExclusive | kernel/src/mm/pmm.cpp:70-80 | no two cores hold a page, no held page is listed, one core at most is inside, and with the lock free the list is well formed and balances with the pages given out |
| PageAllocSteps.ReturnedPageIsZero | kernel/src/mm/pmm.cpp:73-79 | the page a core leaves with was next on the list and is all zero at that moment |
| PageAllocSteps.NullExactlyWhenNoneLeft | kernel/src/mm/pmm.cpp:34-48 | in every state of every run a core about to leave has the next page of the list, or null exactly if all pages have been given out |
| PageAllocSteps.CallGetsNextPage | kernel/src/mm/pmm.cpp:70-80 | a call that has the lock with n pages given out returns page n, or null if there is none |
| PageAllocSteps.EachStepGetsNearer | kernel/src/mm/pmm.cpp:34-80 | a core inside takes at most 4106 steps of its own until it leaves |
| PageAllocSteps.CallCanFinish | kernel/src/mm/pmm.cpp:70-80 | from every state of every run an idle core can make a call while the lock is free, and the run goes on to where it has the next page, if any is left, and the lock is free again |
| PageAllocSteps.NoStrayAccess | kernel/src/mm/pmm.cpp:26-48 | in every run every memory access of AllocatePage lies inside memory |
| PageAllocSteps.EveryCoreCanStep | kernel/src/mm/pmm.cpp:70-80 | in every state of every run each core has a next step |
| LockOrder.CallsRise | kernel/src/terminal/terminal.cpp:93-207 | every call takes its locks in one strict order |
| LockOrder.CallsAsListed | kernel/src/mm/heap.cpp:85-123 | each call works exactly as often, and under exactly those locks, as listed in Acts |
| LockOrder.CallDoesItsWork | kernel/src/hal/spinlock.c:11-21 | in every run what a call has done and what it has still to do make up that list, in order; a call that has ended has done it all |
| LockOrder.MutualExclusion | kernel/src/hal/spinlock.c:11-21 | in every state of every run each lock has at most one holder and its flag is set exactly while held |
| LockOrder.NoDeadlock | kernel/src/mm/heap.cpp:85-123 | with a call pending some core can take a step that is not a spin |
| LockOrder.ChainEnds | kernel/src/hal/spinlock.c:11-16 | following who holds what a core spins on ends at a core that does not spin |
| StartupBarrier.BarrierIsSafe | kernel/src/hal/cpu/smp/smp.cpp:36-49 | the count never exceeds one plus the cores that finished, and the boot core passes only when every other core has its descriptor tables, its LAPIC and the kernel's CR3 and has finished |
| StartupBarrier.CountedAfterSetUp | kernel/src/hal/cpu/smp/smp.cpp:36-49 | a core touches the count only after its whole set-up, and once the boot core waits every core has been released |
| StartupBarrier.UpdatesCanBeLost | kernel/src/hal/cpu/smp/smp.cpp:44 | a run of three cores that loses an increment |
| StartupBarrier.LostUpdateIsForever | kernel/src/hal/cpu/smp/smp.cpp:100 | with all cores finished and the count short, the boot core waits forever |
| StartupBarrier.SerialIsExact | kernel/src/hal/cpu/smp/smp.cpp:44 | increments that do not overlap are counted exactly |
| StartupBarrier.OverlapLoses | kernel/src/hal/cpu/smp/smp.cpp:44 | from the first overlap of two increments on, an update is lost or sure to be |
| StartupBarrier.ExactExactlyWhenSerial | kernel/src/hal/cpu/smp/smp.cpp:44 | in every run, once all cores have finished the count is complete exactly if no two increments overlapped |
| StartupBarrier.PassesExactly | kernel/src/hal/cpu/smp/smp.cpp:100 | the boot core gets past its loop exactly if all cores have finished and no two increments overlapped |
| StartupBarrier.OverlapHangs | kernel/src/hal/cpu/smp/smp.cpp:100 | and else, once all have finished, it waits forever |
| Strings.Strncmp | kernel/src/libs/string.c:8-21 | zero exactly for strings alike in n characters, else the difference of the first that differ |
| Strings.Strnlen | kernel/src/libs/string.c:34-43 | the length of the string within n characters |
| Strings.TextOfField | kernel/src/libs/string.c:8-21 | a name written into a NUL-padded field reads back as itself, a full field included |
| Vectors.FewCopies | kernel/include/libs/kernel.hpp:33-41 | in every run of pushes and removals the capacity is a power of two that holds the elements, and all reallocations copy fewer than two elements a push |
| Vectors.FullAtPowersOfTwo | kernel/include/libs/kernel.hpp:33-41 | after n pushes the capacity is the least power of two holding them; the vector is full exactly at powers of two |
| Vectors.Vector.PushBack | kernel/include/libs/kernel.hpp:33-41 | appends, whether or not the storage moves |
| Vectors.Vector.At | kernel/include/libs/kernel.hpp:43-49 | panics exactly outside the capacity and gives the element inside the count |
| Vectors.Vector.SetAt | kernel/include/libs/kernel.hpp:43-49 | assigning through the reference replaces one element |
| Vectors.Vector.PopBack | kernel/include/libs/kernel.hpp:51-53 | drops the last element; on an empty vector the count wraps and the vector is no longer valid |
| Vectors.Vector.Size | kernel/include/libs/kernel.hpp:55-57 | the count modulo 2^16 |
| Vectors.Vector.Remove | kernel/include/libs/kernel.hpp:71-81 | succeeds exactly for an index below a count below the capacity, and then deletes that element |
| Vectors.Vector.constructor | kernel/include/libs/kernel.hpp:23-26 | a new vector is empty with capacity 1 |
| Tar.DecodeTarNumeral | kernel/src/obj/tar.cpp:34-43 | the positional value of the eleven characters modulo 2^64, whatever they are |
| Tar.FieldIsWorth | kernel/src/obj/tar.cpp:34-43 | eleven octal digits of n are worth n |
| Tar.WrittenArchive | kernel/src/obj/tar.cpp:12-31 | the bytes an independent ustar writer produces are an archive of its entries |
| Tar.RecordInPieces | kernel/src/obj/tar.cpp:12-31 | a record holds the name from byte 0, the size from 124, the type flag at 156 and the letters "ustar" from 257, then the data and zeroes up to whole blocks of 512 |
| Tar.OctalInCharacters | kernel/src/obj/tar.cpp:34-43 | octal digits are the characters from '0' on |
| Tar.SlashDropped | kernel/src/obj/tar.cpp:58-61 | exactly one trailing '/' is dropped from a name |
| Tar.TarObject.constructor | kernel/src/obj/tar.cpp:46-73 | terminates and lists the entries in order with exact sizes, types and data addresses; each name reads back less one trailing slash, each data block unchanged; without the magic nothing happens |
| Tar.TarObject.Get | kernel/src/obj/tar.cpp:79-87 | the first file whose name matches on up to 100 characters, among the count modulo 2^16, else a zero record |
| Tar.LookupFindsMember | kernel/src/obj/tar.cpp:79-87 | on an archive of fewer than 65536 entries that is the first entry of that name |
| Tar.EveryFileFound | kernel/src/obj/tar.cpp:79-87 | every file of a list without repeated names is found exactly if there are fewer than 65536 |
| Tar.NextHeader | kernel/src/obj/tar.cpp:71 | the rounding-up arithmetic lands on the next record and does not wrap |
| Numbers.HexToString | kernel/src/terminal/terminal.cpp:69-89 | the buffer holds the text right-aligned with its NUL, and no other byte changes |
| Numbers.HexInverts | kernel/src/terminal/terminal.cpp:69-89 | parsing that text gives the value modulo 16^(n-1), for every value and buffer size |
| Numbers.Itoa | kernel/src/terminal/terminal.cpp:26-67 | the buffer holds the reversed digits, the sign if it fits, and a NUL, and no later byte changes |
| Numbers.ReverseInPlace | kernel/src/terminal/terminal.cpp:56-64 | swapping from both ends reverses the text and nothing else |
| Numbers.DigitsMeanNumber | kernel/src/terminal/terminal.cpp:44-49 | in bases 2 to 36 the printed digits mean the number modulo base^room |
| Numbers.InCharacters | kernel/src/terminal/terminal.cpp:44-49 | the digits are '0' to '9' and 'A' to 'Z', and the sign is '-' |
| Numbers.NoLeadingZero | kernel/src/terminal/terminal.cpp:44-49 | a number that fits is printed without leading zeroes |
| Numbers.ItoaInParts | kernel/src/terminal/terminal.cpp:26-67 | in any base and buffer: a sign if asked for and if it fits, and digits that mean the absolute value modulo base^(n-1) |
| Numbers.DivisionInC | kernel/src/terminal/terminal.cpp:45-48 | quotients round towards zero and remainders take the sign of the dividend |
| Numbers.NegationInC | kernel/src/terminal/terminal.cpp:40 | negation is exact modulo 2^32 |
| Numbers.DecimalInverts | kernel/src/terminal/terminal.cpp:26-67 | with twelve bytes or more, parsing the decimal text gives the int back exactly if it is not the smallest |
| Timer.PMTMRSleep | kernel/src/hal/acpi.cpp:118-136 | fails exactly without a timer; otherwise returns only after the target has truly elapsed, at the first read that shows it |
| Timer.MaskedIsElapsed | kernel/src/hal/acpi.cpp:132 | for any start count, any number of wraps and either register width the masked difference is the elapsed time modulo 2^24 |
| Timer.TargetExactly | kernel/src/hal/acpi.cpp:128 | the target is floor(us * 3579545 / 1000000) exactly if the product fits 64 bits, and never more |
| Timer.PolledOftenWakes | kernel/src/hal/acpi.cpp:131-133 | targets below 2^24 polled less than 2^24 - target ticks apart are reached |
| Timer.SteadyClockWakes | kernel/src/hal/acpi.cpp:131-133 | read at every tick, the loop ends exactly for targets below 2^24 |
| Timer.LongestSleep | kernel/src/hal/acpi.cpp:128 | that is, for sleeps of at most 4686968 microseconds |
| Apic.FindAllInterruptControllers | kernel/src/hal/cpu/interrupt/apic.cpp:207-219 | on a table its records fill exactly, appends the addresses of the records of the type, in order |
| Apic.WantedExactly | kernel/src/hal/cpu/interrupt/apic.cpp:207-219 | an address is found exactly if a record of that type starts there |
| Apic.WantedAscends | kernel/src/hal/cpu/interrupt/apic.cpp:207-219 | the addresses ascend: each record is found once, in order |
| Apic.MadtAsWritten | kernel/include/hal/cpu/interrupt/apic.hpp:24-29 | a MADT as firmware writes it, 44 bytes and then the records, is such a table |
| Apic.UnpackAfterPack | kernel/src/hal/cpu/interrupt/apic.cpp:72-83 | the 64-bit image of an entry gives the entry back |
| Apic.PackAfterUnpack | kernel/src/hal/cpu/interrupt/apic.cpp:137-139 | and every 64-bit value is the image of its fields |
| Apic.PackInNumbers | kernel/src/hal/cpu/interrupt/apic.cpp:72-83 | the image as a sum, each field times its power of two |
| Apic.NoEntryIsZero | kernel/src/hal/cpu/interrupt/apic.cpp:129 | what odd entries read as has all bits zero |
| Apic.IOAPIC.WriteRedirectionEntry | kernel/src/hal/cpu/interrupt/apic.cpp:142-151 | an even entry sets its register pair and no other register; an odd one does nothing |
| Apic.IOAPIC.ReadRedirectionEntry | kernel/src/hal/cpu/interrupt/apic.cpp:128-140 | an even entry reads its pair back; an odd one gives the zero entry |
| Apic.IOAPIC.CreateRedirectionEntry | kernel/src/hal/cpu/interrupt/apic.cpp:153-164 | the pair of the resolved interrupt holds the entry and all other registers are unchanged |
| Apic.IOAPIC.RouteInterrupt | kernel/src/hal/cpu/interrupt/apic.cpp:128-164 | if no later override takes the overriding GSI elsewhere (an identity override may repeat it) and that GSI has a pair of its own, the entry for an IRQ stands in that pair, no other register changes, and reading the pair gives the entry back |
| Apic.NoChainAsMeant | kernel/src/hal/cpu/interrupt/apic.cpp:155-162 | on every list the loop resolves an IRQ to its override's GSI if no later override takes that GSI elsewhere |
| Apic.RedirectedAsMeant | kernel/src/hal/cpu/interrupt/apic.cpp:155-162 | and only if, on lists where no override but an identity leads to the GSI of an earlier one |
| Apic.ChainCanReturn | kernel/src/hal/cpu/interrupt/apic.cpp:155-162 | without that, "only if" fails: three overrides whose chain comes back to the GSI meant |
| Apic.ChainGoesAstray | kernel/src/hal/cpu/interrupt/apic.cpp:155-162 | a pair of overrides that sends IRQ 1 to the GSI of IRQ 2 |
| Apic.PairsApart | kernel/src/hal/cpu/interrupt/apic.cpp:106-111 | register numbers reach an interrupt's own pair exactly below 120, where different interrupts have different pairs |

## Left out

- Page exhaustion inside `MemoryMap`: it asks for enough pages, because an empty `AllocatePage` clears the null page and returns a value that is not null. The null tests at kernel/src/hal/vmm.cpp:41 and kernel/src/mm/heap.cpp:39 are kept and never fire.
- PhysicalPages.PageAllocator.AllocatePage: does not model the `memset` of the null page on exhaustion (kernel/src/mm/pmm.cpp:74); it is taken to be skipped.
- PhysicalPages.PageAllocator.InitializePMM: relies on the boot protocol's promise that usable entries are page-aligned in base and length, inside memory, disjoint, and not at address 0; the two log lines are not modelled.
- Heap.HeapAllocator.Reallocate: once growth or split is unsound only the answer is promised. A copy that leaves installed memory is taken to fault before its first byte.
- Heap.HeapAllocator.ExpandHeap: stores past the installed memory, which only blocks that claim pages never taken can cause, reach nothing in the model.
- Heap.HeapAllocator.FindSuitableNode: what it writes is left open where the header of a remainder would lie past installed memory, or where headers already overlap after an unsound call; the answer and the page stack are promised there too.
- Paging.PageMap.MemoryMap: knows one page map root, the kernel's, because no other is ever created; memory is at most 2^52 bytes, as the 40-bit frame field allows.
- Paging.PageMap.InitPaging: asks for entry lengths up to 2^64 - 4096, beyond which the loop counter wraps.
- PageTables.WalkFollowsTree: translation only; access rights, accessed and dirty bits, canonical-address checks, the TLB and the CR3 load are hardware effects outside the model. An entry outside memory reads as not present.
- StartUp.StartUp: the list of ACPI tables is a parameter, with addresses of 32 bits as in the RSDT; which tables the signature search maps, and in what order, is left open. Terminal, descriptor tables and the CR3 load are left out.
- AcpiTables.MemoryMapACPITable: takes ACPI tables to lie outside usable memory and at least 4 GiB below the top of the address space; signature search and checksum would only add easy members.
- PageAllocSteps.RunInv: sequentially consistent single steps of `AllocatePage`; `FreePage` takes a different lock (kernel/src/mm/pmm.cpp:82-84), so no invariant holds across the two and none is claimed. The second read of `ret->size` at kernel/src/mm/pmm.cpp:40 is taken together with the first, at line 39.
- Concurrent `Allocate` against `Free` and concurrent `MemoryMap`: the code does not serialise them. The class methods are sequential; their locks appear in `LockOrder` only.
- LockOrder.NoDeadlock: covers calls outside interrupt handlers; a handler or exception that logs on a core already inside `Log` is not part of the claim.
- StartupBarrier.BarrierIsSafe: each piece of CPU set-up is one step that makes its fact true; what it does inside is left out.
- Vectors.Vector.PushBack: asks that the doubled byte size fit 64 bits; the element storage is a typed array, not bytes of the heap, so the move is an element copy of its own and aliasing with other heap blocks is not modelled. Destructor, copies, `front` and `back` are left out.
- Vectors.FewCopies: a removal from an empty vector, which the code does not survive, counts as no operation.
- Tar.TarObject.constructor: asks that an archive with the ustar magic be one a ustar writer produces; on others the parser follows whatever sizes it finds. The file list is a sequence rather than a `Vector`. Prefix field, checksums and link entries are ignored by the parser and by the model.
- Numbers.Itoa: bases are positive; negating the smallest int is taken to wrap around.
- Timer.PMTMRSleep: register reads come from a clock function; termination asks that some read show the target, which is what the loop itself waits for.
- Apic.FindAllInterruptControllers: asks that the records fill the table exactly with nonzero lengths; otherwise the 64-bit remainder wraps and the walk leaves the table (kernel/src/hal/cpu/interrupt/apic.cpp:216).
- Apic.IOAPIC.WriteRedirectionEntry: registers are plain storage; the read-only status bits of real hardware are not modelled.
- Port I/O, serial and framebuffer output, descriptor tables, interrupt handlers, the local APIC and the ramdisk's origin: no state the properties depend on.
