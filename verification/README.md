# Verified model of the kernel's memory, threads and consoles

This project models the parts of a small x86-64 kernel whose correctness depends on many calls
working together, in Dafny 4.11, and proves what they promise. `dafny verify dfyconfig.toml` checks
all of it.

| file | models |
|---|---|
| `Words.dfy` | 64-bit words as numbers: the masks, shifts and alignments of the C code, related to division and remainder |
| `Bitmap.dfy`, `Pmm.dfy` | the frame bitmap and the physical frame allocator, in the memory that it manages |
| `PageTables.dfy` | the four-level walk of section 4.5 of the Intel SDM, Vol. 3A, over tables in memory, and what single stores do to it |
| `Entries.dfy`, `Vmm.dfy` | page-table entries, mapping and unmapping, with a TLB and paging-structure caches as in section 4.10 of the same volume |
| `KernelMemory.dfy`, `KernelRuns.dfy` | demand paging, guarded allocations and device pages; runs of requests, loads and stores |
| `HeapMemory.dfy`, `Heap.dfy` | the first-fit heap: a sequence of blocks, the linked headers that represent it, and the paged memory that holds them |
| `EndToEnd.dfy`, `ThreadCreation.dfy` | heap, paging and frames together, under whatever else happens; thread_create on all of them |
| `Scheduler.dfy`, `Threads.dfy`, `ThreadRuns.dfy` | the ready ring, and the order of handler and acknowledgement; a machine with registers, stacks and interrupts that runs the context switch, the first frame of a thread and the interrupt stub; and runs of it |
| `Spinlock.dfy` | test-and-test-and-set locks on any number of processors, with interrupts |
| `Framebuffer.dfy` | block moves, pixels and the scrolling text console |
| `Printf.dfy` | the formatter and the bounded buffer |
| `Keyboard.dfy`, `Madt.dfy` | scancodes and their queue; the records of the APIC table |

Code that changes state is a class with the same fields and the same order of stores; its methods are
proved against abstract values (`free`, `pages`, `owner`, `blocks`, `view`, `grid`, `output`, `queue`), and
`Valid()` ties those values to the real fields. What holds in `Valid()` holds over every run of the
methods, because the constructor establishes it and every method keeps it. `Kernel.Execute` and
`ThreadRuns.Execute` carry out any sequence of requests or machine operations and return the states they
go through, which form a trace; the lemmas about traces follow them over whole runs. The main results:

* The tables in memory, edited in place, are a plain map from page to frame and flags. `vmm_map`
  changes one key or none, `vmm_unmap` removes one, and whatever the processor has cached, an access
  sees the map. The tree of tables never shares a table, and the frame allocator never clears one.
* Every tracked frame is free or in exactly one of six classes, and the classes add up. The bitmap that
  records the free ones lies in the memory it is about, and no clearing of a frame touches it. Each page
  of the heap and of guarded allocations has a frame of its own.
* A trace says of every request what becomes of pages, guard pages, bump pointers, owners and free frames.
  Hence, over every run: both pages around a range that was asked for stay unmapped for ever, also if the call
  failed; the pages of a returned range stay mapped as asked until they are unmapped; and a page whose path
  the kernel built itself has exactly the rights asked for, however it was mapped.
* Virtual memory is memory: over every run of requests, faults, mappings, loads and stores, a word of a
  page that is left mapped reads as what was last stored at its address, or as zero if a fault has just
  brought it in, whatever the processor caches. A store succeeds exactly on a mapped, writable page.
* `vmm_map`, page faults and `vmm_alloc_guarded` succeed exactly when the frames suffice, the last one
  counted with every table that the pages of the range lack between them.
* The heap tiles its region, never has two free neighbours, uses the lowest block that fits, and fails
  exactly when none does; hence the bound on fragmentation. Freeing everything in any order gives back
  the initial block. Its list lives in the pages it manages, brought in by its own faults: over every run of
  heap calls, faults and requests of others, memory holds the header of every block, and a word of a live
  allocation keeps its value. Two live bytes never share a byte of physical memory.
  Every mapped page of the heap is writable, so that none of these stores is refused.
* `thread_create` fails exactly for want of 32 bytes of heap or of frames for four pages; else it gives the thread
  a stack of its own on writable pages between guard pages, apart from all others.
* Over every run of the machine a thread that is switched away from goes on with its registers, at its
  return address and on the same stack, and interrupted code gets back all its registers, flags and stack,
  whatever runs in between; a first run calls its entry function with its argument. An interrupt calls the
  handler registered last for its vector, and its frame keeps the vector until it is left. The machine follows the
  ready ring, in which waiting times are exact. Since an interrupt is acknowledged before its handler runs,
  only the interrupt flag keeps the next one out; acknowledged after it, the tick that ends a slice would starve
  the processor, exactly if another thread is ready. Threads that never yield can be preempted whenever they
  are outside a handler.
* A lock word is set exactly when one processor owns the lock, over every interleaving. With the flag
  saved, no handler waits for its own processor; without, a state can be reached in which one does for ever.
* Memory always shows the character grid, pixel by pixel in the packed colours, and the grid is the end of an
  endless roll of paper. The fields of a packed colour are the top bits of its components.
* The buffer of `ksnprintf` is a prefix of the unbounded output. The output is that of the directives and
  characters of the format one after the other, and what each directive prints reads back to its argument.

Where the code does less than one might assume, the statement says exactly what it does:

* `kmalloc` rounds modulo 2^64, so the topmost 15 sizes are rounded to 0. `Kmalloc` says that the block
  holds the request if and only if the size is at most 2^64 - 16 (kernel/mm/heap.c:48).
* `pmm_free_frame` accepts frame 0 and the bitmap's own frames (kernel/mm/pmm.c:115-122). `FreeFrame`
  keeps the allocator's invariant if and only if the frame is none of these; `FreeFrameZero` breaks it, and
  `AllocFrameZero` then gets a frame that looks like a failure.
* A frame is lost when `vmm_map` fails in the page-fault handler (kernel/arch/x86_64/mm/vmm.c:157-161).
  `HandlePageFault` says exactly which frames are lost and when: if the fault is not-present, the page lazy,
  and 0 < free frames <= missing tables; and what backed the page before, should it have been mapped.
* The pages of a partly failed guarded allocation stay mapped (185-199). `AllocGuarded` says which
  they are: the first n, n being the largest number of pages that the free frames suffice for, tables included.
  They are owned but granted to nobody.
* `vmm_register_lazy_region` accepts any range, also a mapped one or one that reaches the guarded window,
  where a fault then maps a guard page (131-142): `MapGuardPage` does just that. A page of that window is
  lazy exactly if its address is in a range registered; `RegisterLazyRegion` keeps the invariant if and only
  if the range is below the window, has no large page, and what is mapped in it has a frame of its own.
* Numbers padded with spaces cannot be read back; `SignedComesBack` has the exact condition.
* `kmalloc` of a size that wraps can leave a block of size 0; `Kmalloc` says exactly when.
* `switch_to_next` lets interrupts in again before `context_switch` has saved anything
  (kernel/sched/sched.c:38-43). `SwitchToNext` is one step with no interrupt inside; `HarmlessWindow`
  says exactly when ticks in between do no harm.
* `context_switch` does not save the interrupt flag (kernel/arch/x86_64/cpu/context_switch.S:13-19). A thread
  that resumes inside a handler gets it back from iretq and a new thread turns it on, but a third kind, a
  thread that stopped in `sched_yield`, goes on with the flag of whoever switched to it, which the comment and
  docs/ARCHITECTURE.md leave out. `ResumesWithForeignFlag` has the exact condition, `MaskedByTick` a run that
  returns from `sched_yield` with interrupts off, and `NoTickAmongYielders` what can follow: no tick at all.
* The header of docs/ARCHITECTURE.md's memory table says that the heap and thread stacks are not
  executable, but heap.c and thread.c ask for `VMM_WRITABLE` only, so their pages are executable; and the
  text says that intermediate entries are present and writable, while the code makes them user
  accessible too. The model follows the code.
* The comments in isr_stubs.S and isr.h say that the processor pushes RIP, CS and RFLAGS only. In 64-bit
  mode it always aligns the stack and pushes SS and RSP as well (section 6.14.2 of the Intel SDM, Vol.
  3A); the stub is correct either way, and the model pushes all five.

## What the callers must provide

The preconditions are the kernel's own: the memory map of the boot protocol (page-aligned usable regions
without overlap); the loader's tables form a tree of frames in use with no large page on the paths used;
`vmm_register_lazy_region` is called for unmapped ranges below the guarded window; at `heap_init` no region
registered before overlaps the heap, and the paths of its pages are writable as far as they exist; the bump
pointers stay in their windows; frames are given back by who took them; `kfree` gets live pointers or
NULL; others store in the heap into live allocations only, and leave its mapped pages alone; stacks
leave room for what is pushed and code stays on its own stack; the framebuffer, to be drawn on, has
room for one character and at most four bytes a pixel; format strings do not end inside a directive and
suit their arguments; local APIC and IOAPIC records have at least 8 and 12 bytes. Panics are `false`
results.

The processor of the model is free in what it caches and when it uses it. `invlpg` drops the translation of
the page only; the cached tables, which a real processor drops as well, stay, so that more has to be proved.

## Model

| member | source | states |
|---|---|---|
| `Words.AlignUpRounds` | kernel/include/kernel.h:17-19 | for every power of two below 2^64 the mask form of align_up is the next multiple, computed modulo 2^64: it wraps to 0 exactly when the value is above 2^64 - align |
| `Words.AlignDownRounds` | kernel/include/kernel.h:21-23 | for every power of two below 2^64 the mask form of align_down is the largest multiple not above the value |
| `Bitmap.Set` | kernel/lib/bitmap.c:3-5 | exactly one more bit reads as set, in any byte array, all other bits as before |
| `Bitmap.Reset` | kernel/lib/bitmap.c:7-9 | exactly one bit reads as clear afterwards, all other bits as before |
| `Bitmap.FindFirstClear` | kernel/lib/bitmap.c:15-27 | the clear bit at the least cyclic distance from the hint; the bit count exactly when every bit is set |
| `PhysicalMemory.ClearFrame` | kernel/mm/pmm.c:110-111 | one frame is zero afterwards and no other frame has changed |
| `Pmm.HighestRam` | kernel/mm/pmm.c:41-52 | the largest end address of a usable, bootloader-reclaimable or executable region, attained by one of them |
| `Pmm.UsableFrames` | kernel/mm/pmm.c:71-81 | the frames released are those that lie as a whole in a region of the usable type |
| `Pmm.BitmapFrames` | kernel/mm/pmm.c:83-92 | the frames claimed back are those that hold a byte of the bitmap |
| `Pmm.HomeHoldsBitmap` | kernel/mm/pmm.c:53-87 | the rounded bitmap has a bit for every tracked frame and lies inside its region, so claiming its frames back never leaves the bitmap |
| `Pmm.BitStoreInImage` | kernel/lib/bitmap.c:3-9 | setting or clearing a bit is one byte store at the bitmap's address in physical memory |
| `Pmm.ClearInImage` | kernel/mm/pmm.c:110-111 | clearing a frame that no byte of the bitmap lies in clears these 4096 bytes of physical memory and no other |
| `Pmm.WordStoreInImage` | kernel/arch/x86_64/mm/vmm.c:104-104 | a word stored in such a frame changes its eight bytes of physical memory and no other |
| `Pmm.FrameAllocator.FindHighestRam` | kernel/mm/pmm.c:41-52 | the loop computes the highest RAM end |
| `Pmm.FrameAllocator.FindHome` | kernel/mm/pmm.c:56-63 | the base of the first usable region with room, 0 if there is none |
| `Pmm.FrameAllocator.ReleaseUsable` | kernel/mm/pmm.c:71-81 | exactly the usable frames become free, and free_frames is their number |
| `Pmm.FrameAllocator.ClaimUntouchables` | kernel/mm/pmm.c:83-97 | the bitmap's frames and frame 0 stop being free, nothing else does |
| `Pmm.FrameAllocator.Init` | kernel/mm/pmm.c:27-98 | panics exactly when no usable region holds the bitmap or the first one that does starts at 0; otherwise the bitmap has its bytes at the base of that region, inside memory and inside the frames taken back for it, and the free frames are exactly the usable ones minus frame 0 and those |
| `Pmm.FrameAllocator.TakeFirstFree` | kernel/mm/pmm.c:100-108 | fails exactly when nothing is free; takes the nearest free frame in cyclic order and counts it |
| `Pmm.FrameAllocator.AllocFrame` | kernel/mm/pmm.c:100-113 | nonzero, free before and not after, cleared, no other frame written; free_frames stays the number of clear bits; on the bytes of all of physical memory, the bitmap among them, it is one bit set and then one frame cleared, and the clearing does not touch the bitmap |
| `Pmm.FrameAllocator.FreeFrame` | kernel/mm/pmm.c:115-122 | panics exactly for an untracked or free frame; on the bytes of physical memory it is one bit cleared; keeps the invariant exactly when the frame is not frame 0 or under the bitmap |
| `Pmm.FrameAllocator.FreeFrameZero` | kernel/mm/pmm.c:115-122 | in every valid state frame 0 can be freed, and the invariant is lost, though every bit is still counted |
| `Pmm.FrameAllocator.AllocFrameZero` | kernel/mm/pmm.c:100-113 | if only frame 0 is free then, the next allocation takes it and looks like a failure |
| `Pmm.FrameAllocator.AllocFreeAlloc` | kernel/mm/pmm.c:100-122 | allocate, free, allocate: the same frame comes back only if nothing else was free |
| `Pmm.ReusedOnlyWhenAlone` | kernel/mm/pmm.c:101-108 | the search from behind a frame picks that frame only if it is the only free one |
| `PageTables.IndicesDeterminePage` | kernel/arch/x86_64/mm/vmm.c:65-71 | the four 9-bit indices determine the page |
| `PageTables.PageMapExists` | kernel/arch/x86_64/mm/vmm.c:93-129 | for any memory there is a plain page map that says of every page what the four-level walk says |
| `PageTables.DisjointPaths` | kernel/arch/x86_64/mm/vmm.c:82-91 | in a tree without shared tables two pages that reach the same last table share all upper indices |
| `PageTables.LinkKeepsWalks` | kernel/arch/x86_64/mm/vmm.c:83-89 | linking a cleared table where none was changes no translation and no path rights |
| `PageTables.LinkKeepsTree` | kernel/arch/x86_64/mm/vmm.c:83-89 | linking a new table keeps the tree free of shared tables |
| `PageTables.LinkOpensPath` | kernel/arch/x86_64/mm/vmm.c:82-91 | a new table on the path of a page opens the paths of exactly the pages that share it |
| `PageTables.LeafWriteElsewhere` | kernel/arch/x86_64/mm/vmm.c:104-104 | a leaf write changes the walk of its own page only |
| `PageTables.LeafWriteIsMapUpdate` | kernel/arch/x86_64/mm/vmm.c:104-104 | one leaf store refines the update of one key of the plain page map |
| `PageTables.OutsideWrites` | kernel/mm/pmm.c:110-111 | writes to frames that hold no table change no walk from any table |
| `PageTables.MissingForOne` | kernel/arch/x86_64/mm/vmm.c:97-99 | the tables missing for one page, as a set, are as many as the walk counts |
| `PageTables.MissingShrinks` | kernel/arch/x86_64/mm/vmm.c:189-198 | once one page of a range has its tables, the rest lacks exactly those it does not share with it |
| `Entries.PageTableIndices` | kernel/arch/x86_64/mm/vmm.c:65-71 | the shifts and masks give the indices that the walk selects |
| `Entries.TranslateFlagsValue` | kernel/arch/x86_64/mm/vmm.c:48-63 | the flag word, as a sum of the present bit and one bit for each VMM flag asked for |
| `Entries.AddressBits` | kernel/arch/x86_64/mm/vmm.c:16-16 | the address mask keeps exactly the frame number below 2^40 |
| `Entries.LeafDecodes` | kernel/arch/x86_64/mm/vmm.c:104-104 | decoding the leaf gives back the frame and the flags asked for, and it is present |
| `Entries.LinkDecodes` | kernel/arch/x86_64/mm/vmm.c:88-88 | decoding a new link gives the table's frame, no large page, and full rights |
| `Entries.NextTable` | kernel/arch/x86_64/mm/vmm.c:90-90 | the masked entry is the address of the frame the hardware walks to |
| `Vmm.AddressSpace.constructor` | kernel/arch/x86_64/mm/vmm.c:42-46 | takes over the loader's tables: every frame in use is a table or belongs to the firmware |
| `Vmm.LinkGrows` | kernel/arch/x86_64/mm/vmm.c:84-88 | allocating, clearing and linking one table grows the tree by exactly that frame |
| `Vmm.GrownChains` | kernel/arch/x86_64/mm/vmm.c:97-99 | growing steps compose: translations, tables and owners after several are as after one |
| `Vmm.StepDown` | kernel/arch/x86_64/mm/vmm.c:97-99 | a walk that went down one level of a grown tree has one missing table fewer |
| `Vmm.GrownKeepsCaches` | kernel/arch/x86_64/mm/vmm.c:82-91 | entries that only go from not present to present leave every cached table prefix correct |
| `Vmm.LeafKeepsCaches` | kernel/arch/x86_64/mm/vmm.c:104-105 | a leaf write leaves every cached table prefix correct |
| `Vmm.FillKeepsCaches` | kernel/arch/x86_64/mm/vmm.c:93-107 | caching what a walk found keeps the caches correct |
| `Vmm.AddressSpace.EnsureNextLevel` | kernel/arch/x86_64/mm/vmm.c:82-91 | fails exactly when the table is missing and no frame is free; translations unchanged; no path opens but those that share the new table |
| `Vmm.AddressSpace.EnsurePt` | kernel/arch/x86_64/mm/vmm.c:97-102 | reaches the last table exactly when the missing tables can be allocated; uses one frame for each |
| `Vmm.AddressSpace.Map` | kernel/arch/x86_64/mm/vmm.c:93-107 | true exactly when the missing tables (at most three) can be allocated; then one key of the page map changes, to the frame and flags asked for under the rights of the path; false changes no translation; no table, held or mapped frame is written by accident |
| `Vmm.AddressSpace.FindPt` | kernel/arch/x86_64/mm/vmm.c:113-125 | finds the last table of the walk, or there is no translation |
| `Vmm.AddressSpace.Unmap` | kernel/arch/x86_64/mm/vmm.c:109-129 | removes exactly one key of the page map and of the TLB |
| `Vmm.AddressSpace.Translate` | kernel/arch/x86_64/mm/vmm.c:82-129 | whatever the hardware has cached and uses, an access sees the page map: one invlpg for each leaf write is enough |
| `Vmm.AddressSpace.AllocHeld` | kernel/mm/pmm.c:100-113 | a frame for some holder: cleared, no walk changed, no table or mapped frame touched |
| `Vmm.AddressSpace.FreeHeld` | kernel/mm/pmm.c:115-122 | giving back a held frame never panics |
| `Vmm.AddressSpace.BitmapIsElsewhere` | kernel/mm/pmm.c:83-97 | in every valid state no byte of the frame bitmap lies in a page table or in any frame handed out |
| `Vmm.AddressSpace.StoreInto` | kernel/arch/x86_64/mm/vmm.c:82-91 | a store into any frame in use that is no table changes that word and nothing the hardware sees; of the bytes of physical memory it changes those eight and none of the bitmap |
| `Vmm.AddressSpace.Back` | kernel/arch/x86_64/mm/vmm.c:157-161 | allocate and map: succeeds exactly when frames are left for the page and its missing tables, and takes exactly those; only tables and free frames are written |
| `KernelMemory.AddressOfPage` | kernel/arch/x86_64/mm/vmm.c:21-22 | page numbers and canonical page addresses correspond |
| `KernelMemory.MemoryManager.constructor` | kernel/arch/x86_64/mm/vmm.c:33-36 | the initial windows, with nothing mapped above their base |
| `KernelMemory.MemoryManager.RegisterLazyRegion` | kernel/arch/x86_64/mm/vmm.c:131-142 | any range takes the first unused slot; fails exactly when all eight are used; a page of the guarded window is lazy afterwards exactly if its address is in the range; the invariant is kept if and only if the range lies below that window, has no large page, and what is mapped in it has a frame of its own |
| `KernelMemory.MemoryManager.MapGuardPage` | kernel/arch/x86_64/mm/vmm.c:131-165 | while a slot is unused and the frames suffice, registering the range of any guard page and a fault on it map that page, and the invariant is lost |
| `KernelMemory.MemoryManager.FindRegion` | kernel/arch/x86_64/mm/vmm.c:155-156 | the first region that covers the page, whatever has been registered |
| `KernelMemory.MemoryManager.ProvideLazily` | kernel/arch/x86_64/mm/vmm.c:157-161 | a frame is taken whenever one is free; what it leaks is exactly the frame if the mapping fails, or what backed the page before |
| `KernelMemory.MemoryManager.HandlePageFault` | kernel/arch/x86_64/mm/vmm.c:144-165 | whatever has been registered: resolved exactly for a not-present fault in a lazy region with frames enough; the page gets a cleared frame of its own with the flags of the first region that covers it; a frame is taken exactly if the fault is not-present, the page lazy and any frame free; the set of leaked frames afterwards, and that it grows exactly if 0 < free <= missing tables or a mapped page is mapped anew |
| `KernelMemory.MemoryManager.ProvideGuarded` | kernel/arch/x86_64/mm/vmm.c:190-197 | one round of the loop: succeeds exactly if more frames are free than tables are missing; the page is mapped to a frame of its own, or the frame goes back |
| `KernelMemory.MemoryManager.ProvideRange` | kernel/arch/x86_64/mm/vmm.c:189-198 | exactly as many pages of the range are provided as there are frames for, with all tables they lack, for every prefix of it; if not all, at most one free frame is left; no other page, frame or owner disturbed |
| `KernelMemory.MemoryManager.ReserveWindow` | kernel/arch/x86_64/mm/vmm.c:181-183 | the bump pointer passes the range and both guard pages, none of which was in use |
| `KernelMemory.MemoryManager.AllocGuarded` | kernel/arch/x86_64/mm/vmm.c:180-200 | non-NULL exactly if the pages and the distinct tables they lack are at most as many as the free frames; the pages mapped and left mapped on NULL are the first n exactly for the largest n that the free frames suffice for, each mapped as asked, and no other translation changes; the guard pages are unmapped in every later state, also when the call fails |
| `KernelMemory.MemoryManager.MapElsewhere` | kernel/arch/x86_64/mm/vmm.c:93-107 | vmm_map outside the managed windows is a step that keeps guard pages, granted ranges, owners and memory in use |
| `KernelMemory.MemoryManager.MapMmio` | kernel/arch/x86_64/mm/vmm.c:202-210 | the next page of the window maps to the device frame, writable, uncached and not executable under the rights of its path |
| `KernelMemory.MemoryManager.UnmapPage` | kernel/arch/x86_64/mm/vmm.c:109-129 | unmapping any page keeps the whole invariant; what backed it is leaked, and a page handed out is handed out no longer |
| `KernelMemory.MemoryManager.HoldFrame` | kernel/mm/pmm.c:100-113 | a cleared frame for another part of the kernel, NULL exactly when none is free; disturbs nothing in use |
| `KernelMemory.MemoryManager.ReturnFrame` | kernel/arch/x86_64/mm/vmm.c:195-195 | the frame of a failed mapping is free again |
| `KernelMemory.MemoryManager.LoadWord` | kernel/arch/x86_64/mm/vmm.c:144-165 | whatever the processor has cached, a load from the lazy or guarded windows gives what memory holds at the page map's translation, or faults exactly if there is none |
| `KernelMemory.MemoryManager.StoreTo` | kernel/arch/x86_64/mm/vmm.c:144-165 | a store there reaches that word and no other exactly if the page is mapped and writable along its path; else it faults and nothing changes |
| `KernelMemory.BackingKeepsBacked` | kernel/arch/x86_64/mm/vmm.c:157-161 | after a page got its frame every page of the lazy and guarded windows still has a frame of its own |
| `KernelMemory.DistinctBytes` | kernel/arch/x86_64/mm/vmm.c:144-200 | two bytes of lazy or guarded pages never share a byte of memory, and their frames are not free, tables, frame 0 or the bitmap's |
| `KernelMemory.MemoryManager.ManagedBytesAreApart` | kernel/arch/x86_64/mm/vmm.c:144-200 | in every valid state two bytes of those windows are two bytes of memory |
| `KernelMemory.FramesAddUp` | kernel/mm/pmm.c:100-122 | free, firmware, table, lazy, guarded, held and leaked frames are disjoint classes that add up to frame_count |
| `KernelMemory.MemoryManager.FramesAreAccountedFor` | kernel/mm/pmm.c:100-122 | in every valid state frame_count is the free frames plus those six classes |
| `KernelRuns.Kernel.Handle` | kernel/arch/x86_64/mm/vmm.c:93-210 | each of registration, fault, guarded allocation, device page, mapping, unmapping, frame allocation and release, load and store is a step of the trace: the answer, the page map, guard pages, ranges handed out, regions, bump pointers, owners and free frames afterwards exactly as the request says, and whatever it is not about unchanged |
| `KernelRuns.Kernel.Execute` | kernel/arch/x86_64/mm/vmm.c:93-210 | any sequence of requests yields a trace of such steps, up to the first request that the caller must not make; so the statements about traces hold of every run of the classes |
| `KernelRuns.GuardsHoldForever` | kernel/arch/x86_64/mm/vmm.c:180-210 | over every run the pages before and behind a range that vmm_alloc_guarded was asked for are never mapped after the call, and a range it returned begins right behind the first of them |
| `KernelRuns.RangeLasts` | kernel/arch/x86_64/mm/vmm.c:180-200 | over every run each page of a range it returned stays mapped to a frame that was free before, as asked under the rights of its path, until that page is unmapped |
| `KernelRuns.TranslationStays` | kernel/arch/x86_64/mm/vmm.c:93-210 | over every run a page keeps its translation until a request is about it; a page handed out, until it is unmapped |
| `KernelRuns.FrameStaysInUse` | kernel/mm/pmm.c:100-122 | over every run a frame stays with its owner, and is not free, until it is given back |
| `KernelRuns.PathsStayAsOpen` | kernel/arch/x86_64/mm/vmm.c:73-91 | over every run the rights of every path stay what they were |
| `KernelRuns.OwnPathGrantsWhatIsAsked` | kernel/arch/x86_64/mm/vmm.c:73-91 | over every run a page that once had no table below the root, and that vmm_map, vmm_map_mmio, a fault or vmm_alloc_guarded has mapped, is mapped in every later state, until a request is about it again, with exactly the rights asked for, and to the frame asked for where the request names one |
| `KernelRuns.StepKeepsWord` | kernel/arch/x86_64/mm/vmm.c:93-210 | no request but a store to its address changes a mapped word of the lazy and guarded windows |
| `KernelRuns.MemoryIsMemory` | kernel/arch/x86_64/mm/vmm.c:93-210 | over every run a mapped word of those windows holds what was last stored at its address by a store that did not fault |
| `KernelRuns.LoadGivesLastStore` | kernel/arch/x86_64/mm/vmm.c:93-210 | and a load gives just that, whatever the TLB and the other caches hold |
| `KernelRuns.FaultedPageStartsAtZero` | kernel/arch/x86_64/mm/vmm.c:144-165 | a page that a fault has brought in reads as zero until something is stored in it |
| `HeapBlocks.AllocatedIsSound` | kernel/mm/heap.c:50-72 | using or splitting a block keeps the tiling of the region and leaves no two free neighbours |
| `HeapBlocks.ReleasedIsSound` | kernel/mm/heap.c:82-100 | freeing and merging keeps the tiling and leaves no two free neighbours |
| `HeapBlocks.AllocatedUsed` | kernel/mm/heap.c:55-70 | the used blocks are the old ones and the new one |
| `HeapBlocks.ReleasedUsed` | kernel/mm/heap.c:82-100 | the used blocks are the old ones without the freed one |
| `HeapBlocks.SpansAddUp` | kernel/mm/heap.c:44-101 | headers, used and free bytes add up to the region |
| `HeapBlocks.FewFreeBlocks` | kernel/mm/heap.c:86-100 | there is at most one free block more than used ones |
| `HeapBlocks.NoFitMeansFull` | kernel/mm/heap.c:50-74 | if no block fits, what is used and the fragments fill the region |
| `HeapBlocks.FragmentationBound` | kernel/mm/heap.c:48-72 | with n used blocks of U bytes some free block fits a request rounded to s whenever the region exceeds U + 32n + (n+1)(s+16); Kmalloc turns this into success |
| `HeapBlocks.AllFreeIsOneBlock` | kernel/mm/heap.c:77-101 | with nothing used the region is one free block |
| `HeapMemory.HeaderMemory.StoreAnyhow` | kernel/mm/heap.c:7-12 | a store to a heap page that may not be mapped yet: done again after the fault, it succeeds exactly if the page is mapped or there are frames for it and its tables; no other word changes |
| `HeapMemory.FieldWritten` | kernel/mm/heap.c:23-28 | a word stored into a header is that field of that header, and no other header changes |
| `HeapMemory.HeaderMemory.SetFree` | kernel/mm/heap.c:25-25 | the flag is one byte of its word, and changes alone |
| `HeapMemory.HeaderMemory.Create` | kernel/mm/heap.c:38-41 | the stores that make a new header, over up to two new pages; they fail only with fewer than eight free frames, and then none is left |
| `Heap.LiveCount` | kernel/mm/heap.c:44-101 | there are as many used blocks as live pointers |
| `Heap.RoundUpHolds` | kernel/mm/heap.c:48-48 | the rounding is to the next multiple of 16, except that the topmost 15 sizes wrap to 0 |
| `Heap.SplitKeepsLinks` | kernel/mm/heap.c:55-70 | the header stores of a split leave prev and next mutually inverse over the new blocks |
| `Heap.MergeKeepsLinks` | kernel/mm/heap.c:86-100 | the header stores of a merge leave prev and next mutually inverse over the new blocks |
| `Heap.Allocator.Init` | kernel/mm/heap.c:32-42 | registers 16 MiB at 0xffffffff90000000 as writable and makes the first header, whose store faults in its page: one free block of 16 MiB - 32 bytes, and every page of the heap is writable once it is mapped; panics only without a free slot or with fewer than eight free frames |
| `Heap.Allocator.FindFit` | kernel/mm/heap.c:50-53 | following next through memory finds the first block that fits, NULL if none does |
| `Heap.Allocator.SplitNode` | kernel/mm/heap.c:57-67 | the stores of the splitting branch, one by one, make the split list in memory |
| `Heap.Allocator.Kmalloc` | kernel/mm/heap.c:44-75 | panics only in the fault of a new header with fewer than eight free frames; else NULL exactly for size 0 or when no free block fits, and then nothing changes; never while the heap exceeds the live bytes and the worst fragmentation; else the lowest block that fits, a 16-aligned new pointer with at most 32 bytes over the rounded request; of all mapped memory only header words of its blocks are written |
| `Heap.Allocator.AbsorbNext` | kernel/mm/heap.c:86-92 | merges with the next block exactly if that is free |
| `Heap.Allocator.AbsorbIntoPrevious` | kernel/mm/heap.c:94-100 | merges into the previous block exactly if that is free |
| `Heap.Allocator.Join` | kernel/mm/heap.c:87-91 | the stores that join two blocks make the merged list in memory |
| `Heap.Allocator.Kfree` | kernel/mm/heap.c:77-101 | one live pointer fewer, its block released and merged, without a fault; the list stays linked, tiled and coalesced, and block sizes at least 16; of all mapped memory only header words are written |
| `Heap.WrappedRequest` | kernel/mm/heap.c:48-70 | kmalloc(2^64 - 1) on a fresh heap returns a block of size 0 |
| `Heap.Allocator.FreeAll` | kernel/mm/heap.c:77-101 | freeing every live pointer in any order gives back the single initial block |
| `Heap.OwnsAfterAlloc` | kernel/mm/heap.c:44-75 | live pointers stay exactly the payloads of used blocks, each large enough and at most 32 bytes larger than the rounded request |
| `Heap.PayloadsUntouched` | kernel/mm/heap.c:44-101 | no header store of kmalloc or kfree falls into a payload |
| `Heap.PayloadsDisjoint` | kernel/mm/heap.c:44-101 | the payloads of two blocks never overlap |
| `EndToEnd.LiveBytesAreApart` | kernel/mm/heap.c:44-101 | two bytes of live allocations never share a physical byte, in frames that are not free, a page table, frame 0 or under the bitmap |
| `EndToEnd.LiveWordKept` | kernel/mm/heap.c:44-101 | over every run of heap calls, faults and requests of others a touched word of a live allocation stays mapped and keeps its value until it is freed or somebody stores at that address |
| `EndToEnd.AllocationsApart` | kernel/mm/heap.c:44-101 | addresses in two live allocations differ |
| `EndToEnd.RequestKeepsHeaders` | kernel/mm/heap.c:23-28 | no request of others changes a header, if it leaves the heap's mapped pages alone and stores in the heap into live allocations only |
| `EndToEnd.HeadersStayInMemory` | kernel/mm/heap.c:18-42 | in every state of every such run memory, through the mapping of its pages, holds the header of every block: size, flag, and the links to its neighbours; and every mapped page of the heap can be stored into |
| `EndToEnd.System.Malloc` | kernel/mm/heap.c:44-75 | kmalloc is a step of such a run, and NULL exactly if no free block fits the rounded size |
| `EndToEnd.System.Release` | kernel/mm/heap.c:77-101 | kfree is a step of such a run |
| `EndToEnd.System.Ask` | kernel/arch/x86_64/mm/vmm.c:93-210 | whatever else is asked of the memory system is a step of such a run; so the statements about runs hold of the classes |
| `ThreadCreation.RangeIsAPlace` | kernel/sched/thread.c:20-33 | the range that vmm_alloc_guarded returns is a place for a stack, apart from every other |
| `ThreadCreation.StackPageGranted` | kernel/arch/x86_64/mm/vmm.c:167-210 | each page of the range that vmm_alloc_guarded returns has a frame of its own and is writable, not user accessible and cacheable, under the rights of its path |
| `ThreadCreation.Allocate` | kernel/sched/thread.c:14-24 | the record of 32 bytes from the heap and four writable pages between two guard pages, failing exactly if no block fits or the frames do not suffice; if there is no stack the record is freed again |
| `ThreadCreation.CreateThread` | kernel/sched/thread.c:14-47 | thread_create on heap, memory and scheduler together: NULL exactly if no block fits 32 bytes or the frames do not suffice for four pages and their tables, and then no allocation stays behind and no thread has changed; else a new thread behind the running one, its record a live allocation, its stack of 16384 bytes on writable pages of its own between guard pages, apart from all other stacks, and the next range will be too |
| `ReadyRing.RunKeepsRing` | kernel/sched/sched.c:26-55 | over every run the ring holds each thread once and loses none |
| `ReadyRing.WaitingIsExact` | kernel/sched/sched.c:26-45 | until it runs, a thread's distance is its first distance plus insertions minus switches |
| `ReadyRing.WaitingTicks` | kernel/sched/sched.c:47-51 | the ticks waited, ten to a switch, exactly when nobody yields |
| `ReadyRing.WaitingBound` | kernel/sched/sched.c:47-51 | a thread at distance d runs within 10 (d + insertions) - ticks_since_switch ticks |
| `YieldWindow.HarmlessWindow` | kernel/sched/sched.c:34-45 | ticks let in before context_switch do no harm if and only if the slice does not run out in them or the thread is alone; otherwise a thread is recorded on the wrong stack |
| `Acknowledgement.SwitchingTickStarves` | kernel/arch/x86_64/cpu/isr.c:24-44 | a tick withholds all further ticks from other code if and only if it is acknowledged after its handler, ends the slice, and another thread is ready |
| `Acknowledgement.StarvedForEver` | kernel/arch/x86_64/cpu/isr.c:24-44 | from then on there is no tick and no switch for as long as the running code does not yield of its own accord, whether or not it turns interrupts on |
| `Threads.Machine.constructor` | kernel/sched/sched.c:20-24 | the bootstrap thread alone in the ring |
| `Threads.Machine.ContextSwitch` | kernel/arch/x86_64/cpu/context_switch.S:25-42 | the pushes leave the six registers and the return address where the pops of a later switch find them; registers, instruction and stack pointer become those stored on the other stack |
| `Threads.Machine.SwitchToNext` | kernel/sched/sched.c:34-45 | the running thread is suspended with its registers, return address and stack; the next goes on with exactly what it was suspended with; the ring turns by one |
| `Threads.Machine.SchedYield` | kernel/sched/sched.c:53-55 | a yield is one switch |
| `Threads.Machine.SchedTick` | kernel/sched/sched.c:47-51 | a tick counts, and switches exactly when the slice of ten is over |
| `Threads.Machine.AddThread` | kernel/sched/sched.c:26-32 | the thread comes right behind the running one, with the next id |
| `Threads.Machine.LinkBehindCurrent` | kernel/sched/sched.c:29-30 | the two link stores insert the thread into the cycle |
| `Threads.Machine.CreateThread` | kernel/sched/thread.c:14-47 | NULL exactly when kmalloc or vmm_alloc_guarded failed, and then nothing changes; else a new thread behind the running one that will start at the trampoline with entry and argument, no other stack touched |
| `Threads.Machine.FillFirstFrame` | kernel/sched/thread.c:33-40 | the seven words are what context_switch pops for entry and argument |
| `Threads.Machine.StartTrampoline` | kernel/arch/x86_64/cpu/context_switch.S:51-58 | the first run calls entry with arg, interrupts on, on a stack that holds the return address only, at a 16-byte boundary |
| `Threads.Machine.Deliver` | kernel/arch/x86_64/cpu/isr.h:6-20 | the processor's part of an interrupt: aligned stack, the interrupted state pushed, interrupts off, the LAPIC in service |
| `Threads.Machine.SaveRegisters` | kernel/arch/x86_64/cpu/isr_stubs.S:35-122 | the stub pushes error code and vector and leaves all fifteen registers in the order of struct interrupt_frame |
| `Threads.Machine.RestoreRegisters` | kernel/arch/x86_64/cpu/isr_stubs.S:124-140 | the pops take every register from where the pushes put it |
| `Threads.Machine.ReturnFromInterrupt` | kernel/arch/x86_64/cpu/isr_stubs.S:141-141 | iretq restores what the processor pushed |
| `Threads.Machine.EnterInterrupt` | kernel/arch/x86_64/cpu/isr.c:12-45 | a handler starts with nothing in service and with the frame as its argument; the frame records the interrupted code and which interrupt it was, and the handler is the one of that vector |
| `Threads.Machine.Dispatch` | kernel/arch/x86_64/cpu/isr.c:12-45 | panics exactly for a vector below 32 without a handler; from 32 on the interrupt is acknowledged first, with or without a handler; the handler is called with the address of the frame |
| `Threads.Machine.RegisterHandler` | kernel/arch/x86_64/cpu/isr.c:8-10 | one entry of the handler table changes |
| `Threads.Machine.LeaveInterrupt` | kernel/arch/x86_64/cpu/isr_stubs.S:124-141 | the interrupted code gets back all registers, flags, stack pointer and stack |
| `Threads.Machine.Do` | kernel/arch/x86_64/cpu/context_switch.S:25-58 | every computation, store, yield, tick, interrupt, return or thread_create is exactly the step described, and keeps every stack intact |
| `Threads.OwnStackChanged` | kernel/sched/sched.c:34-45 | writes of the running code to its own stack leave every suspended thread and every pending frame intact |
| `Threads.SwitchKeepsStacks` | kernel/arch/x86_64/cpu/context_switch.S:25-42 | a switch keeps all stacks disjoint and every thread but the new one able to go on |
| `Threads.InterruptKeepsStacks` | kernel/arch/x86_64/cpu/isr_stubs.S:104-122 | a pushed frame keeps the frames below it nested and intact |
| `Threads.PoppedFrame` | kernel/arch/x86_64/cpu/isr_stubs.S:124-141 | the innermost frame is intact and lies above the stack pointer of the handler |
| `ThreadRuns.Execute` | kernel/sched/sched.c:26-55 | any sequence of operations yields a trace of intact states, up to the first that is not possible; so the statements about traces hold of every run of the machine |
| `ThreadRuns.SuspendedUntilItRuns` | kernel/sched/sched.c:34-45 | over every run a suspended thread stays as it was suspended until it runs again |
| `ThreadRuns.RoundTrip` | kernel/arch/x86_64/cpu/context_switch.S:25-42 | over every run a thread that stops running and runs again for the first time does so with its six registers, at its return address, with its stack pointer and every word of its stack |
| `ThreadRuns.FirstRun` | kernel/sched/thread.c:33-40 | over every run a new thread starts at the trampoline with entry and argument in the registers it reads, on an empty stack |
| `ThreadRuns.FramesKept` | kernel/arch/x86_64/cpu/isr_stubs.S:104-141 | over every run the frames of the interrupts that a thread is in stay as they are |
| `ThreadRuns.FrameKeepsVector` | kernel/arch/x86_64/cpu/isr_stubs.S:35-122 | over every run the frame of an interrupt says in memory which vector it was until it is left, whatever runs in between |
| `ThreadRuns.HandlersAreRegistered` | kernel/arch/x86_64/cpu/isr.c:8-10 | over every run the handler of a vector is the one registered last |
| `ThreadRuns.InterruptReachesHandler` | kernel/arch/x86_64/cpu/isr.c:12-45 | over every run an interrupt calls the handler registered last for its vector with the address of its frame, or goes back at once if there is none |
| `ThreadRuns.InterruptRoundTrip` | kernel/arch/x86_64/cpu/isr_stubs.S:104-141 | over every run, with any switches and nested interrupts in between, the matching return gives the interrupted code back all registers, its flags and its stack |
| `ThreadRuns.InterruptsGetThrough` | kernel/arch/x86_64/cpu/isr.c:12-45 | over every run nothing is left in service, so code with room on its stack can be interrupted exactly if its interrupt flag is on |
| `ThreadRuns.ResumesWithForeignFlag` | kernel/arch/x86_64/cpu/context_switch.S:13-42 | over every run a thread that stopped outside any handler goes on outside any handler with the interrupt flag of the code that switched to it: it can be interrupted if and only if that code had interrupts on |
| `ThreadRuns.MaskedUntilTurnedOn` | kernel/arch/x86_64/cpu/context_switch.S:13-42 | over every run interrupts that are off stay off, whoever runs, until code turns them on or a handler returns |
| `ThreadRuns.NoTickAmongYielders` | kernel/sched/sched.c:34-55 | so if they are off while no thread is inside a handler, no interrupt arrives any more, however often threads yield to each other |
| `ThreadRuns.MaskedByTick` | kernel/sched/sched.c:34-55 | the run that leads there, from any state of two threads outside handlers: one yields, the other turns interrupts on and is preempted by the tenth tick, and sched_yield returns with interrupts off |
| `ThreadRuns.PreemptionStaysPossible` | kernel/sched/sched.c:47-51 | over every run in which code outside handlers never switches of its own accord and keeps interrupts on, every thread that has started can be preempted whenever it is outside a handler |
| `ThreadRuns.SchedulerFollows` | kernel/sched/sched.c:26-55 | the ring and the tick counter of the machine are those of the ready ring under the events of the run |
| `ThreadRuns.RunsWithin` | kernel/sched/sched.c:47-51 | in every run of the machine a thread at distance d runs within 10 (d + creations) - ticks_since_switch timer ticks |
| `Spinlock.StepKeepsOwners` | kernel/sched/spinlock.c:7-23 | every step of any processor keeps one owner for each set lock word |
| `Spinlock.RunKeepsSound` | kernel/sched/spinlock.c:7-53 | the invariant holds over every interleaving of any number of processors |
| `Spinlock.MutualExclusion` | kernel/sched/spinlock.c:7-23 | in every reachable state a lock word is set exactly when somebody owns the lock, and never do two |
| `Spinlock.TakenWhenFree` | kernel/sched/spinlock.c:7-19 | code that waits has the lock after two accesses of its own if the lock was free; while it is held the loops go on for any number of accesses and write nothing |
| `Spinlock.StepKeepsFlags` | kernel/sched/spinlock.c:25-53 | while code holds or wants a lock with the flag saved, its interrupts are off; sections nest |
| `Spinlock.HandlerNeverWaitsForItsOwn` | kernel/sched/spinlock.c:44-53 | a lock taken with the flag saved only is never held by code that a handler interrupted |
| `Spinlock.InnerReleaseKeepsInterruptsOff` | kernel/sched/spinlock.c:50-53 | restoring the flag of an inner section leaves interrupts off in the outer one |
| `Spinlock.AcquireToRelease` | kernel/sched/spinlock.c:44-53 | over every run the interrupt flag after the matching release is what it was before the acquisition |
| `Spinlock.SectionRestoresFlag` | kernel/sched/spinlock.c:44-53 | along every run code stays in its section, whatever its handlers and other processors do, up to the step that restores the flag it saved |
| `Spinlock.WaitsForItselfForever` | kernel/sched/spinlock.c:7-19 | once a handler waits for the code it interrupted it does so in every later state |
| `Spinlock.PlainAcquireCanDeadlock` | kernel/sched/spinlock.c:7-19 | and a run with the plain acquire gets there |
| `ByteBlocks.MemMove` | kernel/lib/string.c:23-41 | the old contents of the source, also where the ranges overlap, and nothing else changes |
| `ByteBlocks.MemSet` | kernel/lib/string.c:14-20 | the range is filled and nothing else changes |
| `CharacterScreen.TypingIsSeen` | kernel/drivers/framebuffer/framebuffer.c:95-116 | a character on the wrapped, scrolled grid is the same as on endless paper seen through a window |
| `CharacterScreen.TextRunsOn` | kernel/drivers/framebuffer/framebuffer.c:95-115 | text without newlines runs from left to right in its colours: character k is k / cols lines down in column k % cols, and earlier lines stay |
| `CharacterScreen.NewlineStartsLine` | kernel/drivers/framebuffer/framebuffer.c:100-102 | byte 10 starts an empty line |
| `CharacterScreen.ScreenShowsTheEnd` | kernel/drivers/framebuffer/framebuffer.c:95-123 | from an empty screen on, the grid shows the last lines of everything written, in any colours, wrapped at the width |
| `Framebuffer.BlackIsZero` | kernel/drivers/framebuffer/framebuffer.c:40-50 | black packs to 0 in every mode, so the zero fill of scrolling is black |
| `Framebuffer.ColorComesBack` | kernel/drivers/framebuffer/framebuffer.c:40-50 | in every mode with fields that do not overlap, the red, green and blue fields of a packed colour are the top bits of its three components |
| `Framebuffer.BitIsDigit` | kernel/drivers/framebuffer/framebuffer.c:80-80 | bit gx of a font byte is its binary digit of weight 2^gx |
| `Framebuffer.GlyphPixel` | kernel/drivers/framebuffer/framebuffer.c:69-84 | in a picture that shows the grid, pixel (8 col + gx, 8 row + gy) is the foreground of that cell exactly if digit gx of row gy of its glyph is 1 |
| `Framebuffer.ShiftedByte` | kernel/drivers/framebuffer/framebuffer.c:55-57 | the shift and cast give byte i of the colour |
| `Framebuffer.PixelsApart` | kernel/drivers/framebuffer/framebuffer.c:52-54 | no two pixels share a byte |
| `Framebuffer.InLine` | kernel/drivers/framebuffer/framebuffer.c:52-54 | every byte of a pixel lies inside its line, hence inside pitch times height |
| `Framebuffer.DecodedHolds` | kernel/drivers/framebuffer/framebuffer.c:17-30 | whatever memory holds is some picture |
| `Framebuffer.Console.constructor` | kernel/drivers/framebuffer/framebuffer.c:17-30 | any framebuffer is accepted and the cursor starts at cell (0, 0); it can be drawn on if a character fits and a pixel has at most four bytes |
| `Framebuffer.Console.PutPixelRaw` | kernel/drivers/framebuffer/framebuffer.c:52-58 | memory then holds the picture with that one pixel changed |
| `Framebuffer.Console.Clear` | kernel/drivers/framebuffer/framebuffer.c:60-67 | every pixel has the colour; clearing to black shows an empty grid |
| `Framebuffer.Console.DrawGlyph` | kernel/drivers/framebuffer/framebuffer.c:69-84 | memory then shows the grid with that one cell changed: of its 64 pixels, those whose font digit is 1 have the packed foreground and the others the packed background; no other pixel changes |
| `Framebuffer.Console.ScrollOneRow` | kernel/drivers/framebuffer/framebuffer.c:86-93 | memory then shows the grid one row up with an empty last row |
| `Framebuffer.Console.Putc` | kernel/drivers/framebuffer/framebuffer.c:95-116 | memory then shows the grid after that character, with wrap and scroll, and the cursor follows |
| `Framebuffer.Console.Write` | kernel/drivers/framebuffer/framebuffer.c:118-123 | the characters before the zero byte, in order |
| `Framebuffer.Console.ClearAndWrite` | kernel/drivers/framebuffer/framebuffer.c:17-123 | after init, a clear to black and any characters in any colours, memory shows the end of everything written, wrapped at the width |
| `Framebuffer.BytesMoved` | kernel/drivers/framebuffer/framebuffer.c:86-93 | moving and clearing bytes is moving and clearing lines of the picture |
| `Framebuffer.ScrollShows` | kernel/drivers/framebuffer/framebuffer.c:86-93 | moving the picture up by a cell scrolls the grid, also when the height is no multiple of the cell |
| `Printf.DigitsComeBack` | kernel/lib/printf.c:25-35 | reading the digits back gives the number, for every base up to 16 |
| `Printf.UnsignedComesBack` | kernel/lib/printf.c:19-38 | a number can be read back, in every base up to 16, if and only if it is zero-padded or no wider field is asked for than it takes |
| `Printf.SignedComesBack` | kernel/lib/printf.c:40-48 | likewise for every signed value, the minimum included |
| `Printf.ConversionShows` | kernel/lib/printf.c:80-117 | %d and %i show the signed value at the width of the length modifier in base 10, %u the unsigned one, %x and %X in base 16 without capitals and without small letters: padding, then a numeral without leading zeros that reads back; %p is "0x" and sixteen digits that read back; %s the text or "(null)", right-aligned with spaces; %c the low byte |
| `Printf.DirectiveIsRead` | kernel/lib/printf.c:61-78 | the digits of a directive are its width in base 10, a zero in front asks for zeros, any l for 64 bits |
| `Printf.DirectivePrints` | kernel/lib/printf.c:50-127 | a format that starts with a directive prints what its conversion shows of the first argument, then what the rest of the format prints of the others; %% is one percent sign, and any unknown conversion prints itself behind one |
| `Printf.CharacterPrints` | kernel/lib/printf.c:52-55 | any other character is printed as it is |
| `Printf.OneDirectivePrints` | kernel/lib/printf.c:50-127 | a format of one directive prints just that |
| `Printf.OneDirectiveNeeds` | kernel/lib/printf.c:80-114 | the arguments that such a format needs: a string, a 64-bit word for %p and after l, else a 32-bit word |
| `Printf.QuotientFits` | kernel/lib/printf.c:25-30 | in base 4 and above each digit takes at least two bits off a 64-bit value |
| `Printf.SplitDigits` | kernel/lib/printf.c:25-30 | the do-while loop produces all the digits, backwards: the limit of 32 never cuts any off |
| `Printf.NumberText` | kernel/lib/printf.c:25-35 | the reversed buffer is the number in positional notation |
| `Printf.ScanDirective` | kernel/lib/printf.c:57-78 | flag, width and length modifiers are scanned up to the conversion |
| `Printf.Buffer.Emit` | kernel/lib/printf.c:135-141 | the buffer holds the output as far as it fits with room for the zero byte |
| `Printf.Buffer.EmitPadded` | kernel/lib/printf.c:8-17 | the text right-aligned in its field |
| `Printf.Buffer.EmitUnsigned` | kernel/lib/printf.c:19-38 | the number in its base, padded |
| `Printf.Buffer.EmitSigned` | kernel/lib/printf.c:40-48 | sign, then the magnitude in the rest of the field |
| `Printf.Buffer.EmitConverted` | kernel/lib/printf.c:80-117 | each conversion emits what ConversionShows describes |
| `Printf.Buffer.Kvprintf` | kernel/lib/printf.c:50-127 | the output is what the format describes, for every format that suits its arguments |
| `Printf.Ksnprintf` | kernel/lib/printf.c:143-157 | the first min(L, size - 1) characters of the output and a zero byte, nothing beyond size written, and L returned; for a format of one directive the output is what the conversion promises of its argument |
| `Keyboard.ShiftIsTheLastPress` | kernel/drivers/keyboard/keyboard.c:64-71 | shift is held exactly if the last shift scancode was a press |
| `Keyboard.KeysAppend` | kernel/drivers/keyboard/keyboard.c:52-80 | typing never overwrites an unread character and never queues a zero |
| `Keyboard.NumberRow` | kernel/drivers/keyboard/keyboard.c:21-43 | scancodes 0x02 to 0x0f type the number row, backspace and tab |
| `Keyboard.UpperRow` | kernel/drivers/keyboard/keyboard.c:21-43 | scancodes 0x10 to 0x1c type the row of q, with capitals under shift, and enter |
| `Keyboard.HomeRow` | kernel/drivers/keyboard/keyboard.c:21-43 | scancodes 0x1e to 0x29 type the row of a |
| `Keyboard.LowerRow` | kernel/drivers/keyboard/keyboard.c:21-43 | scancodes 0x2b to 0x35 type the row of z |
| `Keyboard.OtherKeys` | kernel/drivers/keyboard/keyboard.c:22-80 | scancode 0x39 types a space, and no other scancode types anything |
| `Keyboard.EveryCharacterHasAKey` | kernel/drivers/keyboard/keyboard.c:21-43 | every printable ASCII character is typed by some key, with or without shift |
| `Keyboard.Driver.Push` | kernel/drivers/keyboard/keyboard.c:52-59 | appends to the queue of at most 255, or drops the new character |
| `Keyboard.Driver.Isr` | kernel/drivers/keyboard/keyboard.c:61-80 | one scancode acts on queue and shift state as decoded |
| `Keyboard.Driver.ReadChar` | kernel/drivers/keyboard/keyboard.c:86-93 | with interrupts between any two of its steps the reader gets the oldest unread character, zero exactly when there is none, and loses nothing |
| `Madt.FieldBytes` | kernel/acpi/madt.c:35-41 | a little-endian field reads back as written |
| `Madt.RecordAt` | kernel/acpi/madt.c:20-41 | type 0 is a local APIC with its flags at byte 4, type 1 an IOAPIC with address at byte 4 and interrupt base at byte 8, little-endian |
| `Madt.RecordComesBack` | kernel/acpi/madt.c:20-41 | a record reads back as written |
| `Madt.RecordsComeBack` | kernel/acpi/madt.c:56-76 | a list of records reads back as written, whatever follows that is no whole record |
| `Madt.EnabledAreCounted` | kernel/acpi/madt.c:63-68 | the count is the number of local APIC records with bit 0 of their flags set |
| `Madt.SummaryIsRight` | kernel/acpi/madt.c:56-76 | the summary has that count, and address and interrupt base of the first IOAPIC exactly if there is one |
| `Madt.Parse` | kernel/acpi/madt.c:42-79 | the result says of the records from byte 44 up to the length at byte 4 how many enabled local APICs there are and what the first IOAPIC is, and gives the address at byte 36 |

## Left out

- Pmm.FrameAllocator.Init: the bytes of the bitmap are an array of their own beside the words of all frames; `Memory()` is the one memory that both make up, with the bitmap at its address, and allocation, release, clearing and stores are proved to be the same operations on it. Stores into the bitmap through a mapping of its own frames are not modelled.
- Threads.Machine.SwitchToNext: the lock around the ring is not part of the machine, because the switch is one step; locks are modelled in `Spinlock.dfy`, and the window between release and switch in `YieldWindow`.
- Threads.Machine.EnterInterrupt: device interrupts only; exceptions, nested stacks (IST) and ring 3 are not modelled, and a handler is code that does not write its frame.
- Threads.Machine.CreateThread: the outcomes of `kmalloc` and `vmm_alloc_guarded` are arguments here; `ThreadCreation.CreateThread` supplies them. Thread ids are unbounded.
- ThreadCreation.CreateThread: the stacks are words of the machine's own memory, at the addresses of the range that was handed out; that they are the words the page map shows there is not modelled, nor are the fields of the record in memory.
- Heap.Allocator.Kmalloc: the heap has no lock and is used by one thread at a time; its loads and stores are whole words, except that the flag is one byte.
- KernelRuns.Kernel.Execute: stores of threads go to the lazy and guarded windows, and those of frame holders to their frames; a store through any other mapping, say of a table, is not a request. Nor is `vmm_map` of a page inside those windows.
- Spinlock.MutualExclusion: memory ordering is sequential consistency, and fairness is not claimed: the lock has none.
- Spinlock.HandlerNeverWaitsForItsOwn: locks of one piece of code are released in the opposite order of their acquisition.
- Printf.Kvprintf: the emit function is the one of `ksnprintf`; the ghost output is what any other would be given. Widths are unbounded, so the overflow of `int` for widths of ten digits is not modelled, and the returned length is not truncated to `int`.
- Framebuffer.Console.Putc: the console without a framebuffer (`address == NULL`), which does nothing, is not an object of the class; the font is a parameter.
- Keyboard.Driver.Isr: the scancode read from the port is an argument; extended (E0) codes are treated as the driver treats them, as ordinary ones.
- Madt.Parse: finding the table and its checksum; the table's bytes are the argument.
- Port, MSR, LAPIC, IOAPIC and PIT programming, serial output, GDT, IDT and TSS contents, the syscall path, ACPI table search, logging, the demo threads and the panic screen: plumbing with no state of interest beyond the write.
- Large pages and non-canonical addresses; the loader's tables are any tree without shared tables.
