# DevOS kernel model

A Dafny model of the memory, process and protocol core of DevOS, a freestanding x86_64 kernel, with proofs of
what it promises. `dafny verify dfyconfig.toml` checks everything.

## What is modelled

- **Frames, page tables, address spaces.** `FrameAllocator` is the bitmap allocator and the set of free frames it
  stands for. `PageTables` is the four-level forest with kernel subtrees shared between spaces; it refines a partial
  map from pages to entries. `TableCost` counts the tables that mapping many pages takes. `Addresses` ties virtual
  addresses to index paths and models `vmm_translate`.
  `AddressSpaces` holds the theorems over every run: sharing, isolation, effective rights. `Ranges`, `Ownership` and
  `UserMemory` add range allocation, frame conservation and `mmap`/`munmap`. `MemoryManager` is the code that updates
  bitmap and tables in place; each method equals a specification function of the old state.
- **ELF loader.** `ElfLoader` proves that the page-by-page clipped copy yields the image the program headers describe.
- **Kernel heap.** `Slab` and `LargeTier` are the two tiers, `HeapState` the tiling invariant and what it means for
  live blocks. `HeapMemory` puts the magic words that tell the tiers apart into memory, `HeapWindow` maps the heap's
  pages, `KernelHeap` is the allocator over both. `RamFs` keeps files in blocks of that heap.
- **Scheduler.** `Scheduler` is the intrusive ring and the sleep list; it refines the queue of `RoundRobin`, where the
  waiting bound is proved.
- **Algorithms and protocols.** `Line` (Bresenham), with the number theory it needs in `Divisors`, `Checksum` (IPv4 and
  ICMP), `NvmeQueue` (phase-tagged completion ring), `Keyboard` (character ring and blocked readers against the
  interrupt). `Lists` holds what several modules use.

Conventions. Addresses and sizes are naturals; every 64-bit, 32-bit and 16-bit wrap-around that can occur is written
out. A bitmap word is a sequence of 64 booleans, true for used. A page-table entry is a frame number and a record of
flags. Each table also records where it was linked (its level, parent and slot): this is bookkeeping for the proofs,
no operation reads it. A frame fresh from `pmm_alloc` reads as zeros.

Where a promise fails on some inputs, the model follows the code and states exactly when it holds, with an input or a
run that shows the failure:

- `pmm_init` counts a frame twice when usable regions overlap (`FrameAllocator.PhysicalFrames.Init`,
  `FrameAllocator.OverlapCountsTwice`).
- `pmm_init` clears the frames wholly inside a usable region unless a 64-bit sum of its bounds wraps
  (`FrameAllocator.RegionExactIff`, with the wrapping families in `FrameAllocator.TopRegion` and
  `FrameAllocator.WrappedRegion`).
- `vmm_alloc_map` reports success although `vmm_map` ran out of table frames (`Ranges.AllocMapMapsIffEnough`,
  `Ranges.SuccessWithoutTables`).
- `vmm_init` needs 70 free frames; with fewer, pages it should map are missing and nothing is reported
  (`MemoryManager.Mm.InitKernel`, `MemoryManager.InitMapsIff`).
- Backing a page that is mapped already, or one whose tables there are no frames for, leaves a data frame that no page
  maps (`Ownership.BackConservesIff`, `Ownership.RunsConserveIff`, `Ownership.AllocRangeConservesIff`). Two `mmap` calls
  at one hint do it (`UserMemory.MmapTwiceOrphans`, `UserMemory.OrphanAfterBoot`).
- `vmm_alloc_range` fails only with the pool empty, and gives nothing back (`Ranges.FailureDrains`). A growth of the
  kernel heap that fails has therefore used up every frame, unless the window test turned it away, and that test lets
  requests through whose end passes 2^64 (`KernelHeap.KernelHeap.MapPages`, `KernelHeap.RejectsIff`,
  `RamFs.FarWriteFails`).
- `sys_mmap` and `sys_munmap` take any address; only below the upper half are other spaces left alone
  (`UserMemory.CallBelowKeepsOthers`, `UserMemory.MmapHarmlessIffBelow`, `UserMemory.SharedPageReplaced`).
- `sys_mmap` and `sys_munmap` round a length above 2^64-4096 to nothing and still report success
  (`UserMemory.LengthCoveredIff`).
- A kernel PML4 slot filled after a space was created stays invisible there
  (`AddressSpaces.KernelMappingVisibleIffSlotShared`, `AddressSpaces.LateSlotInvisible`).
- `get_or_create` does not widen existing inner entries (`AddressSpaces.UserPageOpenIffMidsWere`,
  `AddressSpaces.UserPageBesideKernelPage`).
- `large_alloc` wraps for sizes near 2^64 (`KernelHeap.SpanHoldsRequestIffNoWrap`,
  `KernelHeap.LargestRequestGetsOnePage`).
- `ramfs_truncate` raises the size past the buffer (`RamFs.File.Truncate`, `RamFs.TruncateUpBreaksFile`).
- A switch with nothing queued does not complete: idle alone leaves the guard up, any other task unlinks idle through
  null links (`Scheduler.Scheduler.YieldNow`, `Scheduler.ThirdYieldFaults`).
- A yield does not save a waiting task a whole slice, only what is left of the running one
  (`RoundRobin.RunsIffSwitched`, `RoundRobin.YieldMaySaveOneTick`).
- `gfx_draw_line` overflows an int on some long lines: exactly on those whose extents and their gcd miss the bounds of
  `Line.NeverOverflowsIff`. No line with extents up to 715827883 does, and for every longer limit some line does
  (`Line.UniformLimit`, `Line.LimitIsSharp`).
- `ipv4_rx` compares the header length with the low byte of the packet length only (`Checksum.SentIsReceivedIff`,
  `Checksum.PacketOf256IsDropped`).
- The NVMe driver never compares command identifiers, so on a device that completes in order one timeout makes all
  later statuses stale (`NvmeQueue.OwnStatusIffNoBacklog`, `NvmeQueue.StaleForeverAfterTimeout`,
  `NvmeQueue.TimeoutThenStale`).
- The ninth waiting reader is never woken (`Keyboard.KeysWakeEveryoneIff`, `Keyboard.NinthReaderStranded`), and readers
  receive a prefix of what was typed, in every interleaving, only if there is at most one: two tasks inside
  `keyboard_poll` can get the same character (`Keyboard.PrefixIffOneReader`, `Keyboard.TwoPollersFromStart`).

The sum of offset and length in `ramfs_read` would wrap near 2^64 as well (`RamFs.ReadLengthExactIff`), but no caller
passes such values (`RamFs.CallersStayBelow`).

## Model

| member | source | states |
|---|---|---|
| `FrameAllocator.PhysicalFrames.Init` | kernel/mm/pmm.c:30-67 | a frame is free exactly if some region of type 1 wholly contains it, it is not frame 0 and no byte of the kernel image from 1 MiB on lies in it; the counter of free frames is exact if and only if no two usable regions share a frame |
| `FrameAllocator.RegionExactIff` | kernel/mm/pmm.c:39-49 | the frames cleared for a usable region are those wholly inside it if and only if neither sum of its bounds wraps harmfully |
| `FrameAllocator.TopRegion` | kernel/mm/pmm.c:39-49 | the failing family at the top of the address space, where the start is rounded to 0 |
| `FrameAllocator.WrappedRegion` | kernel/mm/pmm.c:39-49 | the failing family whose end wraps: it is passed over |
| `FrameAllocator.CountersExactIffDisjoint` | kernel/mm/pmm.c:35-51 | the summed region lengths equal the number of distinct usable frames if and only if the regions are pairwise disjoint |
| `FrameAllocator.OverlapCountsTwice` | kernel/mm/pmm.c:35-51 | two map entries for the same two pages: two frames, counted as four |
| `FrameAllocator.PhysicalFrames.FrameUsed` | kernel/mm/pmm.c:20-28 | a frame reads as used exactly when it is not in the set of free frames |
| `FrameAllocator.PhysicalFrames.Alloc` | kernel/mm/pmm.c:69-93 | NULL if and only if no frame is free, for every hint; otherwise the free frame the circular scan meets first, which leaves the free set; the counter stays exact and frame 0 stays reserved |
| `FrameAllocator.PhysicalFrames.ScanFindsPick` | kernel/mm/pmm.c:71-90 | stopping at the lowest clear bit of the first non-full word from the hint on finds the frame of least scan rank |
| `FrameAllocator.PhysicalFrames.FreePage` | kernel/mm/pmm.c:95-105 | a used frame in range becomes free, frame 0 and frames out of range or already free change nothing, the counter stays exact |
| `FrameAllocator.ServeKeepsBalanceIff` | kernel/mm/pmm.c:95-105 | a free keeps that partition if and only if the frame is held by the client or one that pmm_free_page ignores; freeing a reserved frame puts it in the pool |
| `FrameAllocator.RunsConserveFrames` | kernel/mm/pmm.c:69-105 | over every run of allocations and frees that gives back nothing reserved, free and handed-out frames partition the usable ones, so no frame is lost or issued twice |
| `PageTables.FlagValues` | kernel/mm/vmm.h:4-19 | the flag combinations the model uses are the numbers of the header and no others |
| `PageTables.GetOrCreateKeeps` | kernel/mm/vmm.c:14-22 | fails exactly when the entry is absent and no frame is free; otherwise links a fresh empty table, keeps the forest well formed and changes no translation of any address space |
| `PageTables.DescendCosts` | kernel/mm/vmm.c:26-38 | the walk of vmm_map succeeds if and only if there is one free frame for each missing table, and spends exactly those |
| `PageTables.WalksMeetOnlyIfShared` | kernel/mm/vmm.c:24-42 | two walks reach the same leaf entry only through the same page path and a shared PML4 slot |
| `TableCost.MapMakes` | kernel/mm/vmm.c:24-42 | a vmm_map that succeeds makes exactly the tables it found missing: every other page of the space needs what it needed before, without those |
| `TableCost.CostGrows` | kernel/mm/vmm.c:44-50 | the number of distinct tables missing on the paths of a range grows, page by page, by what the next page still misses once the earlier ones are mapped |
| `PageTables.MapRefinesUpdate` | kernel/mm/vmm.c:24-42 | vmm_map is an update of the partial map at one page, seen in exactly the spaces sharing the PML4 slot; when frames run out at any level no translation changes; the forest and frame accounting are kept |
| `PageTables.UnmapRefinesDelete` | kernel/mm/vmm.c:52-68 | vmm_unmap is a deletion at one page; no table is freed and no frame moves |
| `PageTables.CreateSpaceSharesKernel` | kernel/mm/vmm.c:97-106 | the new space shows the kernel's upper half and nothing below it; no other space's translations change; failure exactly when no frame is free |
| `Addresses.SamePathIffSameBits` | kernel/mm/vmm.h:27-30 | two addresses index the same entries if and only if bits 47 to 12 agree |
| `Addresses.PageOfPathInverse` | kernel/mm/vmm.h:27-30 | page numbers below 2^36 and index quadruples correspond one to one |
| `Addresses.PhysFrameIs` | kernel/mm/vmm.h:21 | an entry holds the frame given by bits 51 to 12 of the physical address, whatever the others are |
| `Addresses.TranslateIsLookup` | kernel/mm/vmm.c:70-89 | in a well-formed forest vmm_translate never meets a huge entry and is lookup in the partial map |
| `Addresses.MapThenTranslate` | kernel/mm/vmm.c:24-89 | after vmm_map, every address of every space translates to the new frame plus offset if its page and slot are concerned, and as before otherwise |
| `Addresses.UnmapThenTranslate` | kernel/mm/vmm.c:52-89 | after vmm_unmap, every address of every space translates to 0 if its page and slot are concerned, and as before otherwise |
| `AddressSpaces.RunKeeps` | kernel/mm/vmm.c:24-106 | every run of map, unmap and create keeps the forest well formed and never removes a table or a present inner entry |
| `AddressSpaces.SharedSlotsAgreeForever` | kernel/mm/vmm.c:97-106 | two roots with a present slot in common agree on every translation under it after any run |
| `AddressSpaces.NewSpaceSeesKernelForever` | kernel/mm/vmm.c:97-106 | for each upper-half slot present when a space was created, that space and the kernel agree on every page under it, whatever happens afterwards |
| `AddressSpaces.KernelMappingVisibleIffSlotShared` | kernel/mm/vmm.c:97-106 | a page the kernel maps later is seen by another space if and only if that space already had the kernel's PML4 entry |
| `AddressSpaces.LateSlotInvisible` | kernel/mm/vmm.c:97-106 | from boot: a space created, then a kernel page mapped under an empty slot; the kernel sees it and the space does not |
| `AddressSpaces.LowerSlotsPrivate` | kernel/mm/vmm.c:97-106 | no two spaces ever share a present lower-half slot |
| `AddressSpaces.LowerHalfIsolation` | kernel/mm/vmm.c:24-68 | runs that map and unmap lower-half pages of other spaces change no translation of this one |
| `AddressSpaces.HeapAndKernelShareSlot` | kernel/mm/heap.h:19-25 | every heap address and every kernel image address lies under PML4 slot 511 |
| `AddressSpaces.EffectiveIffMidsAllow` | kernel/mm/vmm.c:14-42 | the rights along the walk (section 4.6 of Intel SDM volume 3A) equal the leaf's flags if and only if no inner entry withholds user access the leaf grants |
| `AddressSpaces.UserPageOpenIffMidsWere` | kernel/mm/vmm.c:14-42 | a page mapped for user mode has its leaf's rights if and only if every inner entry already there allowed user access |
| `AddressSpaces.UserPageBesideKernelPage` | kernel/mm/vmm.c:14-42 | from boot: a kernel page at 0, then a user page beside it; its leaf grants user access and the walk does not |
| `AddressSpaces.ZonedRights` | kernel/mm/vmm.c:24-42 | where every inner entry belongs to its zone, a page has exactly the rights of its leaf, and user access exactly below the upper half of a process |
| `AddressSpaces.RightsInEveryRun` | kernel/mm/vmm.c:24-42 | in every run that passes VMM_USER exactly for lower-half process pages, effective rights equal leaf flags on every mapped page |
| `AddressSpaces.UpperHalfNeverUser` | kernel/mm/vmm.c:24-106 | in every run that passes VMM_USER only below the upper half, no upper-half page of any space is user-accessible |
| `AddressSpaces.BootRootStarts` | kernel/mm/vmm.c:108-115 | the empty kernel PML4 is a state the run theorems on sharing, isolation and rights can start from |
| `Ranges.KernelRangeKeepsStart` | kernel/mm/vmm.c:117-122 | mapping kernel ranges keeps that start and fills the PML4 slot of the first page |
| `Ranges.MapRangeMaps` | kernel/mm/vmm.c:44-50 | with a free frame for each distinct table missing on the range's paths every page maps to its frame, exactly those frames are spent, and no other translation changes |
| `Ranges.MapRangeMapsIff` | kernel/mm/vmm.c:44-50 | vmm_map_range, which reports nothing, maps its whole range if and only if there were frames for those tables |
| `MemoryManager.Mm.MapPage` | kernel/mm/vmm.c:24-42 | the new tables and frame pool are those of the refined map operation; the manager stays valid |
| `MemoryManager.Mm.MapPageRange` | kernel/mm/vmm.c:44-50 | the loop maps page after page of the rounded-up size, with 64-bit wrap-around of both addresses |
| `MemoryManager.Mm.UnmapPage` | kernel/mm/vmm.c:52-68 | the walk stops at the first absent table; otherwise only the leaf entry is cleared |
| `MemoryManager.Mm.CreateAddressSpace` | kernel/mm/vmm.c:97-106 | slots 256 to 511 are copied, the rest is zero, and the state is that of the create operation |
| `MemoryManager.Mm.CopyUpperHalf` | kernel/mm/vmm.c:101-104 | the copy loop yields the kernel's slots from 256 on and empty ones below |
| `MemoryManager.Mm.InitKernel` | kernel/mm/vmm.c:108-122 | halts exactly when no frame is free; otherwise the run theorems' start holds, slot 511 is present with four frames, and every page of both ranges translates as promised if and only if at least 70 frames were free, and is then writable, executable and closed to user mode |
| `MemoryManager.KernelMappedRights` | kernel/mm/vmm.h:17 | the rights of those pages along the walk |
| `MemoryManager.InitMapsIff` | kernel/mm/vmm.c:117-122 | the first 128 MiB appear at the kernel's base and the first 2 MiB at 0, each page with its own frame number and kernel flags, if and only if 69 frames are free for page tables |
| `MemoryManager.Mm.AllocMapPage` | kernel/mm/vmm_ext.c:32-38 | the state is that of allocating a zeroed frame and mapping it, with 0 for failure |
| `MemoryManager.Mm.AllocPageRange` | kernel/mm/vmm_ext.c:45-55 | the loop stops at the first failing page, keeping what it has mapped |
| `MemoryManager.Mm.FreePageRange` | kernel/mm/vmm_ext.c:61-72 | each mapped page is unmapped and its frame freed, unmapped pages are skipped |
| `Ranges.AllocMapMapsIffEnough` | kernel/mm/vmm_ext.c:32-38 | success is reported whenever a data frame is found, but the page is mapped if and only if frames for the missing tables are there as well |
| `Ranges.SuccessWithoutTables` | kernel/mm/vmm_ext.c:32-38 | from boot with one frame left: success is reported and the page stays unmapped |
| `Ranges.AllocRangeBacks` | kernel/mm/vmm_ext.c:45-55 | with a free frame for each page and each distinct missing table the range is allocated, each page backed by a distinct, fresh, zeroed frame, exactly that many frames spent, everything else unchanged |
| `Ranges.DemandBounded` | kernel/mm/vmm_ext.c:45-55 | that demand is at most four frames per page |
| `Ranges.AllocRangeBacksIff` | kernel/mm/vmm_ext.c:45-55 | an unmapped range ends up backed if and only if the pool covers that demand |
| `Ranges.FailureDrains` | kernel/mm/vmm_ext.c:45-55 | a failed vmm_alloc_range leaves no frame free |
| `Ranges.AllocRangeKeepsOthers` | kernel/mm/vmm_ext.c:45-55 | whatever the outcome, no translation outside the range and no data frame changes; success has cost a frame for every page |
| `Ranges.FailureSticks` | kernel/mm/vmm_ext.c:45-55 | once a page fails the loop changes nothing any more |
| `Ranges.FreePageReleases` | kernel/mm/vmm_ext.c:61-72 | freeing a page backed by a data frame deletes its translation and returns exactly that frame |
| `Ranges.FreeRangeKeepsOthers` | kernel/mm/vmm_ext.c:61-72 | freeing pages that are unmapped or backed by data frames of their own changes no translation outside the range |
| `Ranges.FreeRangeFrees` | kernel/mm/vmm_ext.c:61-72 | on such a range, mapped in part or not, no page stays mapped and exactly the frames its pages had are returned |
| `Ranges.FreeRangeReleases` | kernel/mm/vmm_ext.c:61-72 | freeing a backed range unmaps every page of it, returns exactly their frames and keeps everything else |
| `Ranges.AllocThenFreeRestores` | kernel/mm/vmm_ext.c:45-72 | allocate then free restores every translation and every data frame; only the frames that became tables stay spent |
| `Ownership.BackConservesIff` | kernel/mm/vmm_ext.c:32-38 | backing an owned page keeps the partition of frames, each data frame mapped by exactly one page, if and only if no frame was free at all, or the page was unmapped and there were frames for it and its missing tables |
| `Ownership.RunsConserveIff` | kernel/mm/vmm_ext.c:32-72 | a run of backing and freeing user and heap pages, kernel mappings and new spaces keeps, at every point, reserved, free, table and data frames a partition of physical memory with each data frame mapped by exactly one page that owns it, if and only if each page backed met that condition |
| `Ownership.RemapOrphans` | kernel/mm/vmm_ext.c:32-38 | a page mapped over: no page maps its old frame any more, and the frame is not free |
| `Ownership.ShortageOrphans` | kernel/mm/vmm_ext.c:32-38 | too few frames for the tables: no page maps the frame taken for the data, and it is not free |
| `Ownership.CountsAddUp` | kernel/mm/pmm.c:69-105 | free, reserved, table and data frames always add up to all frames |
| `Ownership.AllocRangeConservesIff` | kernel/mm/vmm_ext.c:45-55 | vmm_alloc_range on unmapped user or heap pages keeps the partition if and only if the free frames cover the whole demand, or come out even with the demand of a part of the range |
| `Ownership.FreeRangeConserves` | kernel/mm/vmm_ext.c:61-72 | vmm_free_range on any user range, mapped or not, keeps the partition |
| `Ownership.ConservedReleasable` | kernel/mm/vmm_ext.c:61-72 | where the partition holds, every range of pages a space owns is unmapped or backed by data frames of its own, as the free operations ask |
| `Ownership.HeapGrowthConservesIff` | kernel/mm/heap.c:102-126 | so for the state heap_map_pages leaves on fresh pages of the window |
| `Ownership.BootConserves` | kernel/mm/vmm.c:108-115 | the empty kernel PML4 starts such runs, with everything that is not free reserved |
| `UserMemory.SysMmap` | kernel/syscall/syscall.c:146-163 | the errors in the source's order; without a hint the address returned is the cursor, with one it is the start of the hint's page; memory and cursor as the call defines them on values; ENOMEM leaves no frame free |
| `UserMemory.SysMunmap` | kernel/syscall/syscall.c:165-172 | EINVAL for a null address or length with nothing changed, otherwise memory as the call defines it on values, and the cursor unmoved |
| `UserMemory.MmapMaps` | kernel/syscall/syscall.c:153-162 | with the frames it demands a call returns an address from which on every address of every page of the length is on a user page, writable and not executable, backed by a zeroed frame that was free, each page by its own |
| `UserMemory.MunmapFrees` | kernel/syscall/syscall.c:169-171 | after the call no address of any page that holds a byte of the range translates, and exactly the frames those pages had are free again |
| `UserMemory.LengthCoveredIff` | kernel/syscall/syscall.c:155 | the rounded length covers the length if and only if it is at most 2^64-4096; above that it is 0 |
| `UserMemory.MmapThenMunmap` | kernel/syscall/syscall.c:146-172 | the run of an mmap of unmapped pages, with the frames it demands, and the munmap of the address it returned restores all translations of the process and all data frames, and every other space's translations except of shared upper-half pages in the range |
| `UserMemory.MmapTwiceOrphans` | kernel/syscall/syscall.c:146-163 | from every state with conserved frames, two mmap calls of a page at one hint both succeed, and the frame of the first is taken and mapped nowhere |
| `UserMemory.OrphanAfterBoot` | kernel/syscall/syscall.c:146-163 | the run from boot on: a new process and two such calls at any lower-half hint |
| `UserMemory.CallBelowKeepsOthers` | kernel/syscall/syscall.c:146-172 | a call on a range below the upper half changes no translation of any other space |
| `UserMemory.MmapHarmlessIffBelow` | kernel/syscall/syscall.c:146-163 | mapping a page for one space leaves the other spaces alone in all states if and only if the page lies below the upper half |
| `UserMemory.SharedPageReplaced` | kernel/syscall/syscall.c:146-163 | the run behind it: a kernel page under a shared slot, mapped again by a process, is replaced in the kernel's space by the fresh frame with the mmap flags |
| `UserMemory.GrantsAreStacked` | kernel/syscall/syscall.c:153-162 | over every run of mmap and munmap calls, whichever of them find frames: the cursor is its start plus all bytes granted without a hint, and those grants lie one after another |
| `UserMemory.HintlessGrantsDisjoint` | kernel/syscall/syscall.c:146-163 | in such a run no two ranges returned without a hint contain the same address until the cursor wraps |
| `UserMemory.HintlessAddressesDisjoint` | kernel/syscall/syscall.c:146-163 | of two hint-less calls of a run that succeed, the later one returns an address past the whole range of the earlier one |
| `UserMemory.GrantsAreFresh` | kernel/syscall/syscall.c:146-163 | over every run, a call that has the frames it demands leaves every address of the range it returns on a fresh page of its own |
| `ElfLoader.CopyIntoPage` | kernel/elf/elf.c:204-227 | the clipped copy puts in each page exactly the file bytes that fall in it and zeros elsewhere |
| `ElfLoader.MapSegmentInto` | kernel/elf/elf.c:158-230 | nothing to do for an empty segment, failure with nothing changed for one whose file bytes are not all there, and otherwise page by page the state of the segment mapping |
| `ElfLoader.SegmentImage` | kernel/elf/elf.c:158-230 | with frames for its pages and the missing tables every covered address reads its file byte or zero, every covered page is a user page that is writable and executable just as bits 1 and 0 of p_flags say, exactly those frames are spent, and no other translation of any space, lower or upper half, and no old frame's contents change |
| `ElfLoader.SegmentRights` | kernel/elf/elf.c:88-95 | so are the rights of the covered pages along the walk, in a process |
| `ElfLoader.CoversExactly` | kernel/elf/elf.c:172-174 | the covered pages are those that hold an address of the segment's memory range |
| `ElfLoader.CoversByPath` | kernel/elf/elf.c:172-174 | the pages named there are exactly those of the covered addresses |
| `ElfLoader.FileBytesCovered` | kernel/elf/elf.c:158-230 | byte k of the segment reads file byte offset+k below filesz and zero from there to memsz |
| `ElfLoader.LoadInto` | kernel/elf/elf.c:259-272 | the loop maps the PT_LOAD headers in order and stops at the first failure |
| `ElfLoader.ProgramImage` | kernel/elf/elf.c:259-272 | with the frames all segments together demand, loading into an empty lower half leaves exactly the image the headers describe, nothing mapped elsewhere; other spaces keep every translation, this one its upper half, and all old frames their contents |
| `ElfLoader.ProgramRights` | kernel/elf/elf.c:259-272 | in a process, a lower-half page has rights exactly if some segment covers it: user access, and write and execute as the last such segment asks |
| `ElfLoader.DisjointSegmentsIntact` | kernel/elf/elf.c:259-272 | a segment that shares no page with a later or earlier one reads back whole |
| `Slab.Capacity` | kernel/mm/heap.c:138-147 | the loop terminates with the largest count of all that fits the page with its bitmap, and at least one |
| `Slab.NewPage` | kernel/mm/heap.c:131-161 | a fresh page has every slot below capacity free and an exact free count |
| `Slab.TakenIsValid` | kernel/mm/heap.c:195-197 | taking a free slot removes exactly it; the free count stays the number of clear bits below capacity and no bit past capacity is set |
| `Slab.GivenIsValid` | kernel/mm/heap.c:229-236 | freeing a used slot adds exactly it, with the same invariant |
| `Slab.FindSlot` | kernel/mm/heap.c:181-203 | a page with a positive free count yields a free slot whatever the hint: the final NULL is unreachable |
| `Slab.SlotsApart` | kernel/mm/heap.c:79-83 | distinct slots do not overlap |
| `Slab.SlotBounds` | kernel/mm/heap.c:75-83 | slots lie behind header and bitmap and inside the page |
| `Slab.SlotOfInverse` | kernel/mm/heap.c:213-227 | slab_free maps a slot's offset back to its index, and accepts no other offset |
| `LargeTier.InsertKeepsChain` | kernel/mm/heap.c:244-251 | inserting keeps a well-formed doubly linked list, with the span at its head |
| `LargeTier.RemoveKeepsChain` | kernel/mm/heap.c:253-259 | removing any member keeps the list well formed, without exactly that member |
| `LargeTier.TilesApart` | kernel/mm/heap.c:102-126 | distinct spans and slab pages share no page |
| `LargeTier.GrowSpan` | kernel/mm/heap.c:102-126 | a span at the old cursor keeps the exact tiling up to the new cursor |
| `LargeTier.GrowSlab` | kernel/mm/heap.c:131-161 | so does a slab page |
| `LargeTier.SplitKeepsTiles` | kernel/mm/heap.c:285-291 | splitting a span keeps the exact tiling |
| `HeapState.BlockInTile` | kernel/mm/heap.c:166-311 | a live block lies inside the mapped window, behind its tile's header and bitmap, and holds at least the requested bytes |
| `HeapState.LiveBlocksDisjoint` | kernel/mm/heap.c:338-393 | two live blocks never share a byte |
| `HeapState.BlocksMissHeaders` | kernel/mm/heap.c:338-393 | no live block overlaps the header or bitmap of any tile |
| `HeapState.BlockAtAddr` | kernel/mm/heap.c:359-368 | once the kind of its page is known, a live pointer's page and slot are found again |
| `HeapMemory.MagicValues` | kernel/mm/heap.c:31-56 | the byte patterns are the 64-bit words of the source, lowest byte first |
| `HeapMemory.TagsMissBlocks` | kernel/mm/heap.c:166-311 | no byte of a live block is part of the magic word of any tile |
| `HeapMemory.StoreKeepsTags` | kernel/mm/heap.c:359-368 | a store anywhere inside a live block keeps the magic word of every tile |
| `HeapMemory.WordTellsTier` | kernel/mm/heap.c:213-216 | the word at the base of a tile is the slab word exactly for slab pages, the free word exactly for free spans, the allocated word exactly for used ones |
| `HeapMemory.TierFromWord` | kernel/mm/heap.c:359-368 | reading the word at its page's base, kfree reaches the tier, page and slot that issued a live pointer |
| `HeapMemory.ListedTagged` | kernel/mm/heap.c:281-294 | taking a span from the list, with or without a split, leaves every tile with the right word and writes nothing but words |
| `HeapMemory.GrownTagged` | kernel/mm/heap.c:273-294 | so does a span at the cursor |
| `HeapMemory.FreedTagged` | kernel/mm/heap.c:298-311 | so does freeing a span |
| `HeapMemory.SlabTagged` | kernel/mm/heap.c:131-161 | so does a new slab page |
| `HeapState.AllocListedAllocates` | kernel/mm/heap.c:261-296 | unlinking, splitting and handing out a listed span adds one live block and touches no other |
| `HeapState.AllocListedCuts` | kernel/mm/heap.c:285-291 | a listed span is cut to the pages asked for and the rest left as a free span exactly if the rest is more than one page; every other span is as before |
| `HeapState.FreedReleases` | kernel/mm/heap.c:298-311 | freeing a span removes one live block and touches no other |
| `HeapState.SlotTakenAllocates` | kernel/mm/heap.c:166-203 | taking a slot adds one live block and touches no other |
| `HeapState.SlotGivenReleases` | kernel/mm/heap.c:209-239 | freeing a slot removes one live block and touches no other |
| `HeapState.InitialHeap` | kernel/mm/heap.c:317-336 | the state heap_init sets up satisfies the heap invariant |
| `HeapWindow.AttemptKeeps` | kernel/mm/heap.c:102-126 | however many frames there are, an attempt to grow the window keeps the pages already mapped and the page tables well formed |
| `HeapWindow.AttemptDrains` | kernel/mm/heap.c:102-126 | an attempt that fails leaves no frame free |
| `HeapWindow.GrowthBacks` | kernel/mm/heap.c:102-126 | with a frame for each new page and each missing table every new page is mapped writable, not executable, to a data frame of its own, and the window stays so mapped |
| `HeapWindow.HeapPageRights` | kernel/mm/heap.c:117-119 | such a page can be written by the kernel, and neither executed nor reached from user mode |
| `HeapWindow.BlockIsMapped` | kernel/mm/heap.c:102-126 | every byte of a live block lies on such a page |
| `HeapWindow.LaterHeapPagesSeen` | kernel/mm/vmm.c:97-106 | a space created once slot 511 is filled sees every heap page mapped later, and agrees with the kernel on it whatever happens after that |
| `KernelHeap.SpanHoldsRequestIffNoWrap` | kernel/mm/heap.c:263 | the computed span holds header and request if and only if the 64-bit computation did not wrap, and then one page less would not |
| `KernelHeap.LargestRequestGetsOnePage` | kernel/mm/heap.c:263 | a request for 2^64-1 bytes computes one page |
| `KernelHeap.KernelHeap.constructor` | kernel/mm/heap.c:317-336 | one free span of four mapped pages with its word, no live block |
| `KernelHeap.RejectsIff` | kernel/mm/heap.c:104-108 | the test against the end of the window turns away exactly the requests that end beyond it and below 2^64 |
| `KernelHeap.KernelHeap.BackPages` | kernel/mm/heap.c:110-120 | the loop leaves the memory manager in the state of the range allocation |
| `KernelHeap.KernelHeap.MapPages` | kernel/mm/heap.c:102-126 | succeeds if and only if the window has room and the memory manager finds a frame for each page; the memory manager's state is the old one if the test turns the request away and that of the range allocation otherwise, so a failure behind the test has used up every free frame; a failure leaves the cursor and the mapped window alone; with frames to spare the grown window is mapped |
| `KernelHeap.KernelHeap.BestFit` | kernel/mm/heap.c:265-271 | walks the list to a smallest adequate free span, or to 0 if and only if none is adequate |
| `KernelHeap.KernelHeap.LargeAlloc` | kernel/mm/heap.c:261-296 | a smallest adequate span when there is one, cut to size; when there is none growth by exactly the pages needed, which succeeds if and only if the window has room and frames are found; one new live block or nothing changed, and nothing written but magic words |
| `KernelHeap.KernelHeap.GrowSpanAt` | kernel/mm/heap.c:273-280 | the branch that expands the heap: one new live block at the old cursor if and only if the heap can grow, otherwise nothing changed |
| `KernelHeap.KernelHeap.LargeFree` | kernel/mm/heap.c:298-311 | the word in front of a live block passes both tests, and exactly that block becomes free |
| `KernelHeap.KernelHeap.FindPage` | kernel/mm/heap.c:168-172 | a page of the class with a free slot, or 0 if and only if none has one |
| `KernelHeap.KernelHeap.GrowClass` | kernel/mm/heap.c:174-179 | a new page of the class with free slots, at the old cursor, if and only if the heap can grow by one page; no live block is touched |
| `KernelHeap.KernelHeap.SlabAlloc` | kernel/mm/heap.c:166-203 | one new live block of the class if and only if a page of the class has a free slot or the heap can grow by one page, otherwise nothing changed; the class grows only when all its pages are full |
| `KernelHeap.KernelHeap.SlabFree` | kernel/mm/heap.c:209-239 | by the word at the page's base handles exactly the pointers of the slab tier, and releases exactly that block |
| `KernelHeap.ClassFor` | kernel/mm/heap.c:342-346 | the smallest class that holds the request |
| `KernelHeap.KernelHeap.Kmalloc` | kernel/mm/heap.c:338-350 | a new block if and only if the size is not 0 and its class has a free slot, an adequate span is free, or the heap can grow; otherwise NULL with nothing changed; the block is the smallest slab size that holds the request up to 2048 bytes, and less than two pages larger beyond; every other live block keeps place, size and bytes |
| `KernelHeap.KernelHeap.Kzalloc` | kernel/mm/heap.c:352-357 | the same, with the requested bytes cleared |
| `KernelHeap.KernelHeap.Kfree` | kernel/mm/heap.c:359-368 | NULL changes nothing; a live pointer's own block is released in the tier its word names; every other live block keeps place, size and bytes |
| `KernelHeap.KernelHeap.Poke` | kernel/mm/heap.c:359-393 | a caller's store into its own block keeps the whole heap in order and every other block's bytes |
| `KernelHeap.TagsKeepContents` | kernel/mm/heap.c:338-393 | writing magic words changes no byte of any live block |
| `KernelHeap.KernelHeap.Krealloc` | kernel/mm/heap.c:370-393 | succeeds if and only if the block is large enough already, and then stays where it is, or kmalloc would find one; the result holds the new size and the old contents, every other live block keeps place, size and bytes, and failure changes nothing |
| `KernelHeap.CopyIsMove` | kernel/mm/heap.c:388-392 | allocate, copy and free move a block with its contents and disturb no other |
| `RamFs.ReadAfterWrite` | kernel/fs/ramfs.c:45-74 | a read of what was written returns it; elsewhere the old bytes, and zeros in the gap |
| `RamFs.ReadAnywhereAfterWrite` | kernel/fs/ramfs.c:45-74 | so byte by byte for every read, wherever it starts and however far past the end it reaches |
| `RamFs.ReadBytes` | kernel/fs/ramfs.c:45-52 | a read returns the bytes from the offset on, as many as asked or as the file has |
| `RamFs.CutBytes` | kernel/fs/ramfs.c:88-95 | a truncation that fits the buffer leaves the old bytes as far as they go and zeros behind them |
| `RamFs.File.Read` | kernel/fs/ramfs.c:45-52 | the exact slice of the contents, cut at the end of the file |
| `RamFs.ReadLengthExactIff` | kernel/fs/ramfs.c:45-52 | the length computed in 64 bits is that of the slice if and only if the sum does not wrap to inside the file |
| `RamFs.CallersStayBelow` | kernel/syscall/syscall.c:18-25 | buffers that pass uptr_ok and offsets that pass vfs_lseek keep the sums of ramfs_read and ramfs_write clear of 2^64 |
| `RamFs.File.Grow` | kernel/fs/ramfs.c:59-69 | succeeds if and only if the block has room or krealloc finds one; contents kept, the capacity the next multiple of the page size and zero-filled, and file and heap unchanged on failure |
| `RamFs.File.Write` | kernel/fs/ramfs.c:54-74 | the written sequence with zero-filled gap if and only if there is room for it, otherwise -12 with file and heap unchanged; every other heap block kept |
| `RamFs.FarWriteFails` | kernel/fs/ramfs.c:54-69 | a one-byte write 2^39 bytes out or further finds no room and is not turned away by the window test, so it fails with no frame left free |
| `RamFs.File.Truncate` | kernel/fs/ramfs.c:88-95 | the file stays consistent if and only if the new size fits the buffer, and is then the contents cut or zero-extended |
| `RamFs.TruncateUpBreaksFile` | kernel/fs/ramfs.c:88-95 | an empty file truncated to one byte has a size and no buffer |
| `RamFs.StoreWrites` | kernel/fs/ramfs.c:71-72 | a store into the buffer is a write to the byte sequence and keeps the bytes past the end zero |
| `RamFs.WriteKeepsTags` | kernel/fs/ramfs.c:54-74 | a write inside the file's buffer keeps every magic word of the heap |
| `RamFs.ReallocKeepsFile` | kernel/fs/ramfs.c:60-68 | krealloc keeps the file's bytes and everyone else's blocks |
| `RamFs.OtherFileIntact` | kernel/fs/ramfs.c:54-95 | another file on the same heap keeps its contents through all of this |
| `Scheduler.Scheduler.constructor` | kernel/sched/sched.c:160-184 | the boot task runs with a slice of 1 and the idle task is queued |
| `Scheduler.Scheduler.Add` | kernel/sched/sched.c:33-47 | the links form a ring with the task appended at the tail |
| `Scheduler.Scheduler.Remove` | kernel/sched/sched.c:49-59 | the links form the ring without exactly that task |
| `Scheduler.Scheduler.PickNext` | kernel/sched/sched.c:188-200 | the first ready task from the head on, or idle if there is none |
| `Scheduler.Scheduler.DoSwitch` | kernel/sched/sched.c:206-232 | with a task queued refines the queue switch; with none the guard stays up when idle runs, and otherwise the running task is queued and idle unlinked through null links |
| `Scheduler.Scheduler.TimerTick` | kernel/sched/sched.c:236-255 | for every ring: exactly the blocked sleepers whose wake tick has come join the tail, the slice is spent, and when it is used up the outcome is that of a switch; a completed tick refines one tick of the queue |
| `Scheduler.Scheduler.YieldNow` | kernel/sched/sched.c:259-266 | with a task queued, the first one runs with a full slice and the yielding task is last unless it is idle; with none the guard stays up or a null link is reached; a completed yield refines one yield of the queue |
| `Scheduler.ThirdYieldFaults` | kernel/sched/sched.c:160-266 | from what sched_init sets up, the third yield reaches the null link |
| `Scheduler.Scheduler.EnqueueTask` | kernel/sched/sched.c:146-149 | appends the task at the tail |
| `Scheduler.Scheduler.Unblock` | kernel/sched/sched.c:294-298 | appends the task exactly when it was blocked, and changes no other |
| `Scheduler.Scheduler.CheckSleepers` | kernel/sched/sched.c:300-310 | every blocked and due task, however often listed, joins the ring exactly once and loses exactly one entry; nothing due stays; nothing else changes |
| `Scheduler.SwapRemoveCounts` | kernel/sched/sched.c:304-307 | moving the last entry into the scanned slot removes exactly one occurrence and keeps the scanned prefix |
| `RoundRobin.StepAdvances` | kernel/sched/sched.c:206-266 | each event runs the task at position k or brings it closer by the tick that passed or the rest of the slice that a yield gives up |
| `RoundRobin.RoundRobinBound` | kernel/sched/sched.c:188-266 | in every run the task at queue position k is running within 20*(k+1) ticks and yields together |
| `RoundRobin.YieldsReach` | kernel/sched/sched.c:259-266 | and within k+1 yields, whatever happens between them |
| `RoundRobin.RunsIffSwitched` | kernel/sched/sched.c:206-266 | the task at position k gets to run in a run if and only if more than k switches happen in it |
| `RoundRobin.YieldMaySaveOneTick` | kernel/sched/sched.c:236-266 | 19 ticks, a yield and 19 ticks, and the second in the queue has not run |
| `RoundRobin.RunsItsSlice` | kernel/sched/sched.c:236-255 | without a yield the running task keeps running until its slice is spent, and the queue only grows at its tail |
| `RoundRobin.RunKeepsTasks` | kernel/sched/sched.c:188-266 | with two runnable tasks every run keeps all tasks, each exactly once, the current one outside the queue, and always has a next one |
| `Line.StepKeepsTrack` | kernel/drivers/gpu/gfx.c:130-136 | one round stays within half a pixel and inside the box and advances one step along the longer axis |
| `Line.ArrivesExactly` | kernel/drivers/gpu/gfx.c:132 | both coordinates arrive exactly after as many steps as the longer extent |
| `Line.DrawLine` | kernel/drivers/gpu/gfx.c:121-137 | in C ints, for every line on which they do not overflow: terminates with max(dx, dy)+1 pixels from the first endpoint to the last, inside the box, 8-connected, each within half a pixel of the ideal line |
| `Line.NeverOverflowsIff` | kernel/drivers/gpu/gfx.c:121-137 | no sum of any round leaves the int range if and only if the extents meet explicit bounds in terms of their gcd, for flat and for steep lines |
| `Line.EveryMultipleComesUp` | kernel/drivers/gpu/gfx.c:130-136 | on a flat line every multiple of the gcd of the extents within half the longer one is the deviation after some round |
| `Line.OffBetween` | kernel/drivers/gpu/gfx.c:130-136 | and every deviation is such a multiple |
| `Line.Mirrored` | kernel/drivers/gpu/gfx.c:130-136 | a steep line takes the mirror image of the flat line's steps, ties included |
| `Line.UniformLimit` | kernel/drivers/gpu/gfx.c:121-137 | all lines with both extents up to n are free of overflow if and only if n is at most 715827883 |
| `Line.LimitIsSharp` | kernel/drivers/gpu/gfx.c:133 | a line one pixel longer than the limit that rises by one overflows the int half way |
| `Checksum.FoldIsResidue` | kernel/drivers/net/ipv4.c:18 | folding terminates with the residue modulo 65535, 65535 standing for 0 of a positive sum |
| `Checksum.Compute` | kernel/drivers/net/ipv4.c:12-20 | the complement of the folded sum of the 16-bit words, odd byte included, whenever the 32-bit sum does not overflow |
| `Checksum.SumFits` | kernel/drivers/net/ipv4.c:15-17 | the sum cannot overflow up to 131074 bytes |
| `Checksum.VerifiesIff` | kernel/drivers/net/ipv4.c:12-20 | a buffer verifies to 0 if and only if its sum is a positive multiple of 65535 |
| `Checksum.StoredChecksumVerifies` | kernel/drivers/net/ipv4.c:70-73 | storing the checksum into its zeroed even-offset field makes any buffer verify (section 1 of RFC 1071) |
| `Checksum.WordChangeNoticedIff` | kernel/drivers/net/ipv4.c:36-39 | in a verifying buffer a changed word is noticed if and only if it differs modulo 65535 or nothing else is left |
| `Checksum.ByteOrderDoesNotMatter` | kernel/drivers/net/ipv4.c:12-20 | little-endian loads give the stored bytes of the big-endian definition, odd lengths included (section 2(B) of RFC 1071) |
| `Checksum.IcmpReply` | kernel/drivers/net/icmp.c:9-43 | an echo reply exactly for a valid echo request; it passes the receiver's own check and differs only in type and checksum |
| `Checksum.Header` | kernel/drivers/net/ipv4.c:62-72 | the fields decode in network byte order to what was put in (section 3.1 of RFC 791) |
| `Checksum.BuildPacket` | kernel/drivers/net/ipv4.c:55-75 | the payload behind a header that verifies and decodes to the given fields, the total length cut to 16 bits |
| `Checksum.SentIsReceivedIff` | kernel/drivers/net/ipv4.c:31-88 | the receiver takes a packet built this way if and only if its length modulo 256 is at least 20, and computes its payload length if and only if the packet fits 16 bits |
| `Checksum.PacketOf256IsDropped` | kernel/drivers/net/ipv4.c:31-75 | a packet of 256 bytes is built, verifies, and is not taken by the receiver |
| `NvmeQueue.StartIsValid` | kernel/drivers/storage/nvme.c:338-340 | the zeroed ring with head 0 and expected phase 1 satisfies the invariant |
| `NvmeQueue.PollFindsOldest` | kernel/drivers/storage/nvme.c:141-143 | the phase test hits if and only if a completion is waiting, and reads the oldest one waiting |
| `NvmeQueue.PollKeepsValid` | kernel/drivers/storage/nvme.c:142-147 | a poll takes exactly one completion if one waits and none otherwise; head and expected phase follow the count of completions taken |
| `NvmeQueue.TakenInOrder` | kernel/drivers/storage/nvme.c:139-155 | over every interleaving and any number of wraps the driver has taken a prefix of exactly what the device sent |
| `NvmeQueue.WaitTakesOldest` | kernel/drivers/storage/nvme.c:168-182 | a wait takes at most one completion, the oldest, and times out only when none is waiting |
| `NvmeQueue.OwnStatusWithoutBacklog` | kernel/drivers/storage/nvme.c:162-182 | while nothing is outstanding, the returned status is that of the command just submitted, on any device that completes each command at most once |
| `NvmeQueue.OwnStatusUntilTimeout` | kernel/drivers/storage/nvme.c:162-182 | over every run of calls that are all answered in time, the i-th call takes the completion of the i-th command |
| `NvmeQueue.OwnStatusFromStart` | kernel/drivers/storage/nvme.c:338-371 | in particular from the state nvme_init sets up |
| `NvmeQueue.OutcomeIsOldest` | kernel/drivers/storage/nvme.c:168-182 | 0 is returned if and only if a completion came in time and the oldest one waiting has low status byte 0, otherwise -1 |
| `NvmeQueue.ReturnsOwnStatus` | kernel/drivers/storage/nvme.c:162-182 | with nothing outstanding and an honest device, an answered call returns 0 if and only if the device completed this very command with low status byte 0 |
| `NvmeQueue.ReturnsUntilTimeout` | kernel/drivers/storage/nvme.c:162-182 | over every run of answered calls the i-th one returns 0 if and only if the device completed the i-th command so |
| `NvmeQueue.OwnStatusIffNoBacklog` | kernel/drivers/storage/nvme.c:162-182 | on a device that completes in order it is so if and only if nothing was outstanding |
| `NvmeQueue.BacklogNeverShrinks` | kernel/drivers/storage/nvme.c:162-182 | no run of calls reduces the number of outstanding commands |
| `NvmeQueue.StaleForeverAfterTimeout` | kernel/drivers/storage/nvme.c:162-182 | after one timeout on such a device every later status belongs to an earlier command |
| `NvmeQueue.TimeoutThenStale` | kernel/drivers/storage/nvme.c:168-182 | two million silent polls, and the next call returns the status of the command before it |
| `NvmeQueue.QueuePair.constructor` | kernel/drivers/storage/nvme.c:370-371 | head and tail 0, expected phase 1, a zeroed ring |
| `NvmeQueue.QueuePair.SubmitAndWait` | kernel/drivers/storage/nvme.c:133-182 | the command goes to the tail slot, the tail wraps, the queue ends as the wait defines, and 0 is returned exactly if a completion was posted behind those taken before and the first of these has low status byte 0, otherwise -1 |
| `Keyboard.KeyDroppedIffFull` | kernel/drivers/keyboard.c:68-72 | a character is stored behind all waiting ones, and dropped if and only if 255 are waiting |
| `Keyboard.StepKeepsInv` | kernel/drivers/keyboard.c:68-116 | every step of handler or reader keeps: blocked tasks are exactly the registered ones, none while a character waits, the ring is the FIFO of undelivered characters |
| `Keyboard.NoLostWakeup` | kernel/drivers/keyboard.c:99-116 | over every interleaving with one task in keyboard_poll at a time and at most eight waiting, a blocked reader is registered and the ring is empty, and readers got a prefix of what was stored |
| `Keyboard.EightReadersNeverLost` | kernel/drivers/keyboard.c:49-116 | the same for any at most eight tasks, with nothing asked of the waiters: only one task in keyboard_poll at a time |
| `Keyboard.NinthReaderStranded` | kernel/drivers/keyboard.c:74-113 | for any more than eight tasks some exclusive run from the start leaves a reader that no later event ever wakes |
| `Keyboard.KeysWakeEveryoneIff` | kernel/drivers/keyboard.c:49-116 | every key wakes every blocked reader, after every exclusive run, if and only if there are at most eight readers |
| `Keyboard.UnregisteredSleepsForever` | kernel/drivers/keyboard.c:74-113 | a reader blocked without registration stays blocked in every run |
| `Keyboard.SecondPollerRepeats` | kernel/drivers/keyboard.c:91-97 | whenever a second task enters keyboard_poll while one is inside, some schedule delivers one character twice |
| `Keyboard.TwoPollersFromStart` | kernel/drivers/keyboard.c:91-102 | from the start: any two of the tasks and one key, and both get that character |
| `Keyboard.PrefixIffOneReader` | kernel/drivers/keyboard.c:91-116 | every run from the start delivers a prefix of what was stored if and only if there is at most one reader |
| `Keyboard.Device.WakeAll` | kernel/drivers/keyboard.c:74-81 | the loop wakes exactly the registered tasks and empties the list |
| `Keyboard.Device.HandleKey` | kernel/drivers/keyboard.c:68-81 | the handler's loop yields the state of the atomic interrupt step |
| `Keyboard.Device.Poll` | kernel/drivers/keyboard.c:91-97 | no character if and only if none waits, otherwise the oldest one, removed |

## Left out

- MemoryManager.Mm.FreePageRange: covers pages that are unmapped or backed by data frames of their own, which Ownership.ConservedReleasable gives for owned pages; the source would also free a frame mapped some other way.
- UserMemory.SysMunmap: the same restriction on the pages of the range, and a current task is assumed.
- MemoryManager.Mm.InitKernel: the NXE and CR3 writes are not modelled.
- FrameAllocator.PhysicalFrames.Init: assumes that the kernel image ends inside the range the bitmap covers; past it the source would write outside the bitmap.
- AddressSpaces.RightsInEveryRun: runs that map lower-half process pages for user mode only; without that it is false, as AddressSpaces.UserPageBesideKernelPage shows, and AddressSpaces.EffectiveIffMidsAllow is the exact condition.
- Ownership.RunsConserveIff: runs that back and free lower-half process pages and heap pages, and map kernel pages outside the heap window; calls on other pages are the subject of UserMemory.MmapHarmlessIffBelow.
- ElfLoader.MapSegmentInto: segments in the lower half whose sums do not wrap; header validation, the user stack and the null-return word of elf_load are not modelled (the latter adds the page offset twice).
- ElfLoader.LoadInto: the same restriction on its headers.
- KernelHeap.KernelHeap.constructor: assumes that heap_init gets its four pages, which the source does not check.
- KernelHeap.KernelHeap.LargeAlloc: sizes whose rounding does not wrap; KernelHeap.SpanHoldsRequestIffNoWrap says which those are.
- KernelHeap.KernelHeap.Kmalloc: the same restriction on sizes.
- KernelHeap.KernelHeap.Kzalloc: the same restriction on sizes.
- KernelHeap.KernelHeap.Krealloc: the same restriction on sizes.
- KernelHeap.KernelHeap.Kfree: live pointers and NULL only; what the double-free and bad-magic branches print is not modelled.
- KernelHeap.KernelHeap.LargeFree: live pointers of the large tier only.
- KernelHeap.KernelHeap.SlabFree: live pointers only. The magic words are bytes in memory; the other header fields and the bitmaps are typed maps beside it.
- RamFs.File.Read: sums of offset and length below 2^64, which RamFs.CallersStayBelow establishes.
- RamFs.File.Grow: ends two pages below 2^64, by the same lemma.
- RamFs.File.Write: the same; RamFs keeps one file per object, and directories are not modelled.
- Scheduler.Scheduler.Remove: tasks that are in the ring; for others the source stores through null links.
- Scheduler.Scheduler.EnqueueTask: tasks that are neither queued nor running, as sched_create_task passes them.
- Scheduler.Scheduler.DoSwitch: the choice of sched_pick_next; register and stack switching are not modelled.
- Line.DrawLine: lines on which the C arithmetic is defined, which Line.NeverOverflowsIff says exactly; clipping is done by the framebuffer, which is not part of this model.
- Checksum.IcmpReply: messages up to 131074 bytes, where the 32-bit sum is exact; allocation failure of the reply is not modelled.
- Checksum.BuildPacket: ARP resolution, the identification counter and the link layer are not modelled.
- NvmeQueue.QueuePair.SubmitAndWait: the device is the environment, given as what it posts before each poll; it never overruns the completion ring. Doorbells and the contents of commands are not modelled.
- Keyboard.NoLostWakeup: blocking and waking are atomic changes of a task's position, as interrupts are off there; scancode decoding and a null current task are not modelled.
- Blocking and exiting the running task (sched_block, sched_exit): they unlink a task that is not in the ring.
- VFS path resolution and descriptors: a different component, resting on a strncmp that departs from the C standard.
- proc_waitpid and proc_exit, ARP, block devices, PCI, timers, TLB invalidation and all assembly: hardware or plumbing.
- Shell, console, printf, fonts and registration tables: they would only add easy members.
