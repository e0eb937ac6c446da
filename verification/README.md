# Realm kernel: verification

A Dafny model of the small kernel that runs inside an Arm CCA realm, and of the part of its
virtual machine monitor that it talks to, with proofs of what they promise.

The kernel builds its AArch64 page tables by hand, hands out frames from a byte map, keeps
sorted lists of regions, and runs a heap of chunks with headers. It relocates itself twice,
lays out the stack of a new process, and calls the monitor by sending the address of an
argument block, byte by byte, through a UART register. The proofs compose: a frame that the
allocator hands out is the frame a page walks to, which no other page shares and no table
occupies, in a region that the list keeps in order, for every run of requests that a process
can make from the tables it was created with; and a program that is loaded into those pages
finds its arguments, its environment and, at their addresses, its segments that start at a page,
through its own page tables.

Each operation is specified by a pure step function on the state, or directly by what it
leaves behind. The code itself is modelled as the source writes it, as methods that update
memory, arrays, linked nodes and fields in place, and proved against that specification. The
main results are lemmas about the steps and about whole runs of them.

| file | what it models |
|---|---|
| Arithmetic.dfy, Bits.dfy, Wrappers.dfy | division facts; 64-bit words and the inclusive or; optional values |
| FrameAllocator.dfy, FrameRuns.dfy | the frame allocator of vma.c, and its runs |
| Descriptors.dfy, PageTables.dfy, PageMap.dfy | descriptors of defines.h, the hardware walk, `page_table_map` and its wrappers |
| LinearMap.dfy | `normal_map_kernel_4KB` |
| Regions.dfy | region lists of vma.c, and the regions that main.c sets up |
| Mmap.dfy, MmapInPlace.dfy | `generic_mmap` and `sys_mmap_user` over frames, tables and regions |
| UserTables.dfy | `create_user_translation_table` and the first `kernel_vma_alloc` |
| Heap.dfy, HeapInPlace.dfy | `_malloc`, `_free` and `split` of heap.c on the list, as chunks and in the bytes of memory |
| HeapGrowth.dfy, GrowthInPlace.dfy | `_malloc` with growth, `kcalloc` and `scalloc`, likewise |
| TransferBuffer.dfy | the buffers of `sys_read` and `sys_write` of syscall.c |
| ByteMemory.dfy | bytes and words, and `memset` of memops.c |
| ProcessStack.dfy, NewProcess.dfy | `create_new_process` of execve.c, `strlen` and `strcpy` of string.c |
| ProcessMemory.dfy, Loader.dfy | memory as a process sees it, and `load_executable` of execve.c |
| Relocation.dfy | `relocate_kernel` and `shift_to_va` of start.c |
| UartChannel.dfy, Hypercall.dfy | `uart_syscall_write`, `io_hypercall`, and the write path and `handle_hypercall` of main.rs |
| HostTransfer.dfy | `hypercall_write` and `hypercall_read` of main.rs |
| SharedBreak.dfy | `shared_brk` and `shared_sbrk` |

`dafny verify dfyconfig.toml` checks all of it.

Where the code departs from its intent the model follows the code. A theorem says exactly when
it does what it should, unless said otherwise here, and most are joined by an input for which it
does not:

- The second-level entry is read at one index and written at another beyond the first gigabyte
  from the start of a mapping (`PageMap.MapHitsIffFirstGigabyte`, `PageMap.LinkedMapHitsIff`,
  `PageMap.NextGigabyteIsLost`).
- Last-level tables are counted without a bound: behind the window of the tables a call stores
  into another frame (`PageMap.StoresWhere`, `PageMap.BeyondTables`, `PageMap.FifthTableIsNone`).
- A range request that finds no run can answer with the start of a run that is too short
  (`FrameRuns.RangeIsExact`, `FrameRuns.RangeTrustedIff`, `UserTables.AcceptedIff`,
  `FrameRuns.ShortRunIsHandedOut`).
- Freeing a frame twice, or the address after the last frame, makes the counter wrong
  (`FrameRuns.FreeConservesIff`, `FrameRuns.DoubleFreeMiscounts`).
- A region that runs over the end of the address space can be put in the wrong place
  (`Regions.InsertSortedIff`, `Regions.WrappingRegionBreaksOrder`); a disjoint region can be
  refused (`Regions.InsertDisjoint`).
- A fixed request in a gap between regions, or inside the first, takes the address of a region's
  structure for its own and crashes the kernel; one that overlaps another region and ends behind
  the last replaces mapped pages (`Regions.SearchMissedIff`, `Mmap.FixedOutcome`,
  `Mmap.GapCrashes`, `Mmap.OverlapReplaces`).
- The tables of a further process replace those of the first in the kernel's address space
  (`UserTables.CreateMore`, `UserTables.CreateProcesses`).
- Freeing a heap block makes it available only behind a free chunk (`Heap.FreedBytes`). In the
  list as `heap_init` leaves it that never happens, so that the list is spent once
  (`Heap.ListIsSpentOnce`, `Heap.FirstFreeSpendsList`). A stale address field hides a block
  behind a free chunk (`Heap.PayloadFoundIff`, `Heap.StaleAddressHidesBlock`), which for the
  same reason no run from `heap_init` leads to.
- Growth puts the new chunk at the new break instead of the old one: chunks overlap when requests
  get smaller (`HeapGrowth.GrownMeetIff`, `HeapGrowth.AllApartIff`,
  `HeapGrowth.SmallerMeetsLarger`), the last one needs room twice (`HeapGrowth.ServeKeeps`), and
  every hypercall costs 88 bytes for ever (`HeapGrowth.HypercallsServedIff`).
- The first grown chunks lie in the initial 20 KB (`HeapGrowth.MeetsArenaIff`). Their headers can
  take over a chunk of the list, or tear a header so that no list is left
  (`HeapGrowth.RewrittenSameIff`, `GrowthInPlace.HeapLeftIff`, `HeapGrowth.GrowthTakesLiveBlock`);
  their zeros can reach into live payloads (`GrowthInPlace.ListPayloadHitIff`,
  `GrowthInPlace.GrownPayloadHitIff`). Once the list is spent, as that of the shared heap is
  from booting on, or the break is behind it, no header of it is met any more
  (`HeapGrowth.RunStaysPast`).
- The argument block of a hypercall is therefore put into the buffer that was allocated before it:
  longer writes do not arrive, and longer reads come back with eight bytes changed
  (`TransferBuffer.WriteArrivesIff`, `TransferBuffer.ReadArrivesIff`).
- A null environment counts as -22 strings, and the strings of a new process start that many
  words too low (`NewProcess.NullEnvironment`, `NewProcess.LongArgumentIsLost`). The layout is
  intact exactly if the bytes agree where they meet. If strings reach into the pointers,
  reading through other pointers could still give the same bytes by chance; no converse is
  claimed for that.
- Only the first page of a segment gets its protection, its bytes are put at the start of that
  page, and its size is rounded without its offset there (`Loader.ProtectionIff`,
  `Loader.AtVaddrIff`, `Loader.AtVaddrCleanIff`, `Loader.AllMappedIff`,
  `Loader.TwoPagesGoWrong`).
- The second relocation shifts slots that the first has not written
  (`Relocation.TwoStepsAreOneIff`, `Relocation.UnhandledSlotIsShifted`).
- Closing and exiting use the wrong argument word (`UartChannel.AgreeIff`,
  `UartChannel.ExitReasonIsLost`).
- The transfer loops of the host do not end if nothing more comes while bytes are missing
  (`HostTransfer.WriteEndsIff`, `HostTransfer.ReadEndsIff`, `HostTransfer.ShortFileNeverEnds`).
- The shared break can leave a heap in the lower half of the address space, or a very large one
  (`SharedBreak.BreakStaysInsideIff`, `SharedBreak.LowBaseEscapes`,
  `SharedBreak.LargeHeapEscapes`).

Requirements of the hardware walk are those of section D8.3 of the Arm Architecture Reference
Manual (DDI 0487); relocation types are those of ELF for the Arm 64-bit Architecture (AAELF64).

## Model

| member | source | states |
|---|---|---|
| FrameAllocator.FindRun | shdir/arm-cca-kvm-realm-vm/src/kernel/vma.c:422-433 | the answer is the lowest start of `n` free frames, and none exactly when there is no such run |
| FrameAllocator.RunsEndingAt | shdir/arm-cca-kvm-realm-vm/src/kernel/vma.c:421-433 | counting free frames in a row finds every run: one of `n` ends at a frame exactly when the free frames below it reach back `n` |
| FrameAllocator.SearchStep | shdir/arm-cca-kvm-realm-vm/src/kernel/vma.c:421-433 | the counting search may stop at the first count of `n`, and is then at the lowest run |
| FrameAllocator.MarkRunCount | shdir/arm-cca-kvm-realm-vm/src/kernel/vma.c:434-439 | marking a free run lowers the number of free frames by its length |
| FrameAllocator.InitConserves | shdir/arm-cca-kvm-realm-vm/src/kernel/vma.c:332-347 | after initialisation the counter equals the number of free bytes below the frame count |
| FrameAllocator.Allocator.constructor | shdir/arm-cca-kvm-realm-vm/src/kernel/vma.c:332-347 | a map with every frame free and a true counter |
| FrameAllocator.Allocator.MarkUsed | shdir/arm-cca-kvm-realm-vm/src/kernel/vma.c:434-439 | the loop marks exactly the run and counts it down |
| FrameAllocator.Allocator.AllocateSingleFrame | shdir/arm-cca-kvm-realm-vm/src/kernel/vma.c:349-366 | takes the lowest free frame; answers 0 or the error value without a change |
| FrameAllocator.Allocator.AllocateFixed | shdir/arm-cca-kvm-realm-vm/src/kernel/vma.c:383-411 | takes exactly the asked frames if all are free and in range, else changes nothing |
| FrameAllocator.Allocator.SearchRun | shdir/arm-cca-kvm-realm-vm/src/kernel/vma.c:421-433 | the loop with its two counters computes the lowest run, or the free frames at the end of the map |
| FrameAllocator.Allocator.AllocateRange | shdir/arm-cca-kvm-realm-vm/src/kernel/vma.c:413-442 | refines the specification step that the lemmas below are about |
| FrameRuns.RangeIsExact | shdir/arm-cca-kvm-realm-vm/src/kernel/vma.c:413-442 | with a free run, the lowest one is returned and exactly its frames become used; without one nothing is marked, and the answer is the error value exactly when too few frames are left or the last one is in use |
| FrameRuns.OneFrameIsExact | shdir/arm-cca-kvm-realm-vm/src/kernel/vma.c:413-442 | a request for one frame fails exactly when none is free |
| FrameRuns.FixedIsExact | shdir/arm-cca-kvm-realm-vm/src/kernel/vma.c:383-411 | a fixed request gets its address exactly when its frames are in range and all free, and then exactly their bytes become used and the counter drops by them; otherwise it gets the error value and nothing changes |
| FrameRuns.SingleIsExact | shdir/arm-cca-kvm-realm-vm/src/kernel/vma.c:349-366 | a single request gets the lowest free frame, zero if the counter is zero, the error value if no frame is free all the same |
| FrameRuns.FreeIsExact | shdir/arm-cca-kvm-realm-vm/src/kernel/vma.c:368-381 | which byte freeing sets and what it does to the counter, and for which addresses it does nothing |
| FrameRuns.RangeElse | shdir/arm-cca-kvm-realm-vm/src/kernel/vma.c:413-442 | without a run the answer is where the free frames at the end of the map start, or the error value if there are none |
| FrameRuns.RangeOfNone | shdir/arm-cca-kvm-realm-vm/src/kernel/vma.c:413-442 | a range of no frames succeeds exactly when there are frames and all are free |
| FrameRuns.InitIsExact | shdir/arm-cca-kvm-realm-vm/src/kernel/vma.c:332-347 | after initialisation there are as many frames as fit the size, the counter says so, and every byte is free |
| FrameRuns.FreeConservesIff | shdir/arm-cca-kvm-realm-vm/src/kernel/vma.c:368-381 | freeing keeps the counter true exactly when it does nothing or frees a frame in use |
| FrameRuns.DoubleFreeMiscounts | shdir/arm-cca-kvm-realm-vm/src/kernel/vma.c:368-381 | a frame that is freed while it is free, and the address one past the end, for which it does not |
| FrameRuns.RangeTrustedIff | shdir/arm-cca-kvm-realm-vm/src/kernel/vma.c:413-442 | the frames callers believe they hold are the used ones after a range request, exactly when a run was found, the request was refused, or the map ends in a used frame |
| FrameRuns.ShortRunIsHandedOut | shdir/arm-cca-kvm-realm-vm/src/kernel/vma.c:413-442 | a map of three frames, the middle one in use, whose last one is handed out for a request of two |
| FrameRuns.FixedMatches | shdir/arm-cca-kvm-realm-vm/src/kernel/vma.c:383-411 | a fixed allocation hands out only free frames, and a failed one changes nothing |
| FrameRuns.StepMatches | shdir/arm-cca-kvm-realm-vm/src/kernel/vma.c:349-442 | each call keeps the counter true and live allocations disjoint and in range |
| FrameRuns.RunConserves | shdir/arm-cca-kvm-realm-vm/src/kernel/vma.c:332-442 | over any run of calls the counter equals the number of free bytes, and the frames held are the used ones, each held once |
| FrameRuns.RunFromInit | shdir/arm-cca-kvm-realm-vm/src/kernel/vma.c:332-442 | the same from initialisation on |
| Descriptors.PageDigits | shdir/arm-cca-kvm-realm-vm/src/kernel/defines.h:60-75 | the four table indices are the digits of the page number in base 512 |
| Descriptors.ViewsAgree | shdir/arm-cca-kvm-realm-vm/src/kernel/defines.h:209-223 | field view and register view of a descriptor hold the same bits |
| Descriptors.PermBits | shdir/arm-cca-kvm-realm-vm/src/kernel/vma.c:51-60 | a protection gives the read-only bit exactly for readable without writable; the execute-never bit does not survive in the `int` |
| Descriptors.DeviceFlags | shdir/arm-cca-kvm-realm-vm/src/kernel/vma.c:1004-1011 | the execute-never bit that the device wrapper adds is lost in the same way |
| Descriptors.LeafDecodes | shdir/arm-cca-kvm-realm-vm/src/kernel/vma.c:973-983 | the hardware reads from the stored word the asked frame and attributes, execute-never exactly for devices |
| Descriptors.DecodeRegister | shdir/arm-cca-kvm-realm-vm/src/kernel/defines.h:209-223 | which bits of the register the hardware takes for page, access, memory type, shareability and execution, of any word |
| PageTables.WindowIndices | shdir/arm-cca-kvm-realm-vm/src/kernel/defines.h:60-75 | a page is in the window of the last-level tables exactly when its upper indices are the window's |
| PageTables.WalkIsLookup | shdir/arm-cca-kvm-realm-vm/src/kernel/vma.c:910-986 | under the link invariant the four-level walk, table attributes included, is one lookup in the last-level words |
| PageTables.BelowIs | shdir/arm-cca-kvm-realm-vm/src/kernel/defines.h:209-223 | bits 60 to 62 of a link take execution, access from EL0 and writing from what lies below it |
| PageTables.WalkEndsEarly | shdir/arm-cca-kvm-realm-vm/src/kernel/defines.h:209-223 | where a link is missing the walk faults, and a block in place of a table gives its page |
| PageTables.MapIndices | shdir/arm-cca-kvm-realm-vm/src/kernel/vma.c:928-970 | the divided distance from the start agrees with the bit fields of the address that the hardware uses |
| PageTables.MapAtEdits | shdir/arm-cca-kvm-realm-vm/src/kernel/vma.c:937-983 | the four stores link what is not linked and set one last-level word |
| PageTables.EditKeepsShape | shdir/arm-cca-kvm-realm-vm/src/kernel/vma.c:937-983 | a call keeps the link invariant: valid second-level entry `k`, counted from the start, points at last-level table `k`, and no link carries attributes that restrict what lies below it |
| PageMap.MapPageRefines | shdir/arm-cca-kvm-realm-vm/src/kernel/vma.c:910-986 | one call is one update of the map from pages to frames and attributes; every other page translates as before and no word outside the tables changes |
| PageMap.RunRefinesMap | shdir/arm-cca-kvm-realm-vm/src/kernel/vma.c:910-986 | over any sequence of calls the walk is the lookup in the map of requests |
| PageMap.MapHitsIffFirstGigabyte | shdir/arm-cca-kvm-realm-vm/src/kernel/vma.c:961-971 | an unlinked page translates after the call exactly when it lies in the first gigabyte from the start: beyond it the entry is written elsewhere than it is read |
| PageMap.LinkedMapHitsIff | shdir/arm-cca-kvm-realm-vm/src/kernel/vma.c:964-983 | a page whose second-level entry is linked already translates as asked exactly when the link leads to the table that the distance from the start counts, or the word that is read there has asked for the same before |
| PageMap.CrashesIff | shdir/arm-cca-kvm-realm-vm/src/kernel/vma.c:928-935 | a call crashes exactly for addresses 512 GB or more from the start, counted in 64 bits |
| PageMap.NextGigabyteIsLost | shdir/arm-cca-kvm-realm-vm/src/kernel/vma.c:961-971 | the kernel's tables, and an address one gigabyte above their start that does not translate after a call that reports no error |
| PageMap.StoresWhere | shdir/arm-cca-kvm-realm-vm/src/kernel/vma.c:928-983 | which words a call stores, whatever memory and address within 512 GB of the start, and that its last-level word is in one of the `n` tables exactly when the address is in their window |
| PageMap.BeyondTables | shdir/arm-cca-kvm-realm-vm/src/kernel/vma.c:928-983 | an unlinked page behind that window, in the first gigabyte, translates as asked through a frame that is no table of the process, without an error |
| PageMap.FifthTableIsNone | shdir/arm-cca-kvm-realm-vm/src/kernel/vma.c:928-983 | the first address behind the four last-level tables of a process, which does so through the frame behind them |
| PageMap.PhysicalAddressIs | shdir/arm-cca-kvm-realm-vm/src/kernel/vma.c:1243-1262 | the packed register with the page offset put back is frame and offset, or the bare offset on a fault |
| PageMap.FaultGivesOffset | shdir/arm-cca-kvm-realm-vm/src/kernel/vma.c:1243-1262 | of any register that reports a fault only the page offset comes back |
| PageMap.MappedAddressReadsBack | shdir/arm-cca-kvm-realm-vm/src/kernel/vma.c:1243-1262 | after mapping a kernel page, each of its addresses reads back as the same offset in the physical page |
| PageMap.PhysicalMemory.PageTableMap | shdir/arm-cca-kvm-realm-vm/src/kernel/vma.c:910-986 | the code in place does what the specification step says |
| PageMap.PhysicalMemory.PageTableMapUser | shdir/arm-cca-kvm-realm-vm/src/kernel/vma.c:988-994 | for any address and protection the four stores of the specification step; in the window the page is then open to EL0, read-only exactly for readable without writable, normal memory, and all other pages as before |
| PageMap.PhysicalMemory.PageTableMapKernel | shdir/arm-cca-kvm-realm-vm/src/kernel/vma.c:996-1002 | the same, closed to EL0 |
| PageMap.PhysicalMemory.PageTableMapDevice | shdir/arm-cca-kvm-realm-vm/src/kernel/vma.c:1004-1011 | device memory, closed to EL0, never executable |
| LinearMap.NextEntryIs | shdir/arm-cca-kvm-realm-vm/src/kernel/vma.c:168-183 | carrying the entry from page to page and or-ing flags in again always gives the kernel entry of the page |
| LinearMap.BuiltHasShape | shdir/arm-cca-kvm-realm-vm/src/kernel/vma.c:115-184 | the built tables satisfy the link invariant that `page_table_map` relies on |
| LinearMap.BuiltIsLinear | shdir/arm-cca-kvm-realm-vm/src/kernel/vma.c:115-184 | page `i` of the start walks to page `i` of memory and every other address faults, in spite of the two surplus links |
| LinearMap.EqualStartsAreIdentity | shdir/arm-cca-kvm-realm-vm/src/kernel/vma.c:115-184 | with equal starts every mapped address translates to itself |
| LinearMap.ConnectTables | shdir/arm-cca-kvm-realm-vm/src/kernel/vma.c:134-160 | the loop makes two links more than the memory needs, all numbered from the start |
| LinearMap.MapPages | shdir/arm-cca-kvm-realm-vm/src/kernel/vma.c:163-184 | the loop fills the last-level words in order across tables |
| LinearMap.NormalMapKernel | shdir/arm-cca-kvm-realm-vm/src/kernel/vma.c:115-184 | on zeroed tables: exactly the linear map, the link invariant, and nothing changed outside the tables |
| Regions.PlaceCases | shdir/arm-cca-kvm-realm-vm/src/kernel/vma.c:566-610 | where the walk stops: in front of a higher node, in a gap, behind the last node, or nowhere |
| Regions.InsertSortedIff | shdir/arm-cca-kvm-realm-vm/src/kernel/vma.c:566-610 | for every input, a sorted list stays sorted exactly unless the end of the region, or of the last node, has wrapped around so that the walk takes a wrong place for the right one |
| Regions.InsertKeepsSorted | shdir/arm-cca-kvm-realm-vm/src/kernel/vma.c:566-610 | so it stays sorted whenever no region runs over the end of the address space, overlapping or not |
| Regions.WrappingRegionBreaksOrder | shdir/arm-cca-kvm-realm-vm/src/kernel/vma.c:566-610 | an input for which it does not |
| Regions.InsertDisjoint | shdir/arm-cca-kvm-realm-vm/src/kernel/vma.c:566-610 | a non-empty region disjoint from an ordered list is added and nothing else changes, or the list is unchanged, the latter exactly when it touches the last of several nodes from below or lies below a sole node |
| Regions.InsertCases | shdir/arm-cca-kvm-realm-vm/src/kernel/vma.c:566-610 | what any insertion leaves: the region in front of a higher node, in a gap, or behind the last, or the list as it was if the walk passes all and the last ends above the base |
| Regions.InsertAllAscending | shdir/arm-cca-kvm-realm-vm/src/kernel/main.c:87-148 | inserting regions that are in order keeps all of them, in order |
| Regions.SearchMissesAbove | shdir/arm-cca-kvm-realm-vm/src/kernel/vma.c:538-564 | a fixed request at or above the end of every region finds none |
| Regions.SearchMissesIff | shdir/arm-cca-kvm-realm-vm/src/kernel/vma.c:538-564 | a fixed request overlaps no region and finds none exactly when it is at or above the end of the last region |
| Regions.SearchMissedIff | shdir/arm-cca-kvm-realm-vm/src/kernel/vma.c:538-564 | every fixed request finds none exactly when it ends behind the last region and starts behind it too, below the first, or inside another than the first |
| Regions.SearchFixedIs | shdir/arm-cca-kvm-realm-vm/src/kernel/vma.c:538-564 | which node the fixed search of any list answers with: the first, the first before a gap with the address, the last, or none |
| Regions.MmapRegionInsert | shdir/arm-cca-kvm-realm-vm/src/kernel/vma.c:566-610 | the pointer walk over the linked list does what the specification on the list of regions says |
| Regions.SectionsAscend | shdir/arm-cca-kvm-realm-vm/src/kernel/main.c:87-120 | the page ranges of the sections, moved to kernel addresses, ascend |
| Regions.KernelRegionsAre | shdir/arm-cca-kvm-realm-vm/src/kernel/main.c:113-144 | the bases and sizes of all regions: sections from page to page at their kernel addresses, the heap up to the mmap area, the area, and as much again for devices |
| Regions.InsertRegions | shdir/arm-cca-kvm-realm-vm/src/kernel/main.c:113-122 | the loop inserts one region after the other, and stops exactly when the kernel heap has no node left |
| Regions.KernelVmaRegionsAlloc | shdir/arm-cca-kvm-realm-vm/src/kernel/main.c:87-148 | the nodes are the sections from page to page at their kernel addresses, the heap, the mmap area and the devices, with these bases and sizes and in this order, and the mmap area alone is the head that user mappings start from; it crashes exactly when a node is missing |
| Mmap.NextFrame | shdir/arm-cca-kvm-realm-vm/src/kernel/vma.c:413-442 | the frame that the mapping loop gets is free, is the only page that stops being free, and lies in the allocator's range |
| Mmap.OnePage | shdir/arm-cca-kvm-realm-vm/src/kernel/vma.c:656-674 | one turn maps its page to a frame of its own and keeps all other translations and the tables' frames |
| Mmap.ManyPages | shdir/arm-cca-kvm-realm-vm/src/kernel/vma.c:656-674 | so does the loop, for every page of the request |
| Mmap.ExtendedRegionsSound | shdir/arm-cca-kvm-realm-vm/src/kernel/vma.c:612-679 | after a request above the last region exactly the pages of the regions are mapped, and the regions ascend |
| Mmap.RequestIsSound | shdir/arm-cca-kvm-realm-vm/src/kernel/vma.c:612-679 | such a request returns its address, backs every page with its own frame and extends the list by its region |
| Mmap.RequestFailsIff | shdir/arm-cca-kvm-realm-vm/src/kernel/vma.c:612-643 | any request is refused exactly when it is for nothing, or the heap has no node for a further region |
| Mmap.ReturnsAddressIff | shdir/arm-cca-kvm-realm-vm/src/kernel/vma.c:625-652 | wherever region structures lie: a fixed request that overlaps no region and can be backed returns its address exactly when it is at or above the end of the last region |
| Mmap.SearchSizeIs | shdir/arm-cca-kvm-realm-vm/src/kernel/vma.c:510-531 | which node the search by size answers with: the only one, or the first but the last that is large enough |
| Mmap.FixedOutcome | shdir/arm-cca-kvm-realm-vm/src/kernel/vma.c:625-678 | the whole outcome of a further fixed request in the window, overlapping or not, with region structures on the kernel's heap: it is mapped where it asked exactly when the search misses and there are frames for it, and otherwise the kernel crashes; earlier translations survive exactly when no page of the request belongs to a region |
| Mmap.GapCrashes | shdir/arm-cca-kvm-realm-vm/src/kernel/vma.c:631-652 | a free page between two regions of a process, the request for which crashes the kernel |
| Mmap.OverlapReplaces | shdir/arm-cca-kvm-realm-vm/src/kernel/vma.c:548-563 | a request that starts in the second of two regions and ends behind it, which takes a page of it away to another frame |
| Mmap.UserFlagsGive | shdir/arm-cca-kvm-realm-vm/src/kernel/vma.c:699-705 | the attributes that user pages get for a protection |
| Mmap.OneCall | shdir/arm-cca-kvm-realm-vm/src/kernel/vma.c:699-705 | what one `sys_mmap_user` call with `MAP_FIXED` does to a sound state |
| Mmap.UserRunIsSound | shdir/arm-cca-kvm-realm-vm/src/kernel/vma.c:538-705 | over any run of ascending fixed requests: every call returns its address, every page of every request is mapped as it asked to a frame of its own that is no table and not free, earlier translations survive, and the list stays ordered |
| Mmap.SoundPagesDistinct | shdir/arm-cca-kvm-realm-vm/src/kernel/vma.c:538-705 | in a sound state two pages never share a frame, and none is backed by a frame of the tables |
| MmapInPlace.SearchRegionFixed | shdir/arm-cca-kvm-realm-vm/src/kernel/vma.c:538-564 | the pointer walk finds the node the specification names, or null |
| MmapInPlace.SearchRegion | shdir/arm-cca-kvm-realm-vm/src/kernel/vma.c:510-531 | the same for the search by size |
| MmapInPlace.MapLoop | shdir/arm-cca-kvm-realm-vm/src/kernel/vma.c:656-674 | the loop over frames and pages, and where it crashes |
| MmapInPlace.GenericMmap | shdir/arm-cca-kvm-realm-vm/src/kernel/vma.c:612-679 | memory, frames and the linked list after the call are what the specification says of them before it |
| UserTables.SevenFrames | shdir/arm-cca-kvm-realm-vm/src/kernel/vma.c:77-90 | with a run of four left after three single frames, seven distinct free frames are taken, four of them in a row, and no other |
| UserTables.FourFramesIff | shdir/arm-cca-kvm-realm-vm/src/kernel/vma.c:82-89 | without such a run nothing is taken, and the error value comes back exactly when too few frames are left or the last one is in use |
| UserTables.AcceptedIff | shdir/arm-cca-kvm-realm-vm/src/kernel/vma.c:82-89 | exactly when the code goes on: a run was left, or the map ends in free frames that are not a run of four |
| UserTables.CarveTilesIff | shdir/arm-cca-kvm-realm-vm/src/kernel/vma.c:871-893 | the first kernel allocation divides the mmap area in two exactly when the area is large enough |
| UserTables.KernelVmaAlloc | shdir/arm-cca-kvm-realm-vm/src/kernel/vma.c:859-893 | the first call without a fixed address, on the linked list |
| UserTables.MapTables | shdir/arm-cca-kvm-realm-vm/src/kernel/vma.c:93-106 | the seven calls map seven pages to the recorded frames, and no other page |
| UserTables.CreateUserTranslationTable | shdir/arm-cca-kvm-realm-vm/src/kernel/vma.c:77-113 | crashes exactly when a frame request or the region is refused; with a run of four left, the kernel walk of each recorded page reaches exactly the frame recorded for it, and the frames are distinct, were free and are taken |
| UserTables.CreateMore | shdir/arm-cca-kvm-realm-vm/src/kernel/vma.c:77-113 | however many further processes are created, they get the same kernel addresses: the first one's tables are reached exactly when none is created, which is when the first attempt fails |
| UserTables.CreateProcesses | shdir/arm-cca-kvm-realm-vm/src/kernel/vma.c:77-113 | the same from the creation of the first process on |
| UserTables.NewProcessIsSound | shdir/arm-cca-kvm-realm-vm/src/kernel/vma.c:77-113 | on zeroed frames the new tables translate nothing and satisfy all that mapping requests need |
| UserTables.NewProcessRuns | shdir/arm-cca-kvm-realm-vm/src/kernel/vma.c:538-705 | so any run of ascending fixed requests of the new process is sound |
| Heap.AllocSizeHoldsIff | shdir/arm-cca-kvm-realm-vm/src/kernel/heap.c:24-27 | the aligned size covers header and payload exactly when the sum does not wrap |
| Heap.MallocTakesLowest | shdir/arm-cca-kvm-realm-vm/src/kernel/heap.c:56-106 | a request the list can serve gets the lowest-addressed free chunk that fits, at least `size` bytes behind the header, and `split` never refuses |
| Heap.MallocRefusesIff | shdir/arm-cca-kvm-realm-vm/src/kernel/heap.c:56-81 | the list refuses exactly when every chunk is in use or smaller than header and request, aligned |
| Heap.MallocIsExact | shdir/arm-cca-kvm-realm-vm/src/kernel/heap.c:56-106 | the whole list after a request: the first free chunk that fits is taken, split in two if more than 40 bytes are left over |
| Heap.SplitTiles | shdir/arm-cca-kvm-realm-vm/src/kernel/heap.c:187-210 | the two halves fill the old chunk, the first as large as asked |
| Heap.SplitIsExact | shdir/arm-cca-kvm-realm-vm/src/kernel/heap.c:187-210 | when `split` refuses, and the two chunks it leaves |
| Heap.TilesTotal | shdir/arm-cca-kvm-realm-vm/src/kernel/heap.c:29-54 | chunks that tile the arena have sizes that sum to it |
| Heap.FreeIsSound | shdir/arm-cca-kvm-realm-vm/src/kernel/heap.c:148-175 | for any address whatever, freeing keeps tiling, alignment and the merging of neighbours, and every chunk in use with another address |
| Heap.FreeIsExact | shdir/arm-cca-kvm-realm-vm/src/kernel/heap.c:148-175 | the whole list after freeing an address: the first chunk that carries it takes over a free one behind, and is taken over by a free one in front, which then carries none |
| Heap.StaleMatchDoesNothing | shdir/arm-cca-kvm-realm-vm/src/kernel/heap.c:154-173 | an address that a free chunk happens to hold is found there, and nothing changes |
| Heap.PayloadFoundIff | shdir/arm-cca-kvm-realm-vm/src/kernel/heap.c:154-159 | a payload is found in its own chunk exactly when no free chunk before it holds its address |
| Heap.FreedBytes | shdir/arm-cca-kvm-realm-vm/src/kernel/heap.c:161-173 | freed memory becomes available exactly behind a free chunk; otherwise a free chunk that follows is even taken out of use |
| Heap.FreeRecoversNothing | shdir/arm-cca-kvm-realm-vm/src/kernel/heap.c:148-175 | while only the last chunk is free, freeing finds every payload and adds nothing to the free bytes |
| Heap.ListIsSpentOnce | shdir/arm-cca-kvm-realm-vm/src/kernel/heap.c:29-210 | over any legal run from `heap_init`: what is free in the list and all that the list was ever asked for are together at most the initial 20 KB, so nothing that is freed is served by it again; and every payload in use is found |
| Heap.AskedAdds | shdir/arm-cca-kvm-realm-vm/src/kernel/heap.c:56-106 | what a run has asked for is the sum over its requests of header and payload, aligned |
| Heap.FirstFreeSpendsList | shdir/arm-cca-kvm-realm-vm/src/kernel/heap.c:148-175 | any one request that the list can serve and its freeing leave a list that serves nothing |
| Heap.StaleAddressHidesBlock | shdir/arm-cca-kvm-realm-vm/src/kernel/heap.c:154-159 | a sound heap in which a stale address hides a block in use |
| Heap.LivePayloadsApart | shdir/arm-cca-kvm-realm-vm/src/kernel/heap.c:56-106 | payloads handed out and not given back are aligned, inside the arena, and clear of each other and of all headers |
| Heap.AllocKeeps | shdir/arm-cca-kvm-realm-vm/src/kernel/heap.c:56-106 | the payload handed out is none of the live ones |
| Heap.RunKeeps | shdir/arm-cca-kvm-realm-vm/src/kernel/heap.c:56-210 | over any run of list-served requests and frees of any addresses the chunks tile the arena, no two neighbours are free, and live payloads are backed |
| Heap.EveryRequestBacked | shdir/arm-cca-kvm-realm-vm/src/kernel/heap.c:56-210 | after any legal run every request in it that was not given back since is backed by a chunk in use at its address, with room for it |
| Heap.RunFromInit | shdir/arm-cca-kvm-realm-vm/src/kernel/heap.c:29-210 | the same from `heap_init` on, with sizes that sum to the initial 20 KB |
| HeapInPlace.GroupHeap.constructor | shdir/arm-cca-kvm-realm-vm/src/kernel/heap.c:29-54 | one free chunk of 20 KB, in the bytes of its header |
| HeapInPlace.GroupHeap.SplitChunk | shdir/arm-cca-kvm-realm-vm/src/kernel/heap.c:187-210 | the two headers written in memory are the list after the split, and nothing outside the chunk is stored |
| HeapInPlace.GroupHeap.MallocServed | shdir/arm-cca-kvm-realm-vm/src/kernel/heap.c:56-106 | the walk over the headers in memory does what the specification on the list of chunks says, with what memory holds for the address field that `split` does not store; bytes outside the chunk stay |
| HeapInPlace.GroupHeap.FreeAddress | shdir/arm-cca-kvm-realm-vm/src/kernel/heap.c:148-175 | so does freeing, whatever it is given; bytes outside the headers of the list stay |
| HeapGrowth.GrownMeetIff | shdir/arm-cca-kvm-realm-vm/src/kernel/heap.c:81-93 | of two chunks that were put behind the break the later meets the earlier exactly when what was asked for since then, itself included, is less than the earlier one's size |
| HeapGrowth.AllApartIff | shdir/arm-cca-kvm-realm-vm/src/kernel/heap.c:81-93 | no two of them meet exactly when no request was smaller than the one before it |
| HeapGrowth.MeetsArenaIff | shdir/arm-cca-kvm-realm-vm/src/kernel/heap.c:81-93 | such a chunk starts inside the initial 20 KB exactly when all that was asked for so far is less than 12 KB |
| HeapGrowth.NeverNull | shdir/arm-cca-kvm-realm-vm/src/kernel/heap.c:56-106 | a request for something is never answered with a null pointer |
| HeapGrowth.RewrittenSameIff | shdir/arm-cca-kvm-realm-vm/src/kernel/heap.c:81-93 | storing the header of a grown chunk leaves the list what it was exactly when it clears all headers of the list, or repeats the last one |
| HeapGrowth.RewrittenIsSound | shdir/arm-cca-kvm-realm-vm/src/kernel/heap.c:81-93 | stored over a header of the list it ends the list there, with the grown chunk, and that is a heap again |
| HeapGrowth.ServeKeeps | shdir/arm-cca-kvm-realm-vm/src/kernel/heap.c:56-106 | one request: it faults exactly when no chunk of the list fits and the break would leave the heap; where it grows, the list is lost exactly when the new header tears one of it, otherwise it is a heap up to where it ended or to the end of the new chunk; and the new chunk lies in the heap exactly when there is room for it twice |
| HeapGrowth.RunFollows | shdir/arm-cca-kvm-realm-vm/src/kernel/heap.c:56-175 | over any run of requests and frees of any addresses: the grown chunks are where the break was, no two of them meet exactly when no request that grew the heap was smaller than the one before, and the list is a heap exactly as long as no request has put its header where it tears one |
| HeapGrowth.RunStaysPast | shdir/arm-cca-kvm-realm-vm/src/kernel/heap.c:56-175 | once the break has passed the list, or all its chunks are in use and its last header is not behind the break, no run of requests and frees loses the list or moves its end |
| HeapGrowth.GrowthTakesLiveBlock | shdir/arm-cca-kvm-realm-vm/src/kernel/heap.c:81-93 | three requests after `heap_init`, nothing freed: the third is answered with the live payload of the second, whose header it takes, and the chunk behind drops out of the list; with eight bytes less it loses the list |
| HeapGrowth.BootSpends | shdir/arm-cca-kvm-realm-vm/src/kernel/main.c:441-444 | the request and the freeing of booting leave the list of the shared heap spent |
| HeapGrowth.HypercallsServedIff | shdir/arm-cca-kvm-realm-vm/src/kernel/hypercall.c:37-64 | from then on `n` calls of `io_hypercall` get a block exactly when 88 bytes for each of them fit behind the first 8 KB, since freeing gives nothing back; their blocks are then apart, and in the heap exactly when 88 bytes more fit |
| HeapGrowth.SmallerMeetsLarger | shdir/arm-cca-kvm-realm-vm/src/kernel/heap.c:81-93 | 8 KB and then 56 bytes, of which the second chunk lies inside the first |
| GrowthInPlace.HeapLeftIff | shdir/arm-cca-kvm-realm-vm/src/kernel/heap.c:81-93 | in the upper half, where the kernel is: memory holds a heap that starts where the old one does, after the header of a grown chunk has been stored, exactly when no header has been torn |
| GrowthInPlace.RewrittenIsLinked | shdir/arm-cca-kvm-realm-vm/src/kernel/heap.c:81-93 | if none has, the headers in memory are the list that the specification says |
| GrowthInPlace.MallocAny | shdir/arm-cca-kvm-realm-vm/src/kernel/heap.c:56-106 | the code on the bytes in memory, for every request that does not make the length negative: list, break, grown chunks and answer are what the specification says |
| GrowthInPlace.AllClearIff | shdir/arm-cca-kvm-realm-vm/src/kernel/heap.c:118-146 | what is stored behind the first header misses all of them exactly when it lies behind one and in front of the next |
| GrowthInPlace.ListPayloadHitIff | shdir/arm-cca-kvm-realm-vm/src/kernel/heap.c:118-146 | header and zeros of a cleared block that grew the heap reach into a live payload of the list exactly when the new break has not passed its end and they end behind its start |
| GrowthInPlace.GrownPayloadHitIff | shdir/arm-cca-kvm-realm-vm/src/kernel/heap.c:118-146 | they reach into the payload of an earlier grown chunk exactly when less than its size was asked for since |
| GrowthInPlace.ProductIs | shdir/arm-cca-kvm-realm-vm/src/kernel/heap.c:108-141 | the size that is asked for is the product in 64 bits |
| GrowthInPlace.Kcalloc | shdir/arm-cca-kvm-realm-vm/src/kernel/heap.c:118-146 | the payload is zero; served by the list, no header and nobody else's payload changes; served by growth, header and zeros are where the new break is, nothing else changes, and the list stays if they miss its headers |
| Hypercall.PutBlock | shdir/arm-cca-kvm-realm-vm/src/kernel/hypercall.c:39-50 | with a spent list: the argument block is cleared and filled behind the new break, and the list stays |
| TransferBuffer.SendBuffer | shdir/arm-cca-kvm-realm-vm/src/kernel/syscall.c:112-127 | `sys_write` up to the call: the words in memory ask the host to write from, or read into, the buffer at its physical address with bit 32 cleared, for the descriptor and as many bytes as the user gave; their block lies 56 bytes behind the start of the buffer, which holds what the user wrote with the block over it |
| TransferBuffer.WriteArrivesIff | shdir/arm-cca-kvm-realm-vm/src/kernel/syscall.c:112-127 | the host finds what the user wrote exactly when that agrees with the block from byte 56 on; if it has no zero byte, exactly when it is at most 56 bytes long, or one more that is 88 |
| TransferBuffer.ReceiveBuffer | shdir/arm-cca-kvm-realm-vm/src/kernel/syscall.c:92-110 | `sys_read` from the answer on: the user gets what came, with the number of bytes stored 88 bytes into it |
| TransferBuffer.ReadArrivesIff | shdir/arm-cca-kvm-realm-vm/src/kernel/syscall.c:92-110 | the user gets what came exactly when that agrees with its number of bytes from byte 88 on; if it has no zero byte, exactly when it is at most 88 bytes long, or one more that is 89 |
| ByteMemory.ValueOfBytes | shdir/arm-cca-kvm-realm-vm/src/kernel/uart_syscall.c:71-75 | a word stored little end first is read back |
| ByteMemory.FillWordIs | shdir/arm-cca-kvm-realm-vm/src/kernel/memops.c:31-34 | the shifts and ors repeat the byte in all eight places |
| ByteMemory.FilledIs | shdir/arm-cca-kvm-realm-vm/src/kernel/memops.c:11-51 | filling byte by byte changes exactly the asked bytes |
| ByteMemory.Memset | shdir/arm-cca-kvm-realm-vm/src/kernel/memops.c:11-51 | byte head, word body and byte tail equal filling byte by byte, for every address, count and value |
| ProcessStack.StrCpy | shdir/arm-cca-kvm-realm-vm/src/kernel/string.c:32-38 | the string and its zero are in memory, and no other byte changes |
| ProcessStack.StrLen | shdir/arm-cca-kvm-realm-vm/src/kernel/string.c:24-30 | the length of a string in memory |
| ProcessStack.ArrayReads | shdir/arm-cca-kvm-realm-vm/src/kernel/execve.c:162-177 | from any pointer of the array on, the rest of the list is read back |
| ProcessStack.PutArray | shdir/arm-cca-kvm-realm-vm/src/kernel/execve.c:162-177 | the loop writes pointers, strings and the null pointer, and nothing else |
| ProcessStack.Reserve | shdir/arm-cca-kvm-realm-vm/src/kernel/execve.c:135-159 | pointers and strings end at or below the stack base: the reserved space is enough |
| ProcessStack.StartWithEnvironment | shdir/arm-cca-kvm-realm-vm/src/kernel/execve.c:135-186 | for every argument list and environment that is not null, the program reads from its registers and stack the lists it was given, with the count below them, and nothing outside the reserved space changes |
| NewProcess.AllHoldIff | shdir/arm-cca-kvm-realm-vm/src/kernel/execve.c:162-180 | of pieces written one after the other all are there in the end exactly when they agree wherever two of them meet |
| NewProcess.NullEnvironment | shdir/arm-cca-kvm-realm-vm/src/kernel/execve.c:130-186 | with a null environment the strings start 22 words too low: the layout is left intact exactly when its pieces agree, which holds if the strings end below the stored count, and if they end below the pointers the arguments are read back exactly then |
| NewProcess.LostZero | shdir/arm-cca-kvm-realm-vm/src/kernel/execve.c:162-180 | a last string that ends one byte too far loses its zero to the count |
| NewProcess.LongArgumentIsLost | shdir/arm-cca-kvm-realm-vm/src/kernel/execve.c:162-180 | one argument of 144 characters is not read back |
| NewProcess.WriteArguments | shdir/arm-cca-kvm-realm-vm/src/kernel/execve.c:162-180 | the loop, the null pointers and the count are those writes in order, wherever they meet |
| NewProcess.CreateNewProcess | shdir/arm-cca-kvm-realm-vm/src/kernel/execve.c:117-189 | all cases of the two lists: failure without a write for no arguments, what the program finds with an environment, and what is written without one |
| ProcessMemory.PlacesDiffer | shdir/arm-cca-kvm-realm-vm/src/kernel/vma.c:612-679 | different addresses of a process lie in different places |
| ProcessMemory.StoresRefine | shdir/arm-cca-kvm-realm-vm/src/kernel/vma.c:1158-1177 | any stores through page tables that share no frame are the same stores on the flat array that the process sees |
| ProcessMemory.StoresMissTables | shdir/arm-cca-kvm-realm-vm/src/kernel/vma.c:1158-1177 | and change no byte of a table or of a free frame |
| Loader.Reprotects | shdir/arm-cca-kvm-realm-vm/src/kernel/execve.c:103-104 | mapping a page again at the physical address found for it changes its protection and nothing else, and keeps the space sound |
| Loader.CallOfIs | shdir/arm-cca-kvm-realm-vm/src/kernel/execve.c:92-97 | what is asked for a segment: from the page of its address on, its size in whole pages, and permission to write besides its own |
| Loader.SegmentFailsIff | shdir/arm-cca-kvm-realm-vm/src/kernel/execve.c:97-100 | loading ends for lack of memory exactly when the request is refused or answered with a null address |
| Loader.OneSegment | shdir/arm-cca-kvm-realm-vm/src/kernel/execve.c:87-105 | a segment above the earlier ones gets memory of its own, which holds the bytes of the file, and everything loaded before stays |
| Loader.AllSegments | shdir/arm-cca-kvm-realm-vm/src/kernel/execve.c:87-105 | so do all segments, one after the other |
| Loader.ProtectionIff | shdir/arm-cca-kvm-realm-vm/src/kernel/execve.c:92-104 | all pages of a segment get the protection asked for exactly when there is one page, or it is not read-only: the others stay writable |
| Loader.SegmentHolds | shdir/arm-cca-kvm-realm-vm/src/kernel/execve.c:92-104 | behind the bytes of the file the pages of a segment hold what their frames held, which were free before, and free frames hold what they held |
| Loader.AtVaddrIff | shdir/arm-cca-kvm-realm-vm/src/kernel/execve.c:92-102 | the bytes of the file are where the program expects them exactly when the segment starts at a page, or there is room for them and what the pages hold repeats itself at the offset in the page |
| Loader.AtVaddrCleanIff | shdir/arm-cca-kvm-realm-vm/src/kernel/execve.c:92-102 | where free memory holds zeros: exactly when it starts at a page, or there is room and the file has nothing but zeros |
| Loader.AllMappedIff | shdir/arm-cca-kvm-realm-vm/src/kernel/execve.c:93-97 | all addresses of the segment are mapped exactly when its offset in the page and its size together fit the rounded size |
| Loader.TwoPagesGoWrong | shdir/arm-cca-kvm-realm-vm/src/kernel/execve.c:92-104 | loading a first segment of two pages that starts one byte into a page: its first byte is not found, its second page can be written, its last byte is not mapped |
| Loader.StackMapped | shdir/arm-cca-kvm-realm-vm/src/kernel/execve.c:109-113 | the stack is mapped, and the segments stay |
| Loader.StackCallIs | shdir/arm-cca-kvm-realm-vm/src/kernel/execve.c:107-113 | the stack is the four pages below 0x7F_F000, to be read and written from EL0 |
| Loader.StackOutcome | shdir/arm-cca-kvm-realm-vm/src/kernel/execve.c:109-113 | with region structures on the kernel's heap, whatever the segments are: the loading goes on exactly when there are four frames and the search misses, and then the stack is mapped; otherwise the kernel crashes |
| Loader.LoadAll | shdir/arm-cca-kvm-realm-vm/src/kernel/execve.c:87-114 | the loop ends at the first segment that fails |
| Loader.OrderlyFits | shdir/arm-cca-kvm-realm-vm/src/kernel/execve.c:87-113 | segments in ascending order below the stack, with nodes for their regions, and frames for their pages and the stack are all that a process with nothing mapped needs |
| Loader.ExecutableLoads | shdir/arm-cca-kvm-realm-vm/src/kernel/execve.c:67-115 | an executable that fits is loaded, with its stack above it, and with zeros behind the bytes of the file where free memory held zeros |
| Loader.ProgramFinds | shdir/arm-cca-kvm-realm-vm/src/kernel/execve.c:130-189 | whatever stores inside the stack lead to what `create_new_process` writes, made through the process's own page tables they leave memory in which the program finds its arguments, its environment and, at their addresses, its segments that start at a page |
| Loader.StoresExist | shdir/arm-cca-kvm-realm-vm/src/kernel/execve.c:130-189 | there are such stores, one for each byte of the stack |
| Loader.NewProgramFinds | shdir/arm-cca-kvm-realm-vm/src/kernel/execve.c:191-236 | the same from newly created tables on, for segments in order and enough frames |
| Relocation.ApplyHolds | shdir/arm-cca-kvm-realm-vm/src/kernel/start.c:50-65 | each written slot holds its word, each other slot what it held |
| Relocation.SlotAfter | shdir/arm-cca-kvm-realm-vm/src/kernel/start.c:28-94 | after the first step a handled slot holds base plus symbol plus addend, after the second the same for the final base; a slot of another type is shifted |
| Relocation.RestStays | shdir/arm-cca-kvm-realm-vm/src/kernel/start.c:28-94 | bytes in no slot are those of the image |
| Relocation.TwoStepsAreOneIff | shdir/arm-cca-kvm-realm-vm/src/kernel/start.c:28-94 | both steps leave exactly the image that relocating once for the final base leaves, if and only if every relocation is of a handled type |
| Relocation.EverySlotIs | shdir/arm-cca-kvm-realm-vm/src/kernel/start.c:50-94 | from the words of the tables in memory: the slot of an entry of type 257, 1025 or 1026 holds base plus symbol plus addend after the first step and the same for the kernel's address after the second; any other holds what it held, and then that shifted |
| Relocation.EntryStays | shdir/arm-cca-kvm-realm-vm/src/kernel/start.c:50-78 | the tables read in the loops are those of the image throughout |
| Relocation.RelocateKernel | shdir/arm-cca-kvm-realm-vm/src/kernel/start.c:50-80 | the loops over the tables in memory: every slot is as `Relocation.EverySlotIs` says of the first step, and slots with shifted words are kept |
| Relocation.ShiftToVa | shdir/arm-cca-kvm-realm-vm/src/kernel/start.c:85-94 | the kept words are written, up to the first empty entry |
| Relocation.RelocateTwice | shdir/arm-cca-kvm-realm-vm/src/kernel/start.c:28-94 | both steps on the image in memory: every slot is as `Relocation.EverySlotIs` says of the second, and bytes in no slot stay |
| UartChannel.OneByte | shdir/arm-cca-kvm-realm-vm/src/main.rs:976-991 | between writes fewer than eight bytes are kept and all whole words have been dispatched |
| UartChannel.RunLoop | shdir/arm-cca-kvm-realm-vm/src/main.rs:976-991 | over any sequence of exits the bytes are dispatched in groups of eight, in order, and console bytes are printed as they come |
| UartChannel.UartSyscallWrite | shdir/arm-cca-kvm-realm-vm/src/kernel/uart_syscall.c:61-75 | the stores are the eight bytes of the address in memory order |
| UartChannel.ChannelDelivers | shdir/arm-cca-kvm-realm-vm/src/kernel/uart_syscall.c:61-75 | exactly the addresses that were sent are dispatched, in order, whatever other exits come between their bytes |
| UartChannel.AgreeIff | shdir/arm-cca-kvm-realm-vm/src/main.rs:1262-1296 | the host decodes what the guest means for open, read, write and lseek; for close and exit exactly when the first two arguments agree |
| UartChannel.DecodeIs | shdir/arm-cca-kvm-realm-vm/src/main.rs:1261-1307 | which call each code makes, and of which words |
| UartChannel.CIntReads | shdir/arm-cca-kvm-realm-vm/src/main.rs:1262-1296 | every signed 32-bit value is read back from its 64-bit word |
| UartChannel.ExitReasonIsLost | shdir/arm-cca-kvm-realm-vm/src/kernel/hypercall.c:97-104 | the host exits with code zero for every reason |
| UartChannel.OneAddressDelivered | shdir/arm-cca-kvm-realm-vm/src/kernel/uart_syscall.c:61-75 | the stores for one address make an idle monitor dispatch that address, once, and keep nothing |
| Hypercall.IoHypercall | shdir/arm-cca-kvm-realm-vm/src/kernel/hypercall.c:37-64 | on the shared heap as booting leaves it: the block is put behind the new break, the monitor dispatches exactly its physical address with bit 32 cleared, the host works on what it finds there, the caller gets its answer for the words, nothing outside the block is stored, and freeing it changes nothing |
| HostTransfer.EndsIff | shdir/arm-cca-kvm-realm-vm/src/main.rs:1324-1344 | a loop that moves what the host answers ends exactly when the host does not come to answer nothing for ever while something is missing |
| HostTransfer.WriteEndsIff | shdir/arm-cca-kvm-realm-vm/src/main.rs:1318-1347 | the writing loop ends exactly when there is no call, with no failure before it and bytes missing, from which the host answers zero for ever to the request for them |
| HostTransfer.ReadEndsIff | shdir/arm-cca-kvm-realm-vm/src/main.rs:1349-1381 | the same of the reading loop |
| HostTransfer.ShortFileNeverEnds | shdir/arm-cca-kvm-realm-vm/src/main.rs:1359-1378 | a file shorter than the request, read without end |
| HostTransfer.HypercallWrite | shdir/arm-cca-kvm-realm-vm/src/main.rs:1318-1347 | against any host with which the loop ends, success means that exactly the buffer came out, once and in order; failure, that a proper part did and the host failed; a host that never answers zero is called at most once for each byte |
| HostTransfer.HypercallRead | shdir/arm-cca-kvm-realm-vm/src/main.rs:1349-1381 | against any host with which the loop ends, the buffer starts with exactly what came in and the answer counts it; -1 only if the host fails at once |
| SharedBreak.BreakStaysInsideIff | shdir/arm-cca-kvm-realm-vm/src/kernel/vma.c:1058-1097 | the break stays between base and end for every run of lengths, wrapping ones included, exactly when the base is in the upper half and, unless it is the start, the heap is at most half the address space |
| SharedBreak.SbrkIsExact | shdir/arm-cca-kvm-realm-vm/src/kernel/vma.c:1058-1082 | the break and the answer for every length, in 64-bit words, with the error value behind the end |
| SharedBreak.LowBaseEscapes | shdir/arm-cca-kvm-realm-vm/src/kernel/vma.c:1058-1066 | a run that leaves the heap for every lower-half base |
| SharedBreak.LargeHeapEscapes | shdir/arm-cca-kvm-realm-vm/src/kernel/vma.c:1071-1080 | a run that does so for every larger heap with a base above its start |
| SharedBreak.BrkSetsBase | shdir/arm-cca-kvm-realm-vm/src/kernel/vma.c:1084-1097 | the base is set once, inside the heap |
| SharedBreak.SharedHeap.SetBreak | shdir/arm-cca-kvm-realm-vm/src/kernel/vma.c:1084-1097 | the base is set at most once and then the break is at it, inside the heap; on failure nothing changes |
| SharedBreak.SharedHeap.MoveBreak | shdir/arm-cca-kvm-realm-vm/src/kernel/vma.c:1058-1082 | the break stays between base and end for every length if base and size are safe, and the answer is the break, or the error value with the break as before |

## Left out

- PageMap.MapPageRefines: covers the window in which code and hardware use the same second-level entries, that is, a start at a multiple of 2 MB, the gigabyte of the start, and as many last-level tables as the window needs; what becomes of a single page elsewhere is said by PageMap.MapHitsIffFirstGigabyte and PageMap.LinkedMapHitsIff.
- Mmap.UserRunIsSound: is about fixed requests at or above the end of the last region, with frames left; the outcome of any other further one in the window is Mmap.FixedOutcome.
- HeapInPlace.GroupHeap.MallocServed: is for requests that a chunk of the list can serve; GrowthInPlace.MallocAny is for all.
- GrowthInPlace.MallocAny: needs memory, as an array of bytes, up to the end of the new chunk; whether a page behind the heap is mapped is left out.
- HeapGrowth.RunFollows: is about what the heap itself stores. What `kcalloc` and callers store in a grown payload that shares memory with the list is not part of a run; GrowthInPlace.Kcalloc, GrowthInPlace.ListPayloadHitIff and GrowthInPlace.GrownPayloadHitIff say where that is. Once the list is lost, where its broken links lead is not followed: a request then either grows the heap or moves neither the break nor the grown chunks.
- HeapGrowth.ServeKeeps: is for requests below 2^63 by 256 or more, and for which no sum with the break wraps; a longer one would be a negative length. The private heap moves its break by `k_sbrk`, which differs from the modelled `shared_sbrk` only where such a sum does wrap.
- Heap.MallocTakesLowest: is for sizes below 2^64 by 80 or more, so that no sum of the code wraps; Heap.AllocSizeHoldsIff says when the size of the chunk does.
- Relocation.RelocateKernel: starts where the relocation and symbol tables have been found; a file without a relocation section, and more than 272 relocations, for which the code has no room, are left out.
- Relocation.RelocateTwice: keeps the array of pending relocations apart from the image, though the source has it inside: the bytes of that array do change, and no slot may lie in it.
- NewProcess.CreateNewProcess: takes the strings as values that are read once, and a stack below 2^31, in which the 32-bit total cannot overflow, with room for all that is written.
- NewProcess.NullEnvironment: has no converse for strings that reach into the pointers, where other pointers may happen to lead to the same bytes.
- HostTransfer.HypercallWrite: is stated for hosts with which the loop ends, and so is HostTransfer.HypercallRead; which those are is said by HostTransfer.WriteEndsIff and HostTransfer.ReadEndsIff.
- Words of physical memory are the 64-bit words of each frame as bit fields, and pointers to tables are frame numbers; that the kernel reaches a process's tables through its own mapping is proved in UserTables but not used in each store.
- Frames that become tables are taken as zeroed, which the code does not do.
- The divisor of 512 GB in `page_table_map` overflows `int`; it is taken as 2^39. The test for an offset above 512 in the same function can never hold and is not modelled.
- `crash()` is an outcome that ends a run; what the kernel has changed before it is not described.
- GrowthInPlace.Kcalloc: does not say which list is left where the zeros of a grown payload reach into its headers.
- Chunks that were never handed out have an address field that is a parameter of the specification, and in place is what memory held. The `tail` field is updated as the code does, and nothing reads it.
- TransferBuffer.SendBuffer: is for a transfer of at least one byte that finds the list spent, as booting leaves it, and room for buffer and block. The bytes of the user are read without a fault, and the host finds the buffer at consecutive physical addresses; TransferBuffer.ReceiveBuffer is for an answer that counts bytes, not a failure.
- Regions.KernelVmaRegionsAlloc: does not model the device mark, the permissions and the secure flags of the regions, which nothing modelled here reads. The missing node for which it crashes is what the code tests for, but HeapGrowth.NeverNull says that the heap never answers with a null pointer: where it is full the kernel faults.
- UserTables.CreateUserTranslationTable: the same of its node, and of the nodes that Mmap.FixedOutcome and Loader.StackOutcome require.
- Hypercall.IoHypercall: is given the physical address of the block, where the host finds it, and what the host answers; messages on the console are left out.
- The return value of `shift_to_va`, the kernel stack address, and the `is_secure`, `perm` and `is_kernel` fields of regions.
- `identity_map_kernel_4KB`, `identity_map_kernel_2MB`, `page_table_unmap`, and the insecure frame allocator, which is the same code on another map.
- `split_mmap_region`, `split_vma`, `extend_vma`, `coalesce_vma`, `user_vma_alloc` and `generic_sbrk`, which mix up sizes and pointers; `kernel_vma_alloc` but for its first call.
- `k_brk`: the same as `shared_brk`.
- The table of file descriptors in fd.c: insertion drops entries, and deletion does not end on a miss.
- Loader.LoadAll: is given the loadable segments and is modelled on values, as is the memory it writes; reading and checking the ELF headers is left out.
- Loader.ExecutableLoads: is about segments in ascending order; what becomes of a single request out of order is said by Mmap.FixedOutcome.
- Loader.ProgramFinds: is about a stack that fits into its four pages; the code does not check that it does.
- Loader.OrderlyFits: is given the nodes that the heap hands out for the regions; that the private heap, when it grows, may lay one over another structure is said in HeapGrowth and not followed there.
- The system calls built on the modelled ones, but for the buffers of `sys_read` and `sys_write`.
- TLB and cache maintenance, interrupts and concurrency: the kernel runs on one core and its locks are commented out.
- Assembly: exception entry, enabling the MMU, the monitor calls of the realm; the address translation instruction is the walk with its result packed as the register holds it.
- KVM and realm set-up, interrupt controller devices and memory mapping in main.rs; UART set-up registers and the flag register, which is always ready.
- The image generator, the scheduler loop, and all scripts.
