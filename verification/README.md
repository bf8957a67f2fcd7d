# AmogOS in Dafny

A Dafny model of the parts of AmogOS, a small 32-bit x86 kernel, whose
correctness rests on invariants: the block heap, two-level paging, the memory a
process gets and sees, the scheduler, the storage path, and the text and heap
routines of its user library.

State that the kernel changes in place is changed in place here too. The heap
is two arrays, the block table and 4 GiB of memory. Page tables are words in
that memory. The task list is a doubly linked list of objects, and a path is cut
inside its heap copy. Each method is tied to a function on values (`Kmalloc`,
`MapRegion`, `Mmap`, `MapElf`, `DoExit`, `DataRead`, ...), and the theorems are
about those functions.

## What is proved

- **Kernel heap** (`HeapTable`, `MachineState`, `KernelHeap`). A table has at
  most one meaning as a map from start block to length. Every run of kmalloc and
  kfree follows that map, blocks are conserved, and a free undoes the allocation
  before it byte for byte. First fit is exact, and so is the condition under
  which its scan stays in the table. On any table, with a meaning or without,
  the bytes written are given.
- **Paging** (`PageWalk`, `PagingSpec`, `PagingLife`, `HardwareWalk`,
  `SparsePaging`, `Paging`). The walk modelled is the one the processor makes
  over the bytes in memory, and for that walk each call is stated address by
  address. The two-level walk is a flat map over any run of map and unmap calls.
  Creation is the identity map exactly when 1025 blocks are free, later calls
  take no block, and the life cycle gives every block back, also when creation
  fails half way. On tables that are not all there, and with any flags, runs
  follow a small machine of a flat map, slots and a count of free blocks.
  Effective rights after a mapping call are stated exactly, with the neighbours
  that lose rights.
- **Process memory** (`VmemSpec`, `Vmem`, `LoaderSpec`, `Loader`, `ElfFormat`,
  `ElfLoading`, `Arguments`, `ProcessImage`, `SegmentFrames`, `UserFrames`,
  `ProcessHeap`). When mmap succeeds, and what it returns otherwise, is stated
  exactly in its arguments, the free blocks and the entries left. Over any run
  of mmap, munmap and exit, from any block table, the kernel stays mapped and
  protected exactly when no step frees a block that reaches below the boundary;
  with blocks from mmap none does. Loading keeps it exactly when no segment
  starts there. When a file loads is stated exactly, for a file given by the
  fields its bytes encode. After loading, a process that reads through its page
  table finds the bytes of its file and zeros, with rights stated exactly, and
  `main` finds argc and its argument strings. Which pages share a frame is
  stated exactly, and every page the user can touch is in a data allocation,
  never in a page table, over every run. `ProcessBuilt` puts the pieces
  together, and `ProgramWithHeap` adds any run of malloc calls.
- **Scheduler** (`Lifecycle`, `TaskList`, `Creation`). The life-cycle invariant
  holds over all runs that neither panic nor hang. What each handler changes,
  and when it panics or hangs, is stated exactly, and so is round robin. A
  process that has ended waits for its parent through every run, with its exit
  status, and the parent's wait empties exactly its slot. A child can run
  exactly when its arguments pass the size guard.
- **Storage** (`Stream`, `FatSpec`, `Fat16`, `ElfFile`, `PathText`, `Paths`). A
  stream read puts a slice of the disk into memory. A read along a cluster chain
  takes every byte from its place in the file exactly when each chunk stays in
  its cluster or runs into an adjacent one; no cluster touches the reserved
  sectors, the tables or the root directory. A program file on the disk ends up
  in the heap as its cluster chain has it, ready to be built. Splitting a path
  is undone by joining, and freeing it restores the heap table.
- **User library** (`Strtok`, `Numbers`, `UserHeap`, `MallocMemory`). Tokens are
  exactly the maximal delimiter-free pieces. Number text is decimal and reads
  back for every number but the smallest, and any string reads as its decimal
  value modulo 2^32. User blocks are disjoint and mapped, also through the page
  table. On the kernel's mmap a call keeps that exactly when it fits below the
  heap pointer; of the eight largest sizes exactly when the heap has to grow and
  the kernel refuses.

`Memory`, `CString` and `Status` hold bytes and words, C strings, and status
codes. Integers are unbounded in Dafny, so 32-bit wraparound is written out;
where the model stops short of it, "Left out" says so. `hide` statements only
keep definitions out of the solver's way.

## Model

| member | source | states |
|---|---|---|
| `HeapTable.MeaningUnique` | src/memory/heap/kheap.c:77-79 | a block table stands for at most one map from start block to run length |
| `HeapTable.ParsesIffWellFormed` | src/memory/heap/kheap.c:77-79 | a table parses, in one way, exactly when its FIRST and HAS_NEXT bits agree between neighbours |
| `HeapTable.ScanMeaning` | src/memory/heap/kheap.c:95-127 | the search returns block s exactly when s is the lowest run of free entries that is long enough; it reads past the table exactly when there is no such run and the last entry is free for a request of several blocks |
| `HeapTable.OneBlockRequest` | src/memory/heap/kheap.c:95-127 | a request of at most one block stays in the table and fails exactly when no block is free |
| `HeapTable.MarkedRepresents` | src/memory/heap/kheap.c:129-157 | marking a free run adds exactly that run to the meaning of the table |
| `HeapTable.FreedRepresents` | src/memory/heap/kheap.c:160-176 | kfree of a live start block removes exactly its run |
| `HeapTable.FreedExact` | src/memory/heap/kheap.c:160-176 | on any table kfree clears the entries from its own up to the first without the bit 0x80, and no other |
| `HeapTable.FreeUndoesAlloc` | src/memory/heap/kheap.c:129-176 | freeing a fresh allocation restores the table byte for byte |
| `HeapTable.BlocksConserved` | src/memory/heap/kheap.c:184-193 | the lengths of all runs and the free blocks counted total the table |
| `HeapTable.HeapRefinement` | src/memory/heap/kheap.c:91-193 | over every run of fitting kmalloc calls and kfree of live pointers the table keeps one meaning, each call does to it what the abstract allocator does, and blocks are conserved |
| `MachineState.BlockOfInside` | src/memory/heap/kheap.c:81-89 | every address inside a block leads back to the block, so kfree works on any of them |
| `MachineState.NumBlocksCovers` | src/memory/heap/kheap.c:91-95 | the blocks counted hold the bytes asked for exactly when the 32-bit rounding does not wrap; when it does, the count is zero |
| `MachineState.KmallocMeaning` | src/memory/heap/kheap.c:91-158 | null exactly when nothing fits, otherwise a page-aligned run at the lowest fit, apart from every live run; memory contents stay |
| `MachineState.KmallocExact` | src/memory/heap/kheap.c:91-158 | on any table, in bytes: the address of the lowest run of entries with a zero low half that is long enough, at least one block; its entries 0xc1, 0x81 and 0x01, or 0x41; no other byte |
| `MachineState.KzallocExact` | src/memory/heap/kheap.c:178-182 | on any table, which bytes of memory and of the table are cleared, with a block and without |
| `MachineState.KfreeMeaning` | src/memory/heap/kheap.c:160-176 | kfree of any address in a live run's first block removes the run |
| `MachineState.KfreeExact` | src/memory/heap/kheap.c:160-176 | of any pointer: below 0x1000000 nothing happens, above it the entries of the run from its block on are cleared; memory stays |
| `MachineState.KfreeNull` | src/memory/heap/kheap.c:160-176 | kfree of null changes nothing, because the block it computes is past the table |
| `MachineState.FailedKzalloc` | src/memory/heap/kheap.c:178-182 | a kzalloc that finds nothing, which clears memory from address zero, leaves the block table alone exactly when every entry it reaches is free; with at most 0x7e00 bytes it always does |
| `MachineState.FailedKzallocClearsTable` | src/memory/heap/kheap.c:178-182 | a failed kzalloc of a megabyte marks a taken block free |
| `MachineState.CopiedExact` | src/memory/memory.c:22-28 | the byte loop of memcpy on any two ranges: where each byte comes from, also when the source runs into the destination and its first bytes repeat; nothing else changes |
| `MachineState.CopiedMeaning` | src/memory/memory.c:22-28 | when the ranges are apart it copies its range |
| `MachineState.Memcpy` | src/memory/memory.c:22-28 | in place it is `Copied`, for any two ranges, with addresses in 32 bits |
| `KernelHeap.KHeap.constructor` | src/memory/heap/kheap.c:24-75 | a new heap has every block free |
| `KernelHeap.KHeap.ProbeAt` | src/memory/heap/kheap.c:104-116 | the inner loop finds exactly the runs of free entries |
| `KernelHeap.KHeap.FindFit` | src/memory/heap/kheap.c:95-127 | the search loop computes the first fit |
| `KernelHeap.KHeap.MarkRun` | src/memory/heap/kheap.c:129-157 | the marking loop writes exactly the bytes of a run |
| `KernelHeap.KHeap.ClearEntries` | src/memory/heap/kheap.c:178-182 | the part of the block table that the memset of a null result clears |
| `KernelHeap.KHeap.Malloc` | src/memory/heap/kheap.c:91-158 | kmalloc in place is `Kmalloc` |
| `KernelHeap.KHeap.Zalloc` | src/memory/heap/kheap.c:178-182 | kzalloc in place is `Kzalloc`: kmalloc and zeroed bytes, at address zero when there is no block |
| `KernelHeap.KHeap.Free` | src/memory/heap/kheap.c:160-176 | kfree in place is `Kfree`, for any pointer |
| `KernelHeap.KHeap.NumFreeBlocks` | src/memory/heap/kheap.c:184-193 | the count is the number of free entries |
| `Memory.Fill` | src/memory/memory.c:3-9 | memset writes its range and nothing else |
| `Memory.PagesPut` | src/memory/paging/paging.c:110-117 | writing four bytes changes one entry of one page of words |
| `PageWalk.LeafIs` | src/memory/paging/paging.c:73-120 | in a well-formed table a page is found through the table of its slot and only there |
| `PageWalk.RightsAfterMapping` | src/memory/paging/paging.c:110-117 | after a PRESENT mapping call the effective rights (section 4.6 of Intel SDM Volume 3A) of each page in a touched slot are its entry's flags AND the call's flags; other slots keep theirs |
| `PageWalk.NeighbourRights` | src/memory/paging/paging.c:110-117 | exactly when a page outside the mapped region keeps its rights |
| `PageWalk.ReadOnlyMappingRevokesWrite` | src/memory/paging/paging.c:110-117 | one read-only mapping takes the write right from all pages of its 4 MiB slots |
| `PagingSpec.MapOneMeaning` | src/memory/paging/paging.c:73-120 | one page mapped: its leaf is the entry, the directory flags of its slot change, nothing else does; a missing table is a fresh zeroed block; failure exactly when that block is missing, and then no page moves |
| `PagingSpec.MapManyMeaning` | src/memory/paging/paging.c:344-350 | a mapping loop maps a prefix of its region, all of it unless a table is missing and no block is left; with every table there it takes no block |
| `PagingSpec.MapRegionMeaning` | src/memory/paging/paging.c:326-353 | on full tables the region is mapped, frames in order, and the heap table stays |
| `PagingSpec.FreeManyMeaning` | src/memory/paging/paging.c:132-160 | unmapping removes exactly the pages of the range, whether mapped or not |
| `PagingSpec.FreeVaMeaning` | src/memory/paging/paging.c:226-241 | paging_free_va removes the pages from the start's page through the end rounded up |
| `PagingSpec.TranslateInRegion` | src/memory/paging/paging.c:326-353 | inside a mapped region virtual and physical addresses advance together |
| `PagingLife.FillFromMeaning` | src/memory/paging/paging.c:43-47 | a second-level table is filled with consecutive frames |
| `PagingLife.CreateMeaning` | src/memory/paging/paging.c:18-55 | creation succeeds exactly when 1025 blocks are free, and gives the identity map over all 2^20 pages in blocks no one held, writing nothing else; otherwise the heap table is as it was |
| `PagingLife.AddTablesSucceeds` | src/memory/paging/paging.c:26-50 | the slots that are left get their tables exactly when as many blocks are free |
| `PagingLife.UndoMeaning` | src/memory/paging/paging.c:29-41 | the failure branch gives back the directory and every table made so far |
| `PagingLife.FreeTablesMeaning` | src/memory/paging/paging.c:205-219 | paging_free_page_table gives back exactly the directory and its tables |
| `PagingLife.PageTableRefinement` | src/memory/paging/paging.c:73-353 | over every run of PRESENT map and unmap calls the two-level walk is the flat map the calls update pointwise; tables never alias and no block is taken |
| `PagingLife.LifeCycleConservesHeap` | src/memory/paging/paging.c:18-219 | create, any such run, free: the heap table is restored exactly |
| `HardwareWalk.WalkIs` | src/memory/paging/paging.c:73-120 | the walk over pages of words is the one the processor makes over bytes: address bits 31-22 and 21-12 as indices, little-endian entries, bits 0 to 2 for present, write and user, rights as the AND of both levels (section 4.3 of Intel SDM Volume 3A) |
| `HardwareWalk.CreateExact` | src/memory/paging/paging.c:18-55 | after creation every address leads to itself, with the rights of the flags |
| `HardwareWalk.MapExact` | src/memory/paging/paging.c:326-353 | on full tables a call is refused exactly when an address is not a multiple of 4096 or the region is empty; otherwise each address of it leads as far from the physical start as it is from the virtual one, modulo 2^32, with the rights of the flags, and no other address leads elsewhere than before |
| `HardwareWalk.MapAsFar` | src/memory/paging/paging.c:326-353 | on any tables the call maps a prefix of its region, address by address, and fails exactly when it does not get to the end, and then no block is free |
| `HardwareWalk.FreeExact` | src/memory/paging/paging.c:226-241 | a range the wrong way round is refused; otherwise the addresses of the pages around the range lead nowhere, and all others where they did, with the same rights |
| `HardwareWalk.FreeVaEntries` | src/memory/paging/paging.c:132-160 | in the tables, the entries of those pages that were present are zero and no other changes |
| `SparsePaging.MapOneAbsent` | src/memory/paging/paging.c:73-120 | a page mapped without PRESENT unmaps every page of its 4 MiB slot and leaves the slot without a table |
| `SparsePaging.PrefixMapped` | src/memory/paging/paging.c:344-350 | a mapping loop with PRESENT maps a prefix of its pages, stops exactly where the next slot has no table and no block is free, and keeps tables and free blocks together as many |
| `SparsePaging.SparseRefinement` | src/memory/paging/paging.c:73-353 | over every run of map and unmap calls with any flags, on any tables, walk, tables and free blocks are those of a machine that maps page by page and takes a block for each missing table |
| `SparsePaging.TablesConserved` | src/memory/paging/paging.c:73-353 | in a run of PRESENT calls no table is lost and every block taken is a table |
| `Paging.PageTable.NewVpnToPfn` | src/memory/paging/paging.c:73-120 | in place it is `MapOne` |
| `Paging.PageTable.MapMemoryRegion` | src/memory/paging/paging.c:326-353 | in place it is `MapRegion`, with its status |
| `Paging.PageTable.FreeVpn` | src/memory/paging/paging.c:132-160 | in place it is `FreeOne` |
| `Paging.PageTable.FreeVaRange` | src/memory/paging/paging.c:226-241 | in place it is `FreeVa`, with its status |
| `Paging.PageTable.FreePageTable` | src/memory/paging/paging.c:205-219 | in place it is `FreeTables` |
| `Paging.PageTable.FillTable` | src/memory/paging/paging.c:43-47 | the inner loop of creation |
| `Paging.PageTable.Create4gbPageTables` | src/memory/paging/paging.c:18-55 | in place it is `CreateTables`, with its status |
| `VmemSpec.FindMeaning` | src/task/process.c:231-238 | the first block that starts at the address, or none |
| `VmemSpec.KernelRights` | src/task/task.c:130-132 | a kernel-mapped page is identity mapped, writable and out of the user's reach |
| `VmemSpec.NewSpaceOk` | src/task/task.c:18-45 | the page table of a new task maps the kernel |
| `VmemSpec.MmapMeaning` | src/syscall/umem.c:16-72 | for any block table, success maps exactly the region to zeroed blocks no one held, with the asked rights, and records it; a call that fails moves no page and leaves heap and block table; the kernel mapping stands in both cases, and pages the user may write stay so |
| `VmemSpec.MmapExact` | src/syscall/umem.c:16-72 | success exactly for multiples of 4096 with 0x8000000 <= start < end that find as many free blocks in a row and an unused entry; which status each other call gets, and exactly when; the rights granted |
| `VmemSpec.MmapGivesBack` | src/syscall/umem.c:43-68 | on any tables, a call that fails leaves the blocks of its region free, every earlier allocation and table in place, and no entry recorded |
| `VmemSpec.MmapUndefined` | src/syscall/umem.c:43-48 | exactly when the outcome is outside the model: the scan of kmalloc leaves its table, or nothing fits and the memset of null reaches the table |
| `VmemSpec.FreeBlockMeaning` | src/task/process.c:240-257 | for any block table, munmap unmaps exactly the pages of the first block recorded at the address and clears its entry, or refuses and changes nothing; no heap block is given back |
| `VmemSpec.MunmapUndoesMmap` | src/syscall/umem.c:16-82 | munmap after mmap restores the block table, when its unused entries are clear, and every page outside the region, and the region is unmapped |
| `VmemSpec.ExitMeaning` | src/task/process.c:174-178 | exit unmaps exactly the pages of recorded blocks and clears the table of blocks |
| `VmemSpec.ExitKernelMapping` | src/task/process.c:174-178 | exit keeps the kernel mapping exactly when no recorded block reaches below the boundary |
| `VmemSpec.MunmapKernelMapping` | src/syscall/umem.c:78-82 | munmap keeps the kernel mapping exactly when the block it finds does not reach below the boundary |
| `VmemSpec.StepKernelMapping` | src/syscall/umem.c:16-82 | any mmap, munmap or exit keeps the kernel mapping exactly when munmap finds, and exit meets, no block that reaches below the boundary |
| `VmemSpec.KernelMappingRuns` | src/syscall/umem.c:16-82 | over every run with modelled outcomes, from any block table, the kernel is mapped in every state exactly when every step spares it |
| `VmemSpec.KernelMappingInvariant` | src/syscall/umem.c:16-82 | with blocks from mmap every step spares the kernel: each page below the boundary stays identity mapped, writable, not user accessible, and directory entries 0 to 31 never change |
| `Vmem.Process.GetVmemBlock` | src/task/process.c:231-238 | the search loop is `Find` |
| `Vmem.Process.FreeVmemBlock` | src/task/process.c:240-257 | in place it is `FreeBlock` |
| `Vmem.Process.SyscallMmap` | src/syscall/umem.c:16-72 | in place it is `Mmap`, with its status, which `VmemSpec.MmapExact` states outright |
| `Vmem.Process.ExitVmemBlocks` | src/task/process.c:174-178 | the loop of exit over the blocks |
| `Vmem.Process.ReadPhdr` | src/loader/elfloader.c:60-70 | the program header read from memory is `PhdrAt`, whose fields `ElfFormat.PhdrRoundTrip` places |
| `Vmem.Process.LoadSource` | src/task/process.c:278-307 | where a segment's pages come from: the file, or a zeroed copy |
| `Vmem.Process.LoadSegment` | src/task/process.c:271-335 | one turn of the loop over program headers |
| `Vmem.Process.ProcessMapElf` | src/task/process.c:260-348 | in place it is `MapElf`, with its status; `ElfLoading.ElfLoads` and `ElfLoadsExactly` say from the bytes of the file what that comes to |
| `Loader.SegmentMeaning` | src/task/process.c:271-335 | one segment: its bytes are seen at its addresses, other pages and all data stay |
| `Loader.SegmentsMeaning` | src/task/process.c:271-335 | every segment is seen at the end, none undone by a later one |
| `Loader.MapStack` | src/task/process.c:339-345 | the stack block is seen below the stack start, with read and write rights at both levels |
| `Loader.LoaderCorrect` | src/task/process.c:260-348 | after process_map_elf the process reads file byte p_offset+k at p_vaddr+k for k below p_filesz and zero up to p_memsz, for every PT_LOAD segment, as the Program Header section of the TIS ELF Specification 1.2 requires; the page entries grant the user the rights the segment asks for, and the stack pages can be read and written |
| `Loader.LoaderSucceeds` | src/task/process.c:260-348 | process_map_elf succeeds on a placeable file exactly when each segment with a zero tail, in turn, finds the blocks for its copy |
| `Loader.PlacementExact` | src/task/process.c:278-335 | the alignment conditions are exact: a byte is at its place only when p_vaddr and p_offset agree modulo the page, or p_vaddr is aligned for a copy |
| `ElfFormat.PhdrRoundTrip` | src/loader/elf.h:65-74 | reading a program header gives back the fields that eight little-endian words in the order of the TIS ELF Specification encode |
| `ElfFormat.EhdrRoundTrip` | src/loader/elf.h:88-104 | reading e_phoff at byte 28 and the 16-bit e_phnum at byte 44 gives back the fields of an encoded ELF header |
| `ElfLoading.ElfLoads` | src/task/process.c:260-348 | for a file that encodes the given headers: after process_map_elf each PT_LOAD segment reads as its file bytes and then zeros, with the rights of its flags; the stack is at 0x83fb000 to 0x83ff000 with all rights; every other page is as before |
| `ElfLoading.ElfLoadsExactly` | src/task/process.c:260-348 | for such a file the call succeeds exactly when each segment with a zero tail, in turn, finds the lowest free run of blocks for its copy |
| `ElfLoading.OddHeaders` | src/task/process.c:274-290 | in any state a header that is not PT_LOAD or has no size is passed over, and one with more bytes in the file than in memory stops the kernel |
| `ElfLoading.SegmentRecorded` | src/task/process.c:286-307 | a copy is recorded from its first byte to past its last in the first unused entry, if there is one, and nothing else is |
| `Arguments.PointersMeaning` | src/task/process.c:481-491 | the pointer loop stores the user address of each string |
| `Arguments.WritesInsideBlock` | src/task/process.c:435-507 | of all calls that pass the 32-bit size guard, exactly which ones write only inside the stack block: with a positive count those whose pointers, bytes and 8 more fit without wraparound, with a negative one those whose single pointer and two words do |
| `Arguments.GuardWraps` | src/task/process.c:456-491 | 2^30 + 1 arguments in 8 bytes, and minus three in 12, pass the guard and write past the block; minus three in 20 pass it and do not |
| `Arguments.GuardExact` | src/task/process.c:456-459 | for every count and length: refused exactly when 4 argc + len, modulo 2^32, exceeds 0x4000, otherwise accepted; a refused call writes nothing and leaves the stack pointer at 0x83ff000, an accepted one moves it by the bytes it writes |
| `Arguments.NoArguments` | src/task/process.c:493-506 | without arguments argc is zero at 8 bytes below the top, argv above it is whatever its variable held, and nothing else is written |
| `Arguments.PointersLog` | src/task/process.c:481-491 | the pointer loop writes the cells of its array and nothing else, whatever the strings are |
| `Arguments.ArgcAtLowest` | src/task/process.c:493-506 | argc is at the lowest address written, which the stack pointer names |
| `Arguments.GuardLeavesOutEightBytes` | src/task/process.c:456-459 | a call that passes the guard and writes argc below the block |
| `Arguments.ArgumentsRoundTrip` | src/task/process.c:435-507 | decoding argc and argv from esp through the page table gives the argument strings in order, on the stack; nothing outside the stack block changes |
| `Arguments.SetPointers` | src/task/process.c:481-491 | the pointer loop in place |
| `Arguments.ProcessAddArguments` | src/task/process.c:435-507 | in place it is `AddArguments`, with the stack pointer and status, which `GuardExact` states outright |
| `ProcessImage.ElfKernelMapping` | src/task/process.c:260-348 | process_map_elf keeps the kernel mapping exactly when no loadable segment starts below the boundary |
| `ProcessImage.BssUnmapsKernelPage` | src/task/process.c:286-307 | a segment with a zero tail records its physical heap range, so that exit, and a munmap that finds the entry, unmap a kernel page |
| `ProcessImage.SegmentRights` | src/task/process.c:309-335 | the effective rights of each page of each segment, as the AND of both levels: the user may write exactly when the segment asks for it and the last mapping in its 4 MiB slot grants it |
| `ProcessImage.RightsAsAsked` | src/task/process.c:309-335 | after process_map_elf, every page of a segment has the rights it asks for exactly when it asks for no writing or the last mapping in each of its slots grants it |
| `ProcessImage.PassArgumentsMeaning` | src/syscall/proc_mgmt.c:23-28 | passing the arguments keeps image, kernel mapping and heap table, and main finds them, also when there is no block for the kernel copy and it lies at address zero |
| `ProcessImage.ProcessBuilt` | src/task/process.c:376-428 | from file and stack block through table creation, process_map_elf, which succeeds when the copies fit, and the arguments: one process sees its whole image, its stack and its arguments, with the kernel mapped and out of its reach |
| `SegmentFrames.ElfFrames` | src/task/process.c:260-348 | the whole page table after process_map_elf: each segment frame after frame in the file or in a block of its own, the stack in its block, every other page as before |
| `SegmentFrames.SegmentsAlias` | src/task/process.c:278-335 | two pages of segments share a frame exactly when they are one page or show the same page of the file |
| `SegmentFrames.SegmentsApart` | src/task/process.c:278-335 | writes to one segment never show in another exactly when one of them has a copy or they show different pages of the file |
| `SegmentFrames.StackAlone` | src/task/process.c:339-345 | no segment shares a frame with the stack |
| `UserFrames.ConfinedReach` | src/task/process.c:260-348 | in a confined process a page with the user right is in a data allocation of the heap, below the boundary and in no page table |
| `UserFrames.NewConfined` | src/task/task.c:18-45 | new tables are confined: no page is the user's |
| `UserFrames.ElfConfined` | src/task/process.c:260-348 | loading keeps a process confined |
| `UserFrames.MmapConfined` | src/syscall/umem.c:16-72 | so does mmap, whatever its outcome in the model |
| `UserFrames.ConfinedRuns` | src/syscall/umem.c:16-82 | over every run of mmap, munmap and exit that spares the kernel the user reaches nothing but data, and no page table |
| `UserFrames.ProcessConfined` | src/task/process.c:376-428 | a process built from its file with its arguments passed is confined |
| `ProcessHeap.MmapKeepsData` | src/syscall/umem.c:16-72 | mmap changes no byte of any earlier allocation that is not a page table |
| `ProcessHeap.MmapKeepsProgram` | src/syscall/umem.c:16-72 | an mmap of pages away from the program, or one that fails, leaves image, stack and arguments as they were |
| `ProcessHeap.MallocKeepsProgram` | programs/stdlib/src/stdlib.c:34-52 | so does a malloc, while the heap stays clear of the program |
| `ProcessHeap.ProgramWithHeap` | programs/stdlib/src/stdlib.c:30-52 | a process built from its file, after any run of malloc calls clear of the program: image, stack and arguments are intact, each block is its own to read and write, the kernel is mapped and out of its reach, and it is confined to data |
| `CString.Strlen` | src/lib/string/string.c:4-10 | the bytes before the NUL |
| `Lifecycle.CreateExact` | src/syscall/proc_mgmt.c:14-35 | for want of a slot create fails only when all are in use; the child takes the lowest free slot as pid, has the caller as parent, goes last in the list, can run exactly when its arguments were added, and its parent can wait for it; no other slot changes |
| `Creation.ArgumentsDecide` | src/syscall/proc_mgmt.c:14-35 | the child can run exactly when 4 argc + len, modulo 2^32, is at most 0x4000; otherwise it stays in creation, and a clock step that comes to it panics |
| `Lifecycle.ExitExact` | src/task/process.c:149-193 | exit and exception hand over to the first ready task and panic exactly when there is none or its process is still being created; of the slots only the caller's changes, and of it only state and exit status, -15 for an exception; of the tasks only those two, and only in state |
| `Lifecycle.ZombieStays` | src/task/process.c:141-147 | a zombie keeps its slot, parent and exit status through every step but its parent's wait for it |
| `Lifecycle.ZombieStaysOverRuns` | src/task/process.c:141-147 | so it does through every run without that wait |
| `Lifecycle.ParentReaps` | src/task/process.c:130-193 | after an exit or an exception, and any such run, the parent's wait succeeds, empties exactly the slot of the child and takes exactly its task off the list |
| `Lifecycle.WaitExact` | src/task/process.c:130-147 | wait reaps exactly a zombie child of the caller, and the order of the list stays; all other waits change nothing and say why |
| `Lifecycle.WaitKeeps` | src/task/process.c:130-147 | wait never panics and never frees the current task |
| `Lifecycle.ClockExact` | src/task/task.c:220-239 | a clock step hangs exactly when the cyclic successor is another, dead task, panics exactly when it is still being created, and otherwise runs it and makes the caller ready, with no other change |
| `Lifecycle.ZombieSuccessorHangs` | src/task/task.c:220-239 | create, clock, exit, clock from boot: the last step never ends |
| `Lifecycle.BootInv` | src/kernel.c:79-91 | the invariant holds once the shell, alone and its own parent, runs |
| `Lifecycle.StepKeeps` | src/idt/idt.c:50-62 | every handler that returns keeps the invariant |
| `Lifecycle.LifeCycleInvariant` | src/task/task.c:47-158 | over every run of create, exit, exception, waitpid and clock steps: the current task is listed and the only running one, a task is dead exactly when its process is a zombie, each used slot has its own number as pid and exactly one task |
| `Lifecycle.RoundRobin` | src/task/task.c:220-239 | while all n listed tasks can run, n clock steps run each task exactly once, in list order |
| `TaskList.TaskQueue.Append` | src/task/task.c:47-75 | the list stays doubly linked with the new task last |
| `TaskList.TaskQueue.Unlink` | src/task/task.c:96-108 | the list stays doubly linked without the task |
| `TaskList.TaskQueue.FindReady` | src/task/task.c:145-158 | the first ready task from the head |
| `TaskList.TaskQueue.Next` | src/task/task.c:77-85 | the cyclic successor |
| `TaskList.Scheduler.constructor` | src/kernel.c:79-91 | boot leaves the state `Boot` with every link in order |
| `TaskList.Scheduler.GetFreeSlot` | src/task/process.c:99-106 | the lowest unused slot |
| `TaskList.Scheduler.GetProcByPid` | src/task/process.c:119-126 | the lowest slot with the pid |
| `TaskList.Scheduler.CreateProcess` | src/task/process.c:376-428 | in place it is `DoCreate`, and tasks and processes point at each other |
| `TaskList.Scheduler.SwitchAndRun` | src/task/task.c:118-143 | in place it is `SwitchTo` |
| `TaskList.Scheduler.MarkExited` | src/task/process.c:149-193 | the task dead and the process a zombie with its status |
| `TaskList.Scheduler.ExitCurrent` | src/syscall/proc_mgmt.c:45-54 | in place it is `DoExit`, list and links kept |
| `TaskList.Scheduler.HandleException` | src/idt/idt.c:50-54 | in place it is the step `Exception` |
| `TaskList.Scheduler.Reap` | src/task/process.c:108-137 | the task leaves the list and its slot is emptied |
| `TaskList.Scheduler.WaitPid` | src/task/process.c:141-147 | in place it is `DoWait`, with its status, list and links kept |
| `TaskList.Scheduler.ClockTick` | src/task/task.c:220-239 | in place it is `DoClock`, telling switch, panic and endless loop apart |
| `Stream.DiskStream.Turn` | src/disk/streamer.c:33-47 | one sector read and its copy put the bytes of the disk at the position, at least one, at the target |
| `Stream.BufferTaken` | src/disk/streamer.c:28-50 | the sector buffer is in a free block, or at address zero when there is none, and giving it back restores the heap table in both cases |
| `Stream.DiskStream.Read` | src/disk/streamer.c:25-52 | disk[offset..offset+size] is at the target address, the offset moves by size, the heap table is unchanged and no other memory is written but free blocks, or the first 512 bytes when no block is free |
| `Stream.DiskStream.ReadInTwo` | src/disk/streamer.c:25-52 | reading a bytes and then b is reading a + b |
| `FatSpec.WalkFails` | src/fs/fat/fat16.c:343-381 | a chain walk fails exactly when some link on its way is missing |
| `FatSpec.WalkOn` | src/fs/fat/fat16.c:343-381 | walking on from where a walk stopped is one longer walk |
| `FatSpec.ReadAt` | src/fs/fat/fat16.c:383-426 | which byte of the disk each byte of a read is, for every offset |
| `FatSpec.ReadsInPlace` | src/fs/fat/fat16.c:383-426 | a read takes every byte from its place in the file exactly when each chunk stays in its cluster or the next cluster is adjacent |
| `FatSpec.ChainRead` | src/fs/fat/fat16.c:383-426 | such a read returns the slice of the clusters in one walk along the chain |
| `FatSpec.AlignedFollows` | src/fs/fat/fat16.c:383-426 | cluster-aligned reads and reads inside a cluster are such reads |
| `FatSpec.ReadLeavesChain` | src/fs/fat/fat16.c:407-408 | a read over a cluster edge that returns a byte of another cluster |
| `FatSpec.FailedWalkUnreported` | src/fs/fat/fat16.c:397-405 | a failed walk is not reported; the read goes on three clusters before the data area |
| `FatSpec.ItemsRoundTrip` | src/fs/fat/fat16.c:606-627 | items that follow the chain are the file's bytes without a gap |
| `FatSpec.LinkExact` | src/fs/fat/fat16.c:319-381 | the link of a cluster is the four bytes at twice its number after the reserved sectors of 512 bytes; which values end a walk |
| `FatSpec.ClusterPlaced` | src/fs/fat/fat16.c:194-233 | cluster 2 starts at the first sector at or after the end of the root directory, which follows the reserved sectors and the tables, and cluster c as many clusters later |
| `FatSpec.PositionExact` | src/fs/fat/fat16.c:313-317 | the position of byte o of cluster c, for any c, is (first + (c - 2) * sectors per cluster) * 512 + o modulo 2^32, where first is the first sector after the root directory |
| `FatSpec.ClustersApart` | src/fs/fat/fat16.c:313-317 | clusters do not overlap, and no byte of one is in the reserved sectors, in a copy of the table or in the root directory, as the FAT Data Structure section of Microsoft's FAT specification places them |
| `FatSpec.OwnVolume` | src/boot/boot.asm:15-21 | on the volume of the boot sector the root directory is at sector 712 and cluster 2 at sector 716, with 64 KiB to a cluster |
| `FatSpec.LinkIsEntry` | src/fs/fat/fat16.c:319-341 | the four-byte link is the 16-bit table entry exactly when the next entry is zero |
| `Fat16.FileSystem.GetFatEntry` | src/fs/fat/fat16.c:319-341 | the entry read four bytes wide through the stream into a local variable; no other memory changes but the sector buffer |
| `Fat16.FileSystem.GetClusterAt` | src/fs/fat/fat16.c:343-381 | the walk in place is `Walk`; no memory changes but the local variable and the sector buffer |
| `Fat16.FileSystem.ReadFileData` | src/fs/fat/fat16.c:383-426 | the bytes of `DataRead` are at the target, other memory and the heap table are kept; the status is always success |
| `Fat16.FileSystem.Read` | src/fs/fat/fat16.c:606-627 | the bytes of `ItemsRead` are at the target, other memory and the heap table are kept; the position moves past the items |
| `ElfFile.WholeFile` | src/loader/elfloader.c:181-187 | one read of a file from its start gives the bytes of its cluster chain without a gap |
| `ElfFile.Grab` | src/loader/elfloader.c:162-186 | kzalloc with its outcomes: a new allocation exactly when the scan finds one |
| `ElfFile.LoadFile` | src/loader/elfloader.c:161-196 | process_new with elf_load, up to the file in memory: it succeeds exactly when the file is not empty and stack, descriptor and file find their blocks, and then the heap holds the file as its cluster chain has it and the stack block, as ProcessBuilt asks |
| `PathText.PathExact` | src/fs/utils.c:9-44 | a path is valid exactly when it starts with a digit, ':' and '/'; its prefix and its parts joined with '/' are its first 108 bytes, and no part holds a '/' |
| `PathText.SplitRoundTrip` | src/fs/utils.c:35-44 | joining the parts with '/' gives the text back and no part holds a '/' |
| `PathText.SplitUnique` | src/fs/utils.c:35-44 | the parts are the only such pieces |
| `PathText.NulledStrings` | src/fs/utils.c:35-44 | the cut copy holds the parts as C strings one after the other |
| `Paths.Strnlen` | src/lib/string/string.c:12-18 | the length cut at the longest path |
| `Paths.CutParts` | src/fs/utils.c:32-44 | the loop cuts the copy, links a part for each piece and takes one block for it |
| `Paths.ParsePath` | src/fs/utils.c:9-47 | null exactly for an invalid path; otherwise drive number, linked parts whose names are the pieces, and one heap block for each node, the path and the copy; memory outside those blocks is as before |
| `Paths.FreePath` | src/fs/utils.c:49-58 | the heap table is again exactly the one before the parse, though the copy is freed by an address 3 bytes into its block |
| `Strtok.PiecesExact` | programs/stdlib/src/stdlib.c:234-279 | the pieces found are exactly the non-empty maximal stretches without delimiters |
| `Strtok.PiecesOrdered` | programs/stdlib/src/stdlib.c:234-279 | they come in order with a delimiter in between |
| `Strtok.CutBytes` | programs/stdlib/src/stdlib.c:264-276 | the only bytes changed are those that end a token, and they become NUL |
| `Strtok.TokensInPlace` | programs/stdlib/src/stdlib.c:264-279 | in the cut buffer each token is a string of its own |
| `Strtok.Tokenizer.Next` | programs/stdlib/src/stdlib.c:234-279 | one call: the next piece or null, the byte cut, the saved pointer |
| `Strtok.Tokenizer.All` | programs/stdlib/src/stdlib.c:234-279 | calls until null return the pieces in order, reset the saved pointer, and leave the buffer cut after each |
| `Numbers.FoldDigits` | programs/stdlib/src/stdlib.c:98-114 | reading the digits of a number gives it back and no step overflows |
| `Numbers.FoldIsDecimal` | programs/stdlib/src/stdlib.c:107-112 | whatever the characters, the digit loop computes their decimal number modulo 2^32 |
| `Numbers.ParseExact` | programs/stdlib/src/stdlib.c:98-114 | atoi of any string is the decimal number of the first 13 characters after a minus sign, if there is one, modulo 2^32 |
| `Numbers.TextExact` | programs/stdlib/src/stdlib.c:69-96 | the text of every number but the smallest is a minus sign, if it is negative, and its decimal digits with no leading zero |
| `Numbers.TextFits` | programs/stdlib/src/stdlib.c:69-96 | the text takes 1 to 11 bytes and its NUL |
| `Numbers.NumberRoundTrip` | programs/stdlib/src/stdlib.c:69-114 | atoi(itoa(x)) is x exactly when x is not the smallest integer, whose text is "-0" |
| `Numbers.CountDigits` | programs/stdlib/src/stdlib.c:75-81 | how many digits the number has; none for the smallest integer |
| `Numbers.PeelDigits` | programs/stdlib/src/stdlib.c:87-91 | the digits last one first |
| `Numbers.Itoa` | programs/stdlib/src/stdlib.c:69-96 | the text of the number and a NUL, and no other byte |
| `Numbers.Atoi` | programs/stdlib/src/stdlib.c:98-114 | sign, at most 13 characters, 32-bit steps |
| `UserHeap.MallocLayout` | programs/stdlib/src/stdlib.c:34-52 | in any state, modulo 2^32: the block is size bytes below heap_curr with 8 for its header; memory is asked for exactly when that is below heap_end, from heap_end less size and header, rounded down to 4096, up to heap_end; a refusal changes nothing |
| `UserHeap.MallocExact` | programs/stdlib/src/stdlib.c:34-52 | a call that returns a block keeps the invariant and puts the block below the earlier ones exactly when no address wraps around |
| `UserHeap.MallocFails` | programs/stdlib/src/stdlib.c:34-52 | null exactly when memory is needed and mmap fails, and then nothing changes |
| `UserHeap.HugeRequestWraps` | programs/stdlib/src/stdlib.c:35-36 | a request that wraps around gets a block above the heap |
| `UserHeap.HeapRuns` | programs/stdlib/src/stdlib.c:30-52 | over every run without wraparound heap_end is page aligned and heap_end <= heap_curr <= HEAP_TOP, blocks with headers are pairwise disjoint, and the successful mmaps are together exactly the heap |
| `UserHeap.BlocksMapped` | programs/stdlib/src/stdlib.c:30-52 | every byte of every block is mapped and belongs to no other block |
| `UserHeap.Allocator.Alloc` | programs/stdlib/src/stdlib.c:34-52 | in place it is `Malloc`, for any size; nothing is written but the header of the block, and nothing at all when mmap refuses |
| `MallocMemory.MallocKeeps` | programs/stdlib/src/stdlib.c:34-52 | one malloc, with the mmap it makes, keeps the heap in order exactly when it fits below heap_curr, or, for the eight largest sizes, the heap has to grow and the kernel refuses; then the heap is usable through the page table |
| `MallocMemory.ReversedRegion` | programs/stdlib/src/stdlib.c:37-43 | a request between heap_end and heap_curr wraps around to a region the wrong way round, which mmap refuses |
| `MallocMemory.NoGrowth` | programs/stdlib/src/stdlib.c:35-37 | a request above heap_curr whose sum with the header does not wrap asks for no memory |
| `MallocMemory.BlockPastTop` | programs/stdlib/src/stdlib.c:35-52 | a larger request that is not refused gets a block past the top of the heap |
| `MallocMemory.MallocRuns` | programs/stdlib/src/stdlib.c:30-52 | over every run of malloc calls that the heap survives, whatever the block table holds, each byte of each block is the process's to read and write through its page table and in no other block, and at most ten calls map memory |

## Left out

- Boot code, assembly stubs, port I/O, the ATA polling loop, PIC and PS/2 handling: hardware effects. The disk is a sequence of bytes whose sector reads succeed, and each interrupt handler is one step.
- Console, printf, readline, the shell and the other programs: user interface.
- TLB flushes and the cr3 load: only the current page table is modelled.
- The flat-binary path of process loading: never taken, because the fallback test compares a negative status with a positive code (src/task/process.c:75).
- The frees of the ELF image and the stack block in process_exit, and task registers: the scheduler model follows states, slots and links, and the memory models follow tables and blocks.
- Heap conservation for a whole process: mmap memory, .bss copies and the elf_file struct are not freed by the source.
- paging_alloc_mapping, paging_map_page and mapping without overwrite: not used by the paths modelled.
- The FAT header: `Volume` takes the fields of the boot sector that the read path uses as given.
- Directory search, 8.3 names, file descriptors, the keyboard ring, GDT and IDT packing: none of them is on the way from a file to the memory of a process, or shares state with what is modelled.
- Opening the ELF file and its header checks: `ElfFile` starts from an open descriptor and the size of the file, and program headers outside the file are excluded by `Placeable` and `GoodHeaders`.
- KernelHeap.KHeap.constructor: the alignment and size checks of kheap_create are not modelled; its one caller passes constants that meet them.
- KernelHeap.KHeap.ProbeAt: like FindFit, requires a scan that stays in the table.
- KernelHeap.KHeap.FindFit: requires a scan that stays in the table, as Malloc does.
- KernelHeap.KHeap.Malloc: requires a scan that stays in the table, because what the source reads past it is not part of the model; `HeapTable.ScanMeaning` says exactly when that is. mmap and the loader give the status `Undefined` in that case.
- KernelHeap.KHeap.Zalloc: requires a scan that stays in the table and a size that does not wrap when rounded up. The memset of a null result is modelled; what kernel code and other low memory it destroys is not, so mmap and the loader give `Undefined` once it reaches the block table at 0x7e00.
- Vmem.Process.SyscallMmap: gives `Undefined` for the two outcomes of `VmemSpec.MmapUndefined`, after which the source runs on from memory the model does not have.
- Vmem.Process.LoadSource: gives `Undefined` in the same two cases, and for a segment above 0xfffff000 bytes.
- PagingSpec.MapOneMeaning: for flags with PRESENT, which all callers pass; `SparsePaging.MapOneAbsent` has the others.
- PagingSpec.MapManyMeaning: for flags with PRESENT; `SparsePaging.SparseRefinement` has any flags.
- PagingLife.CreateMeaning: for flags with PRESENT, which its callers pass.
- Paging.PageTable.NewVpnToPfn: overwrite = true only; the other value is not used on the paths modelled.
- Arguments.ProcessAddArguments: a strlen that meets no NUL before the end of the 32-bit address space ends there; the kernel code that a wrapped loop overwrites is not modelled.
- TaskList.Scheduler.CreateProcess: does not model a failing task_new, after which process_new returns success with no process, a failing process_map_memory, or the pid or error returned; a failure to load, a failure to add arguments and success are modelled.
- TaskList.Scheduler.ClockTick: reports the endless scan of the source as a result, because a loop that never ends has no state after it.
- Stream.DiskStream.Read: the range read is on the disk, because sector reads succeed here, and the target is apart from the sector buffer and the block table, whose bytes the model keeps in the table only.
- Fat16.FileSystem.GetFatEntry: requires the table entry on the disk.
- Fat16.FileSystem.GetClusterAt: requires offsets below 2^31 and table entries on the disk, as ReadFileData.
- Fat16.FileSystem.Read: requires offsets below 2^31 and sectors on the disk, as ReadFileData.
- Fat16.FileSystem.ReadFileData: requires offsets that stay below 2^31 and sectors on the disk.
- ElfFile.LoadFile: starts with the file open, so that the blocks kfopen takes between the elf_file struct and the file are taken before the stack here, and those kfclose gives back are still held; requires offsets below 2^31 and the clusters of the file on the disk, as ReadFileData, and gives `Undefined` as mmap does; a file whose header is then refused is freed again by the source, which is not modelled.
- Paths.ParsePath: requires a free heap block for each piece. Without one the source puts copy, path and parts at address zero, where they overwrite each other; the list nodes here are objects that hold the block they were given instead of words in memory, and cannot overlap.
- Paths.FreePath: like the parse, follows the links of the node objects.
- UserHeap.Allocator.Alloc: the answer of the mmap system call is a parameter here, tied to the kernel's mmap in `MallocMemory`; a header that would cross the end of the address space is excluded.
- Strtok.Tokenizer.Next: pointers are positions in one buffer.
