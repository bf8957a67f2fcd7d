/** A whole process: what process_map_elf leaves of the kernel mapping, which
    rights the segments get, and the image, arguments and kernel mapping of a
    process from table creation to its first instruction. */
module ProcessImage {
  import opened Memory
  import opened HeapTable
  import opened MachineState
  import opened PageWalk
  import opened PagingSpec
  import opened PagingLife
  import opened VmemSpec
  import opened LoaderSpec
  import opened Loader
  import opened CString
  import opened Arguments
  import opened Status

  // -------------------------------------------------------- kernel and image

  /** Loadable segments from header `i` on start above the boundary. */
  ghost predicate AllAbove(file: seq<Byte>, phoff: nat, phnum: nat, i: nat)
    requires phoff + PHDR_SIZE * phnum <= |file|
  {
    forall j: nat :: i <= j < phnum && Loads(Header(file, phoff, j)) ==>
      KHEAP_SAFE_BOUNDARY <= Header(file, phoff, j).vaddr
  }

  lemma SegmentKeepsKernel(w: Ram, w': Ram, dir: nat, tabs: Tables, ph: Phdr)
    requires KernelMapped(w, dir, tabs) && SegmentMapped(w, w', dir, tabs, ph) && KHEAP_SAFE_BOUNDARY <= ph.vaddr
    ensures KernelMapped(w', dir, tabs)
  {
    hide RegionMapped, KernelMapped;
    var pfn: nat :| MappedFrom(w, w', dir, tabs, ph, pfn);
    MappingAboveKeepsKernel(w, w', dir, tabs, FirstPage(ph), LastPage(ph) - FirstPage(ph), pfn, SegmentFlags(ph));
  }

  lemma {:induction false} SegmentsKeepKernel(v: Vmem, runs: Runs, dir: nat, tabs: Tables, skip: nat, elf: Word,
                                              file: seq<Byte>, phoff: nat, phnum: nat, i: nat)
    requires Tidy(v.s, runs, dir, tabs) && Full(tabs) && FileAt(v.s, runs, dir, tabs, skip, elf, file)
    requires dir < PAGES && Placeable(file, phoff, phnum) && i <= phnum && elf + phoff + PHDR_SIZE * phnum <= SPACE
    requires MapSegments(v, dir, elf, phoff, phnum, i).1 == Ok
    requires KernelMapped(View(v.s), dir, tabs) && AllAbove(file, phoff, phnum, i)
    ensures KernelMapped(View(MapSegments(v, dir, elf, phoff, phnum, i).0.s), dir, tabs)
    decreases phnum - i
  {
    hide Tidy, FileAt, MapSegment, MapSegments, Image, DataKept, KernelMapped, SegmentMapped, SegmentOk;
    if i == phnum {
      NoSegments(v, dir, elf, phoff, phnum);
    } else {
      var ph := Header(file, phoff, i);
      HeaderFromFile(v.s, runs, dir, tabs, skip, elf, file, phoff + PHDR_SIZE * i);
      SegmentsTurn(v, dir, elf, phoff, phnum, i, ph);
      var v1 := MapSegment(v, dir, elf, ph).0;
      var runs1 := SegmentMeaning(v, runs, dir, tabs, skip, elf, ph, file);
      FileKept(v.s, runs, v1.s, runs1, dir, tabs, skip, elf, file);
      if Loads(ph) { SegmentKeepsKernel(View(v.s), View(v1.s), dir, tabs, ph); }
      SegmentsKeepKernel(v1, runs1, dir, tabs, skip, elf, file, phoff, phnum, i + 1);
    }
  }

  lemma StackKeepsKernel(s: Machine, runs: Runs, dir: nat, tabs: Tables, stack: Word)
    requires SpaceOk(s, runs, dir, tabs) && stack % PAGE_SIZE == 0 && dir < PAGES
    ensures KernelMapped(View(MapRegion(s, dir, STACK_END, stack, STACK_START, STACK_FLAGS).0), dir, tabs)
  {
    hide Tidy, MapRegion, RegionMapped, KernelMapped;
    MapRegionMeaning(s, runs, dir, tabs, STACK_END, stack, STACK_START, STACK_FLAGS);
    MappingAboveKeepsKernel(View(s), View(MapRegion(s, dir, STACK_END, stack, STACK_START, STACK_FLAGS).0), dir, tabs,
                            STACK_END / PAGE_SIZE, STACK_START / PAGE_SIZE - STACK_END / PAGE_SIZE,
                            stack / PAGE_SIZE, STACK_FLAGS);
  }

  /** A page of a loaded segment is the user's, and so not the kernel's. */
  lemma ImageNotKernel(s: Machine, runs: Runs, dir: nat, tabs: Tables, skip: nat, ph: Phdr, file: seq<Byte>)
    requires SegmentOk(ph, |file|) && Loads(ph) && Image(s, runs, dir, tabs, skip, ph, file)
    requires KernelMapped(View(s), dir, tabs)
    ensures KHEAP_SAFE_BOUNDARY <= ph.vaddr
  {
    hide ByteSeen, Leaf, Shape;
    assert EntryGrants(View(s), dir, ph.vaddr, WantsWrite(ph));
    if ph.vaddr < KHEAP_SAFE_BOUNDARY {
      PteParts(ph.vaddr / PAGE_SIZE, KERNEL_FLAGS);
    }
  }

  /** What LoaderCorrect asks for, in an address space that maps the kernel. */
  ghost predicate CanLoad(v: Vmem, runs: Runs, dir: nat, tabs: Tables, elf: Word, stack: Word, file: seq<Byte>) {
    && SpaceOk(v.s, runs, dir, tabs) && FileAt(v.s, runs, dir, tabs, BlockOf(stack), elf, file)
    && dir < PAGES && EHDR_SIZE <= |file| && Placeable(file, PhOffset(file, 0), PhCount(file, 0))
    && stack % PAGE_SIZE == 0 && stack < KHEAP_SAFE_BOUNDARY && elf + EHDR_SIZE <= SPACE
    && MapElf(v, dir, elf, stack).1 == Ok
  }

  /** process_map_elf keeps the kernel mapping exactly when no loadable segment
      starts below the boundary; the source checks no p_vaddr. */
  lemma ElfKernelMapping(v: Vmem, runs: Runs, dir: nat, tabs: Tables, elf: Word, stack: Word, file: seq<Byte>)
    returns (runs': Runs)
    requires CanLoad(v, runs, dir, tabs, elf, stack, file)
    ensures
      var s' := MapElf(v, dir, elf, stack).0.s;
      && Tidy(s', runs', dir, tabs) && Extends(runs, runs')
      && (SpaceOk(s', runs', dir, tabs) <==> AllAbove(file, PhOffset(file, 0), PhCount(file, 0), 0))
  {
    hide Tidy, DataKept, LeafKept, Image, MapSegments, MapRegion, FileAt, KernelMapped, PhOffset, PhCount, StackMapped;
    var skip, phoff, phnum := BlockOf(stack), PhOffset(file, 0), PhCount(file, 0);
    runs' := LoaderCorrect(v, runs, dir, tabs, elf, stack, file);
    HeaderWords(v.s, runs, dir, tabs, skip, elf, file);
    var s' := MapElf(v, dir, elf, stack).0.s;
    if AllAbove(file, phoff, phnum, 0) {
      ElfKeepsKernel(v, runs, dir, tabs, elf, stack, file);
    } else {
      var j: nat :| j < phnum && Loads(Header(file, phoff, j)) && Header(file, phoff, j).vaddr < KHEAP_SAFE_BOUNDARY;
      if KernelMapped(View(s'), dir, tabs) {
        ImageNotKernel(s', runs', dir, tabs, skip, Header(file, phoff, j), file);
      }
    }
  }

  lemma ElfKeepsKernel(v: Vmem, runs: Runs, dir: nat, tabs: Tables, elf: Word, stack: Word, file: seq<Byte>)
    requires CanLoad(v, runs, dir, tabs, elf, stack, file)
    requires AllAbove(file, PhOffset(file, 0), PhCount(file, 0), 0)
    ensures KernelMapped(View(MapElf(v, dir, elf, stack).0.s), dir, tabs)
  {
    hide Tidy, DataKept, Loaded, MapSegments, MapRegion, FileAt, KernelMapped, PhOffset, PhCount, Placeable, AllAbove;
    var skip, phoff, phnum := BlockOf(stack), PhOffset(file, 0), PhCount(file, 0);
    HeaderWords(v.s, runs, dir, tabs, skip, elf, file);
    NothingLoaded(v.s, runs, dir, tabs, skip, file, phoff, phnum);
    SegmentsKeepKernel(v, runs, dir, tabs, skip, elf, file, phoff, phnum, 0);
    var runs1 := SegmentsMeaning(v, runs, dir, tabs, skip, elf, file, phoff, phnum, 0);
    StackKeepsKernel(MapSegments(v, dir, elf, phoff, phnum, 0).0.s, runs1, dir, tabs, stack);
  }

  // -------------------------------------------------------------- .bss blocks

  /** A segment with a zero tail records the physical range of its copy. */
  lemma SourceRecords(v: Vmem, runs: Runs, dir: nat, tabs: Tables, elf: Word, ph: Phdr, i: nat)
    requires Tidy(v.s, runs, dir, tabs) && ph.filesz < ph.memsz && SegmentSource(v, elf, ph).status == Ok
    requires Find(v.blocks, 0, 0) == Some(i)
    ensures
      var blocks := SegmentSource(v, elf, ph).v.blocks;
      i < MAX_BLOCKS && KHEAP_ADDR <= blocks[i].start < blocks[i].end <= KHEAP_SAFE_BOUNDARY
  {
    hide Tidy, Kzalloc, Copied, Find, Leaf, ScanSafe;
    FindMeaning(v.blocks, 0, 0);
    var runs1 := KzallocKeepsTables(v.s, runs, dir, tabs, ph.memsz);
  }

  /** A process with a .bss has the physical range of that segment, which lies in
      the heap, in its block table; so its exit unmaps a page of the kernel, and
      so does a munmap of that address that finds the entry. */
  lemma BssUnmapsKernelPage(v: Vmem, runs: Runs, dir: nat, tabs: Tables, skip: nat, elf: Word, ph: Phdr,
                            file: seq<Byte>, i: nat)
    requires Tidy(v.s, runs, dir, tabs) && Full(tabs) && FileAt(v.s, runs, dir, tabs, skip, elf, file)
    requires dir < PAGES && SegmentOk(ph, |file|) && Loads(ph) && MapSegment(v, dir, elf, ph).1 == Ok
    requires ph.filesz < ph.memsz && Find(v.blocks, 0, 0) == Some(i)
    ensures
      var v' := MapSegment(v, dir, elf, ph).0;
      && i < MAX_BLOCKS && TouchesKernel(v'.blocks[i])
      && var start := v'.blocks[i].start;
      && KHEAP_ADDR <= start < KHEAP_SAFE_BOUNDARY
      && Leaf(View(ExitBlocks(v', dir, 0).s), dir, start / PAGE_SIZE) == None
      && (Find(v'.blocks, start, 0) == Some(i) ==>
            Leaf(View(FreeBlock(v', dir, start).0.s), dir, start / PAGE_SIZE) == None)
  {
    hide Tidy, Leaf, FileAt, Image, DataKept, SegmentSource, MapRegion, ExitBlocks, FreeBlock, Find, SegmentMapped;
    SourceRecords(v, runs, dir, tabs, elf, ph, i);
    var v' := MapSegment(v, dir, elf, ph).0;
    var runs' := SegmentMeaning(v, runs, dir, tabs, skip, elf, ph, file);
    var start := v'.blocks[i].start;
    ExitMeaning(v', runs', dir, tabs, 0);
    assert Covers(v'.blocks[i], start / PAGE_SIZE);
    assert CoveredFrom(v'.blocks, 0, start / PAGE_SIZE);
    FreeBlockMeaning(v', runs', dir, tabs, start);
  }

  // ------------------------------------------------------------------ rights

  predicate TouchesSlot(ph: Phdr, k: nat) {
    && Loads(ph) && ph.vaddr + ph.memsz < SPACE && FirstPage(ph) < LastPage(ph)
    && SlotTouched(k, FirstPage(ph), LastPage(ph) - FirstPage(ph))
  }

  /** Whether the last of the first `i` segments in 4 MiB slot `k` is writable. */
  function LastIn(file: seq<Byte>, phoff: nat, i: nat, k: nat): Option<bool>
    requires phoff + PHDR_SIZE * i <= |file|
  {
    if i == 0 then None
    else if TouchesSlot(Header(file, phoff, i - 1), k) then Some(WantsWrite(Header(file, phoff, i - 1)))
    else LastIn(file, phoff, i - 1, k)
  }

  predicate StackSlot(k: nat) {
    SlotTouched(k, STACK_END / PAGE_SIZE, STACK_START / PAGE_SIZE - STACK_END / PAGE_SIZE)
  }

  ghost predicate SlotGrants(w: Ram, dir: nat, k: nat, write: bool)
    requires dir < PAGES && k < ENTRIES
  {
    UserAccess(w[dir][k]) && Writable(w[dir][k]) == write
  }

  /** Slot `k` has the flags of the last segment mapped in it. */
  ghost predicate SlotOf(w: Ram, dir: nat, file: seq<Byte>, phoff: nat, i: nat, k: nat)
    requires phoff + PHDR_SIZE * i <= |file| && dir < PAGES && k < ENTRIES
  {
    LastIn(file, phoff, i, k).Some? ==> SlotGrants(w, dir, k, LastIn(file, phoff, i, k).value)
  }

  ghost predicate SlotsOf(w: Ram, dir: nat, file: seq<Byte>, phoff: nat, i: nat)
    requires phoff + PHDR_SIZE * i <= |file|
  {
    dir < PAGES && forall k: nat :: k < ENTRIES ==> SlotOf(w, dir, file, phoff, i, k)
  }

  lemma SlotsStep(w: Ram, w': Ram, dir: nat, tabs: Tables, file: seq<Byte>, phoff: nat, i: nat)
    requires phoff + PHDR_SIZE * (i + 1) <= |file| && SlotsOf(w, dir, file, phoff, i)
    requires
      var ph := Header(file, phoff, i);
      if Loads(ph) then SegmentMapped(w, w', dir, tabs, ph) else w' == w
    ensures SlotsOf(w', dir, file, phoff, i + 1)
  {
    hide SegmentMapped, SlotGrants, PhdrAt;
    var next := i + 1;
    forall k: nat | k < ENTRIES ensures SlotOf(w', dir, file, phoff, next, k) {
      assert SlotOf(w, dir, file, phoff, i, k);
      if Loads(Header(file, phoff, i)) { SlotMapped(w, w', dir, tabs, Header(file, phoff, i), k); }
    }
  }

  lemma SlotMapped(w: Ram, w': Ram, dir: nat, tabs: Tables, ph: Phdr, k: nat)
    requires SegmentMapped(w, w', dir, tabs, ph) && Loads(ph) && dir < PAGES && k < ENTRIES
    ensures if TouchesSlot(ph, k) then SlotGrants(w', dir, k, WantsWrite(ph)) else w'[dir][k] == w[dir][k]
    ensures !TouchesSlot(ph, k) ==> forall b :: SlotGrants(w', dir, k, b) <==> SlotGrants(w, dir, k, b)
  {
    hide Leaf, Shape, Pte, Writable, UserAccess;
    var pfn: nat :| MappedFrom(w, w', dir, tabs, ph, pfn);
    if TouchesSlot(ph, k) {
      FlagsOfSegment(ph);
      TableFrame(w', dir, tabs, k);
      PteParts(tabs[k], SegmentFlags(ph));
    }
  }

  lemma TableFrame(w: Ram, dir: nat, tabs: Tables, k: nat)
    requires Shape(w, dir, tabs) && k in tabs
    ensures tabs[k] < PAGES
  {
  }

  lemma {:induction false} SegmentsSlots(v: Vmem, runs: Runs, dir: nat, tabs: Tables, skip: nat, elf: Word,
                                         file: seq<Byte>, phoff: nat, phnum: nat, i: nat)
    requires Tidy(v.s, runs, dir, tabs) && Full(tabs) && FileAt(v.s, runs, dir, tabs, skip, elf, file)
    requires dir < PAGES && Placeable(file, phoff, phnum) && i <= phnum && elf + phoff + PHDR_SIZE * phnum <= SPACE
    requires MapSegments(v, dir, elf, phoff, phnum, i).1 == Ok && SlotsOf(View(v.s), dir, file, phoff, i)
    ensures SlotsOf(View(MapSegments(v, dir, elf, phoff, phnum, i).0.s), dir, file, phoff, phnum)
    decreases phnum - i
  {
    hide Tidy, FileAt, MapSegment, MapSegments, Image, DataKept, SegmentMapped, SlotsOf, SegmentOk;
    if i == phnum {
      NoSegments(v, dir, elf, phoff, phnum);
    } else {
      var ph := Header(file, phoff, i);
      HeaderFromFile(v.s, runs, dir, tabs, skip, elf, file, phoff + PHDR_SIZE * i);
      SegmentsTurn(v, dir, elf, phoff, phnum, i, ph);
      var v1 := MapSegment(v, dir, elf, ph).0;
      var runs1 := SegmentMeaning(v, runs, dir, tabs, skip, elf, ph, file);
      FileKept(v.s, runs, v1.s, runs1, dir, tabs, skip, elf, file);
      SlotsStep(View(v.s), View(v1.s), dir, tabs, file, phoff, i);
      SegmentsSlots(v1, runs1, dir, tabs, skip, elf, file, phoff, phnum, i + 1);
    }
  }

  lemma {:induction false} LastInSome(file: seq<Byte>, phoff: nat, i: nat, j: nat, k: nat)
    requires phoff + PHDR_SIZE * i <= |file| && j < i && TouchesSlot(Header(file, phoff, j), k)
    ensures LastIn(file, phoff, i, k).Some?
    decreases i
  {
    if j < i - 1 && !TouchesSlot(Header(file, phoff, i - 1), k) {
      LastInSome(file, phoff, i - 1, j, k);
    }
  }

  /** The last mapping in slot `k` grants writing: the stack's does. */
  predicate SlotWrites(file: seq<Byte>, phoff: nat, phnum: nat, k: nat)
    requires phoff + PHDR_SIZE * phnum <= |file|
  {
    StackSlot(k) || LastIn(file, phoff, phnum, k) == Some(true)
  }

  /** Page `p` of segment `j` has the rights its segment asks for, less writing
      where the last mapping in its slot does not grant it. */
  ghost predicate RightsOf(w: Ram, dir: nat, file: seq<Byte>, phoff: nat, phnum: nat, ph: Phdr, p: nat)
    requires dir < PAGES && p < PAGES && phoff + PHDR_SIZE * phnum <= |file|
  {
    EffectiveRights(w, dir, p) == Rights(true, WantsWrite(ph) && SlotWrites(file, phoff, phnum, Slot(p)), true)
  }

  /** Effective rights after process_map_elf, as the AND of both levels: each page
      of each segment is the user's to read, and to write exactly when the segment
      asks for it and the last mapping in its 4 MiB slot grants it. */
  lemma SegmentRights(v: Vmem, runs: Runs, dir: nat, tabs: Tables, elf: Word, stack: Word, file: seq<Byte>,
                      j: nat, p: nat)
    requires CanLoad(v, runs, dir, tabs, elf, stack, file) && j < PhCount(file, 0)
    requires
      var ph := Header(file, PhOffset(file, 0), j);
      Loads(ph) && ph.vaddr + ph.memsz < SPACE && FirstPage(ph) <= p < LastPage(ph) <= PAGES
    ensures
      var phoff, phnum := PhOffset(file, 0), PhCount(file, 0);
      RightsOf(View(MapElf(v, dir, elf, stack).0.s), dir, file, phoff, phnum, Header(file, phoff, j), p)
  {
    hide Tidy, DataKept, Image, MapSegments, MapRegion, FileAt, KernelMapped, PhOffset, PhCount, StackMapped,
      StackRights,
      EffectiveRights, SlotsOf, LastIn, Slot, PhdrAt;
    var skip, phoff, phnum := BlockOf(stack), PhOffset(file, 0), PhCount(file, 0);
    var ph := Header(file, phoff, j);
    var runs' := LoaderCorrect(v, runs, dir, tabs, elf, stack, file);
    var s' := MapElf(v, dir, elf, stack).0.s;
    InSlot(ph, p);
    SlotsAfterElf(v, runs, dir, tabs, elf, stack, file, Slot(p));
    LastInSome(file, phoff, phnum, j, Slot(p));
    PageGranted(s', runs', dir, tabs, skip, ph, file, p);
    BothLevels(View(s'), dir, p, WantsWrite(ph), SlotWrites(file, phoff, phnum, Slot(p)));
  }

  lemma InSlot(ph: Phdr, p: nat)
    requires Loads(ph) && ph.vaddr + ph.memsz < SPACE && FirstPage(ph) <= p < LastPage(ph) <= PAGES
    ensures TouchesSlot(ph, Slot(p)) && Slot(p) < ENTRIES
  {
  }

  lemma PageGranted(s: Machine, runs: Runs, dir: nat, tabs: Tables, skip: nat, ph: Phdr, file: seq<Byte>, p: nat)
    requires SegmentOk(ph, |file|) && Loads(ph) && Image(s, runs, dir, tabs, skip, ph, file) && dir < PAGES
    requires ph.vaddr + ph.memsz < SPACE && FirstPage(ph) <= p < LastPage(ph) <= PAGES
    ensures
      var leaf := Leaf(View(s), dir, p);
      leaf.Some? && UserAccess(leaf.value) && Writable(leaf.value) == WantsWrite(ph)
  {
    hide ByteSeen, Leaf, Writable, UserAccess;
    var va := if p == FirstPage(ph) then ph.vaddr else p * PAGE_SIZE;
    assert EntryGrants(View(s), dir, va, WantsWrite(ph));
  }

  lemma BothLevels(w: Ram, dir: nat, p: nat, write: bool, slotWrite: bool)
    requires dir < PAGES && p < PAGES && Slot(p) < ENTRIES && SlotGrants(w, dir, Slot(p), slotWrite)
    requires
      var leaf := Leaf(w, dir, p);
      leaf.Some? && UserAccess(leaf.value) && Writable(leaf.value) == write
    ensures EffectiveRights(w, dir, p) == Rights(true, write && slotWrite, true)
  {
    hide Leaf, Slot;
  }

  /** The directory entry of a slot after the segments and the stack. */
  lemma SlotsAfterElf(v: Vmem, runs: Runs, dir: nat, tabs: Tables, elf: Word, stack: Word, file: seq<Byte>, k: nat)
    requires CanLoad(v, runs, dir, tabs, elf, stack, file) && k < ENTRIES
    requires PhOffset(file, 0) + PHDR_SIZE * PhCount(file, 0) <= |file|
    ensures
      var phoff, phnum := PhOffset(file, 0), PhCount(file, 0);
      StackSlot(k) || LastIn(file, phoff, phnum, k).Some? ==>
        SlotGrants(View(MapElf(v, dir, elf, stack).0.s), dir, k, SlotWrites(file, phoff, phnum, k))
  {
    hide Tidy, DataKept, Loaded, MapSegments, MapRegion, FileAt, KernelMapped, PhOffset, PhCount, Placeable, SlotOf,
      RegionMapped, LastIn, SlotGrants;
    var skip, phoff, phnum := BlockOf(stack), PhOffset(file, 0), PhCount(file, 0);
    HeaderWords(v.s, runs, dir, tabs, skip, elf, file);
    NothingLoaded(v.s, runs, dir, tabs, skip, file, phoff, phnum);
    NoSlots(View(v.s), dir, file, phoff);
    SegmentsSlots(v, runs, dir, tabs, skip, elf, file, phoff, phnum, 0);
    var runs1 := SegmentsMeaning(v, runs, dir, tabs, skip, elf, file, phoff, phnum, 0);
    var s1 := MapSegments(v, dir, elf, phoff, phnum, 0).0.s;
    MapRegionMeaning(s1, runs1, dir, tabs, STACK_END, stack, STACK_START, STACK_FLAGS);
    StackSlots(View(s1), View(MapElf(v, dir, elf, stack).0.s), dir, tabs, file, phoff, phnum, k, stack / PAGE_SIZE);
  }

  lemma NoSlots(w: Ram, dir: nat, file: seq<Byte>, phoff: nat)
    requires phoff <= |file| && dir < PAGES
    ensures SlotsOf(w, dir, file, phoff, 0)
  {
  }

  lemma StackSlots(w: Ram, w': Ram, dir: nat, tabs: Tables, file: seq<Byte>, phoff: nat, phnum: nat, k: nat, pfn: nat)
    requires phoff + PHDR_SIZE * phnum <= |file| && SlotsOf(w, dir, file, phoff, phnum) && k < ENTRIES
    requires RegionMapped(w, w', dir, tabs, STACK_END / PAGE_SIZE, STACK_START / PAGE_SIZE - STACK_END / PAGE_SIZE,
                          pfn, STACK_FLAGS)
    ensures StackSlot(k) || LastIn(file, phoff, phnum, k).Some? ==>
              SlotGrants(w', dir, k, SlotWrites(file, phoff, phnum, k))
  {
    hide Leaf, Shape, Pte, LastIn;
    assert SlotOf(w, dir, file, phoff, phnum, k);
    if StackSlot(k) {
      TableFrame(w', dir, tabs, k);
      PteParts(tabs[k], STACK_FLAGS);
    }
  }

  /** Every page of a segment has the effective rights the segment asks for
      exactly when it does not ask for writing, or the last mapping in each of its
      slots grants that. */
  lemma RightsAsAsked(v: Vmem, runs: Runs, dir: nat, tabs: Tables, elf: Word, stack: Word, file: seq<Byte>, j: nat)
    requires CanLoad(v, runs, dir, tabs, elf, stack, file) && j < PhCount(file, 0)
    requires
      var ph := Header(file, PhOffset(file, 0), j);
      Loads(ph) && ph.vaddr + ph.memsz < SPACE && LastPage(ph) <= PAGES
    ensures
      var phoff, phnum, w := PhOffset(file, 0), PhCount(file, 0), View(MapElf(v, dir, elf, stack).0.s);
      var ph := Header(file, phoff, j);
      (forall p: nat :: FirstPage(ph) <= p < LastPage(ph) ==>
         EffectiveRights(w, dir, p) == Rights(true, WantsWrite(ph), true))
      <==> (WantsWrite(ph) ==> forall p: nat :: FirstPage(ph) <= p < LastPage(ph) ==>
              SlotWrites(file, phoff, phnum, Slot(p)))
  {
    hide EffectiveRights, SlotWrites, MapElf, SpaceOk, FileAt, SegmentOk, PhOffset, PhCount, Slot;
    var phoff, phnum, w := PhOffset(file, 0), PhCount(file, 0), View(MapElf(v, dir, elf, stack).0.s);
    var ph := Header(file, phoff, j);
    forall p: nat | FirstPage(ph) <= p < LastPage(ph)
      ensures EffectiveRights(w, dir, p) == Rights(true, WantsWrite(ph), true)
              <==> (WantsWrite(ph) ==> SlotWrites(file, phoff, phnum, Slot(p)))
    {
      SegmentRights(v, runs, dir, tabs, elf, stack, file, j, p);
    }
  }

  // ------------------------------------------------------- a process, whole

  datatype Passed = Passed(s: Machine, esp: Word, status: Status)

  /** The argument half of _create_proccess: a kernel copy of the arguments, the
      stack block, and the copy given back.  Without a block for it the copy is at
      address zero; Undefined when the block scan of kmalloc leaves its table. */
  ghost function PassArguments(s: Machine, stack: nat, argc: Word, args: seq<Byte>, unset: Word): Passed
    requires |args| <= STACK_SIZE
  {
    if !ScanSafe(s.table, NumBlocks(|args|)) then Passed(s, 0, Undefined)
    else
      BlockEnds(s, |args|);
      var r := Kzalloc(s, |args|);
      var s1 := r.s.(ram := Blit(r.s.ram, r.ptr, args));
      var p := AddArguments(s1.ram, stack, argc, |args|, r.ptr, unset);
      Passed(Kfree(s1.(ram := p.l.ram), r.ptr), p.esp, p.status)
  }

  /** The stack block of a process. */
  ghost predicate StackAt(runs: Runs, dir: nat, tabs: Tables, stack: Word) {
    && stack == AddrOf(BlockOf(stack)) && DataRun(runs, dir, tabs, BlockOf(stack))
    && stack + STACK_SIZE <= AddrOf(BlockOf(stack) + runs[BlockOf(stack)]) <= KHEAP_SAFE_BOUNDARY
  }

  predicate GoodArguments(args: seq<Byte>, strings: seq<seq<Byte>>) {
    1 <= |strings| && StringsAt(args, 0, strings) && 4 * |strings| + |args| + 8 <= STACK_SIZE
  }

  /** What stays of one state in another: pages, directory, and the data of
      `runs` other than the stack. */
  ghost predicate SameImage(s: Machine, s': Machine, runs: Runs, dir: nat, tabs: Tables, skip: nat) {
    && DataKept(s, s', runs, dir, tabs, skip) && LeafKept(View(s), View(s'), dir, 0, 0)
    && dir < PAGES && View(s')[dir] == View(s)[dir]
  }

  /** The kernel copy of the arguments, in a block of its own. */
  lemma ArgumentsCopied(s: Machine, runs: Runs, dir: nat, tabs: Tables, skip: nat, args: seq<Byte>)
    returns (runs1: Runs)
    requires Tidy(s, runs, dir, tabs) && |args| <= STACK_SIZE && ScanSafe(s.table, NumBlocks(|args|)) && skip in runs
    requires Kzalloc(s, |args|).ptr != 0
    ensures
      var r := Kzalloc(s, |args|);
      && r.ptr + |args| <= SPACE && r.ptr == AddrOf(BlockOf(r.ptr)) && BlockOf(r.ptr) !in runs
      && var s1 := r.s.(ram := Blit(r.s.ram, r.ptr, args));
      && Tidy(s1, runs1, dir, tabs) && Freed(s1.table, BlockOf(r.ptr)) == s.table
      && DataRun(runs1, dir, tabs, BlockOf(r.ptr)) && runs1 - {BlockOf(r.ptr)} == runs && Extends(runs, runs1)
      && r.ptr + |args| <= AddrOf(BlockOf(r.ptr) + runs1[BlockOf(r.ptr)])
      && SameImage(s, s1, runs, dir, tabs, skip) && s1.ram[r.ptr..r.ptr + |args|] == args
  {
    hide Tidy, Leaf, Kzalloc, ScanSafe, InData, Blit;
    var len := |args|;
    runs1 := KzallocKeepsTables(s, runs, dir, tabs, len);
    var r := Kzalloc(s, len);
    var b := BlockOf(r.ptr);
    FreshIsData(s, runs, dir, tabs, b, runs1[b]);
    var s1 := r.s.(ram := Blit(r.s.ram, r.ptr, args));
    DataWriteKeepsTables(r.s, s1, runs1, dir, tabs, b);
    RunsApart(r.s, runs1, dir, tabs);
    RunWritesKeepData(s, s1, runs, runs1, dir, tabs, skip, b);
    BlitRead(r.s.ram, r.ptr, args);
  }

  /** The same copy without a block: low memory holds no table and no data. */
  lemma ArgumentsLow(s: Machine, runs: Runs, dir: nat, tabs: Tables, skip: nat, args: seq<Byte>)
    requires Tidy(s, runs, dir, tabs) && |args| <= STACK_SIZE && ScanSafe(s.table, NumBlocks(|args|))
    requires Kzalloc(s, |args|).ptr == 0
    ensures
      var r := Kzalloc(s, |args|).s;
      var s1 := r.(ram := Blit(r.ram, 0, args));
      && Tidy(s1, runs, dir, tabs) && s1.table == s.table
      && SameImage(s, s1, runs, dir, tabs, skip) && s1.ram[0..|args|] == args
  {
    hide Tidy, Leaf, Kzalloc, ScanSafe, InData, Blit;
    TidyDir(s, runs, dir, tabs);
    var _ := KzallocKeepsTables(s, runs, dir, tabs, |args|);
    var r := Kzalloc(s, |args|).s;
    var s1 := r.(ram := Blit(r.ram, 0, args));
    forall f: nat | HEAP_FRAME <= f < PAGES ensures View(s1)[f] == View(r)[f] {
      PagesSame(r.ram, s1.ram, f);
    }
    LowWritesKeepTables(r, s1, runs, dir, tabs);
    forall a: nat | a < SPACE && InData(runs, dir, tabs, skip, a) ensures s1.ram[a] == s.ram[a] {
      DataAboveLow(runs, dir, tabs, skip, a);
    }
    BlitRead(r.ram, 0, args);
  }

  lemma DataAboveLow(runs: Runs, dir: nat, tabs: Tables, skip: nat, a: nat)
    requires InData(runs, dir, tabs, skip, a)
    ensures KHEAP_ADDR <= a
  {
  }

  lemma BlitRead(m: seq<Byte>, at: nat, data: seq<Byte>)
    requires at + |data| <= |m|
    ensures |Blit(m, at, data)| == |m| && Blit(m, at, data)[at..at + |data|] == data
  {
  }

  lemma RunsApart(s: Machine, runs: Runs, dir: nat, tabs: Tables)
    requires Tidy(s, runs, dir, tabs)
    ensures Disjoint(runs)
  {
  }

  /** Writes inside the stack block leave the rest of the data alone. */
  lemma StackWritesKeepData(s: Machine, s': Machine, runs: Runs, dir: nat, tabs: Tables, stack: Word)
    requires Disjoint(runs) && StackAt(runs, dir, tabs, stack)
    requires SameOutside(s.ram, s'.ram, stack, stack + STACK_SIZE)
    ensures DataKept(s, s', runs, dir, tabs, BlockOf(stack))
  {
    var skip := BlockOf(stack);
    forall a: nat | a < SPACE && InData(runs, dir, tabs, skip, a) ensures s'.ram[a] == s.ram[a] {
      var b: nat :| b != skip && DataRun(runs, dir, tabs, b) && AddrOf(b) <= a < AddrOf(b + runs[b]);
      assert Apart(runs, b, skip) && Apart(runs, skip, b);
    }
  }

  /** Two blocks of one heap do not overlap. */
  lemma BlocksApart(runs: Runs, a: nat, b: nat, p: nat, n: nat, q: nat, m: nat)
    requires Disjoint(runs) && a in runs && b in runs && a != b
    requires AddrOf(a) <= p && p + n <= AddrOf(a + runs[a]) && AddrOf(b) <= q && q + m <= AddrOf(b + runs[b])
    ensures p + n <= q || q + m <= p
  {
    assert Apart(runs, a, b) && Apart(runs, b, a);
  }

  lemma SameImageTrans(s: Machine, s1: Machine, s2: Machine, runs: Runs, dir: nat, tabs: Tables, skip: nat)
    requires SameImage(s, s1, runs, dir, tabs, skip) && SameImage(s1, s2, runs, dir, tabs, skip)
    ensures SameImage(s, s2, runs, dir, tabs, skip)
  {
    hide InData, Leaf;
  }

  /** The stack reads the same in both states. */
  ghost predicate SameStack(s: Machine, s': Machine, dir: nat) {
    dir < PAGES && forall va: Word :: STACK_END <= va < STACK_START ==> UserByte(s', dir, va) == UserByte(s, dir, va)
  }

  /** Then main finds its arguments in both. */
  lemma ArgumentsKept(s: Machine, s': Machine, dir: nat, esp: Word, strings: seq<seq<Byte>>)
    requires dir < PAGES && SameStack(s, s', dir) && MainArguments(s, dir, esp, strings)
    ensures MainArguments(s', dir, esp, strings)
  {
    hide UserByte, UserWordIs, UserStringIs, SameStack;
    SameWord(s, s', dir, esp, |strings|);
    SameWord(s, s', dir, esp + 4, esp + 8);
    forall i: nat | i < |strings| ensures ArgumentIs(s', dir, esp + 8, i, strings[i]) {
      assert ArgumentIs(s, dir, esp + 8, i, strings[i]);
      var cell := esp + 8 + 4 * i;
      var p: Word :| PointsTo(s, dir, cell, p, strings[i]);
      SameWord(s, s', dir, cell, p);
      SameString(s, s', dir, p, strings[i]);
      assert PointsTo(s', dir, cell, p, strings[i]);
    }
  }

  lemma SameWord(s: Machine, s': Machine, dir: nat, va: Word, w: Word)
    requires SameStack(s, s', dir) && STACK_END <= va && va + 4 <= STACK_START && UserWordIs(s, dir, va, w)
    ensures UserWordIs(s', dir, va, w)
  {
    hide UserByte;
  }

  lemma SameString(s: Machine, s': Machine, dir: nat, va: Word, str: seq<Byte>)
    requires SameStack(s, s', dir) && STACK_END <= va && va + |str| < STACK_START && UserStringIs(s, dir, va, str)
    ensures UserStringIs(s', dir, va, str)
  {
    hide UserByte;
    forall k | 0 <= k < |str| ensures UserByte(s', dir, va + k) == Some(str[k]) {
      var a: Word := va + k;
      assert UserByte(s', dir, a) == UserByte(s, dir, a);
    }
  }

  /** What a process reads depends on memory only. */
  lemma StackFromRam(s: Machine, s': Machine, dir: nat)
    requires dir < PAGES && s'.ram == s.ram
    ensures SameStack(s, s', dir)
  {
    assert View(s') == View(s);
  }

  /** The stack block still is one when another block is taken. */
  lemma StackAtGrows(runs: Runs, runs1: Runs, dir: nat, tabs: Tables, stack: Word)
    requires StackAt(runs, dir, tabs, stack) && Extends(runs, runs1)
    ensures StackAt(runs1, dir, tabs, stack)
  {
  }

  /** Passing the arguments keeps image, kernel mapping and heap table, and main
      finds its arguments. */
  lemma PassArgumentsMeaning(s: Machine, runs: Runs, dir: nat, tabs: Tables, stack: Word, args: seq<Byte>,
                             strings: seq<seq<Byte>>, unset: Word)
    requires SpaceOk(s, runs, dir, tabs) && StackAt(runs, dir, tabs, stack) && StackMapped(s, dir, stack)
    requires GoodArguments(args, strings) && ScanSafe(s.table, NumBlocks(|args|))
    ensures
      var p := PassArguments(s, stack, |strings|, args, unset);
      && p.status == Ok && p.s.table == s.table && SpaceOk(p.s, runs, dir, tabs)
      && SameImage(s, p.s, runs, dir, tabs, BlockOf(stack)) && StackMapped(p.s, dir, stack)
      && dir < PAGES && MainArguments(p.s, dir, p.esp, strings)
  {
    hide Tidy, Leaf, Kzalloc, Kfree, ScanSafe, DataKept, Blit, AddArguments, MainArguments, KernelMapped, StringsAt,
      StackMapped, Freed;
    var skip, argc, len := BlockOf(stack), |strings|, |args|;
    BlockEnds(s, len);
    var r := Kzalloc(s, len);
    var s1 := r.s.(ram := Blit(r.s.ram, r.ptr, args));
    RunsApart(s, runs, dir, tabs);
    var runs1 := runs;
    if r.ptr == 0 {
      ArgumentsLow(s, runs, dir, tabs, skip, args);
    } else {
      runs1 := ArgumentsCopied(s, runs, dir, tabs, skip, args);
      StackAtGrows(runs, runs1, dir, tabs, stack);
      RunsApart(s1, runs1, dir, tabs);
      BlocksApart(runs1, BlockOf(r.ptr), skip, r.ptr, len, stack, STACK_SIZE);
    }
    ArgumentsPassed(s, s1, runs, runs1, dir, tabs, stack, r.ptr, args, strings, unset);
    var p := AddArguments(s1.ram, stack, argc, len, r.ptr, unset);
    var s2 := s1.(ram := p.l.ram);
    var s3 := Kfree(s2, r.ptr);
    KfreeTable(s1, s2, r.ptr);
    if r.ptr == 0 {
      KfreeNull(s2);
    } else {
      KfreeKeepsTables(s2, runs1, dir, tabs, r.ptr);
    }
    FreedStack(s, s2, s3, runs, dir, tabs, skip, stack, p.esp, strings);
  }

  /** What kfree leaves of the block table depends on that table only. */
  lemma KfreeTable(s1: Machine, s2: Machine, ptr: nat)
    requires s2.table == s1.table
    ensures Kfree(s2, ptr).table == Freed(s1.table, BlockOf(ptr)) && Kfree(s2, ptr).ram == s2.ram
  {
  }

  /** The arguments pushed from a copy that is apart from the stack block. */
  lemma ArgumentsPassed(s: Machine, s1: Machine, runs: Runs, runs1: Runs, dir: nat, tabs: Tables, stack: Word,
                        src: Word, args: seq<Byte>, strings: seq<seq<Byte>>, unset: Word)
    requires Disjoint(runs) && StackAt(runs, dir, tabs, stack) && StackMapped(s, dir, stack)
    requires Tidy(s1, runs1, dir, tabs) && StackAt(runs1, dir, tabs, stack)
    requires SameImage(s, s1, runs, dir, tabs, BlockOf(stack)) && GoodArguments(args, strings)
    requires src + |args| <= SPACE && args == s1.ram[src..src + |args|]
    requires src + |args| <= stack || stack + STACK_SIZE <= src
    ensures
      var p := AddArguments(s1.ram, stack, |strings|, |args|, src, unset);
      && p.status == Ok && |p.l.ram| == SPACE
      && var s2 := s1.(ram := p.l.ram);
      && Tidy(s2, runs1, dir, tabs) && StackMapped(s2, dir, stack)
      && SameImage(s, s2, runs, dir, tabs, BlockOf(stack)) && MainArguments(s2, dir, p.esp, strings)
  {
    hide Tidy, Leaf, DataKept, AddArguments, MainArguments, StringsAt, StackMapped, DataRun;
    StackStillMapped(s, s1, dir, stack);
    ArgumentsRoundTrip(s1, runs1, dir, tabs, stack, src, args, strings, unset);
    var s2 := s1.(ram := AddArguments(s1.ram, stack, |strings|, |args|, src, unset).l.ram);
    StackWritesKeepData(s1, s2, runs, dir, tabs, stack);
    SameImageTrans(s, s1, s2, runs, dir, tabs, BlockOf(stack));
  }

  /** kfree changes the block table only. */
  lemma FreedStack(s: Machine, s2: Machine, s3: Machine, runs: Runs, dir: nat, tabs: Tables, skip: nat, stack: Word,
                   esp: Word, strings: seq<seq<Byte>>)
    requires s3.ram == s2.ram && SpaceOk(s, runs, dir, tabs) && SameImage(s, s2, runs, dir, tabs, skip)
    requires Tidy(s3, runs, dir, tabs) && StackMapped(s2, dir, stack)
    requires dir < PAGES && MainArguments(s2, dir, esp, strings)
    ensures SpaceOk(s3, runs, dir, tabs) && SameImage(s, s3, runs, dir, tabs, skip)
    ensures StackMapped(s3, dir, stack) && MainArguments(s3, dir, esp, strings)
  {
    hide Leaf, InData, MainArguments, KernelMapped, Tidy, Translate;
    StackFromRam(s2, s3, dir);
    ArgumentsKept(s2, s3, dir, esp, strings);
    SpaceSame(s, runs, s3, runs, dir, tabs);
  }

  /** The file and the stack block before the tables of the process are made. */
  ghost predicate Prepared(s: Machine, before: Runs, elf: Word, stack: Word, file: seq<Byte>) {
    && Represents(s.table, before)
    && elf == AddrOf(BlockOf(elf)) && BlockOf(elf) in before
    && |file| <= before[BlockOf(elf)] * PAGE_SIZE && elf + |file| <= SPACE
    && (forall i :: 0 <= i < |file| ==> s.ram[elf + i] == file[i])
    && stack == AddrOf(BlockOf(stack)) && BlockOf(stack) in before && BlockOf(stack) != BlockOf(elf)
    && stack + STACK_SIZE <= AddrOf(BlockOf(stack) + before[BlockOf(stack)]) <= KHEAP_SAFE_BOUNDARY
  }

  /** Allocations made before the tables are not tables. */
  lemma OldIsData(before: Runs, runs: Runs, dir: nat, tabs: Tables, b: nat)
    requires GrownBy(before, runs, TableBlocks(dir, tabs)) && b in before && forall k :: k in tabs ==> k < ENTRIES
    ensures DataRun(runs, dir, tabs, b) && runs[b] == before[b]
  {
    assert HeapBlock(HEAP_FRAME + b) == b;
    if HEAP_FRAME + b in Frames(dir, tabs) {
      FrameBlock(dir, tabs, HEAP_FRAME + b);
    }
  }

  lemma FrameBlock(dir: nat, tabs: Tables, f: nat)
    requires f in Frames(dir, tabs) && forall k :: k in tabs ==> k < ENTRIES
    ensures HeapBlock(f) in TableBlocks(dir, tabs)
  {
    if f != dir {
      var k :| k in tabs && tabs[k] == f;
      assert HeapBlock(tabs[k]) in SlotBlocks(tabs, 0, ENTRIES);
    }
  }

  lemma TablesInSlots(s: Machine, runs: Runs, dir: nat, tabs: Tables)
    requires Tidy(s, runs, dir, tabs)
    ensures forall k :: k in tabs ==> k < ENTRIES
  {
  }

  /** Making the tables leaves file and stack in place. */
  lemma PreparedAfterCreation(s: Machine, before: Runs, elf: Word, stack: Word, file: seq<Byte>)
    returns (runs: Runs, tabs: Tables)
    requires Prepared(s, before, elf, stack, file) && CreateTables(s, KERNEL_FLAGS).ok
    ensures
      var c := CreateTables(s, KERNEL_FLAGS);
      && SpaceOk(c.s, runs, c.dir, tabs) && c.dir < PAGES
      && FileAt(c.s, runs, c.dir, tabs, BlockOf(stack), elf, file) && StackAt(runs, c.dir, tabs, stack)
  {
    hide CreateTables, Leaf, GrownBy, TableBlocks, Tidy, Represents, KernelMapped;
    var c := CreateTables(s, KERNEL_FLAGS);
    runs, tabs := NewSpaceOk(s, before);
    TidyDir(c.s, runs, c.dir, tabs);
    TablesInSlots(c.s, runs, c.dir, tabs);
    OldIsData(before, runs, c.dir, tabs, BlockOf(elf));
    OldIsData(before, runs, c.dir, tabs, BlockOf(stack));
    forall i | 0 <= i < |file| ensures c.s.ram[elf + i] == file[i] {
      DataOutsideTables(c.s, runs, c.dir, tabs, BlockOf(elf), elf + i);
    }
  }

  /** A heap that holds a file with its segments above the boundary and a stack
      block, and has blocks for the tables and for the copies of the segments. */
  ghost predicate Buildable(s: Machine, before: Runs, blocks: Blocks, elf: Word, stack: Word, file: seq<Byte>,
                            args: seq<Byte>, strings: seq<seq<Byte>>) {
    && Prepared(s, before, elf, stack, file) && CreateTables(s, KERNEL_FLAGS).ok
    && elf + EHDR_SIZE <= SPACE && GoodFile(file) && GoodArguments(args, strings)
    && var c := CreateTables(s, KERNEL_FLAGS);
    c.dir < PAGES && BlocksFit(VmemSpec.Vmem(c.s, blocks), c.dir, elf, stack, file, |args|)
  }

  ghost predicate GoodFile(file: seq<Byte>) {
    && EHDR_SIZE <= |file| && Placeable(file, PhOffset(file, 0), PhCount(file, 0))
    && AllAbove(file, PhOffset(file, 0), PhCount(file, 0), 0)
  }

  ghost predicate BlocksFit(v: Vmem, dir: nat, elf: Word, stack: Word, file: seq<Byte>, len: Word)
    requires dir < PAGES && elf + EHDR_SIZE <= SPACE && GoodFile(file)
  {
    && CopiesFit(v.s.table, file, PhOffset(file, 0), PhCount(file, 0), 0)
    && ScanSafe(MapElf(v, dir, elf, stack).0.s.table, NumBlocks(len))
  }

  /** A whole process.  From a heap that holds its file and its stack block, with
      its tables made and blocks for the copies of its zero-tailed segments,
      process_map_elf succeeds and the arguments are passed: the process sees its
      whole image, its stack and its arguments, and the kernel stays mapped and out
      of its reach. */
  lemma ProcessBuilt(s: Machine, before: Runs, blocks: Blocks, elf: Word, stack: Word, file: seq<Byte>,
                     args: seq<Byte>, strings: seq<seq<Byte>>, unset: Word)
    returns (runs: Runs, tabs: Tables)
    requires Buildable(s, before, blocks, elf, stack, file, args, strings)
    ensures
      var c := CreateTables(s, KERNEL_FLAGS);
      var m := MapElf(VmemSpec.Vmem(c.s, blocks), c.dir, elf, stack);
      var e := m.0.s;
      var p := PassArguments(e, stack, |strings|, args, unset);
      && m.1 == Ok && p.status == Ok && SpaceOk(p.s, runs, c.dir, tabs) && StackAt(runs, c.dir, tabs, stack)
      && p.s.table == e.table && SameImage(e, p.s, runs, c.dir, tabs, BlockOf(stack))
      && Loaded(p.s, runs, c.dir, tabs, BlockOf(stack), file, PhOffset(file, 0), PhCount(file, 0), PhCount(file, 0))
      && StackMapped(p.s, c.dir, stack) && MainArguments(p.s, c.dir, p.esp, strings)
      && (forall q: nat :: q < PAGES ==>
            EffectiveRights(View(p.s), c.dir, q) == EffectiveRights(View(e), c.dir, q))
  {
    hide CreateTables, MapElf, PassArguments, KernelMapped, FileAt, Placeable, Loaded, StackMapped, MainArguments,
      StackAt, Leaf, Kzalloc, ScanSafe, AllAbove, StringsAt, DataKept, EffectiveRights, Represents, Shape, Owned,
      PhOffset, PhCount, Prepared, CopiesFit;
    PreparedBounds(s, before, elf, stack, file);
    var runs0;
    runs0, tabs := PreparedAfterCreation(s, before, elf, stack, file);
    var c, skip := CreateTables(s, KERNEL_FLAGS), BlockOf(stack);
    var v := VmemSpec.Vmem(c.s, blocks);
    LoaderSucceeds(v, runs0, c.dir, tabs, elf, stack, file);
    runs := LoaderCorrect(v, runs0, c.dir, tabs, elf, stack, file);
    var runs1 := ElfKernelMapping(v, runs0, c.dir, tabs, elf, stack, file);
    var e := MapElf(v, c.dir, elf, stack).0.s;
    MeaningUnique(e.table, runs, runs1);
    StackAtGrows(runs0, runs, c.dir, tabs, stack);
    PassArgumentsMeaning(e, runs, c.dir, tabs, stack, args, strings, unset);
    var p := PassArguments(e, stack, |strings|, args, unset);
    LoadedAfter(e, p.s, runs, c.dir, tabs, skip, file, PhOffset(file, 0), PhCount(file, 0));
    RightsSame(View(e), View(p.s), c.dir);
  }

  lemma PreparedBounds(s: Machine, before: Runs, elf: Word, stack: Word, file: seq<Byte>)
    requires Prepared(s, before, elf, stack, file)
    ensures stack % PAGE_SIZE == 0 && stack < KHEAP_SAFE_BOUNDARY
  {
  }

  lemma LoadedAfter(s: Machine, s': Machine, runs: Runs, dir: nat, tabs: Tables, skip: nat, file: seq<Byte>,
                    phoff: nat, phnum: nat)
    requires Placeable(file, phoff, phnum) && Loaded(s, runs, dir, tabs, skip, file, phoff, phnum, phnum)
    requires SameImage(s, s', runs, dir, tabs, skip)
    ensures Loaded(s', runs, dir, tabs, skip, file, phoff, phnum, phnum)
  {
    hide Image, LeafKept, DataKept, SegmentOk;
    forall j: nat | j < phnum ensures Image(s', runs, dir, tabs, skip, Header(file, phoff, j), file) {
      SegmentBounds(Header(file, phoff, j), |file|);
      ImageKept(s, runs, s', runs, dir, tabs, skip, Header(file, phoff, j), file, 0, 0);
    }
  }
}
