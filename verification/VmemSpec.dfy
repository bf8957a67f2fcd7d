/** User memory regions of a process: the block table of src/task/process.c and
    the calls of src/syscall/umem.c, as steps over page table, heap and blocks;
    and what every run of them keeps of the kernel's own mapping. */
module VmemSpec {
  import opened Memory
  import opened HeapTable
  import opened MachineState
  import opened PageWalk
  import opened PagingSpec
  import opened PagingLife
  import opened Status

  const MAX_BLOCKS: nat := 10

  /** Flags of the kernel's identity mapping: PRESENT and WRITE. */
  const KERNEL_FLAGS: Byte := 3

  /** Pages and directory slots below KHEAP_SAFE_BOUNDARY. */
  const KERNEL_PAGES: nat := KHEAP_SAFE_BOUNDARY / PAGE_SIZE
  const KERNEL_SLOTS: nat := KERNEL_PAGES / ENTRIES

  /** vmem_blocks_start[i] and vmem_blocks_end[i]. */
  datatype Block = Block(start: Word, end: Word)

  type Blocks = b: seq<Block> | |b| == MAX_BLOCKS
    witness seq(MAX_BLOCKS, _ => Block(0, 0))

  /** The first entry at or after `i` that starts at `va`. */
  function Find(blocks: Blocks, va: Word, i: nat): Option<nat>
    requires i <= MAX_BLOCKS
    decreases MAX_BLOCKS - i
  {
    if i == MAX_BLOCKS then None
    else if blocks[i].start == va then Some(i)
    else Find(blocks, va, i + 1)
  }

  lemma {:induction false} FindMeaning(blocks: Blocks, va: Word, i: nat)
    requires i <= MAX_BLOCKS
    ensures
      match Find(blocks, va, i)
      case Some(k) => i <= k < MAX_BLOCKS && blocks[k].start == va
                      && forall j :: i <= j < k ==> blocks[j].start != va
      case None => forall j :: i <= j < MAX_BLOCKS ==> blocks[j].start != va
    decreases MAX_BLOCKS - i
  {
    if i < MAX_BLOCKS && blocks[i].start != va {
      FindMeaning(blocks, va, i + 1);
    }
  }

  // ------------------------------------------------------------- the calls

  datatype Vmem = Vmem(s: Machine, blocks: Blocks)

  /** process_free_vmem_block */
  ghost function FreeBlock(v: Vmem, dir: nat, va: Word): (Vmem, Status)
    requires dir < PAGES
  {
    FindMeaning(v.blocks, va, 0);
    match Find(v.blocks, va, 0)
    case None => (v, InvalidArg)
    case Some(i) =>
      (Vmem(FreeVa(v.s, dir, va, v.blocks[i].end).0, v.blocks[i := Block(0, 0)]), Ok)
  }

  /** `user_flags & O_WRITE` */
  predicate AsksWrite(userFlags: Word) { userFlags / 2 % 2 == 1 }

  /** Page flags of a mapping: present, for the user, and writable if asked. */
  function UserFlags(userFlags: Word): Byte {
    if AsksWrite(userFlags) then 7 else 5
  }

  lemma FlagsAsked(userFlags: Word)
    ensures
      var flags := UserFlags(userFlags);
      Present(flags) && UserAccess(flags) && Writable(flags) == AsksWrite(userFlags)
  {
  }

  /** The arguments syscall_mmap goes on with. */
  function MmapCheck(vaStart: Word, vaEnd: Word): Status {
    if vaStart % PAGE_SIZE != 0 || vaEnd % PAGE_SIZE != 0 then InvalidArg
    else if vaStart < KHEAP_SAFE_BOUNDARY || vaEnd < KHEAP_SAFE_BOUNDARY || vaStart >= vaEnd then InvalidUserMemAccess
    else Ok
  }

  /** syscall_mmap; Undefined when the block scan of kmalloc would leave its table,
      or when there is no block and the memset of null reaches the block table. */
  ghost function Mmap(v: Vmem, dir: nat, vaStart: Word, vaEnd: Word, userFlags: Word): (Vmem, Status)
    requires dir < PAGES
  {
    if MmapCheck(vaStart, vaEnd) != Ok then (v, MmapCheck(vaStart, vaEnd))
    else if !ScanSafe(v.s.table, NumBlocks(vaEnd - vaStart)) then (v, Undefined)
    else
      var r := Kzalloc(v.s, vaEnd - vaStart);
      if r.ptr == 0 then (v.(s := r.s), if vaEnd - vaStart <= KHEAP_TABLE_ADDR then NotEnoughMem else Undefined)
      else
        FindMeaning(v.blocks, 0, 0);
        match Find(v.blocks, 0, 0)
        case None => (v.(s := Kfree(r.s, r.ptr)), OutOfVmemBlocks)
        case Some(i) =>
          var m := MapRegion(r.s, dir, vaStart, r.ptr, vaEnd, UserFlags(userFlags));
          if m.1 == Ok then (Vmem(m.0, v.blocks[i := Block(vaStart, vaEnd)]), Ok)
          else (Vmem(Kfree(m.0, r.ptr), v.blocks[i := Block(0, 0)]), m.1)
  }

  /** The block loop of process_exit, from entry `i`. */
  ghost function ExitBlocks(v: Vmem, dir: nat, i: nat): Vmem
    requires dir < PAGES && i <= MAX_BLOCKS
    decreases MAX_BLOCKS - i
  {
    if i == MAX_BLOCKS then v
    else if v.blocks[i].start != 0 then ExitBlocks(FreeBlock(v, dir, v.blocks[i].start).0, dir, i + 1)
    else ExitBlocks(v, dir, i + 1)
  }

  // ------------------------------------------------------ kernel mapping

  /** Every page below the boundary is mapped to itself, and the first 32
      directory entries are the ones creation wrote. */
  ghost predicate KernelMapped(w: Ram, dir: nat, tabs: Tables) {
    && Shape(w, dir, tabs)
    && (forall p: nat :: p < KERNEL_PAGES ==> Leaf(w, dir, p) == Some(Pte(p, KERNEL_FLAGS)))
    && (forall k: nat :: k < KERNEL_SLOTS ==> k in tabs && w[dir][k] == Pte(tabs[k], KERNEL_FLAGS))
  }

  /** So the kernel can write them and the user cannot touch them. */
  lemma KernelRights(w: Ram, dir: nat, tabs: Tables, p: nat)
    requires KernelMapped(w, dir, tabs) && p < KERNEL_PAGES
    ensures EffectiveRights(w, dir, p) == Rights(true, true, false)
    ensures Frame(Leaf(w, dir, p).value) == p
  {
    assert Slot(p) < KERNEL_SLOTS;
    PteParts(p, KERNEL_FLAGS);
    PteParts(tabs[Slot(p)], KERNEL_FLAGS);
  }

  lemma MappingAboveKeepsKernel(w: Ram, w': Ram, dir: nat, tabs: Tables, lo: nat, n: nat, pfn: nat, flags: Byte)
    requires KernelMapped(w, dir, tabs) && RegionMapped(w, w', dir, tabs, lo, n, pfn, flags)
    requires KERNEL_PAGES <= lo
    ensures KernelMapped(w', dir, tabs)
  {
    forall k: nat | k < KERNEL_SLOTS ensures k in tabs && w'[dir][k] == Pte(tabs[k], KERNEL_FLAGS) {
      assert !SlotTouched(k, lo, n);
    }
  }

  /** Recorded regions: unused, or from mmap. */
  predicate FromMmap(blocks: Blocks) {
    forall i :: 0 <= i < MAX_BLOCKS ==>
      blocks[i] == Block(0, 0) || KHEAP_SAFE_BOUNDARY <= blocks[i].start <= blocks[i].end
  }

  /** An address space of a process in order. */
  ghost predicate SpaceOk(s: Machine, runs: Runs, dir: nat, tabs: Tables) {
    Tidy(s, runs, dir, tabs) && Full(tabs) && KernelMapped(View(s), dir, tabs)
  }

  /** Page `p` is one of those a recorded block takes with it when freed. */
  predicate Reaches(block: Block, p: nat) {
    block.start <= block.end && block.start / 4096 <= p && p * 4096 < block.end
  }

  /** A block that lies, at least in part, below the boundary. */
  predicate ReachesKernel(block: Block) {
    && block.start <= block.end && block.start < KHEAP_SAFE_BOUNDARY
    && block.start / PAGE_SIZE < PagesUpTo(block.end)
  }

  /** munmap: the pages of the first block recorded at the address are unmapped
      and its entry is cleared, or nothing happens; heap blocks stay taken. */
  lemma FreeBlockMeaning(v: Vmem, runs: Runs, dir: nat, tabs: Tables, va: Word)
    requires Tidy(v.s, runs, dir, tabs)
    ensures
      dir < PAGES && var r := FreeBlock(v, dir, va);
      match Find(v.blocks, va, 0)
      case None => r == (v, InvalidArg)
      case Some(i) =>
        && i < MAX_BLOCKS && v.blocks[i].start == va
        && r.1 == Ok && r.0.blocks == v.blocks[i := Block(0, 0)]
        && Tidy(r.0.s, runs, dir, tabs) && r.0.s.table == v.s.table && View(r.0.s)[dir] == View(v.s)[dir]
        && (forall p: nat :: p < PAGES ==>
              Leaf(View(r.0.s), dir, p) == if Reaches(v.blocks[i], p) then None else Leaf(View(v.s), dir, p))
  {
    hide Tidy, Leaf, FreeVa, Find, Shape;
    TidyDir(v.s, runs, dir, tabs);
    FindMeaning(v.blocks, va, 0);
    if Find(v.blocks, va, 0).Some? {
      var end := v.blocks[Find(v.blocks, va, 0).value].end;
      if va <= end {
        FreeVaMeaning(v.s, runs, dir, tabs, va, end);
      } else {
        FreeVaRefused(v.s, dir, va, end);
      }
    }
  }

  /** munmap keeps the kernel mapping exactly when the block it finds does not
      reach below the boundary. */
  lemma MunmapKernelMapping(v: Vmem, runs: Runs, dir: nat, tabs: Tables, va: Word)
    requires SpaceOk(v.s, runs, dir, tabs) && Find(v.blocks, va, 0).Some?
    ensures
      var i := Find(v.blocks, va, 0).value;
      && dir < PAGES && i < MAX_BLOCKS
      && (KernelMapped(View(FreeBlock(v, dir, va).0.s), dir, tabs) <==> !ReachesKernel(v.blocks[i]))
  {
    hide FreeBlock, Leaf, Find;
    FreeBlockMeaning(v, runs, dir, tabs, va);
    var block, w' := v.blocks[Find(v.blocks, va, 0).value], View(FreeBlock(v, dir, va).0.s);
    if ReachesKernel(block) {
      assert Leaf(w', dir, block.start / PAGE_SIZE) == None;
    }
  }

  lemma FreshIsData(s: Machine, runs: Runs, dir: nat, tabs: Tables, b: nat, n: nat)
    requires Tidy(s, runs, dir, tabs) && b !in runs
    ensures DataRun(runs[b := n], dir, tabs, b)
  {
    assert HeapBlock(HEAP_FRAME + b) == b;
  }

  lemma KernelMappedSame(w: Ram, w': Ram, dir: nat, tabs: Tables)
    requires KernelMapped(w, dir, tabs) && Shape(w', dir, tabs) && w'[dir] == w[dir]
    requires forall p: nat :: p < PAGES ==> Leaf(w', dir, p) == Leaf(w, dir, p)
    ensures KernelMapped(w', dir, tabs)
  {
  }

  /** The region reads as zeros through the page table, the user may read it, and
      write it as given, and no page outside it moves. */
  ghost predicate FreshlyMapped(s: Machine, s': Machine, dir: nat, vaStart: Word, vaEnd: Word, write: bool) {
    && dir < PAGES
    && (forall va: Word :: vaStart <= va < vaEnd ==> UserByte(s', dir, va) == Some(0))
    && (forall p: nat :: p < PAGES ==>
          if vaStart / PAGE_SIZE <= p < vaEnd / PAGE_SIZE then
            EffectiveRights(View(s'), dir, p) == Rights(true, write, true)
          else
            Leaf(View(s'), dir, p) == Leaf(View(s), dir, p))
  }

  /** Mapping a zeroed data run above the boundary. */
  lemma MapFresh(s: Machine, runs: Runs, dir: nat, tabs: Tables, ptr: Word, vaStart: Word, vaEnd: Word, flags: Byte)
    requires SpaceOk(s, runs, dir, tabs) && MmapCheck(vaStart, vaEnd) == Ok
    requires Present(flags) && UserAccess(flags)
    requires ptr == AddrOf(BlockOf(ptr)) && DataRun(runs, dir, tabs, BlockOf(ptr))
    requires ptr + (vaEnd - vaStart) <= AddrOf(BlockOf(ptr) + runs[BlockOf(ptr)]) <= SPACE
    requires forall a :: ptr <= a < ptr + (vaEnd - vaStart) ==> s.ram[a] == 0
    ensures
      dir < PAGES && var m := MapRegion(s, dir, vaStart, ptr, vaEnd, flags);
      && m.1 == Ok && m.0.table == s.table && SpaceOk(m.0, runs, dir, tabs)
      && FreshlyMapped(s, m.0, dir, vaStart, vaEnd, Writable(flags))
      && (Writable(flags) ==> RightsKept(View(s), View(m.0), dir))
  {
    hide Tidy, MapRegion, RegionMapped, EffectiveRights, Translate, KernelMapped, Leaf;
    TidyDir(s, runs, dir, tabs);
    MapRegionMeaning(s, runs, dir, tabs, vaStart, ptr, vaEnd, flags);
    var s' := MapRegion(s, dir, vaStart, ptr, vaEnd, flags).0;
    var lo, n, pfn := vaStart / PAGE_SIZE, vaEnd / PAGE_SIZE - vaStart / PAGE_SIZE, ptr / PAGE_SIZE;
    MappingAboveKeepsKernel(View(s), View(s'), dir, tabs, lo, n, pfn, flags);
    forall va: Word | vaStart <= va < vaEnd ensures UserByte(s', dir, va) == Some(0) {
      TranslateInRegion(View(s), View(s'), dir, tabs, vaStart, ptr, vaEnd, flags, va);
      DataOutsideTables(s, runs, dir, tabs, BlockOf(ptr), ptr + (va - vaStart));
    }
    forall p: nat | p < PAGES
      ensures if lo <= p < lo + n then
                EffectiveRights(View(s'), dir, p) == Rights(true, Writable(flags), UserAccess(flags))
              else Leaf(View(s'), dir, p) == Leaf(View(s), dir, p)
    {
      RegionLeaf(View(s), View(s'), dir, tabs, lo, n, pfn, flags, p);
      RightsAfterMapping(View(s), View(s'), dir, tabs, lo, n, pfn, flags, p);
    }
    if Writable(flags) { MappingKeepsRights(View(s), View(s'), dir, tabs, lo, n, pfn, flags); }
  }

  lemma MappingKeepsRights(w: Ram, w': Ram, dir: nat, tabs: Tables, lo: nat, n: nat, pfn: nat, flags: Byte)
    requires RegionMapped(w, w', dir, tabs, lo, n, pfn, flags) && Writable(flags) && UserAccess(flags)
    ensures RightsKept(w, w', dir)
  {
    hide RegionMapped, Leaf;
    RegionLeaf(w, w', dir, tabs, lo, n, pfn, flags, 0);
    forall p: nat | p < PAGES && EffectiveRights(w, dir, p) == Rights(true, true, true)
      ensures EffectiveRights(w', dir, p) == Rights(true, true, true)
    {
      RegionLeaf(w, w', dir, tabs, lo, n, pfn, flags, p);
      RightsAfterMapping(w, w', dir, tabs, lo, n, pfn, flags, p);
    }
  }

  /** One more live run, at a block that was free. */
  ghost predicate OneRunMore(runs: Runs, runs': Runs, n: nat) {
    exists b: nat :: b !in runs && runs' == runs[b := n]
  }

  /** One unused entry of the block table filled. */
  ghost predicate OneBlockMore(blocks: Blocks, blocks': Blocks, block: Block) {
    exists i :: 0 <= i < MAX_BLOCKS && blocks[i].start == 0 && blocks' == blocks[i := block]
  }

  /** When the outcome of mmap is not modelled: the scan leaves the block table,
      or nothing fits and the memset of null reaches that table. */
  lemma MmapUndefined(v: Vmem, dir: nat, vaStart: Word, vaEnd: Word, userFlags: Word)
    requires dir < PAGES
    ensures
      Mmap(v, dir, vaStart, vaEnd, userFlags).1 == Undefined <==>
      && MmapCheck(vaStart, vaEnd) == Ok
      && var n := NumBlocks(vaEnd - vaStart);
      !ScanSafe(v.s.table, n) || (!FitExists(v.s.table, Need(n)) && vaEnd - vaStart > KHEAP_TABLE_ADDR)
  {
    hide MapMany, FreeVa, Zeroed, Marked, Scan, Freed, NumBlocks;
    if MmapCheck(vaStart, vaEnd) == Ok {
      var n := NumBlocks(vaEnd - vaStart);
      ScanMeaning(v.s.table, n);
      FindMeaning(v.blocks, 0, 0);
      if Scan(v.s.table, n, 0).Found? {
        assert LowestFit(v.s.table, Need(n), Scan(v.s.table, n, 0).at);
      }
    }
  }

  /** A page the user may read and write keeps that through a mapping that
      grants both. */
  ghost predicate RightsKept(w: Ram, w': Ram, dir: nat) {
    dir < PAGES && forall p: nat :: p < PAGES && EffectiveRights(w, dir, p) == Rights(true, true, true) ==>
      EffectiveRights(w', dir, p) == Rights(true, true, true)
  }

  /** What mmap leaves: the state after kzalloc, with the blocks given back when no
      entry is left for them, or mapped and recorded. */
  lemma MmapState(v: Vmem, dir: nat, vaStart: Word, vaEnd: Word, userFlags: Word)
    requires dir < PAGES && Mmap(v, dir, vaStart, vaEnd, userFlags).1 != Undefined
    ensures
      var o := Mmap(v, dir, vaStart, vaEnd, userFlags);
      if MmapCheck(vaStart, vaEnd) != Ok then o == (v, MmapCheck(vaStart, vaEnd))
      else
        var r := Kzalloc(v.s, vaEnd - vaStart);
        && ScanSafe(v.s.table, NumBlocks(vaEnd - vaStart)) && (r.ptr == 0 ==> vaEnd - vaStart <= KHEAP_TABLE_ADDR)
        && match Find(v.blocks, 0, 0)
           case None => r.ptr != 0 ==> o == (v.(s := Kfree(r.s, r.ptr)), OutOfVmemBlocks)
           case Some(i) =>
             var m := MapRegion(r.s, dir, vaStart, r.ptr, vaEnd, UserFlags(userFlags));
             && i < MAX_BLOCKS && v.blocks[i].start == 0
             && (r.ptr != 0 && m.1 == Ok ==> o == (Vmem(m.0, v.blocks[i := Block(vaStart, vaEnd)]), Ok))
    ensures
      var r := Kzalloc(v.s, if vaStart <= vaEnd then vaEnd - vaStart else 0);
      MmapCheck(vaStart, vaEnd) == Ok && r.ptr == 0 ==>
        Mmap(v, dir, vaStart, vaEnd, userFlags) == (v.(s := r.s), NotEnoughMem)
  {
    hide Kzalloc, MapRegion, Kfree, Find, ScanSafe, NumBlocks;
    FindMeaning(v.blocks, 0, 0);
  }

  /** What a call of mmap comes to.  On success the region is freshly mapped, backed
      by blocks no one held before, and recorded.  When it fails, no page moves, and
      block table and heap are as before.  Either way the kernel mapping stands. */
  ghost predicate MmapEffect(v: Vmem, r: (Vmem, Status), runs: Runs, runs': Runs, dir: nat, tabs: Tables,
                             vaStart: Word, vaEnd: Word, userFlags: Word) {
    && dir < PAGES
    && (r.1 != Undefined ==> SpaceOk(r.0.s, runs', dir, tabs))
    && (FromMmap(v.blocks) ==> FromMmap(r.0.blocks))
    && (r.1 == Ok && AsksWrite(userFlags) ==> RightsKept(View(v.s), View(r.0.s), dir))
    && (r.1 == Ok ==>
          && MmapCheck(vaStart, vaEnd) == Ok
          && FreshlyMapped(v.s, r.0.s, dir, vaStart, vaEnd, AsksWrite(userFlags))
          && OneRunMore(runs, runs', (vaEnd - vaStart) / PAGE_SIZE)
          && OneBlockMore(v.blocks, r.0.blocks, Block(vaStart, vaEnd)))
    && (r.1 != Ok && r.1 != Undefined ==>
          && r.0.s.table == v.s.table && r.0.blocks == v.blocks && runs' == runs
          && RightsKept(View(v.s), View(r.0.s), dir)
          && (forall p: nat :: p < PAGES ==> Leaf(View(r.0.s), dir, p) == Leaf(View(v.s), dir, p)))
  }

  lemma MmapMeaning(v: Vmem, runs: Runs, dir: nat, tabs: Tables, vaStart: Word, vaEnd: Word, userFlags: Word)
    returns (runs': Runs)
    requires SpaceOk(v.s, runs, dir, tabs)
    ensures
      dir < PAGES &&
      MmapEffect(v, Mmap(v, dir, vaStart, vaEnd, userFlags), runs, runs', dir, tabs, vaStart, vaEnd, userFlags)
  {
    hide Leaf, Tidy, Kzalloc, Kfree, MapRegion, KernelMapped, FreshlyMapped, Find, ScanSafe, NumBlocks, EffectiveRights,
      Mmap, RightsKept, MmapEffect, FromMmap, OneRunMore, OneBlockMore;
    TidyDir(v.s, runs, dir, tabs);
    runs' := runs;
    var o := Mmap(v, dir, vaStart, vaEnd, userFlags);
    if o.1 == Undefined {
      MmapUndefinedKeeps(v, dir, vaStart, vaEnd, userFlags);
      NoEffect(v, o, runs, dir, tabs, vaStart, vaEnd, userFlags);
      return;
    }
    MmapState(v, dir, vaStart, vaEnd, userFlags);
    if MmapCheck(vaStart, vaEnd) != Ok {
      NoEffect(v, o, runs, dir, tabs, vaStart, vaEnd, userFlags);
    } else {
      var r := Kzalloc(v.s, vaEnd - vaStart);
      if r.ptr == 0 {
        NullEffect(v, runs, dir, tabs, vaStart, vaEnd, userFlags);
      } else if Find(v.blocks, 0, 0).None? {
        FullEffect(v, runs, dir, tabs, vaStart, vaEnd, userFlags);
      } else {
        runs' := MapEffect(v, runs, dir, tabs, vaStart, vaEnd, userFlags, Find(v.blocks, 0, 0).value);
      }
    }
  }

  lemma NoEffect(v: Vmem, o: (Vmem, Status), runs: Runs, dir: nat, tabs: Tables, vaStart: Word, vaEnd: Word,
                 userFlags: Word)
    requires SpaceOk(v.s, runs, dir, tabs) && dir < PAGES && o.0.blocks == v.blocks && o.1 != Ok
    requires o.1 == Undefined || o.0 == v
    ensures MmapEffect(v, o, runs, runs, dir, tabs, vaStart, vaEnd, userFlags)
  {
    hide Tidy, KernelMapped, EffectiveRights, Leaf;
  }

  /** No block: low memory is cleared. */
  lemma NullEffect(v: Vmem, runs: Runs, dir: nat, tabs: Tables, vaStart: Word, vaEnd: Word, userFlags: Word)
    requires SpaceOk(v.s, runs, dir, tabs) && dir < PAGES && MmapCheck(vaStart, vaEnd) == Ok
    requires ScanSafe(v.s.table, NumBlocks(vaEnd - vaStart)) && vaEnd - vaStart <= KHEAP_TABLE_ADDR
    requires Kzalloc(v.s, vaEnd - vaStart).ptr == 0
    ensures
      var o := (v.(s := Kzalloc(v.s, vaEnd - vaStart).s), NotEnoughMem);
      MmapEffect(v, o, runs, runs, dir, tabs, vaStart, vaEnd, userFlags)
  {
    hide Tidy, KernelMapped, EffectiveRights, Leaf, Kzalloc, ScanSafe, NumBlocks;
    var size := vaEnd - vaStart;
    var _ := KzallocKeepsTables(v.s, runs, dir, tabs, size);
    SpaceSame(v.s, runs, Kzalloc(v.s, size).s, runs, dir, tabs);
    RightsSame(View(v.s), View(Kzalloc(v.s, size).s), dir);
  }

  /** No entry: the blocks are given back. */
  lemma FullEffect(v: Vmem, runs: Runs, dir: nat, tabs: Tables, vaStart: Word, vaEnd: Word, userFlags: Word)
    requires SpaceOk(v.s, runs, dir, tabs) && dir < PAGES && MmapCheck(vaStart, vaEnd) == Ok
    requires ScanSafe(v.s.table, NumBlocks(vaEnd - vaStart)) && Kzalloc(v.s, vaEnd - vaStart).ptr != 0
    ensures
      var r := Kzalloc(v.s, vaEnd - vaStart);
      var o := (v.(s := Kfree(r.s, r.ptr)), OutOfVmemBlocks);
      MmapEffect(v, o, runs, runs, dir, tabs, vaStart, vaEnd, userFlags)
  {
    hide Tidy, KernelMapped, EffectiveRights, Leaf, Kzalloc, Kfree, ScanSafe, NumBlocks, RightsKept;
    var size := vaEnd - vaStart;
    var r := Kzalloc(v.s, size);
    var runs1 := KzallocKeepsTables(v.s, runs, dir, tabs, size);
    SpaceSame(v.s, runs, r.s, runs1, dir, tabs);
    FreshIsData(v.s, runs, dir, tabs, BlockOf(r.ptr), Need(NumBlocks(size)));
    FreeAgain(r.s, runs1, dir, tabs, r.ptr);
    GivenBack(r.s, r.ptr);
    assert runs1 - {BlockOf(r.ptr)} == runs;
    RightsSame(View(v.s), View(Kfree(r.s, r.ptr)), dir);
  }

  /** Blocks and an entry: the region is mapped and recorded. */
  lemma MapEffect(v: Vmem, runs: Runs, dir: nat, tabs: Tables, vaStart: Word, vaEnd: Word, userFlags: Word, i: nat)
    returns (runs': Runs)
    requires SpaceOk(v.s, runs, dir, tabs) && dir < PAGES && MmapCheck(vaStart, vaEnd) == Ok
    requires ScanSafe(v.s.table, NumBlocks(vaEnd - vaStart)) && Kzalloc(v.s, vaEnd - vaStart).ptr != 0
    requires i < MAX_BLOCKS && v.blocks[i].start == 0
    ensures
      var r := Kzalloc(v.s, vaEnd - vaStart);
      var m := MapRegion(r.s, dir, vaStart, r.ptr, vaEnd, UserFlags(userFlags));
      var o := (Vmem(m.0, v.blocks[i := Block(vaStart, vaEnd)]), Ok);
      m.1 == Ok && MmapEffect(v, o, runs, runs', dir, tabs, vaStart, vaEnd, userFlags)
  {
    hide Tidy, KernelMapped, EffectiveRights, Leaf, Kzalloc, MapRegion, ScanSafe, NumBlocks, FreshlyMapped, RightsKept;
    var size := vaEnd - vaStart;
    WholeBlocks(size);
    var r := Kzalloc(v.s, size);
    runs' := KzallocKeepsTables(v.s, runs, dir, tabs, size);
    SpaceSame(v.s, runs, r.s, runs', dir, tabs);
    RightsSame(View(v.s), View(r.s), dir);
    FreshIsData(v.s, runs, dir, tabs, BlockOf(r.ptr), Need(NumBlocks(size)));
    FlagsAsked(userFlags);
    MapFresh(r.s, runs', dir, tabs, r.ptr, vaStart, vaEnd, UserFlags(userFlags));
    var s' := MapRegion(r.s, dir, vaStart, r.ptr, vaEnd, UserFlags(userFlags)).0;
    FreshSince(v.s, r.s, s', dir, vaStart, vaEnd, AsksWrite(userFlags));
    KeptTwice(View(v.s), View(r.s), View(s'), dir, AsksWrite(userFlags));
    assert runs' == runs[BlockOf(r.ptr) := size / PAGE_SIZE];
  }

  lemma KeptTwice(w: Ram, w1: Ram, w2: Ram, dir: nat, both: bool)
    requires RightsKept(w, w1, dir) && (both ==> RightsKept(w1, w2, dir))
    ensures both ==> RightsKept(w, w2, dir)
  {
    hide EffectiveRights;
  }

  lemma GivenBack(s: Machine, ptr: nat)
    ensures Kfree(s, ptr).table == Freed(s.table, BlockOf(ptr))
  {
  }

  lemma MmapUndefinedKeeps(v: Vmem, dir: nat, vaStart: Word, vaEnd: Word, userFlags: Word)
    requires dir < PAGES && Mmap(v, dir, vaStart, vaEnd, userFlags).1 == Undefined
    ensures Mmap(v, dir, vaStart, vaEnd, userFlags).0.blocks == v.blocks
  {
    hide Kzalloc, MapMany, Kfree, Find, ScanSafe, NumBlocks;
    FindMeaning(v.blocks, 0, 0);
  }

  /** Pages of the user: whole pages from the boundary up, the right way round. */
  predicate UserPages(vaStart: Word, vaEnd: Word) {
    vaStart % 4096 == 0 && vaEnd % 4096 == 0 && 0x800_0000 <= vaStart < vaEnd
  }

  ghost predicate HasUnused(blocks: Blocks) {
    exists i :: 0 <= i < MAX_BLOCKS && blocks[i].start == 0
  }

  /** mmap succeeds exactly for whole pages of the user that find a free run of as
      many blocks and an unused entry of the block table; what it returns
      otherwise; and the rights it grants, where O_WRITE is 2. */
  lemma MmapExact(v: Vmem, runs: Runs, dir: nat, tabs: Tables, vaStart: Word, vaEnd: Word, userFlags: Word)
    requires SpaceOk(v.s, runs, dir, tabs)
    ensures
      dir < PAGES && var r, t := Mmap(v, dir, vaStart, vaEnd, userFlags), v.s.table;
      && (r.1 == InvalidArg <==> vaStart % 4096 != 0 || vaEnd % 4096 != 0)
      && (r.1 == InvalidUserMemAccess <==>
          vaStart % 4096 == 0 && vaEnd % 4096 == 0 && !(0x800_0000 <= vaStart < vaEnd))
      && (r.1 == Ok <==>
          UserPages(vaStart, vaEnd) && FitExists(t, (vaEnd - vaStart) / 4096) && HasUnused(v.blocks))
      && (r.1 == OutOfVmemBlocks <==>
          UserPages(vaStart, vaEnd) && FitExists(t, (vaEnd - vaStart) / 4096) && !HasUnused(v.blocks))
      && (r.1 == NotEnoughMem <==>
          && UserPages(vaStart, vaEnd) && !FitExists(t, (vaEnd - vaStart) / 4096) && vaEnd - vaStart <= 0x7e00
          && (vaEnd - vaStart == 4096 || t == [] || !IsFree(t[|t| - 1])))
      && (r.1 == Ok ==> forall p: nat :: vaStart / 4096 <= p < vaEnd / 4096 ==>
            EffectiveRights(View(r.0.s), dir, p) == Rights(true, userFlags / 2 % 2 == 1, true))
  {
    hide Tidy, KernelMapped, EffectiveRights, UserByte, Leaf, FitExists, Mmap, FreshlyMapped, IsFree, Kzalloc,
      MapRegion;
    TidyDir(v.s, runs, dir, tabs);
    if UserPages(vaStart, vaEnd) {
      MmapOutcome(v, runs, dir, tabs, vaStart, vaEnd, userFlags);
    } else {
      MmapRefused(v, dir, vaStart, vaEnd, userFlags);
    }
    if Mmap(v, dir, vaStart, vaEnd, userFlags).1 == Ok {
      var _ := MmapMeaning(v, runs, dir, tabs, vaStart, vaEnd, userFlags);
      FreshRights(v.s, Mmap(v, dir, vaStart, vaEnd, userFlags).0.s, dir, vaStart, vaEnd, AsksWrite(userFlags));
    }
  }

  /** A call that fails gives its region's blocks back, on any tables: they are free
      again, every earlier allocation and table stays, and no entry is recorded. */
  lemma MmapGivesBack(v: Vmem, runs: Runs, dir: nat, tabs: Tables, vaStart: Word, vaEnd: Word, userFlags: Word)
    returns (runs': Runs, tabs': Tables)
    requires Tidy(v.s, runs, dir, tabs) && dir < PAGES && UserPages(vaStart, vaEnd)
    requires
      var st := Mmap(v, dir, vaStart, vaEnd, userFlags).1;
      st != Ok && st != Undefined
    ensures
      var r, n := Mmap(v, dir, vaStart, vaEnd, userFlags), (vaEnd - vaStart) / 4096;
      && Tidy(r.0.s, runs', dir, tabs') && TablesGrew(tabs, runs, tabs', runs')
      && (forall k: nat :: LowestFit(v.s.table, n, k) ==> FreeRun(r.0.s.table, k, n))
      && (forall i :: 0 <= i < MAX_BLOCKS ==>
            r.0.blocks[i] == v.blocks[i] || (v.blocks[i].start == 0 && r.0.blocks[i] == Block(0, 0)))
  {
    hide Tidy, Kzalloc, Kfree, MapRegion, Find, ScanSafe, NumBlocks, TablesGrew, LowestFit, FreeRun, Mmap;
    var size := vaEnd - vaStart;
    var r := Kzalloc(v.s, size);
    runs', tabs' := runs, tabs;
    FailedState(v, dir, vaStart, vaEnd, userFlags);
    WholeBlocks(size);
    NothingMapped(v.s, runs, dir, tabs, 0, 0, 0);
    var runs1 := KzallocKeepsTables(v.s, runs, dir, tabs, size);
    TakenAt(v.s, runs, dir, tabs, size);
    if r.ptr != 0 {
      FreshIsData(v.s, runs, dir, tabs, BlockOf(r.ptr), size / 4096);
      FlagsAsked(userFlags);
      if Find(v.blocks, 0, 0).None? {
        FreedRun(r.s, runs1, dir, tabs, r.ptr);
        assert runs1 - {BlockOf(r.ptr)} == runs;
      } else {
        runs', tabs' := TakenBack(r.s, runs, runs1, dir, tabs, vaStart, r.ptr, vaEnd, UserFlags(userFlags));
      }
    }
  }

  /** The region mapped in part, and its blocks given back. */
  lemma TakenBack(s: Machine, runs: Runs, runs1: Runs, dir: nat, tabs: Tables, vaStart: Word, ptr: Word, vaEnd: Word,
                  flags: Byte) returns (runs': Runs, tabs': Tables)
    requires Tidy(s, runs1, dir, tabs) && dir < PAGES && Present(flags) && RegionOk(vaStart, ptr, vaEnd)
    requires DataRun(runs1, dir, tabs, BlockOf(ptr)) && BlockOf(ptr) !in runs
    requires runs1 == runs[BlockOf(ptr) := (vaEnd - vaStart) / 4096]
    ensures
      var s' := Kfree(MapRegion(s, dir, vaStart, ptr, vaEnd, flags).0, ptr);
      && Tidy(s', runs', dir, tabs') && TablesGrew(tabs, runs, tabs', runs')
      && FreeRun(s'.table, BlockOf(ptr), (vaEnd - vaStart) / 4096)
  {
    hide Tidy, Kfree, MapRegion, FreeRun;
    var runs2;
    runs2, tabs' := PartlyMapped(s, runs1, dir, tabs, vaStart, ptr, vaEnd, flags);
    StillData(runs1, runs2, dir, tabs, tabs', BlockOf(ptr));
    FreedRun(MapRegion(s, dir, vaStart, ptr, vaEnd, flags).0, runs2, dir, tabs', ptr);
    runs' := runs2 - {BlockOf(ptr)};
    GrewWithout(runs, runs2, tabs, tabs', BlockOf(ptr), (vaEnd - vaStart) / 4096);
  }

  /** The state a failed call leaves. */
  lemma FailedState(v: Vmem, dir: nat, vaStart: Word, vaEnd: Word, userFlags: Word)
    requires dir < PAGES && UserPages(vaStart, vaEnd)
    requires
      var st := Mmap(v, dir, vaStart, vaEnd, userFlags).1;
      st != Ok && st != Undefined
    ensures
      var o, size := Mmap(v, dir, vaStart, vaEnd, userFlags).0, vaEnd - vaStart;
      var r := Kzalloc(v.s, size);
      && ScanSafe(v.s.table, NumBlocks(size)) && (r.ptr == 0 ==> size <= KHEAP_TABLE_ADDR && o == v.(s := r.s))
      && match Find(v.blocks, 0, 0)
         case None => r.ptr != 0 ==> o == v.(s := Kfree(r.s, r.ptr))
         case Some(i) =>
           var s2 := MapRegion(r.s, dir, vaStart, r.ptr, vaEnd, UserFlags(userFlags)).0;
           && i < MAX_BLOCKS && v.blocks[i].start == 0
           && (r.ptr != 0 ==> o == Vmem(Kfree(s2, r.ptr), v.blocks[i := Block(0, 0)]))
  {
    hide Kzalloc, MapRegion, Kfree, Find, ScanSafe, NumBlocks;
    FindMeaning(v.blocks, 0, 0);
  }

  lemma TakenAt(s: Machine, runs: Runs, dir: nat, tabs: Tables, size: Word)
    requires Tidy(s, runs, dir, tabs) && ScanSafe(s.table, NumBlocks(size))
    ensures forall k: nat :: LowestFit(s.table, Need(NumBlocks(size)), k) ==>
              Kzalloc(s, size).ptr != 0 && k == BlockOf(Kzalloc(s, size).ptr)
  {
    hide NumBlocks, Shape, Owned;
    ScanMeaning(s.table, NumBlocks(size));
    var _ := KmallocMeaning(s, runs, size);
  }

  lemma PartlyMapped(s: Machine, runs: Runs, dir: nat, tabs: Tables, vaStart: Word, paddr: Word, vaEnd: Word,
                     flags: Byte) returns (runs': Runs, tabs': Tables)
    requires Tidy(s, runs, dir, tabs) && dir < PAGES && Present(flags) && RegionOk(vaStart, paddr, vaEnd)
    ensures Tidy(MapRegion(s, dir, vaStart, paddr, vaEnd, flags).0, runs', dir, tabs')
    ensures TablesGrew(tabs, runs, tabs', runs')
  {
    hide Tidy, MapMany, TablesGrew;
    var stop;
    runs', tabs', stop := MapManyMeaning(s, runs, dir, tabs, vaStart / PAGE_SIZE,
                                         vaEnd / PAGE_SIZE - vaStart / PAGE_SIZE, paddr / PAGE_SIZE, flags);
  }

  lemma StillData(runs: Runs, runs': Runs, dir: nat, tabs: Tables, tabs': Tables, b: nat)
    requires DataRun(runs, dir, tabs, b) && TablesGrew(tabs, runs, tabs', runs')
    ensures DataRun(runs', dir, tabs', b)
  {
    assert HeapBlock(HEAP_FRAME + b) == b;
    assert forall k :: k in tabs ==> tabs[k] in Frames(dir, tabs);
  }

  lemma FreedRun(s: Machine, runs: Runs, dir: nat, tabs: Tables, ptr: nat)
    requires Tidy(s, runs, dir, tabs) && DataRun(runs, dir, tabs, BlockOf(ptr))
    ensures Tidy(Kfree(s, ptr), runs - {BlockOf(ptr)}, dir, tabs)
    ensures FreeRun(Kfree(s, ptr).table, BlockOf(ptr), runs[BlockOf(ptr)])
  {
    hide Shape, Owned;
    KfreeKeepsTables(s, runs, dir, tabs, ptr);
    LengthOfRun(s.table, runs, BlockOf(ptr));
    MarkBits(false, false);
  }

  lemma GrewWithout(runs: Runs, runs2: Runs, tabs: Tables, tabs2: Tables, b: nat, n: nat)
    requires b !in runs && TablesGrew(tabs, runs[b := n], tabs2, runs2)
    ensures TablesGrew(tabs, runs, tabs2, runs2 - {b})
  {
    assert forall x :: x in runs ==> x in runs[b := n] && runs[b := n][x] == runs[x];
  }

  lemma FreshRights(s: Machine, s': Machine, dir: nat, vaStart: Word, vaEnd: Word, write: bool)
    requires FreshlyMapped(s, s', dir, vaStart, vaEnd, write)
    ensures dir < PAGES
    ensures forall p: nat :: vaStart / 4096 <= p < vaEnd / 4096 ==>
              EffectiveRights(View(s'), dir, p) == Rights(true, write, true)
  {
    hide UserByte, Leaf, EffectiveRights;
  }

  lemma MmapRefused(v: Vmem, dir: nat, vaStart: Word, vaEnd: Word, userFlags: Word)
    requires dir < PAGES && !UserPages(vaStart, vaEnd)
    ensures
      Mmap(v, dir, vaStart, vaEnd, userFlags)
      == (v, if vaStart % 4096 != 0 || vaEnd % 4096 != 0 then InvalidArg else InvalidUserMemAccess)
  {
    hide Kzalloc, MapRegion, Kfree, Find, ScanSafe, NumBlocks;
  }

  lemma MmapOutcome(v: Vmem, runs: Runs, dir: nat, tabs: Tables, vaStart: Word, vaEnd: Word, userFlags: Word)
    requires SpaceOk(v.s, runs, dir, tabs) && UserPages(vaStart, vaEnd)
    ensures
      dir < PAGES && var st, t, n := Mmap(v, dir, vaStart, vaEnd, userFlags).1, v.s.table, (vaEnd - vaStart) / 4096;
      && (FitExists(t, n) ==> st == if HasUnused(v.blocks) then Ok else OutOfVmemBlocks)
      && (!FitExists(t, n) ==>
            st == if vaEnd - vaStart <= 0x7e00 && (n == 1 || t == [] || !IsFree(t[|t| - 1])) then NotEnoughMem
                  else Undefined)
  {
    hide Tidy, KernelMapped, Kzalloc, MapRegion, Kfree, Find, NumBlocks, FitExists, IsFree, RegionMapped, Leaf, Mmap,
      SameElsewhere, SameOutside;
    TidyDir(v.s, runs, dir, tabs);
    var size := vaEnd - vaStart;
    WholeBlocks(size);
    FindMeaning(v.blocks, 0, 0);
    KzallocNull(v.s, runs, dir, tabs, size);
    MmapStatus(v, dir, vaStart, vaEnd, userFlags);
    var r := Kzalloc(v.s, size);
    if FitExists(v.s.table, size / 4096) {
      var runs1 := KzallocKeepsTables(v.s, runs, dir, tabs, size);
      FlagsAsked(userFlags);
      MapRegionMeaning(r.s, runs1, dir, tabs, vaStart, r.ptr, vaEnd, UserFlags(userFlags));
    }
  }

  lemma MmapStatus(v: Vmem, dir: nat, vaStart: Word, vaEnd: Word, userFlags: Word)
    requires dir < PAGES && UserPages(vaStart, vaEnd)
    ensures
      var r := Kzalloc(v.s, vaEnd - vaStart);
      Mmap(v, dir, vaStart, vaEnd, userFlags).1 ==
      if !ScanSafe(v.s.table, NumBlocks(vaEnd - vaStart)) then Undefined
      else if r.ptr == 0 then if vaEnd - vaStart <= 0x7e00 then NotEnoughMem else Undefined
      else if Find(v.blocks, 0, 0).None? then OutOfVmemBlocks
      else MapRegion(r.s, dir, vaStart, r.ptr, vaEnd, UserFlags(userFlags)).1
  {
    hide Kzalloc, MapRegion, Kfree, Find, ScanSafe, NumBlocks;
    FindMeaning(v.blocks, 0, 0);
  }

  lemma KzallocNull(s: Machine, runs: Runs, dir: nat, tabs: Tables, size: Word)
    requires Tidy(s, runs, dir, tabs)
    ensures ScanSafe(s.table, NumBlocks(size)) ==>
              (Kzalloc(s, size).ptr == 0 <==> !FitExists(s.table, Need(NumBlocks(size))))
  {
    hide Shape, Owned, Scan, NumBlocks, Marked;
    if ScanSafe(s.table, NumBlocks(size)) {
      var _ := KmallocMeaning(s, runs, size);
    }
    ScanMeaning(s.table, NumBlocks(size));
  }

  /** munmap undoes mmap: the region is gone, every other page and the block
      table are as before the mmap; its heap blocks are still taken. */
  lemma MunmapUndoesMmap(v: Vmem, runs: Runs, dir: nat, tabs: Tables, vaStart: Word, vaEnd: Word, userFlags: Word)
    requires SpaceOk(v.s, runs, dir, tabs)
    requires forall i :: 0 <= i < MAX_BLOCKS && v.blocks[i].start == 0 ==> v.blocks[i].end == 0
    requires forall i :: 0 <= i < MAX_BLOCKS ==> v.blocks[i].start != vaStart
    requires dir < PAGES && Mmap(v, dir, vaStart, vaEnd, userFlags).1 == Ok
    ensures
      var v1 := Mmap(v, dir, vaStart, vaEnd, userFlags).0;
      var r := FreeBlock(v1, dir, vaStart);
      && r.1 == Ok && r.0.blocks == v.blocks && r.0.s.table == v1.s.table
      && (forall p: nat :: p < PAGES ==>
            Leaf(View(r.0.s), dir, p)
            == if vaStart / PAGE_SIZE <= p < vaEnd / PAGE_SIZE then None else Leaf(View(v.s), dir, p))
  {
    hide Mmap, FreeBlock, Leaf, Tidy, KernelMapped, EffectiveRights, UserByte, Find;
    var v1 := Mmap(v, dir, vaStart, vaEnd, userFlags).0;
    var runs1 := MmapMeaning(v, runs, dir, tabs, vaStart, vaEnd, userFlags);
    var i :| 0 <= i < MAX_BLOCKS && v.blocks[i].start == 0 && v1.blocks == v.blocks[i := Block(vaStart, vaEnd)];
    FindMeaning(v1.blocks, vaStart, 0);
    assert v1.blocks[i].start == vaStart && Find(v1.blocks, vaStart, 0).Some?;
    assert forall j :: 0 <= j < MAX_BLOCKS && j != i ==> v1.blocks[j].start == v.blocks[j].start;
    FreeBlockMeaning(v1, runs1, dir, tabs, vaStart);
    assert v1.blocks[i := Block(0, 0)] == v.blocks;
  }

  lemma RightsSame(w: Ram, w': Ram, dir: nat)
    requires dir < PAGES && w'[dir] == w[dir]
    requires forall p: nat :: p < PAGES ==> Leaf(w', dir, p) == Leaf(w, dir, p)
    ensures RightsKept(w, w', dir)
    ensures forall p: nat :: p < PAGES ==> EffectiveRights(w', dir, p) == EffectiveRights(w, dir, p)
  {
    hide Leaf;
  }

  lemma WholeBlocks(size: Word)
    requires size % PAGE_SIZE == 0 && 0 < size
    ensures NumBlocks(size) == Need(NumBlocks(size)) == size / PAGE_SIZE
  {
  }

  lemma FreshSince(s: Machine, s1: Machine, s': Machine, dir: nat, vaStart: Word, vaEnd: Word, write: bool)
    requires FreshlyMapped(s1, s', dir, vaStart, vaEnd, write)
    requires forall p: nat :: p < PAGES ==> Leaf(View(s1), dir, p) == Leaf(View(s), dir, p)
    ensures FreshlyMapped(s, s', dir, vaStart, vaEnd, write)
  {
  }

  lemma SpaceSame(s: Machine, runs: Runs, s': Machine, runs': Runs, dir: nat, tabs: Tables)
    requires SpaceOk(s, runs, dir, tabs) && Tidy(s', runs', dir, tabs)
    requires dir < PAGES && View(s')[dir] == View(s)[dir]
    requires forall p: nat :: p < PAGES ==> Leaf(View(s'), dir, p) == Leaf(View(s), dir, p)
    ensures SpaceOk(s', runs', dir, tabs)
  {
    KernelMappedSame(View(s), View(s'), dir, tabs);
  }

  lemma FreeAgain(s: Machine, runs: Runs, dir: nat, tabs: Tables, ptr: nat)
    requires SpaceOk(s, runs, dir, tabs) && DataRun(runs, dir, tabs, BlockOf(ptr))
    ensures SpaceOk(Kfree(s, ptr), runs - {BlockOf(ptr)}, dir, tabs)
    ensures View(Kfree(s, ptr)) == View(s)
  {
    KfreeKeepsTables(s, runs, dir, tabs, ptr);
  }

  // -------------------------------------------------------------------- exit

  /** Page `p` is one of those the exit loop unmaps for a block. */
  predicate Covers(block: Block, p: nat) { block.start != 0 && Reaches(block, p) }

  ghost predicate CoveredFrom(blocks: Blocks, i: nat, p: nat) {
    exists j :: i <= j < MAX_BLOCKS && Covers(blocks[j], p)
  }

  /** One turn of the loop frees the block of that turn and no other. */
  lemma ExitTurn(v: Vmem, runs: Runs, dir: nat, tabs: Tables, i: nat)
    requires Tidy(v.s, runs, dir, tabs) && i < MAX_BLOCKS
    requires v.blocks[i].start != 0 && forall j :: 0 <= j < i ==> v.blocks[j].start == 0
    ensures
      dir < PAGES && var v' := FreeBlock(v, dir, v.blocks[i].start).0;
      && v'.blocks == v.blocks[i := Block(0, 0)]
      && Tidy(v'.s, runs, dir, tabs) && v'.s.table == v.s.table && View(v'.s)[dir] == View(v.s)[dir]
      && (forall p: nat :: p < PAGES ==>
            Leaf(View(v'.s), dir, p) == if Covers(v.blocks[i], p) then None else Leaf(View(v.s), dir, p))
  {
    hide FreeBlock, Tidy, Leaf, Shape;
    FindMeaning(v.blocks, v.blocks[i].start, 0);
    assert Find(v.blocks, v.blocks[i].start, 0) == Some(i);
    FreeBlockMeaning(v, runs, dir, tabs, v.blocks[i].start);
  }

  /** The block loop of process_exit: exactly the pages of recorded blocks are
      unmapped, every entry is cleared, and no heap block is given back. */
  lemma {:induction false} ExitMeaning(v: Vmem, runs: Runs, dir: nat, tabs: Tables, i: nat)
    requires Tidy(v.s, runs, dir, tabs) && i <= MAX_BLOCKS
    requires forall j :: 0 <= j < i ==> v.blocks[j].start == 0
    ensures
      dir < PAGES && var v' := ExitBlocks(v, dir, i);
      && Tidy(v'.s, runs, dir, tabs) && v'.s.table == v.s.table && View(v'.s)[dir] == View(v.s)[dir]
      && (forall j :: 0 <= j < MAX_BLOCKS ==> v'.blocks[j].start == 0)
      && (forall p: nat :: p < PAGES ==>
            Leaf(View(v'.s), dir, p) == if CoveredFrom(v.blocks, i, p) then None else Leaf(View(v.s), dir, p))
    decreases MAX_BLOCKS - i
  {
    hide Tidy, FreeBlock, Leaf, Covers;
    TidyDir(v.s, runs, dir, tabs);
    if i < MAX_BLOCKS {
      var v1 := v;
      if v.blocks[i].start != 0 {
        ExitTurn(v, runs, dir, tabs, i);
        v1 := FreeBlock(v, dir, v.blocks[i].start).0;
      }
      ExitMeaning(v1, runs, dir, tabs, i + 1);
      forall p: nat | p < PAGES
        ensures CoveredFrom(v.blocks, i, p) <==>
                (v.blocks[i].start != 0 && Covers(v.blocks[i], p)) || CoveredFrom(v1.blocks, i + 1, p)
      {
        UncoveredWhenUnused(v.blocks[i], p);
        CoveredTurn(v.blocks, v1.blocks, i, p);
      }
    }
  }

  lemma UncoveredWhenUnused(block: Block, p: nat)
    ensures block.start == 0 ==> !Covers(block, p)
  {
  }

  lemma CoveredTurn(blocks: Blocks, blocks': Blocks, i: nat, p: nat)
    requires i < MAX_BLOCKS && forall j :: i < j < MAX_BLOCKS ==> blocks'[j] == blocks[j]
    ensures CoveredFrom(blocks, i, p) <==> Covers(blocks[i], p) || CoveredFrom(blocks', i + 1, p)
  {
    if j :| i <= j < MAX_BLOCKS && Covers(blocks[j], p) {
      assert j > i ==> Covers(blocks'[j], p);
    }
    if j :| i + 1 <= j < MAX_BLOCKS && Covers(blocks'[j], p) {
      assert Covers(blocks[j], p);
    }
  }

  /** A used entry of the block table that reaches below the boundary. */
  predicate TouchesKernel(block: Block) { block.start != 0 && ReachesKernel(block) }

  /** Exit keeps the kernel mapping exactly when no recorded block reaches
      below the boundary. */
  lemma ExitKernelMapping(v: Vmem, runs: Runs, dir: nat, tabs: Tables)
    requires SpaceOk(v.s, runs, dir, tabs)
    ensures
      dir < PAGES &&
      (KernelMapped(View(ExitBlocks(v, dir, 0).s), dir, tabs) <==>
       forall i :: 0 <= i < MAX_BLOCKS ==> !TouchesKernel(v.blocks[i]))
  {
    hide ExitBlocks, Leaf;
    ExitMeaning(v, runs, dir, tabs, 0);
    var w' := View(ExitBlocks(v, dir, 0).s);
    if i :| 0 <= i < MAX_BLOCKS && TouchesKernel(v.blocks[i]) {
      var p := v.blocks[i].start / PAGE_SIZE;
      assert Covers(v.blocks[i], p);
      assert CoveredFrom(v.blocks, 0, p);
      assert Leaf(w', dir, p) == None;
    } else {
      forall p: nat | p < KERNEL_PAGES ensures !CoveredFrom(v.blocks, 0, p) {
      }
    }
  }

  // -------------------------------------------------------------- whole runs

  datatype VmemOp = MmapOp(vaStart: Word, vaEnd: Word, userFlags: Word) | MunmapOp(addr: Word) | ExitOp

  ghost function StepVmem(v: Vmem, dir: nat, op: VmemOp): Vmem
    requires dir < PAGES
  {
    match op
    case MmapOp(vaStart, vaEnd, userFlags) => Mmap(v, dir, vaStart, vaEnd, userFlags).0
    case MunmapOp(addr) => FreeBlock(v, dir, addr).0
    case ExitOp => ExitBlocks(v, dir, 0)
  }

  /** The step ends in a state the model gives. */
  ghost predicate StepDefined(v: Vmem, dir: nat, op: VmemOp)
    requires dir < PAGES
  {
    op.MmapOp? ==> Mmap(v, dir, op.vaStart, op.vaEnd, op.userFlags).1 != Undefined
  }

  /** A run, up to a step whose outcome is not modelled. */
  ghost function RunVmem(v: Vmem, dir: nat, ops: seq<VmemOp>): Option<Vmem>
    requires dir < PAGES
    decreases |ops|
  {
    if ops == [] then Some(v)
    else if !StepDefined(v, dir, ops[0]) then None
    else RunVmem(StepVmem(v, dir, ops[0]), dir, ops[1..])
  }

  /** A step that unmaps no page below the boundary, read off the block table:
      munmap finds no block that reaches there, exit meets none. */
  predicate Spares(blocks: Blocks, op: VmemOp) {
    match op
    case MmapOp(_, _, _) => true
    case MunmapOp(addr) =>
      var i := Find(blocks, addr, 0);
      i.Some? && i.value < MAX_BLOCKS ==> !ReachesKernel(blocks[i.value])
    case ExitOp => forall i :: 0 <= i < MAX_BLOCKS ==> !TouchesKernel(blocks[i])
  }

  /** A step keeps the address space in order exactly when it spares the kernel. */
  lemma StepKernelMapping(v: Vmem, runs: Runs, dir: nat, tabs: Tables, op: VmemOp) returns (runs': Runs)
    requires SpaceOk(v.s, runs, dir, tabs) && dir < PAGES && StepDefined(v, dir, op)
    ensures KernelMapped(View(StepVmem(v, dir, op).s), dir, tabs) <==> Spares(v.blocks, op)
    ensures Spares(v.blocks, op) ==> SpaceOk(StepVmem(v, dir, op).s, runs', dir, tabs)
  {
    hide Tidy, KernelMapped, Mmap, FreeBlock, ExitBlocks, Find, TouchesKernel;
    runs' := runs;
    match op
    case MmapOp(vaStart, vaEnd, userFlags) => runs' := MmapMeaning(v, runs, dir, tabs, vaStart, vaEnd, userFlags);
    case MunmapOp(addr) =>
      FreeBlockMeaning(v, runs, dir, tabs, addr);
      if Find(v.blocks, addr, 0).Some? { MunmapKernelMapping(v, runs, dir, tabs, addr); }
    case ExitOp =>
      ExitMeaning(v, runs, dir, tabs, 0);
      ExitKernelMapping(v, runs, dir, tabs);
  }

  /** Every step of the run spares the kernel. */
  ghost predicate RunSpares(v: Vmem, dir: nat, ops: seq<VmemOp>)
    requires dir < PAGES
    decreases |ops|
  {
    ops == [] || (Spares(v.blocks, ops[0]) && RunSpares(StepVmem(v, dir, ops[0]), dir, ops[1..]))
  }

  /** The kernel is mapped in every state of the run. */
  ghost predicate StaysMapped(v: Vmem, dir: nat, tabs: Tables, ops: seq<VmemOp>)
    requires dir < PAGES
    decreases |ops|
  {
    && KernelMapped(View(v.s), dir, tabs)
    && (ops == [] || StaysMapped(StepVmem(v, dir, ops[0]), dir, tabs, ops[1..]))
  }

  /** Over every run of mmap, munmap and exit with modelled outcomes, from any
      block table: the kernel is mapped in every state exactly when every step
      spares it, and then the space is in order at the end. */
  lemma {:induction false} KernelMappingRuns(v: Vmem, runs: Runs, dir: nat, tabs: Tables, ops: seq<VmemOp>)
    returns (runs': Runs)
    requires SpaceOk(v.s, runs, dir, tabs) && dir < PAGES && RunVmem(v, dir, ops).Some?
    ensures StaysMapped(v, dir, tabs, ops) <==> RunSpares(v, dir, ops)
    ensures RunSpares(v, dir, ops) ==> SpaceOk(RunVmem(v, dir, ops).value.s, runs', dir, tabs)
    decreases |ops|
  {
    hide StepVmem, StepDefined, Tidy, KernelMapped, Spares;
    runs' := runs;
    if ops != [] {
      var v1 := StepVmem(v, dir, ops[0]);
      var runs1 := StepKernelMapping(v, runs, dir, tabs, ops[0]);
      if Spares(v.blocks, ops[0]) {
        runs' := KernelMappingRuns(v1, runs1, dir, tabs, ops[1..]);
      } else {
        NotStaying(v1, dir, tabs, ops[1..]);
      }
    }
  }

  lemma NotStaying(v: Vmem, dir: nat, tabs: Tables, ops: seq<VmemOp>)
    requires dir < PAGES && !KernelMapped(View(v.s), dir, tabs)
    ensures !StaysMapped(v, dir, tabs, ops)
  {
  }

  lemma {:induction false} ExitClears(v: Vmem, dir: nat, i: nat)
    requires dir < PAGES && i <= MAX_BLOCKS && FromMmap(v.blocks)
    ensures FromMmap(ExitBlocks(v, dir, i).blocks)
    decreases MAX_BLOCKS - i
  {
    hide FreeVa;
    if i < MAX_BLOCKS {
      FindMeaning(v.blocks, v.blocks[i].start, 0);
      ExitClears(if v.blocks[i].start != 0 then FreeBlock(v, dir, v.blocks[i].start).0 else v, dir, i + 1);
    }
  }

  /** While every recorded block comes from mmap, every step spares the kernel. */
  lemma MmapBlocksSpare(v: Vmem, dir: nat, op: VmemOp)
    requires dir < PAGES && FromMmap(v.blocks)
    ensures Spares(v.blocks, op) && FromMmap(StepVmem(v, dir, op).blocks)
  {
    hide ExitBlocks, FreeVa, MapRegion, Kzalloc, Kfree, Find, ScanSafe, NumBlocks;
    match op
    case MmapOp(_, _, _) => FindMeaning(v.blocks, 0, 0);
    case MunmapOp(addr) => FindMeaning(v.blocks, addr, 0);
    case ExitOp => ExitClears(v, dir, 0);
  }

  lemma {:induction false} MmapRunsSpare(v: Vmem, dir: nat, ops: seq<VmemOp>)
    requires dir < PAGES && FromMmap(v.blocks) && RunVmem(v, dir, ops).Some?
    ensures RunSpares(v, dir, ops) && FromMmap(RunVmem(v, dir, ops).value.blocks)
    decreases |ops|
  {
    hide StepVmem, StepDefined, Spares, FromMmap;
    if ops != [] {
      MmapBlocksSpare(v, dir, ops[0]);
      MmapRunsSpare(StepVmem(v, dir, ops[0]), dir, ops[1..]);
    }
  }

  /** Kernel mapping invariant: over every run of mmap, munmap and exit with
      modelled outcomes, of a process whose recorded blocks all come from mmap,
      each page below the boundary stays mapped to itself, writable, out of reach
      of the user, and the first 32 directory entries never change. */
  lemma KernelMappingInvariant(v: Vmem, runs: Runs, dir: nat, tabs: Tables, ops: seq<VmemOp>)
    returns (runs': Runs)
    requires SpaceOk(v.s, runs, dir, tabs) && FromMmap(v.blocks) && dir < PAGES && RunVmem(v, dir, ops).Some?
    ensures
      var v' := RunVmem(v, dir, ops).value;
      && SpaceOk(v'.s, runs', dir, tabs) && FromMmap(v'.blocks) && StaysMapped(v, dir, tabs, ops)
      && (forall p: nat :: p < KERNEL_PAGES ==>
            && EffectiveRights(View(v'.s), dir, p) == Rights(true, true, false)
            && Translate(View(v'.s), dir, p * PAGE_SIZE) == Some(p * PAGE_SIZE))
      && (forall k: nat :: k < KERNEL_SLOTS ==> View(v'.s)[dir][k] == View(v.s)[dir][k])
  {
    hide RunVmem, RunSpares, StaysMapped, EffectiveRights, Leaf, Tidy, FromMmap;
    MmapRunsSpare(v, dir, ops);
    runs' := KernelMappingRuns(v, runs, dir, tabs, ops);
    var w' := View(RunVmem(v, dir, ops).value.s);
    forall p: nat | p < KERNEL_PAGES
      ensures EffectiveRights(w', dir, p) == Rights(true, true, false)
      ensures Translate(w', dir, p * PAGE_SIZE) == Some(p * PAGE_SIZE)
    {
      KernelRights(w', dir, tabs, p);
    }
  }

  /** The page table that task_init creates starts out in order. */
  lemma NewSpaceOk(s: Machine, before: Runs) returns (runs: Runs, tabs: Tables)
    requires Represents(s.table, before) && CreateTables(s, KERNEL_FLAGS).ok
    ensures
      var r := CreateTables(s, KERNEL_FLAGS);
      && SpaceOk(r.s, runs, r.dir, tabs) && GrownBy(before, runs, TableBlocks(r.dir, tabs))
      && SameElsewhere(s.ram, r.s.ram, Frames(r.dir, tabs))
  {
    hide CreateTables, Leaf, GrownBy, TableBlocks;
    runs, tabs := CreateMeaning(s, before, KERNEL_FLAGS);
  }
}
