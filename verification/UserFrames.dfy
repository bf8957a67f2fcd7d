/** What a process can reach: every page that the user may touch stands in a data
    allocation of the heap, never in a page table or in the kernel's own memory. */
module UserFrames {
  import opened Memory
  import opened HeapTable
  import opened MachineState
  import opened PageWalk
  import opened PagingSpec
  import opened PagingLife
  import opened VmemSpec
  import opened LoaderSpec
  import opened Loader
  import opened CString
  import opened Arguments
  import opened ProcessImage
  import opened SegmentFrames
  import opened Status

  ghost predicate FrameInData(runs: Runs, dir: nat, tabs: Tables, f: nat) {
    exists b: nat :: DataRun(runs, dir, tabs, b) && FrameIn(runs, b, f)
  }

  /** An entry for the user leads to data. */
  ghost predicate UserEntry(runs: Runs, dir: nat, tabs: Tables, leaf: Option<Word>) {
    leaf.Some? && UserAccess(leaf.value) ==> FrameInData(runs, dir, tabs, Frame(leaf.value))
  }

  ghost predicate Confined(s: Machine, runs: Runs, dir: nat, tabs: Tables) {
    dir < PAGES && forall p: nat :: p < PAGES ==> UserEntry(runs, dir, tabs, Leaf(View(s), dir, p))
  }

  /** So a page with the user right is in a data allocation, which lies above the
      kernel, below the boundary, and apart from every table of the process. */
  lemma ConfinedReach(s: Machine, runs: Runs, dir: nat, tabs: Tables, p: nat)
    requires Tidy(s, runs, dir, tabs) && Confined(s, runs, dir, tabs) && p < PAGES
    requires EffectiveRights(View(s), dir, p).user
    ensures
      Leaf(View(s), dir, p).Some? &&
      var f := Frame(Leaf(View(s), dir, p).value);
      && FrameInData(runs, dir, tabs, f) && f !in Frames(dir, tabs)
      && KHEAP_ADDR <= f * PAGE_SIZE < KHEAP_SAFE_BOUNDARY
  {
    hide Leaf, Tidy, UserAccess, Frame;
    assert UserEntry(runs, dir, tabs, Leaf(View(s), dir, p));
    var f := Frame(Leaf(View(s), dir, p).value);
    var b: nat :| DataRun(runs, dir, tabs, b) && FrameIn(runs, b, f);
    TidyTable(s, runs, dir, tabs);
    RunBelowBoundary(s, runs, b);
    DataOutsideTables(s, runs, dir, tabs, b, f * PAGE_SIZE);
  }

  // -------------------------------------------------------- the ways it is kept

  lemma EntryGrows(runs: Runs, runs': Runs, dir: nat, tabs: Tables, leaf: Option<Word>)
    requires UserEntry(runs, dir, tabs, leaf) && Extends(runs, runs')
    ensures UserEntry(runs', dir, tabs, leaf)
  {
    hide UserAccess, Frame;
    if leaf.Some? && UserAccess(leaf.value) {
      var b: nat :| DataRun(runs, dir, tabs, b) && FrameIn(runs, b, Frame(leaf.value));
      assert DataRun(runs', dir, tabs, b) && FrameIn(runs', b, Frame(leaf.value));
    }
  }

  /** Pages that stay or go, with every allocation kept. */
  lemma ConfinedKept(s: Machine, s': Machine, runs: Runs, runs': Runs, dir: nat, tabs: Tables)
    requires Confined(s, runs, dir, tabs) && Extends(runs, runs')
    requires forall p: nat :: p < PAGES ==>
               Leaf(View(s'), dir, p) == Leaf(View(s), dir, p) || Leaf(View(s'), dir, p) == None
    ensures Confined(s', runs', dir, tabs)
  {
    hide Leaf, UserEntry, Extends;
    forall p: nat | p < PAGES ensures UserEntry(runs', dir, tabs, Leaf(View(s'), dir, p)) {
      EntryGrows(runs, runs', dir, tabs, Leaf(View(s), dir, p));
      NoEntry(runs', dir, tabs);
    }
  }

  lemma NoEntry(runs: Runs, dir: nat, tabs: Tables)
    ensures UserEntry(runs, dir, tabs, None)
  {
  }

  /** An entry for a frame of a data allocation. */
  lemma DataEntry(s: Machine, runs: Runs, dir: nat, tabs: Tables, b: nat, f: nat, flags: Byte)
    requires Represents(s.table, runs) && DataRun(runs, dir, tabs, b) && FrameIn(runs, b, f)
    ensures UserEntry(runs, dir, tabs, Some(Pte(f, flags)))
  {
    hide Pte, Frame, UserAccess, Represents;
    FrameBound(s, runs, b, f);
    PteParts(f, flags);
  }

  /** Mapping a region onto frames of a data allocation. */
  lemma RegionConfined(s: Machine, s': Machine, runs: Runs, dir: nat, tabs: Tables, lo: nat, n: nat, pfn: nat,
                       flags: Byte, b: nat)
    requires Confined(s, runs, dir, tabs) && RegionMapped(View(s), View(s'), dir, tabs, lo, n, pfn, flags)
    requires Represents(s.table, runs) && DataRun(runs, dir, tabs, b)
    requires HEAP_FRAME + b <= pfn && pfn + n <= HEAP_FRAME + b + runs[b]
    ensures Confined(s', runs, dir, tabs)
  {
    hide Leaf, Pte, UserEntry, Represents, DataRun;
    forall p: nat | p < PAGES ensures UserEntry(runs, dir, tabs, Leaf(View(s'), dir, p)) {
      if lo <= p < lo + n {
        BInRuns(runs, dir, tabs, b);
        DataEntry(s, runs, dir, tabs, b, pfn + p - lo, flags);
      }
    }
  }

  lemma BInRuns(runs: Runs, dir: nat, tabs: Tables, b: nat)
    requires DataRun(runs, dir, tabs, b)
    ensures b in runs
  {
  }

  // ------------------------------------------------------------- a new process

  /** New tables have no page for the user. */
  lemma NewConfined(s: Machine, before: Runs) returns (runs: Runs, tabs: Tables)
    requires Represents(s.table, before) && CreateTables(s, KERNEL_FLAGS).ok
    ensures
      var c := CreateTables(s, KERNEL_FLAGS);
      SpaceOk(c.s, runs, c.dir, tabs) && Confined(c.s, runs, c.dir, tabs)
  {
    hide CreateTables, Leaf, GrownBy, Represents, Owned, Pte, UserAccess;
    runs, tabs := NewSpaceOk(s, before);
    var c := CreateTables(s, KERNEL_FLAGS);
    var runs1, tabs1 := CreateMeaning(s, before, KERNEL_FLAGS);
    forall p: nat | p < PAGES ensures UserEntry(runs, c.dir, tabs, Leaf(View(c.s), c.dir, p)) {
      PteParts(p, KERNEL_FLAGS);
      KernelFlagsNotUser();
    }
  }

  lemma KernelFlagsNotUser()
    ensures !UserAccess(KERNEL_FLAGS)
  {
  }

  /** The allocation of a segment is no page table. */
  lemma HomeIsData(s: Machine, runs: Runs, runs': Runs, dir: nat, tabs: Tables, skip: nat, elf: Word, ph: Phdr, b: nat,
                   file: seq<Byte>)
    requires Tidy(s, runs, dir, tabs) && FileAt(s, runs, dir, tabs, skip, elf, file) && Extends(runs, runs')
    requires NeedsCopy(ph) ==> b !in runs && b in runs'
    ensures DataRun(runs', dir, tabs, Home(elf, ph, b))
  {
    if NeedsCopy(ph) { FreshIsData(s, runs, dir, tabs, b, runs'[b]); }
  }

  /** Loading keeps the process confined: to the file, its copies and the stack. */
  lemma ElfConfined(v: Vmem, runs: Runs, dir: nat, tabs: Tables, elf: Word, stack: Word, file: seq<Byte>)
    returns (runs': Runs)
    requires CanLoad(v, runs, dir, tabs, elf, stack, file) && StackAt(runs, dir, tabs, stack)
    requires Confined(v.s, runs, dir, tabs)
    ensures
      var s' := MapElf(v, dir, elf, stack).0.s;
      Represents(s'.table, runs') && Confined(s', runs', dir, tabs)
  {
    hide MapElf, Leaf, Pte, UserEntry, PhOffset, PhCount, Represents, OnPage, FirstFrame, NeedsCopy, DataRun, FileAt,
      SegmentOk, KernelMapped, Tidy, OnStack;
    var phoff, phnum, at := PhOffset(file, 0), PhCount(file, 0), [];
    runs', at := ElfFrames(v, runs, dir, tabs, elf, stack, file);
    var s' := MapElf(v, dir, elf, stack).0.s;
    forall p: nat | p < PAGES ensures UserEntry(runs', dir, tabs, Leaf(View(s'), dir, p)) {
      if OnStack(p) {
        StackFrame(runs, dir, tabs, stack, p);
        DataGrows(runs, runs', dir, tabs, BlockOf(stack));
        DataEntry(s', runs', dir, tabs, BlockOf(stack), stack / PAGE_SIZE + (p - STACK_END / PAGE_SIZE), STACK_FLAGS);
      } else if NoSegment(file, phoff, phnum, 0, p) {
        EntryGrows(runs, runs', dir, tabs, Leaf(View(v.s), dir, p));
      } else {
        var j: nat :| j < phnum && OnPage(Header(file, phoff, j), p);
        var ph := Header(file, phoff, j);
        assert SegmentSpread(View(s'), runs, runs', dir, elf, ph, at[j]);
        HomeIsData(v.s, runs, runs', dir, tabs, BlockOf(stack), elf, ph, at[j], file);
        DataEntry(s', runs', dir, tabs, Home(elf, ph, at[j]), FrameAt(elf, ph, at[j], p), SegmentFlags(ph));
      }
    }
  }

  lemma DataGrows(runs: Runs, runs': Runs, dir: nat, tabs: Tables, b: nat)
    requires DataRun(runs, dir, tabs, b) && Extends(runs, runs')
    ensures DataRun(runs', dir, tabs, b) && runs'[b] == runs[b]
  {
  }

  /** A directory leads to one set of tables. */
  lemma TablesUnique(w: Ram, w': Ram, dir: nat, tabs: Tables, tabs': Tables)
    requires Shape(w, dir, tabs) && Shape(w', dir, tabs') && w'[dir] == w[dir]
    ensures tabs == tabs'
  {
    hide Present, Frame;
    forall k ensures k in tabs <==> k in tabs' {
      if k in tabs { assert Present(w[dir][k]); }
      if k in tabs' { assert Present(w'[dir][k]); }
    }
  }

  /** A process built as in ProcessBuilt is confined. */
  lemma ProcessConfined(s: Machine, before: Runs, blocks: Blocks, elf: Word, stack: Word, file: seq<Byte>,
                        args: seq<Byte>, strings: seq<seq<Byte>>, unset: Word)
    returns (runs: Runs, tabs: Tables)
    requires Buildable(s, before, blocks, elf, stack, file, args, strings)
    ensures
      var c := CreateTables(s, KERNEL_FLAGS);
      var e := MapElf(VmemSpec.Vmem(c.s, blocks), c.dir, elf, stack).0.s;
      var p := PassArguments(e, stack, |strings|, args, unset);
      SpaceOk(p.s, runs, c.dir, tabs) && Confined(p.s, runs, c.dir, tabs)
  {
    hide CreateTables, MapElf, PassArguments, KernelMapped, Placeable, Loaded, StackMapped, MainArguments, StackAt,
      ScanSafe, AllAbove, StringsAt, EffectiveRights, PhOffset, PhCount, Prepared, CopiesFit, Represents, Tidy, Leaf,
      Confined, FileAt, DataKept, StackRights;
    var c := CreateTables(s, KERNEL_FLAGS);
    var v := VmemSpec.Vmem(c.s, blocks);
    var e := MapElf(v, c.dir, elf, stack).0.s;
    runs, tabs := ProcessBuilt(s, before, blocks, elf, stack, file, args, strings, unset);
    var p := PassArguments(e, stack, |strings|, args, unset).s;
    PreparedBounds(s, before, elf, stack, file);
    PreparedTable(s, before, elf, stack, file);
    var runs0, tabs0 := PreparedAfterCreation(s, before, elf, stack, file);
    var runs1, tabs1 := NewConfined(s, before);
    SameSpace(c.s, runs0, tabs0, c.s, runs1, tabs1, c.dir);
    var runs2 := ElfConfined(v, runs0, c.dir, tabs0, elf, stack, file);
    var runs3 := LoaderCorrect(v, runs0, c.dir, tabs0, elf, stack, file);
    TidyTable(e, runs3, c.dir, tabs0);
    MeaningUnique(e.table, runs2, runs3);
    SameSpace(e, runs2, tabs0, p, runs, tabs, c.dir);
    ConfinedKept(e, p, runs, runs, c.dir, tabs);
  }

  lemma PreparedTable(s: Machine, before: Runs, elf: Word, stack: Word, file: seq<Byte>)
    requires Prepared(s, before, elf, stack, file)
    ensures Represents(s.table, before)
  {
  }

  /** Block table and directory fix allocations and tables. */
  lemma SameSpace(s: Machine, runs: Runs, tabs: Tables, s': Machine, runs': Runs, tabs': Tables, dir: nat)
    requires Tidy(s, runs, dir, tabs) && Tidy(s', runs', dir, tabs')
    requires dir < PAGES && s'.table == s.table && View(s')[dir] == View(s)[dir]
    ensures runs == runs' && tabs == tabs'
  {
    hide Represents, Shape;
    MeaningUnique(s.table, runs, runs');
    TablesUnique(View(s), View(s'), dir, tabs, tabs');
  }

  // ------------------------------------------------------------- memory calls

  /** kzalloc moves no page, and neither does giving its blocks back. */
  lemma KzallocConfined(s: Machine, runs: Runs, dir: nat, tabs: Tables, size: Word) returns (runs': Runs)
    requires Tidy(s, runs, dir, tabs) && Confined(s, runs, dir, tabs)
    requires ScanSafe(s.table, NumBlocks(size)) && size <= 0xffff_f000
    requires Kzalloc(s, size).ptr != 0 || size <= KHEAP_TABLE_ADDR
    ensures
      var r, b := Kzalloc(s, size), BlockOf(Kzalloc(s, size).ptr);
      && Tidy(r.s, runs', dir, tabs) && Represents(r.s.table, runs') && Confined(r.s, runs', dir, tabs)
      && (r.ptr == 0 ==> runs' == runs)
      && (r.ptr != 0 ==>
            && r.ptr == AddrOf(b) && DataRun(runs', dir, tabs, b) && runs'[b] == Need(NumBlocks(size))
            && Represents(Kfree(r.s, r.ptr).table, runs) && Confined(Kfree(r.s, r.ptr), runs, dir, tabs))
  {
    hide Leaf, Kzalloc, Tidy, ScanSafe, NumBlocks, Represents, Confined, SameOutside;
    var r := Kzalloc(s, size);
    runs' := KzallocKeepsTables(s, runs, dir, tabs, size);
    TidyTable(r.s, runs', dir, tabs);
    ConfinedKept(s, r.s, runs, runs', dir, tabs);
    if r.ptr != 0 {
      var b := BlockOf(r.ptr);
      FreshIsData(s, runs, dir, tabs, b, runs'[b]);
      assert runs' - {b} == runs;
      KfreeMeaning(r.s, runs', r.ptr);
      ConfinedKept(s, Kfree(r.s, r.ptr), runs, runs, dir, tabs);
    }
  }

  /** Mapping a whole data allocation. */
  lemma DataMapped(s: Machine, runs: Runs, dir: nat, tabs: Tables, vaStart: Word, vaEnd: Word, flags: Byte, b: nat)
    requires Tidy(s, runs, dir, tabs) && Full(tabs) && Confined(s, runs, dir, tabs) && dir < PAGES
    requires DataRun(runs, dir, tabs, b)
    requires MmapCheck(vaStart, vaEnd) == Ok && Present(flags) && runs[b] == (vaEnd - vaStart) / PAGE_SIZE
    ensures
      AddrOf(b) < SPACE && var m := MapRegion(s, dir, vaStart, AddrOf(b), vaEnd, flags);
      m.1 == Ok && Represents(m.0.table, runs) && Confined(m.0, runs, dir, tabs)
  {
    hide Tidy, MapRegion, RegionMapped, Confined, SameElsewhere, Represents, DataRun, Full;
    TidyTable(s, runs, dir, tabs);
    BInRuns(runs, dir, tabs, b);
    RunBelowBoundary(s, runs, b);
    FrameOfBlock(b);
    var ptr: Word := AddrOf(b);
    MapRegionMeaning(s, runs, dir, tabs, vaStart, ptr, vaEnd, flags);
    RegionConfined(s, MapRegion(s, dir, vaStart, ptr, vaEnd, flags).0, runs, dir, tabs, vaStart / PAGE_SIZE,
                   vaEnd / PAGE_SIZE - vaStart / PAGE_SIZE, ptr / PAGE_SIZE, flags, b);
  }

  lemma MmapSize(vaStart: Word, vaEnd: Word)
    requires MmapCheck(vaStart, vaEnd) == Ok
    ensures 0 < vaEnd - vaStart <= 0xffff_f000
    ensures Need(NumBlocks(vaEnd - vaStart)) == (vaEnd - vaStart) / PAGE_SIZE
  {
    WholeBlocks(vaEnd - vaStart);
  }

  /** mmap gives the user new data and nothing else. */
  lemma MmapConfined(v: Vmem, runs: Runs, dir: nat, tabs: Tables, vaStart: Word, vaEnd: Word, userFlags: Word)
    returns (runs': Runs)
    requires SpaceOk(v.s, runs, dir, tabs) && Confined(v.s, runs, dir, tabs)
    requires Mmap(v, dir, vaStart, vaEnd, userFlags).1 != Undefined
    ensures
      var s' := Mmap(v, dir, vaStart, vaEnd, userFlags).0.s;
      Represents(s'.table, runs') && Confined(s', runs', dir, tabs)
  {
    hide Kzalloc, Kfree, MapRegion, KernelMapped, Find, ScanSafe, NumBlocks, Confined, Represents, Tidy, Mmap, DataRun,
      MmapCheck, BlockOf, AddrOf, Need, UserFlags, Present;
    TidyDir(v.s, runs, dir, tabs);
    TidyTable(v.s, runs, dir, tabs);
    MmapState(v, dir, vaStart, vaEnd, userFlags);
    runs' := runs;
    if MmapCheck(vaStart, vaEnd) == Ok {
      MmapSize(vaStart, vaEnd);
      var size := vaEnd - vaStart;
      var r := Kzalloc(v.s, size);
      var runs1 := KzallocConfined(v.s, runs, dir, tabs, size);
      if r.ptr != 0 && Find(v.blocks, 0, 0).Some? {
        runs' := runs1;
        FlagsAsked(userFlags);
        DataMapped(r.s, runs1, dir, tabs, vaStart, vaEnd, UserFlags(userFlags), BlockOf(r.ptr));
      }
    }
  }

  /** Every step that keeps the space in order keeps the process confined. */
  lemma StepConfined(v: Vmem, runs: Runs, dir: nat, tabs: Tables, op: VmemOp) returns (runs': Runs)
    requires SpaceOk(v.s, runs, dir, tabs) && Confined(v.s, runs, dir, tabs)
    requires StepDefined(v, dir, op) && Spares(v.blocks, op)
    ensures SpaceOk(StepVmem(v, dir, op).s, runs', dir, tabs) && Confined(StepVmem(v, dir, op).s, runs', dir, tabs)
  {
    hide Leaf, KernelMapped, Mmap, FreeBlock, ExitBlocks, Find, Spares, UserEntry, Represents, Shape, Owned,
      CoveredFrom, Reaches;
    runs' := StepKernelMapping(v, runs, dir, tabs, op);
    match op
    case MmapOp(vaStart, vaEnd, userFlags) =>
      var runs1 := MmapConfined(v, runs, dir, tabs, vaStart, vaEnd, userFlags);
      MeaningUnique(Mmap(v, dir, vaStart, vaEnd, userFlags).0.s.table, runs', runs1);
    case MunmapOp(addr) =>
      FreeBlockMeaning(v, runs, dir, tabs, addr);
      MeaningUnique(v.s.table, runs, runs');
      ConfinedKept(v.s, FreeBlock(v, dir, addr).0.s, runs, runs, dir, tabs);
    case ExitOp =>
      ExitMeaning(v, runs, dir, tabs, 0);
      MeaningUnique(v.s.table, runs, runs');
      ConfinedKept(v.s, ExitBlocks(v, dir, 0).s, runs, runs, dir, tabs);
  }

  /** Over every run of mmap, munmap and exit that spares the kernel, the user
      reaches nothing but data. */
  lemma {:induction false} ConfinedRuns(v: Vmem, runs: Runs, dir: nat, tabs: Tables, ops: seq<VmemOp>)
    returns (runs': Runs)
    requires SpaceOk(v.s, runs, dir, tabs) && Confined(v.s, runs, dir, tabs)
    requires RunVmem(v, dir, ops).Some? && RunSpares(v, dir, ops)
    ensures
      var s' := RunVmem(v, dir, ops).value.s;
      && SpaceOk(s', runs', dir, tabs) && Confined(s', runs', dir, tabs)
      && (forall p: nat :: p < PAGES && EffectiveRights(View(s'), dir, p).user ==>
            Leaf(View(s'), dir, p).Some? && Frame(Leaf(View(s'), dir, p).value) !in Frames(dir, tabs))
    decreases |ops|
  {
    hide StepVmem, StepDefined, Spares, KernelMapped, Tidy, UserEntry, EffectiveRights, Leaf, Frames, Frame;
    runs' := runs;
    if ops == [] {
      forall p: nat | p < PAGES && EffectiveRights(View(v.s), dir, p).user
        ensures Leaf(View(v.s), dir, p).Some? && Frame(Leaf(View(v.s), dir, p).value) !in Frames(dir, tabs)
      {
        ConfinedReach(v.s, runs, dir, tabs, p);
      }
    } else {
      var runs1 := StepConfined(v, runs, dir, tabs, ops[0]);
      runs' := ConfinedRuns(StepVmem(v, dir, ops[0]), runs1, dir, tabs, ops[1..]);
    }
  }
}
