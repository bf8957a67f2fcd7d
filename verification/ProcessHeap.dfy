/** A process that uses its heap: what the malloc calls of a program leave of its
    own image, stack and arguments. */
module ProcessHeap {
  import opened Memory
  import opened HeapTable
  import opened MachineState
  import opened PageWalk
  import opened PagingSpec
  import opened PagingLife
  import opened VmemSpec
  import opened LoaderSpec
  import opened Loader
  import opened CString
  import opened Arguments
  import opened ProcessImage
  import opened UserFrames
  import opened MallocMemory
  import opened Status
  import U = UserHeap

  // ---------------------------------------------------------------- one mmap

  lemma LowKeepsData(s: Machine, s': Machine, runs: Runs, dir: nat, tabs: Tables, skip: nat, size: Word)
    requires SameOutside(s.ram, s'.ram, 0, size) && size <= KHEAP_TABLE_ADDR
    ensures DataKept(s, s', runs, dir, tabs, skip)
  {
    hide InData;
    forall a: nat | a < SPACE && InData(runs, dir, tabs, skip, a) ensures s'.ram[a] == s.ram[a] {
      DataAboveLow(runs, dir, tabs, skip, a);
    }
  }

  lemma SameRamKeepsData(s: Machine, s1: Machine, s2: Machine, runs: Runs, dir: nat, tabs: Tables, skip: nat)
    requires DataKept(s, s1, runs, dir, tabs, skip) && s2.ram == s1.ram
    ensures DataKept(s, s2, runs, dir, tabs, skip)
  {
    hide InData;
  }

  /** The new run that kzalloc zeroes is apart from the others. */
  lemma FreshKeepsData(s: Machine, r: Machine, runs: Runs, runs1: Runs, dir: nat, tabs: Tables, skip: nat, ptr: nat,
                       size: nat)
    requires Tidy(r, runs1, dir, tabs) && ptr == AddrOf(BlockOf(ptr)) && BlockOf(ptr) !in runs
    requires BlockOf(ptr) in runs1 && runs1 == runs[BlockOf(ptr) := runs1[BlockOf(ptr)]]
    requires ptr + size <= AddrOf(BlockOf(ptr) + runs1[BlockOf(ptr)]) && SameOutside(s.ram, r.ram, ptr, ptr + size)
    ensures DataKept(s, r, runs, dir, tabs, skip) && Extends(runs, runs1)
  {
    hide Tidy, InData;
    RunsApart(r, runs1, dir, tabs);
    RunWritesKeepData(s, r, runs, runs1, dir, tabs, skip, BlockOf(ptr));
  }

  /** mmap leaves every byte of every earlier allocation alone. */
  lemma MmapKeepsData(v: Vmem, runs: Runs, dir: nat, tabs: Tables, skip: nat, vaStart: Word, vaEnd: Word,
                      userFlags: Word)
    requires SpaceOk(v.s, runs, dir, tabs) && dir < PAGES && Mmap(v, dir, vaStart, vaEnd, userFlags).1 != Undefined
    ensures DataKept(v.s, Mmap(v, dir, vaStart, vaEnd, userFlags).0.s, runs, dir, tabs, skip)
  {
    hide Tidy, Leaf, Kzalloc, MapRegion, KernelMapped, Find, ScanSafe, NumBlocks, DataKept, RegionMapped, SameElsewhere;
    NoDataChange(v.s, runs, dir, tabs, skip);
    if MmapCheck(vaStart, vaEnd) == Ok {
      var size := vaEnd - vaStart;
      var r := Kzalloc(v.s, size);
      var runs1 := KzallocKeepsTables(v.s, runs, dir, tabs, size);
      if r.ptr == 0 {
        LowKeepsData(v.s, r.s, runs, dir, tabs, skip, size);
      } else {
        FreshKeepsData(v.s, r.s, runs, runs1, dir, tabs, skip, r.ptr, size);
        FindMeaning(v.blocks, 0, 0);
        if Find(v.blocks, 0, 0).None? {
          SameRamKeepsData(v.s, r.s, Kfree(r.s, r.ptr), runs, dir, tabs, skip);
        } else {
          FlagsAsked(userFlags);
          MapRegionMeaning(r.s, runs1, dir, tabs, vaStart, r.ptr, vaEnd, UserFlags(userFlags));
          var s' := MapRegion(r.s, dir, vaStart, r.ptr, vaEnd, UserFlags(userFlags)).0;
          TableWritesKeepData(r.s, s', runs1, dir, tabs, skip);
          DataKeptTrans(v.s, r.s, s', runs, runs1, dir, tabs, skip);
        }
      }
    }
  }

  // -------------------------------------------------------------- the program

  /** The program of a process is there: its image, its stack, its arguments. */
  ghost predicate Intact(s: Machine, runs: Runs, dir: nat, tabs: Tables, stack: Word, file: seq<Byte>, esp: Word,
                         strings: seq<seq<Byte>>) {
    && dir < PAGES && EHDR_SIZE <= |file| && Placeable(file, PhOffset(file, 0), PhCount(file, 0))
    && Loaded(s, runs, dir, tabs, BlockOf(stack), file, PhOffset(file, 0), PhCount(file, 0), PhCount(file, 0))
    && StackAt(runs, dir, tabs, stack) && StackMapped(s, dir, stack) && MainArguments(s, dir, esp, strings)
  }

  /** Segments and stack are outside the pages `lo .. hi`. */
  ghost predicate ClearOf(file: seq<Byte>, lo: nat, hi: nat)
    requires EHDR_SIZE <= |file| && Placeable(file, PhOffset(file, 0), PhCount(file, 0))
  {
    && (STACK_START / PAGE_SIZE <= lo || hi <= STACK_END / PAGE_SIZE)
    && forall j: nat :: j < PhCount(file, 0) && Loads(Header(file, PhOffset(file, 0), j)) ==>
         SegmentClear(Header(file, PhOffset(file, 0), j), lo, hi)
  }

  predicate SegmentClear(ph: Phdr, lo: nat, hi: nat) {
    ph.vaddr + ph.memsz < SPACE && (LastPage(ph) <= lo || hi <= FirstPage(ph))
  }

  /** Changes to no data and to no page of the program leave it intact. */
  lemma IntactKept(s: Machine, s': Machine, runs: Runs, runs': Runs, dir: nat, tabs: Tables, stack: Word,
                   file: seq<Byte>, esp: Word, strings: seq<seq<Byte>>, lo: nat, hi: nat)
    requires Intact(s, runs, dir, tabs, stack, file, esp, strings) && ClearOf(file, lo, hi) && Extends(runs, runs')
    requires LeafKept(View(s), View(s'), dir, lo, hi) && DataKept(s, s', runs, dir, tabs, BlockOf(stack))
    requires DataKept(s, s', runs, dir, tabs, BlockOf(stack) + 1)
    ensures Intact(s', runs', dir, tabs, stack, file, esp, strings)
  {
    hide Image, LeafKept, DataKept, MainArguments, StackMapped, SegmentOk, StackAt, Extends;
    var skip, phoff, phnum := BlockOf(stack), PhOffset(file, 0), PhCount(file, 0);
    forall j: nat | j < phnum ensures Image(s', runs', dir, tabs, skip, Header(file, phoff, j), file) {
      var ph := Header(file, phoff, j);
      assert Image(s, runs, dir, tabs, skip, ph, file);
      if Loads(ph) {
        ImageKept(s, runs, s', runs', dir, tabs, skip, ph, file, lo, hi);
      } else {
        NotLoaded(s', runs', dir, tabs, skip, ph, file);
      }
    }
    StackKept(s, s', runs, dir, tabs, stack, lo, hi);
    ArgumentsKept(s, s', dir, esp, strings);
    StackAtGrows(runs, runs', dir, tabs, stack);
  }

  /** The stack stays where it is and reads the same. */
  lemma StackKept(s: Machine, s': Machine, runs: Runs, dir: nat, tabs: Tables, stack: Word, lo: nat, hi: nat)
    requires StackAt(runs, dir, tabs, stack) && StackMapped(s, dir, stack)
    requires STACK_START / PAGE_SIZE <= lo || hi <= STACK_END / PAGE_SIZE
    requires LeafKept(View(s), View(s'), dir, lo, hi) && DataKept(s, s', runs, dir, tabs, BlockOf(stack) + 1)
    ensures StackMapped(s', dir, stack) && SameStack(s, s', dir)
  {
    hide Leaf, UserByte;
    forall va: Word | STACK_END <= va < STACK_START
      ensures Translate(View(s'), dir, va) == Some(stack + (va - STACK_END))
    {
      assert Translate(View(s), dir, va) == Some(stack + (va - STACK_END));
      assert Leaf(View(s'), dir, va / PAGE_SIZE) == Leaf(View(s), dir, va / PAGE_SIZE);
    }
    forall va: Word | STACK_END <= va < STACK_START ensures UserByte(s', dir, va) == UserByte(s, dir, va) {
      StackByte(s, dir, stack, va);
      StackByte(s', dir, stack, va);
      StackInData(runs, dir, tabs, stack, stack + (va - STACK_END));
    }
  }

  lemma StackInData(runs: Runs, dir: nat, tabs: Tables, stack: Word, a: nat)
    requires StackAt(runs, dir, tabs, stack) && stack <= a < stack + STACK_SIZE
    ensures InData(runs, dir, tabs, BlockOf(stack) + 1, a)
  {
    var b := BlockOf(stack);
    assert b != BlockOf(stack) + 1 && DataRun(runs, dir, tabs, b) && AddrOf(b) <= a < AddrOf(b + runs[b]);
  }

  /** An mmap away from the program leaves it intact, as does one that fails. */
  lemma MmapKeepsProgram(v: Vmem, runs: Runs, dir: nat, tabs: Tables, stack: Word, file: seq<Byte>, esp: Word,
                         strings: seq<seq<Byte>>, vaStart: Word, vaEnd: Word, userFlags: Word)
    returns (runs': Runs)
    requires SpaceOk(v.s, runs, dir, tabs) && Intact(v.s, runs, dir, tabs, stack, file, esp, strings)
    requires Mmap(v, dir, vaStart, vaEnd, userFlags).1 != Undefined
    requires Mmap(v, dir, vaStart, vaEnd, userFlags).1 == Ok ==> ClearOf(file, vaStart / PAGE_SIZE, vaEnd / PAGE_SIZE)
    ensures
      var r := Mmap(v, dir, vaStart, vaEnd, userFlags).0;
      Represents(r.s.table, runs') && Intact(r.s, runs', dir, tabs, stack, file, esp, strings)
  {
    hide Mmap, Intact, RightsKept, EffectiveRights, UserByte, Leaf, KernelMapped, DataKept, Represents, ClearOf;
    var r := Mmap(v, dir, vaStart, vaEnd, userFlags);
    runs' := MmapMeaning(v, runs, dir, tabs, vaStart, vaEnd, userFlags);
    MmapKeepsData(v, runs, dir, tabs, BlockOf(stack), vaStart, vaEnd, userFlags);
    MmapKeepsData(v, runs, dir, tabs, BlockOf(stack) + 1, vaStart, vaEnd, userFlags);
    if r.1 == Ok {
      IntactKept(v.s, r.0.s, runs, runs', dir, tabs, stack, file, esp, strings, vaStart / PAGE_SIZE, vaEnd / PAGE_SIZE);
    } else {
      ClearOfNothing(v.s, runs, dir, tabs, stack, file, esp, strings);
      IntactKept(v.s, r.0.s, runs, runs', dir, tabs, stack, file, esp, strings, 0, 0);
    }
  }

  lemma ClearOfNothing(s: Machine, runs: Runs, dir: nat, tabs: Tables, stack: Word, file: seq<Byte>, esp: Word,
                       strings: seq<seq<Byte>>)
    requires Intact(s, runs, dir, tabs, stack, file, esp, strings)
    ensures EHDR_SIZE <= |file| && Placeable(file, PhOffset(file, 0), PhCount(file, 0)) && ClearOf(file, 0, 0)
  {
    hide Image, StackAt, StackMapped, MainArguments, PhOffset, PhCount;
    forall j: nat | j < PhCount(file, 0) && Loads(Header(file, PhOffset(file, 0), j))
      ensures SegmentClear(Header(file, PhOffset(file, 0), j), 0, 0)
    {
      SegmentBounds(Header(file, PhOffset(file, 0), j), |file|);
    }
  }

  // ------------------------------------------------------------- malloc calls

  /** The heap pages, from `end` up to the top of the heap, hold nothing of the
      program. */
  ghost predicate ClearOfHeap(file: seq<Byte>, end: nat)
    requires EHDR_SIZE <= |file| && Placeable(file, PhOffset(file, 0), PhCount(file, 0))
  {
    ClearOf(file, end / PAGE_SIZE, U.HEAP_TOP / PAGE_SIZE)
  }

  lemma ClearOfPart(file: seq<Byte>, lo: nat, hi: nat, lo': nat, hi': nat)
    requires EHDR_SIZE <= |file| && Placeable(file, PhOffset(file, 0), PhCount(file, 0))
    requires ClearOf(file, lo, hi) && lo <= lo' && hi' <= hi
    ensures ClearOf(file, lo', hi')
  {
    hide Placeable, PhOffset, PhCount, PhdrAt;
  }

  /** A call that the heap survives moves its end down, or not at all. */
  lemma EndFalls(h: UserMemory, runs: Runs, dir: nat, tabs: Tables, size: Word)
    requires Good(h, runs, dir, tabs) && dir < PAGES && MallocOn(h, dir, size).Some? && Survives(h, dir, size)
    ensures MallocOn(h, dir, size).value.u.s.end <= h.u.s.end <= U.HEAP_TOP
  {
    hide Mmap, SpaceOk, Good;
    GoodInv(h, runs, dir, tabs);
    if U.Grows(h.u.s, size) && !U.NoWrap(h.u.s, size) {
      if size + U.HEADER <= h.u.s.curr {
        ReversedRegion(h.u.s, size);
        RefusedByCheck(h.v, dir, U.NewEnd(h.u.s, size), h.u.s.end);
      }
    }
  }

  lemma RefusedByCheck(v: Vmem, dir: nat, vaStart: Word, vaEnd: Word)
    requires dir < PAGES && MmapCheck(vaStart, vaEnd) == InvalidUserMemAccess
    ensures Mmap(v, dir, vaStart, vaEnd, READ_WRITE).1 == InvalidUserMemAccess
  {
  }

  /** One malloc leaves the program intact when the heap stays clear of it. */
  lemma MallocKeepsProgram(h: UserMemory, runs: Runs, dir: nat, tabs: Tables, stack: Word, file: seq<Byte>, esp: Word,
                           strings: seq<seq<Byte>>, size: Word) returns (runs': Runs)
    requires Good(h, runs, dir, tabs) && Intact(h.v.s, runs, dir, tabs, stack, file, esp, strings)
    requires MallocOn(h, dir, size).Some? && Survives(h, dir, size)
    requires ClearOfHeap(file, MallocOn(h, dir, size).value.u.s.end)
    ensures
      var h' := MallocOn(h, dir, size).value;
      && Good(h', runs', dir, tabs) && Intact(h'.v.s, runs', dir, tabs, stack, file, esp, strings)
      && h'.u.s.end <= h.u.s.end
  {
    hide Mmap, Loaded, StackAt, StackMapped, MainArguments, Placeable, Survives, U.Step, U.HeapOk, U.Grows, U.NewEnd,
      KernelMapped, ClearOf, Usable, Represents, Shape;
    runs' := MallocKeeps(h, runs, dir, tabs, size);
    EndFalls(h, runs, dir, tabs, size);
    if U.Grows(h.u.s, size) {
      var start, end := U.NewEnd(h.u.s, size), h.u.s.end;
      var r := Mmap(h.v, dir, start, end, READ_WRITE);
      if r.1 == Ok {
        GrownEnd(h.u, size);
        ClearOfPart(file, start / PAGE_SIZE, U.HEAP_TOP / PAGE_SIZE, start / PAGE_SIZE, end / PAGE_SIZE);
      }
      var runs1 := MmapKeepsProgram(h.v, runs, dir, tabs, stack, file, esp, strings, start, end, READ_WRITE);
      MeaningUnique(r.0.s.table, runs', runs1);
    } else {
      MeaningUnique(h.v.s.table, runs', runs);
    }
  }

  lemma GrownEnd(u: U.Heap, size: Word)
    requires U.Grows(u.s, size)
    ensures U.Step(u, U.Request(size, true)).s.end == U.NewEnd(u.s, size)
  {
  }

  lemma {:induction false} RunKeepsProgram(h: UserMemory, runs: Runs, dir: nat, tabs: Tables, stack: Word,
                                           file: seq<Byte>, esp: Word, strings: seq<seq<Byte>>, sizes: seq<Word>)
    returns (runs': Runs)
    requires Good(h, runs, dir, tabs) && Intact(h.v.s, runs, dir, tabs, stack, file, esp, strings)
    requires RunMalloc(h, dir, sizes).Some? && ClearOfHeap(file, RunMalloc(h, dir, sizes).value.u.s.end)
    ensures
      var h' := RunMalloc(h, dir, sizes).value;
      Good(h', runs', dir, tabs) && Intact(h'.v.s, runs', dir, tabs, stack, file, esp, strings)
    decreases |sizes|
  {
    hide Good, Loaded, StackAt, StackMapped, MainArguments, Placeable, MallocOn, Survives, ClearOf;
    runs' := runs;
    if sizes != [] {
      var h1 := MallocOn(h, dir, sizes[0]).value;
      var runs1 := MallocKeeps(h, runs, dir, tabs, sizes[0]);
      RunEndFalls(h1, runs1, dir, tabs, sizes[1..]);
      ClearOfPart(file, RunMalloc(h, dir, sizes).value.u.s.end / PAGE_SIZE, U.HEAP_TOP / PAGE_SIZE,
                  h1.u.s.end / PAGE_SIZE, U.HEAP_TOP / PAGE_SIZE);
      runs1 := MallocKeepsProgram(h, runs, dir, tabs, stack, file, esp, strings, sizes[0]);
      runs' := RunKeepsProgram(h1, runs1, dir, tabs, stack, file, esp, strings, sizes[1..]);
    }
  }

  lemma {:induction false} RunEndFalls(h: UserMemory, runs: Runs, dir: nat, tabs: Tables, sizes: seq<Word>)
    requires Good(h, runs, dir, tabs) && dir < PAGES && RunMalloc(h, dir, sizes).Some?
    ensures RunMalloc(h, dir, sizes).value.u.s.end <= h.u.s.end
    decreases |sizes|
  {
    hide Good, MallocOn, Survives;
    if sizes != [] {
      var runs1 := MallocKeeps(h, runs, dir, tabs, sizes[0]);
      EndFalls(h, runs, dir, tabs, sizes[0]);
      RunEndFalls(MallocOn(h, dir, sizes[0]).value, runs1, dir, tabs, sizes[1..]);
    }
  }

  /** One malloc keeps the process confined. */
  lemma MallocConfined(h: UserMemory, runs: Runs, dir: nat, tabs: Tables, size: Word) returns (runs': Runs)
    requires Good(h, runs, dir, tabs) && Confined(h.v.s, runs, dir, tabs)
    requires MallocOn(h, dir, size).Some? && Survives(h, dir, size)
    ensures
      var h' := MallocOn(h, dir, size).value;
      Good(h', runs', dir, tabs) && Confined(h'.v.s, runs', dir, tabs)
  {
    hide Mmap, Survives, U.Step, U.HeapOk, U.Grows, U.NewEnd, KernelMapped, Usable, Represents, Shape, UserEntry, Leaf;
    runs' := MallocKeeps(h, runs, dir, tabs, size);
    if U.Grows(h.u.s, size) {
      var start, end := U.NewEnd(h.u.s, size), h.u.s.end;
      var runs1 := MmapConfined(h.v, runs, dir, tabs, start, end, READ_WRITE);
      MeaningUnique(Mmap(h.v, dir, start, end, READ_WRITE).0.s.table, runs', runs1);
    } else {
      MeaningUnique(h.v.s.table, runs', runs);
    }
  }

  lemma {:induction false} RunConfined(h: UserMemory, runs: Runs, dir: nat, tabs: Tables, sizes: seq<Word>)
    returns (runs': Runs)
    requires Good(h, runs, dir, tabs) && Confined(h.v.s, runs, dir, tabs) && RunMalloc(h, dir, sizes).Some?
    ensures
      var h' := RunMalloc(h, dir, sizes).value;
      Good(h', runs', dir, tabs) && Confined(h'.v.s, runs', dir, tabs)
    decreases |sizes|
  {
    hide Good, MallocOn, Survives, UserEntry, Leaf;
    runs' := runs;
    if sizes != [] {
      var runs1 := MallocConfined(h, runs, dir, tabs, sizes[0]);
      runs' := RunConfined(MallocOn(h, dir, sizes[0]).value, runs1, dir, tabs, sizes[1..]);
    }
  }

  // ---------------------------------------------------------------- all of it

  /** From its file to its heap.  A process built as in ProcessBuilt, after any run
      of malloc calls that its heap survives and whose pages stay clear of the
      program: it still sees its whole image, its stack and its arguments, every
      byte of every block it got is its own to read and write, in no other block,
      the kernel is mapped and out of its reach, and every page it can touch is in a
      data allocation, not in a page table. */
  lemma ProgramWithHeap(s: Machine, before: Runs, blocks: Blocks, elf: Word, stack: Word, file: seq<Byte>,
                        args: seq<Byte>, strings: seq<seq<Byte>>, unset: Word, sizes: seq<Word>)
    returns (runs: Runs, tabs: Tables)
    requires Buildable(s, before, blocks, elf, stack, file, args, strings)
    requires
      var c := CreateTables(s, KERNEL_FLAGS);
      var m := MapElf(VmemSpec.Vmem(c.s, blocks), c.dir, elf, stack).0;
      var p := PassArguments(m.s, stack, |strings|, args, unset);
      var run := RunMalloc(UserMemory(U.START, VmemSpec.Vmem(p.s, m.blocks)), c.dir, sizes);
      run.Some? && ClearOfHeap(file, run.value.u.s.end)
    ensures
      var c := CreateTables(s, KERNEL_FLAGS);
      var m := MapElf(VmemSpec.Vmem(c.s, blocks), c.dir, elf, stack).0;
      var p := PassArguments(m.s, stack, |strings|, args, unset);
      var h := RunMalloc(UserMemory(U.START, VmemSpec.Vmem(p.s, m.blocks)), c.dir, sizes).value;
      && SpaceOk(h.v.s, runs, c.dir, tabs) && Intact(h.v.s, runs, c.dir, tabs, stack, file, p.esp, strings)
      && Confined(h.v.s, runs, c.dir, tabs)
      && (forall i: nat, a: Word :: i < |h.u.blocks| && U.Within(h.u.blocks[i], a) ==> ByteUsable(h, c.dir, i, a))
  {
    hide CreateTables, MapElf, PassArguments, RunMalloc, SpaceOk, Prepared, Placeable, AllAbove, StringsAt, CopiesFit,
      ScanSafe, ClearOf, Loaded, StackMapped, StackAt, MainArguments, PhOffset, PhCount, ByteUsable, EffectiveRights,
      Confined, SameImage;
    var c := CreateTables(s, KERNEL_FLAGS);
    var m := MapElf(VmemSpec.Vmem(c.s, blocks), c.dir, elf, stack).0;
    var p := PassArguments(m.s, stack, |strings|, args, unset);
    var h0 := UserMemory(U.START, VmemSpec.Vmem(p.s, m.blocks));
    var runs0;
    runs0, tabs := ProcessBuilt(s, before, blocks, elf, stack, file, args, strings, unset);
    StartGood(h0, runs0, c.dir, tabs);
    runs := RunKeepsProgram(h0, runs0, c.dir, tabs, stack, file, p.esp, strings, sizes);
    var runs1 := MallocRuns(h0.v, runs0, c.dir, tabs, sizes);
    var runs2, tabs2 := ProcessConfined(s, before, blocks, elf, stack, file, args, strings, unset);
    SpaceUnique(p.s, runs0, tabs, runs2, tabs2, c.dir);
    var runs3 := RunConfined(h0, runs0, c.dir, tabs, sizes);
    var h := RunMalloc(h0, c.dir, sizes).value;
    GoodSpace(h, runs, c.dir, tabs);
    GoodSpace(h, runs3, c.dir, tabs);
    SpaceUnique(h.v.s, runs, tabs, runs3, tabs, c.dir);
  }

  lemma SpaceUnique(s: Machine, runs: Runs, tabs: Tables, runs': Runs, tabs': Tables, dir: nat)
    requires SpaceOk(s, runs, dir, tabs) && SpaceOk(s, runs', dir, tabs') && dir < PAGES
    ensures runs == runs' && tabs == tabs'
  {
    hide Tidy, KernelMapped;
    SameSpace(s, runs, tabs, s, runs', tabs', dir);
  }

  lemma StartGood(h: UserMemory, runs: Runs, dir: nat, tabs: Tables)
    requires h.u == U.START && SpaceOk(h.v.s, runs, dir, tabs) && dir < PAGES
    ensures Good(h, runs, dir, tabs)
  {
    hide SpaceOk, EffectiveRights;
    U.StartOk();
  }

  lemma GoodSpace(h: UserMemory, runs: Runs, dir: nat, tabs: Tables)
    requires Good(h, runs, dir, tabs)
    ensures SpaceOk(h.v.s, runs, dir, tabs)
  {
  }
}
