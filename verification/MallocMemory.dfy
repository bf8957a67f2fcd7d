/** The user heap on its process: each growing malloc is an mmap of the kernel,
    with its block table, and the blocks are seen through the page table. */
module MallocMemory {
  import opened Memory
  import opened HeapTable
  import opened MachineState
  import opened PageWalk
  import opened PagingSpec
  import opened VmemSpec
  import opened Status
  import U = UserHeap

  /** O_READ | O_WRITE */
  const READ_WRITE: Word := 3

  /** The heap of the library and the memory of its process. */
  datatype UserMemory = UserMemory(u: U.Heap, v: Vmem)

  /** malloc with the system call it makes; None when the outcome of that call is
      not modelled. */
  ghost function MallocOn(h: UserMemory, dir: nat, size: Word): Option<UserMemory>
    requires dir < PAGES
  {
    if !U.Grows(h.u.s, size) then Some(UserMemory(U.Step(h.u, U.Request(size, true)), h.v))
    else
      var r := Mmap(h.v, dir, U.NewEnd(h.u.s, size), h.u.s.end, READ_WRITE);
      if r.1 == Undefined then None
      else Some(UserMemory(U.Step(h.u, U.Request(size, r.1 == Ok)), r.0))
  }

  /** A call the heap survives: it fits below the current pointer.  For the eight
      largest sizes the sum with the header wraps around; they survive only when
      the heap has to grow and the kernel refuses. */
  ghost predicate Survives(h: UserMemory, dir: nat, size: Word)
    requires dir < PAGES
  {
    || size + U.HEADER <= h.u.s.curr
    || (size + U.HEADER >= SPACE && U.Grows(h.u.s, size)
        && Mmap(h.v, dir, U.NewEnd(h.u.s, size), h.u.s.end, READ_WRITE).1 != Ok)
  }

  /** A run of such calls. */
  ghost function RunMalloc(h: UserMemory, dir: nat, sizes: seq<Word>): Option<UserMemory>
    requires dir < PAGES
    decreases |sizes|
  {
    if sizes == [] then Some(h)
    else if !Survives(h, dir, sizes[0]) || MallocOn(h, dir, sizes[0]).None? then None
    else RunMalloc(MallocOn(h, dir, sizes[0]).value, dir, sizes[1..])
  }

  /** Entries of the block table in use, below `n`. */
  function Used(blocks: Blocks, n: nat): (c: nat)
    requires n <= MAX_BLOCKS
    ensures c <= n
  {
    if n == 0 then 0 else Used(blocks, n - 1) + if blocks[n - 1].start != 0 then 1 else 0
  }

  lemma {:induction false} OneMoreUsed(blocks: Blocks, i: nat, block: Block, n: nat)
    requires i < MAX_BLOCKS && n <= MAX_BLOCKS && blocks[i].start == 0 && block.start != 0
    ensures Used(blocks[i := block], n) == Used(blocks, n) + if i < n then 1 else 0
  {
    if n > 0 { OneMoreUsed(blocks, i, block, n - 1); }
  }

  /** The process may read and write every page of the heap. */
  ghost predicate Usable(w: Ram, dir: nat, end: nat) {
    dir < PAGES && forall p: nat :: end / PAGE_SIZE <= p < U.HEAP_TOP / PAGE_SIZE ==>
      EffectiveRights(w, dir, p) == Rights(true, true, true)
  }

  ghost predicate Good(h: UserMemory, runs: Runs, dir: nat, tabs: Tables) {
    && U.HeapOk(h.u) && SpaceOk(h.v.s, runs, dir, tabs)
    && Usable(View(h.v.s), dir, h.u.s.end) && |h.u.mapped| <= Used(h.v.blocks, MAX_BLOCKS)
  }

  /** What a growing call adds to the heap of the library. */
  lemma GrowingStep(u: U.Heap, size: Word)
    requires U.Inv(u.s) && U.NoWrap(u.s, size)
    ensures
      var u' := U.Step(u, U.Request(size, true));
      && (U.Grows(u.s, size) ==>
            u'.s.end == U.NewEnd(u.s, size) && u'.s.end % PAGE_SIZE == 0 && |u'.mapped| == |u.mapped| + 1)
      && (!U.Grows(u.s, size) ==> u'.s.end == u.s.end && u'.mapped == u.mapped)
  {
  }

  /** A refused call changes nothing. */
  lemma RefusedStep(u: U.Heap, size: Word)
    requires U.Grows(u.s, size)
    ensures U.Step(u, U.Request(size, false)) == u
  {
  }

  /** A request between the end and the current pointer wraps around to a region
      that is the wrong way round, which the kernel refuses. */
  lemma ReversedRegion(s: U.State, size: Word)
    requires U.Inv(s) && size + U.HEADER <= s.curr && !U.NoWrap(s, size)
    ensures U.Grows(s, size) && MmapCheck(U.NewEnd(s, size), s.end) == InvalidUserMemAccess
  {
  }

  /** A larger request that does not wrap around asks for no memory. */
  lemma NoGrowth(s: U.State, size: Word)
    requires U.Inv(s)
    ensures s.curr < size + U.HEADER < SPACE ==> !U.Grows(s, size)
  {
  }

  /** A larger request that is not refused gets a block past the top. */
  lemma BlockPastTop(u: U.Heap, size: Word, ok: bool)
    requires U.Inv(u.s) && size + U.HEADER > u.s.curr && (U.Grows(u.s, size) ==> ok)
    ensures !U.HeapOk(U.Step(u, U.Request(size, ok)))
  {
    hide U.MappedExactly;
    var u' := U.Step(u, U.Request(size, ok));
    if U.Inv(u'.s) && |u'.blocks| > |u.blocks| {
      assert u'.blocks[|u.blocks|].hi > U.HEAP_TOP;
    }
  }

  lemma UsableGrows(s: Machine, s': Machine, dir: nat, start: Word, end: Word)
    requires Usable(View(s), dir, end) && RightsKept(View(s), View(s'), dir)
    requires start % PAGE_SIZE == 0 && FreshlyMapped(s, s', dir, start, end, true)
    ensures Usable(View(s'), dir, start)
  {
    hide EffectiveRights, UserByte, Leaf;
  }

  /** One malloc, of any size: the heap stays in order exactly when it survives
      the call, and then it is usable through the page table. */
  lemma MallocKeeps(h: UserMemory, runs: Runs, dir: nat, tabs: Tables, size: Word) returns (runs': Runs)
    requires Good(h, runs, dir, tabs) && dir < PAGES && MallocOn(h, dir, size).Some?
    ensures U.HeapOk(MallocOn(h, dir, size).value.u) <==> Survives(h, dir, size)
    ensures Survives(h, dir, size) ==> Good(MallocOn(h, dir, size).value, runs', dir, tabs)
  {
    hide SpaceOk, Mmap, U.Step, U.HeapOk, U.Grows, U.NewEnd, Good;
    runs' := runs;
    GoodInv(h, runs, dir, tabs);
    if !Survives(h, dir, size) {
      NoGrowth(h.u.s, size);
      BlockPastTop(h.u, size, true);
    } else if U.Grows(h.u.s, size) {
      runs' := MallocGrows(h, runs, dir, tabs, size);
      GoodInv(MallocOn(h, dir, size).value, runs', dir, tabs);
    } else {
      MallocFits(h, runs, dir, tabs, size);
      GoodInv(MallocOn(h, dir, size).value, runs, dir, tabs);
    }
  }

  lemma GoodInv(h: UserMemory, runs: Runs, dir: nat, tabs: Tables)
    requires Good(h, runs, dir, tabs)
    ensures U.HeapOk(h.u) && U.Inv(h.u.s)
  {
  }

  lemma MallocFits(h: UserMemory, runs: Runs, dir: nat, tabs: Tables, size: Word)
    requires Good(h, runs, dir, tabs) && !U.Grows(h.u.s, size) && size + U.HEADER <= h.u.s.curr
    ensures Good(UserMemory(U.Step(h.u, U.Request(size, true)), h.v), runs, dir, tabs)
  {
    hide SpaceOk, U.Step, U.HeapOk, Usable, Used;
    GoodInv(h, runs, dir, tabs);
    GrowingStep(h.u, size);
    U.StepKeeps(h.u, U.Request(size, true));
  }

  lemma MallocGrows(h: UserMemory, runs: Runs, dir: nat, tabs: Tables, size: Word) returns (runs': Runs)
    requires Good(h, runs, dir, tabs) && dir < PAGES && U.Grows(h.u.s, size)
    requires Survives(h, dir, size) && MallocOn(h, dir, size).Some?
    ensures Good(MallocOn(h, dir, size).value, runs', dir, tabs)
  {
    hide SpaceOk, Mmap, U.Step, U.HeapOk, FreshlyMapped, RightsKept, Usable, Used, U.NewEnd, U.Grows;
    HeapInv(h.u);
    var start, end := U.NewEnd(h.u.s, size), h.u.s.end;
    var r := Mmap(h.v, dir, start, end, READ_WRITE);
    runs' := MmapMeaning(h.v, runs, dir, tabs, start, end, READ_WRITE);
    if r.1 == Ok {
      if !U.NoWrap(h.u.s, size) { ReversedRegion(h.u.s, size); }
      GrowingStep(h.u, size);
      U.StepKeeps(h.u, U.Request(size, true));
      UsableGrows(h.v.s, r.0.s, dir, start, end);
      var i :| 0 <= i < MAX_BLOCKS && h.v.blocks[i].start == 0 && r.0.blocks == h.v.blocks[i := Block(start, end)];
      OneMoreUsed(h.v.blocks, i, Block(start, end), MAX_BLOCKS);
    } else {
      RefusedStep(h.u, size);
      StillUsable(View(h.v.s), View(r.0.s), dir, end);
    }
  }

  lemma HeapInv(u: U.Heap)
    requires U.HeapOk(u)
    ensures U.Inv(u.s)
  {
  }

  lemma StillUsable(w: Ram, w': Ram, dir: nat, end: nat)
    requires Usable(w, dir, end) && RightsKept(w, w', dir)
    ensures Usable(w', dir, end)
  {
    hide EffectiveRights;
  }

  lemma {:induction false} MallocRunKeeps(h: UserMemory, runs: Runs, dir: nat, tabs: Tables, sizes: seq<Word>)
    returns (runs': Runs)
    requires Good(h, runs, dir, tabs) && dir < PAGES && RunMalloc(h, dir, sizes).Some?
    ensures Good(RunMalloc(h, dir, sizes).value, runs', dir, tabs)
    decreases |sizes|
  {
    hide Good, MallocOn, Survives, U.HeapOk;
    runs' := runs;
    if sizes != [] {
      var runs1 := MallocKeeps(h, runs, dir, tabs, sizes[0]);
      runs' := MallocRunKeeps(MallocOn(h, dir, sizes[0]).value, runs1, dir, tabs, sizes[1..]);
    }
  }

  /** A byte of a block, as the process sees it: mapped, readable, writable, and in
      no other block. */
  ghost predicate ByteUsable(h: UserMemory, dir: nat, i: nat, a: Word)
    requires dir < PAGES && i < |h.u.blocks|
  {
    && EffectiveRights(View(h.v.s), dir, a / PAGE_SIZE) == Rights(true, true, true)
    && Translate(View(h.v.s), dir, a).Some?
    && forall j: nat :: j < |h.u.blocks| && j != i ==> !U.Within(h.u.blocks[j], a)
  }

  /** Over every run of malloc calls that the heap survives, whatever the block
      table of the process holds: each byte of each block returned, with its
      header, is the process's to read and write through its page table and in no
      other block; the kernel stays mapped; and at most ten calls have mapped
      memory. */
  lemma MallocRuns(v: Vmem, runs: Runs, dir: nat, tabs: Tables, sizes: seq<Word>) returns (runs': Runs)
    requires SpaceOk(v.s, runs, dir, tabs) && dir < PAGES
    requires RunMalloc(UserMemory(U.START, v), dir, sizes).Some?
    ensures
      var h := RunMalloc(UserMemory(U.START, v), dir, sizes).value;
      && SpaceOk(h.v.s, runs', dir, tabs) && |h.u.mapped| <= MAX_BLOCKS
      && (forall i: nat, a: Word :: i < |h.u.blocks| && U.Within(h.u.blocks[i], a) ==> ByteUsable(h, dir, i, a))
  {
    hide SpaceOk, RunMalloc, EffectiveRights, Translate;
    var h0 := UserMemory(U.START, v);
    U.StartOk();
    runs' := MallocRunKeeps(h0, runs, dir, tabs, sizes);
    var h := RunMalloc(h0, dir, sizes).value;
    forall i: nat, a: Word | i < |h.u.blocks| && U.Within(h.u.blocks[i], a) ensures ByteUsable(h, dir, i, a) {
      MappedWhenUsable(View(h.v.s), dir, a);
    }
  }

  lemma MappedWhenUsable(w: Ram, dir: nat, a: Word)
    requires dir < PAGES
    ensures EffectiveRights(w, dir, a / PAGE_SIZE) == Rights(true, true, true) ==> Translate(w, dir, a).Some?
  {
  }
}
