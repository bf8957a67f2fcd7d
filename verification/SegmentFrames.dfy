/** Which frames the pages of a loaded process stand in: the file, a copy in a block
    of its own, or the stack block; and when two pages share a frame. */
module SegmentFrames {
  import opened Memory
  import opened HeapTable
  import opened MachineState
  import opened PageWalk
  import opened PagingSpec
  import opened VmemSpec
  import opened LoaderSpec
  import opened Loader
  import opened ProcessImage
  import opened Status

  // ------------------------------------------------------------- one segment

  /** The frame of the first page of a segment: in the file at `elf`, or in the
      copy in block `b`. */
  function FirstFrame(elf: Word, ph: Phdr, b: nat): nat {
    if NeedsCopy(ph) then HEAP_FRAME + b else (elf + ph.offset) / PAGE_SIZE
  }

  /** Page `p` is one of the segment's. */
  predicate OnPage(ph: Phdr, p: nat) {
    Loads(ph) && ph.vaddr + ph.memsz < SPACE && FirstPage(ph) <= p < LastPage(ph)
  }

  function FrameAt(elf: Word, ph: Phdr, b: nat, p: nat): nat
    requires OnPage(ph, p)
  {
    FirstFrame(elf, ph, b) + (p - FirstPage(ph))
  }

  /** The allocation that holds the segment. */
  function Home(elf: Word, ph: Phdr, b: nat): nat { if NeedsCopy(ph) then b else BlockOf(elf) }

  predicate FrameIn(runs: Runs, b: nat, f: nat) {
    b in runs && HEAP_FRAME + b <= f < HEAP_FRAME + b + runs[b]
  }

  /** The segment stands frame after frame from there, with its flags. */
  ghost predicate PlacedSegment(w: Ram, dir: nat, elf: Word, ph: Phdr, b: nat) {
    dir < PAGES && forall p: nat :: p < PAGES && OnPage(ph, p) ==>
      Leaf(w, dir, p) == Some(Pte(FrameAt(elf, ph, b, p), SegmentFlags(ph)))
  }

  /** inside its allocation, */
  ghost predicate HeldSegment(runs: Runs, elf: Word, ph: Phdr, b: nat) {
    forall p: nat :: OnPage(ph, p) ==> FrameIn(runs, Home(elf, ph, b), FrameAt(elf, ph, b, p))
  }

  /** and a copy is in a block that was free before. */
  ghost predicate SegmentSpread(w': Ram, runs: Runs, runs': Runs, dir: nat, elf: Word, ph: Phdr, b: nat) {
    PlacedSegment(w', dir, elf, ph, b) && HeldSegment(runs', elf, ph, b) && (NeedsCopy(ph) ==> b !in runs && b in runs')
  }

  /** One segment mapped so, and no other page. */
  ghost predicate OneSpread(w: Ram, w': Ram, runs: Runs, runs': Runs, dir: nat, elf: Word, ph: Phdr, b: nat) {
    && Extends(runs, runs') && SegmentSpread(w', runs, runs', dir, elf, ph, b)
    && forall p: nat :: p < PAGES && !OnPage(ph, p) ==> Leaf(w', dir, p) == Leaf(w, dir, p)
  }

  lemma CopyPages(ph: Phdr, fileLen: nat)
    requires SegmentOk(ph, fileLen) && NeedsCopy(ph)
    ensures LastPage(ph) - FirstPage(ph) == NumBlocks(ph.memsz) == Need(NumBlocks(ph.memsz))
  {
    var k := ph.vaddr / PAGE_SIZE;
    assert ph.vaddr == k * PAGE_SIZE;
  }

  lemma FilePages(elf: Word, ph: Phdr, fileLen: nat, p: nat)
    requires SegmentOk(ph, fileLen) && OnPage(ph, p) && !NeedsCopy(ph) && elf % PAGE_SIZE == 0
    ensures elf / PAGE_SIZE <= FrameAt(elf, ph, 0, p) && FrameAt(elf, ph, 0, p) * PAGE_SIZE < elf + fileLen
  {
    var k := ph.vaddr / PAGE_SIZE;
    var o := (elf + ph.offset) / PAGE_SIZE;
    var r := ph.vaddr % PAGE_SIZE;
    assert (elf + ph.offset) % PAGE_SIZE == r;
    assert ph.vaddr == k * PAGE_SIZE + r && elf + ph.offset == o * PAGE_SIZE + r;
    LastBelow(ph.vaddr + ph.memsz, p);
  }

  lemma LastBelow(end: Word, p: nat)
    requires p < PagesUpTo(end)
    ensures p * PAGE_SIZE < end
  {
  }

  /** Where the frames of a segment come from. */
  lemma SourcePlace(v: Vmem, runs: Runs, dir: nat, tabs: Tables, skip: nat, elf: Word, ph: Phdr, file: seq<Byte>)
    returns (runs': Runs, b: nat)
    requires Tidy(v.s, runs, dir, tabs) && FileAt(v.s, runs, dir, tabs, skip, elf, file)
    requires SegmentOk(ph, |file|) && Loads(ph) && SegmentSource(v, elf, ph).status == Ok
    ensures
      var src := SegmentSource(v, elf, ph);
      && Represents(src.v.s.table, runs') && Extends(runs, runs')
      && src.pa / PAGE_SIZE == FirstFrame(elf, ph, b) && HeldSegment(runs', elf, ph, b)
      && (NeedsCopy(ph) ==> b !in runs && b in runs')
  {
    hide Tidy, Kzalloc, Copied, Represents, ScanSafe, HeldSegment, FileAt;
    runs', b := runs, 0;
    TidyTable(v.s, runs, dir, tabs);
    if ph.filesz == ph.memsz {
      FilePlace(v.s, runs, dir, tabs, skip, elf, ph, file);
    } else {
      runs', b := CopyPlace(v.s, runs, dir, tabs, elf, ph, |file|);
    }
  }

  lemma TidyTable(s: Machine, runs: Runs, dir: nat, tabs: Tables)
    requires Tidy(s, runs, dir, tabs)
    ensures Represents(s.table, runs)
  {
  }

  lemma FilePlace(s: Machine, runs: Runs, dir: nat, tabs: Tables, skip: nat, elf: Word, ph: Phdr, file: seq<Byte>)
    requires Represents(s.table, runs) && FileAt(s, runs, dir, tabs, skip, elf, file)
    requires SegmentOk(ph, |file|) && Loads(ph) && ph.filesz == ph.memsz
    ensures elf + ph.offset < SPACE && DownAlign(elf + ph.offset) / PAGE_SIZE == FirstFrame(elf, ph, 0)
    ensures HeldSegment(runs, elf, ph, 0)
  {
    hide Represents;
    RunBelowBoundary(s, runs, BlockOf(elf));
    forall p: nat | OnPage(ph, p) ensures FrameIn(runs, BlockOf(elf), FrameAt(elf, ph, 0, p)) {
      FilePages(elf, ph, |file|, p);
      FrameOfBlock(BlockOf(elf));
    }
  }

  lemma CopyPlace(s: Machine, runs: Runs, dir: nat, tabs: Tables, elf: Word, ph: Phdr, fileLen: nat)
    returns (runs': Runs, b: nat)
    requires Tidy(s, runs, dir, tabs) && SegmentOk(ph, fileLen) && NeedsCopy(ph)
    requires ScanSafe(s.table, NumBlocks(ph.memsz)) && Kzalloc(s, ph.memsz).ptr != 0
    ensures
      var r := Kzalloc(s, ph.memsz);
      && Represents(r.s.table, runs') && Extends(runs, runs') && b !in runs && b in runs'
      && r.ptr / PAGE_SIZE == FirstFrame(elf, ph, b) && HeldSegment(runs', elf, ph, b)
  {
    hide Leaf, Kzalloc, Tidy, ScanSafe, NumBlocks;
    runs' := KzallocKeepsTables(s, runs, dir, tabs, ph.memsz);
    b := BlockOf(Kzalloc(s, ph.memsz).ptr);
    TidyTable(Kzalloc(s, ph.memsz).s, runs', dir, tabs);
    FrameOfBlock(b);
    CopyPages(ph, fileLen);
  }

  /** One segment mapped: it stands in those frames, and no other page moves. */
  lemma SegmentPlaced(v: Vmem, runs: Runs, dir: nat, tabs: Tables, skip: nat, elf: Word, ph: Phdr, file: seq<Byte>)
    returns (runs': Runs, b: nat)
    requires Tidy(v.s, runs, dir, tabs) && Full(tabs) && FileAt(v.s, runs, dir, tabs, skip, elf, file)
    requires dir < PAGES && SegmentOk(ph, |file|) && MapSegment(v, dir, elf, ph).1 == Ok
    ensures
      var s' := MapSegment(v, dir, elf, ph).0.s;
      Represents(s'.table, runs') && OneSpread(View(v.s), View(s'), runs, runs', dir, elf, ph, b)
  {
    hide SegmentSource, MapRegion, Leaf, Backed, Image, DataKept, FileAt, Tidy, Represents, HeldSegment, FirstFrame,
      RegionMapped, LeafKept, PlacedSegment, OnPage, MapSegment, SegmentOk;
    TidyTable(v.s, runs, dir, tabs);
    runs', b := runs, 0;
    SegmentUnfolds(v, dir, elf, ph, |file|);
    if Loads(ph) {
      var src := SegmentSource(v, elf, ph);
      var runs1 := SourceMeaning(v, runs, dir, tabs, skip, elf, ph, file);
      runs', b := SourcePlace(v, runs, dir, tabs, skip, elf, ph, file);
      TidyTable(src.v.s, runs1, dir, tabs);
      MeaningUnique(src.v.s.table, runs1, runs');
      MapBacked(src.v.s, runs1, dir, tabs, skip, ph, file, src.pa);
      SegmentBounds(ph, |file|);
      RegionPlaced(View(v.s), View(src.v.s), View(MapSegment(v, dir, elf, ph).0.s), dir, tabs, elf, ph, b);
    } else {
      NothingHeld(v.s, runs, dir, elf, ph, b);
    }
  }

  lemma RegionPlaced(w: Ram, w1: Ram, w': Ram, dir: nat, tabs: Tables, elf: Word, ph: Phdr, b: nat)
    requires ph.vaddr + ph.memsz < SPACE && FirstPage(ph) < LastPage(ph) && LeafKept(w, w1, dir, 0, 0) && Loads(ph)
    requires RegionMapped(w1, w', dir, tabs, FirstPage(ph), LastPage(ph) - FirstPage(ph), FirstFrame(elf, ph, b),
                          SegmentFlags(ph))
    ensures PlacedSegment(w', dir, elf, ph, b)
    ensures forall p: nat :: p < PAGES && !OnPage(ph, p) ==> Leaf(w', dir, p) == Leaf(w, dir, p)
  {
    hide Leaf, Shape, Pte, FirstFrame;
  }

  lemma NothingHeld(s: Machine, runs: Runs, dir: nat, elf: Word, ph: Phdr, b: nat)
    requires !Loads(ph) && dir < PAGES
    ensures PlacedSegment(View(s), dir, elf, ph, b) && HeldSegment(runs, elf, ph, b)
  {
  }

  // ------------------------------------------------------------ all segments

  /** Headers `i ..` stand in their frames, copies in blocks of their own that
      were free before, and no other page has moved. */
  ghost predicate Spread(w: Ram, w': Ram, runs: Runs, runs': Runs, dir: nat, elf: Word, file: seq<Byte>, phoff: nat,
                         phnum: nat, i: nat, at: seq<nat>) {
    && phoff + PHDR_SIZE * phnum <= |file| && |at| == phnum && dir < PAGES && Extends(runs, runs')
    && (forall j: nat :: i <= j < phnum ==> SegmentSpread(w', runs, runs', dir, elf, Header(file, phoff, j), at[j]))
    && CopiesApart(file, phoff, phnum, i, at)
    && (forall p: nat :: p < PAGES && NoSegment(file, phoff, phnum, i, p) ==> Leaf(w', dir, p) == Leaf(w, dir, p))
  }

  ghost predicate CopiesApart(file: seq<Byte>, phoff: nat, phnum: nat, i: nat, at: seq<nat>)
    requires phoff + PHDR_SIZE * phnum <= |file| && |at| == phnum
  {
    forall j: nat, k: nat ::
      i <= j < k < phnum && NeedsCopy(Header(file, phoff, j)) && NeedsCopy(Header(file, phoff, k)) ==> at[j] != at[k]
  }

  /** No segment from header `i` on has the page. */
  ghost predicate NoSegment(file: seq<Byte>, phoff: nat, phnum: nat, i: nat, p: nat)
    requires phoff + PHDR_SIZE * phnum <= |file|
  {
    forall j: nat :: i <= j < phnum ==> !OnPage(Header(file, phoff, j), p)
  }

  lemma OwnPage(file: seq<Byte>, phoff: nat, phnum: nat, i: nat, p: nat)
    requires Placeable(file, phoff, phnum) && i < phnum && OnPage(Header(file, phoff, i), p)
    ensures NoSegment(file, phoff, phnum, i + 1, p)
  {
    hide SegmentOk;
  }

  lemma HeldGrows(runs: Runs, runs': Runs, elf: Word, ph: Phdr, b: nat)
    requires HeldSegment(runs, elf, ph, b) && Extends(runs, runs')
    ensures HeldSegment(runs', elf, ph, b)
  {
    hide OnPage, FirstFrame;
  }

  /** One header more. */
  lemma SpreadStep(w: Ram, w1: Ram, w': Ram, runs: Runs, runs1: Runs, runs': Runs, dir: nat, elf: Word,
                   file: seq<Byte>, phoff: nat, phnum: nat, i: nat, b: nat, at: seq<nat>)
    requires Placeable(file, phoff, phnum) && i < phnum
    requires OneSpread(w, w1, runs, runs1, dir, elf, Header(file, phoff, i), b)
    requires Spread(w1, w', runs1, runs', dir, elf, file, phoff, phnum, i + 1, at)
    ensures Spread(w, w', runs, runs', dir, elf, file, phoff, phnum, i, at[i := b])
  {
    hide Leaf, Pte, Placeable, OnPage, HeldSegment, FirstFrame, NeedsCopy, Header;
    var ph, at' := Header(file, phoff, i), at[i := b];
    HeldGrows(runs1, runs', elf, ph, b);
    forall p: nat | p < PAGES && OnPage(ph, p)
      ensures Leaf(w', dir, p) == Some(Pte(FrameAt(elf, ph, b, p), SegmentFlags(ph)))
    {
      OwnPage(file, phoff, phnum, i, p);
    }
    forall j: nat | i <= j < phnum ensures SegmentSpread(w', runs, runs', dir, elf, Header(file, phoff, j), at'[j]) {
      if j > i { assert SegmentSpread(w', runs1, runs', dir, elf, Header(file, phoff, j), at[j]); }
    }
    forall j: nat, k: nat | i <= j < k < phnum && NeedsCopy(Header(file, phoff, j)) && NeedsCopy(Header(file, phoff, k))
      ensures at'[j] != at'[k]
    {
      assert SegmentSpread(w', runs1, runs', dir, elf, Header(file, phoff, k), at[k]);
    }
    forall p: nat | p < PAGES && NoSegment(file, phoff, phnum, i, p) ensures Leaf(w', dir, p) == Leaf(w, dir, p) {
      assert NoSegment(file, phoff, phnum, i + 1, p) && !OnPage(ph, p);
    }
  }

  lemma NoneSpread(w: Ram, runs: Runs, dir: nat, elf: Word, file: seq<Byte>, phoff: nat, phnum: nat)
    requires phoff + PHDR_SIZE * phnum <= |file| && dir < PAGES
    ensures Spread(w, w, runs, runs, dir, elf, file, phoff, phnum, phnum, seq(phnum, _ => 0))
  {
    hide Leaf;
  }

  lemma {:induction false} SegmentsSpread(v: Vmem, runs: Runs, dir: nat, tabs: Tables, skip: nat, elf: Word,
                                          file: seq<Byte>, phoff: nat, phnum: nat, i: nat)
    returns (runs': Runs, at: seq<nat>)
    requires Tidy(v.s, runs, dir, tabs) && Full(tabs) && FileAt(v.s, runs, dir, tabs, skip, elf, file)
    requires dir < PAGES && Placeable(file, phoff, phnum) && i <= phnum && elf + phoff + PHDR_SIZE * phnum <= SPACE
    requires MapSegments(v, dir, elf, phoff, phnum, i).1 == Ok
    ensures
      var s' := MapSegments(v, dir, elf, phoff, phnum, i).0.s;
      && |at| == phnum && Represents(s'.table, runs')
      && Spread(View(v.s), View(s'), runs, runs', dir, elf, file, phoff, phnum, i, at)
    decreases phnum - i
  {
    hide Tidy, FileAt, MapSegment, MapSegments, Image, DataKept, SegmentMapped, SegmentOk, Spread, OneSpread,
      Represents, PhdrAt;
    if i == phnum {
      NoSegments(v, dir, elf, phoff, phnum);
      TidyTable(v.s, runs, dir, tabs);
      runs', at := runs, seq(phnum, _ => 0);
      NoneSpread(View(v.s), runs, dir, elf, file, phoff, phnum);
    } else {
      var ph := Header(file, phoff, i);
      HeaderFromFile(v.s, runs, dir, tabs, skip, elf, file, phoff + PHDR_SIZE * i);
      SegmentsTurn(v, dir, elf, phoff, phnum, i, ph);
      var v1 := MapSegment(v, dir, elf, ph).0;
      var runs1 := SegmentMeaning(v, runs, dir, tabs, skip, elf, ph, file);
      FileKept(v.s, runs, v1.s, runs1, dir, tabs, skip, elf, file);
      var runs2, b := SegmentPlaced(v, runs, dir, tabs, skip, elf, ph, file);
      TidyTable(v1.s, runs1, dir, tabs);
      MeaningUnique(v1.s.table, runs1, runs2);
      runs', at := SegmentsSpread(v1, runs1, dir, tabs, skip, elf, file, phoff, phnum, i + 1);
      SpreadStep(View(v.s), View(v1.s), View(MapSegments(v, dir, elf, phoff, phnum, i).0.s), runs, runs1, runs', dir,
                 elf, file, phoff, phnum, i, b, at);
      at := at[i := b];
    }
  }

  // ------------------------------------------------------- the whole process

  predicate OnStack(p: nat) { STACK_END / PAGE_SIZE <= p < STACK_START / PAGE_SIZE }

  /** The pages of a loaded process: segments in the file or in copies of their
      own, the stack in its block, and every other page as before. */
  ghost predicate ElfSpread(w: Ram, w': Ram, runs: Runs, runs': Runs, dir: nat, elf: Word, stack: Word, file: seq<Byte>,
                            phoff: nat, phnum: nat, at: seq<nat>) {
    && phoff + PHDR_SIZE * phnum <= |file| && |at| == phnum && dir < PAGES && Extends(runs, runs')
    && (forall j: nat :: j < phnum ==> SegmentSpread(w', runs, runs', dir, elf, Header(file, phoff, j), at[j]))
    && CopiesApart(file, phoff, phnum, 0, at)
    && (forall p: nat :: p < PAGES && OnStack(p) ==>
          Leaf(w', dir, p) == Some(Pte(stack / PAGE_SIZE + (p - STACK_END / PAGE_SIZE), STACK_FLAGS)))
    && (forall p: nat :: p < PAGES && !OnStack(p) && NoSegment(file, phoff, phnum, 0, p) ==>
          Leaf(w', dir, p) == Leaf(w, dir, p))
  }

  lemma StackSpread(w: Ram, w1: Ram, w': Ram, runs: Runs, runs': Runs, dir: nat, tabs: Tables, elf: Word, stack: Word,
                    file: seq<Byte>, phoff: nat, phnum: nat, at: seq<nat>)
    requires Placeable(file, phoff, phnum) && Spread(w, w1, runs, runs', dir, elf, file, phoff, phnum, 0, at)
    requires RegionMapped(w1, w', dir, tabs, STACK_END / PAGE_SIZE, STACK_START / PAGE_SIZE - STACK_END / PAGE_SIZE,
                          stack / PAGE_SIZE, STACK_FLAGS)
    ensures ElfSpread(w, w', runs, runs', dir, elf, stack, file, phoff, phnum, at)
  {
    hide Leaf, Pte, Shape, HeldSegment, FirstFrame, NeedsCopy, Header, SegmentOk;
    forall j: nat | j < phnum ensures SegmentSpread(w', runs, runs', dir, elf, Header(file, phoff, j), at[j]) {
      var ph := Header(file, phoff, j);
      assert SegmentSpread(w1, runs, runs', dir, elf, ph, at[j]);
      forall p: nat | p < PAGES && OnPage(ph, p)
        ensures Leaf(w', dir, p) == Some(Pte(FrameAt(elf, ph, at[j], p), SegmentFlags(ph)))
      {
        assert !OnStack(p);
      }
    }
  }

  /** Every page of a process after process_map_elf. */
  lemma ElfFrames(v: Vmem, runs: Runs, dir: nat, tabs: Tables, elf: Word, stack: Word, file: seq<Byte>)
    returns (runs': Runs, at: seq<nat>)
    requires CanLoad(v, runs, dir, tabs, elf, stack, file)
    ensures
      var s' := MapElf(v, dir, elf, stack).0.s;
      && Represents(s'.table, runs')
      && ElfSpread(View(v.s), View(s'), runs, runs', dir, elf, stack, file, PhOffset(file, 0), PhCount(file, 0), at)
  {
    hide Tidy, DataKept, Loaded, MapSegments, MapRegion, FileAt, KernelMapped, PhOffset, PhCount, Placeable, Spread,
      ElfSpread, RegionMapped, Represents;
    var skip, phoff, phnum := BlockOf(stack), PhOffset(file, 0), PhCount(file, 0);
    HeaderWords(v.s, runs, dir, tabs, skip, elf, file);
    NothingLoaded(v.s, runs, dir, tabs, skip, file, phoff, phnum);
    runs', at := SegmentsSpread(v, runs, dir, tabs, skip, elf, file, phoff, phnum, 0);
    var runs1 := SegmentsMeaning(v, runs, dir, tabs, skip, elf, file, phoff, phnum, 0);
    var s1 := MapSegments(v, dir, elf, phoff, phnum, 0).0.s;
    MapRegionMeaning(s1, runs1, dir, tabs, STACK_END, stack, STACK_START, STACK_FLAGS);
    StackSpread(View(v.s), View(s1), View(MapElf(v, dir, elf, stack).0.s), runs, runs', dir, tabs, elf, stack, file,
                phoff, phnum, at);
  }

  // ------------------------------------------------------------- shared frames

  /** Two pages that show the same page of the file. */
  predicate SameFilePage(ph: Phdr, p: nat, ph': Phdr, q: nat)
    requires OnPage(ph, p) && OnPage(ph', q)
  {
    && !NeedsCopy(ph) && !NeedsCopy(ph')
    && ph.offset / PAGE_SIZE + (p - FirstPage(ph)) == ph'.offset / PAGE_SIZE + (q - FirstPage(ph'))
  }

  lemma FrameInFile(elf: Word, ph: Phdr, b: nat, p: nat)
    requires OnPage(ph, p) && !NeedsCopy(ph) && elf % PAGE_SIZE == 0
    ensures FrameAt(elf, ph, b, p) == elf / PAGE_SIZE + ph.offset / PAGE_SIZE + (p - FirstPage(ph))
  {
    var k := elf / PAGE_SIZE;
    assert elf == k * PAGE_SIZE;
    assert (k * PAGE_SIZE + ph.offset) / PAGE_SIZE == k + ph.offset / PAGE_SIZE;
  }

  /** A frame is in one allocation only. */
  lemma OneHome(runs: Runs, a: nat, b: nat, f: nat)
    requires Disjoint(runs) && FrameIn(runs, a, f) && FrameIn(runs, b, f)
    ensures a == b
  {
    assert Apart(runs, a, b) && Apart(runs, b, a);
  }

  /** Pages of two segments stand in one frame exactly when they are one page, or
      both segments are in the file and show the same page of it. */
  lemma SharedFrames(runs: Runs, runs': Runs, w: Ram, dir: nat, elf: Word, ph: Phdr, b: nat, p: nat, ph': Phdr,
                     b': nat, q: nat)
    requires SegmentSpread(w, runs, runs', dir, elf, ph, b) && SegmentSpread(w, runs, runs', dir, elf, ph', b')
    requires OnPage(ph, p) && OnPage(ph', q) && Disjoint(runs') && BlockOf(elf) in runs && elf % PAGE_SIZE == 0
    requires NeedsCopy(ph) && NeedsCopy(ph') && b == b' ==> ph == ph'
    ensures FrameAt(elf, ph, b, p) == FrameAt(elf, ph', b', q) <==> (NeedsCopy(ph) && ph == ph' && b == b' && p == q)
                                                                    || SameFilePage(ph, p, ph', q)
  {
    hide PlacedSegment, Disjoint, NeedsCopy, OnPage;
    var f := FrameAt(elf, ph, b, p);
    assert FrameIn(runs', Home(elf, ph, b), f);
    assert FrameIn(runs', Home(elf, ph', b'), FrameAt(elf, ph', b', q));
    if f == FrameAt(elf, ph', b', q) { OneHome(runs', Home(elf, ph, b), Home(elf, ph', b'), f); }
    if !NeedsCopy(ph) { FrameInFile(elf, ph, b, p); }
    if !NeedsCopy(ph') { FrameInFile(elf, ph', b', q); }
  }

  /** Frames of allocations are frames. */
  lemma FrameBound(s: Machine, runs: Runs, b: nat, f: nat)
    requires Represents(s.table, runs) && FrameIn(runs, b, f)
    ensures f < PAGES
  {
    hide Represents;
    RunBelowBoundary(s, runs, b);
  }

  /** The frame a page of a segment is in, read off the page table. */
  lemma SegmentFrame(s: Machine, runs: Runs, runs': Runs, dir: nat, elf: Word, ph: Phdr, b: nat, p: nat)
    requires SegmentSpread(View(s), runs, runs', dir, elf, ph, b) && Represents(s.table, runs')
    requires OnPage(ph, p) && p < PAGES
    ensures Leaf(View(s), dir, p).Some? && Frame(Leaf(View(s), dir, p).value) == FrameAt(elf, ph, b, p)
  {
    hide Leaf, Pte, Frame, Represents, OnPage;
    FrameBound(s, runs', Home(elf, ph, b), FrameAt(elf, ph, b, p));
    PteParts(FrameAt(elf, ph, b, p), SegmentFlags(ph));
  }

  /** After process_map_elf two pages of segments share a frame exactly when they
      are the same page or show the same page of the file. */
  lemma SegmentsAlias(v: Vmem, runs: Runs, dir: nat, tabs: Tables, elf: Word, stack: Word, file: seq<Byte>,
                      j: nat, p: nat, k: nat, q: nat)
    requires CanLoad(v, runs, dir, tabs, elf, stack, file) && j < PhCount(file, 0) && k < PhCount(file, 0)
    requires OnPage(Header(file, PhOffset(file, 0), j), p) && OnPage(Header(file, PhOffset(file, 0), k), q)
    ensures
      var w, phoff := View(MapElf(v, dir, elf, stack).0.s), PhOffset(file, 0);
      && p < PAGES && q < PAGES && Leaf(w, dir, p).Some? && Leaf(w, dir, q).Some?
      && (Frame(Leaf(w, dir, p).value) == Frame(Leaf(w, dir, q).value)
          <==> p == q || SameFilePage(Header(file, phoff, j), p, Header(file, phoff, k), q))
  {
    hide MapElf, SpaceOk, Leaf, Frame, SegmentOk, PhOffset, PhCount, OnPage, NeedsCopy, Represents, PlacedSegment,
      HeldSegment, SameFilePage, FirstFrame;
    var phoff := PhOffset(file, 0);
    var runs', at := ElfFrames(v, runs, dir, tabs, elf, stack, file);
    var s', ph, ph' := MapElf(v, dir, elf, stack).0.s, Header(file, phoff, j), Header(file, phoff, k);
    assert SegmentSpread(View(s'), runs, runs', dir, elf, ph, at[j]);
    assert SegmentSpread(View(s'), runs, runs', dir, elf, ph', at[k]);
    PageBound(ph, |file|, p);
    PageBound(ph', |file|, q);
    SegmentFrame(s', runs, runs', dir, elf, ph, at[j], p);
    SegmentFrame(s', runs, runs', dir, elf, ph', at[k], q);
    ApartRuns(s', runs');
    ElfAligned(elf);
    SharedFrames(runs, runs', View(s'), dir, elf, ph, at[j], p, ph', at[k], q);
    if p == q && j != k { OnePageEach(file, phoff, PhCount(file, 0), j, k, p); }
    if j == k && p == q { FilePageItself(ph, p); }
  }

  lemma PageBound(ph: Phdr, fileLen: nat, p: nat)
    requires SegmentOk(ph, fileLen) && OnPage(ph, p)
    ensures p < PAGES
  {
  }

  lemma ApartRuns(s: Machine, runs: Runs)
    requires Represents(s.table, runs)
    ensures Disjoint(runs)
  {
  }

  lemma ElfAligned(elf: Word)
    requires elf == AddrOf(BlockOf(elf))
    ensures elf % PAGE_SIZE == 0
  {
  }

  lemma OnePageEach(file: seq<Byte>, phoff: nat, phnum: nat, j: nat, k: nat, p: nat)
    requires Placeable(file, phoff, phnum) && j < phnum && k < phnum && j != k
    requires OnPage(Header(file, phoff, j), p)
    ensures !OnPage(Header(file, phoff, k), p)
  {
    hide SegmentOk;
  }

  lemma FilePageItself(ph: Phdr, p: nat)
    requires OnPage(ph, p)
    ensures NeedsCopy(ph) || SameFilePage(ph, p, ph, p)
  {
  }

  /** The pages of the file that two segments show do not meet. */
  predicate FilePagesApart(ph: Phdr, ph': Phdr)
    requires ph.vaddr + ph.memsz < SPACE && ph'.vaddr + ph'.memsz < SPACE
  {
    || ph.offset / PAGE_SIZE + (LastPage(ph) - FirstPage(ph)) <= ph'.offset / PAGE_SIZE
    || ph'.offset / PAGE_SIZE + (LastPage(ph') - FirstPage(ph')) <= ph.offset / PAGE_SIZE
  }

  /** No frame is shared by page `p` of one segment and page `q` of another. */
  ghost predicate FramesDiffer(w: Ram, dir: nat, p: nat, q: nat)
    requires dir < PAGES && p < PAGES && q < PAGES
  {
    Leaf(w, dir, p).Some? && Leaf(w, dir, q).Some? ==> Frame(Leaf(w, dir, p).value) != Frame(Leaf(w, dir, q).value)
  }

  /** Two loaded segments share no frame, so that writes to one never show in the
      other, exactly when one of them has a copy or they show different pages of
      the file. */
  lemma SegmentsApart(v: Vmem, runs: Runs, dir: nat, tabs: Tables, elf: Word, stack: Word, file: seq<Byte>,
                      j: nat, k: nat)
    requires CanLoad(v, runs, dir, tabs, elf, stack, file) && j < PhCount(file, 0) && k < PhCount(file, 0) && j != k
    requires Loads(Header(file, PhOffset(file, 0), j)) && Loads(Header(file, PhOffset(file, 0), k))
    ensures
      var w, ph, ph' := View(MapElf(v, dir, elf, stack).0.s), Header(file, PhOffset(file, 0), j),
                        Header(file, PhOffset(file, 0), k);
      (forall p: nat, q: nat ::
         p < PAGES && q < PAGES && OnPage(ph, p) && OnPage(ph', q) ==> FramesDiffer(w, dir, p, q))
      <==> NeedsCopy(ph) || NeedsCopy(ph') || FilePagesApart(ph, ph')
  {
    hide MapElf, SpaceOk, Leaf, Frame, PhOffset, PhCount, NeedsCopy, FileAt, PhdrAt;
    var w, ph, ph' := View(MapElf(v, dir, elf, stack).0.s), Header(file, PhOffset(file, 0), j),
                      Header(file, PhOffset(file, 0), k);
    forall p: nat, q: nat | p < PAGES && q < PAGES && OnPage(ph, p) && OnPage(ph', q)
      ensures FramesDiffer(w, dir, p, q) <==> !SameFilePage(ph, p, ph', q)
    {
      SegmentsAlias(v, runs, dir, tabs, elf, stack, file, j, p, k, q);
      if p == q { OnePageEach(file, PhOffset(file, 0), PhCount(file, 0), j, k, p); }
    }
    if !NeedsCopy(ph) && !NeedsCopy(ph') && !FilePagesApart(ph, ph') {
      var p, q := FirstShared(ph, ph', |file|);
    }
  }

  lemma FirstShared(ph: Phdr, ph': Phdr, fileLen: nat) returns (p: nat, q: nat)
    requires SegmentOk(ph, fileLen) && SegmentOk(ph', fileLen) && Loads(ph) && Loads(ph')
    requires !NeedsCopy(ph) && !NeedsCopy(ph') && !FilePagesApart(ph, ph')
    ensures p < PAGES && q < PAGES && OnPage(ph, p) && OnPage(ph', q) && SameFilePage(ph, p, ph', q)
  {
    var o, o' := ph.offset / PAGE_SIZE, ph'.offset / PAGE_SIZE;
    p := FirstPage(ph) + if o < o' then o' - o else 0;
    q := FirstPage(ph') + if o' < o then o - o' else 0;
  }

  /** No segment stands in the frames of the stack. */
  lemma StackAlone(v: Vmem, runs: Runs, dir: nat, tabs: Tables, elf: Word, stack: Word, file: seq<Byte>,
                   j: nat, p: nat, q: nat)
    requires CanLoad(v, runs, dir, tabs, elf, stack, file) && StackAt(runs, dir, tabs, stack) && j < PhCount(file, 0)
    requires OnPage(Header(file, PhOffset(file, 0), j), p) && p < PAGES && OnStack(q)
    ensures FramesDiffer(View(MapElf(v, dir, elf, stack).0.s), dir, p, q)
  {
    hide MapElf, SpaceOk, Leaf, Frame, SegmentOk, PhOffset, PhCount, OnPage, NeedsCopy, Represents, FirstFrame, Pte;
    var runs', at := ElfFrames(v, runs, dir, tabs, elf, stack, file);
    var s', ph := MapElf(v, dir, elf, stack).0.s, Header(file, PhOffset(file, 0), j);
    assert SegmentSpread(View(s'), runs, runs', dir, elf, ph, at[j]);
    SegmentFrame(s', runs, runs', dir, elf, ph, at[j], p);
    StackFrame(runs, dir, tabs, stack, q);
    var f := stack / PAGE_SIZE + (q - STACK_END / PAGE_SIZE);
    FrameBound(s', runs', BlockOf(stack), f);
    PteParts(f, STACK_FLAGS);
    ApartRuns(s', runs');
    if f == FrameAt(elf, ph, at[j], p) { OneHome(runs', Home(elf, ph, at[j]), BlockOf(stack), f); }
  }

  lemma StackFrame(runs: Runs, dir: nat, tabs: Tables, stack: Word, q: nat)
    requires StackAt(runs, dir, tabs, stack) && OnStack(q)
    ensures FrameIn(runs, BlockOf(stack), stack / PAGE_SIZE + (q - STACK_END / PAGE_SIZE))
  {
    FrameOfBlock(BlockOf(stack));
  }
}
