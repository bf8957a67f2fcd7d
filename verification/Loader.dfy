/** Loader correctness: what the process reads through its page table is the
    segment the file describes. */
module Loader {
  import opened Memory
  import opened HeapTable
  import opened MachineState
  import opened PageWalk
  import opened PagingSpec
  import opened VmemSpec
  import opened LoaderSpec
  import opened Status

  // --------------------------------------------------------- what stays put

  /** Address `a` lies in a live allocation that is not a page table, nor the one
      at block `skip`, the stack. */
  ghost predicate InData(runs: Runs, dir: nat, tabs: Tables, skip: nat, a: nat) {
    exists b: nat :: b != skip && DataRun(runs, dir, tabs, b) && AddrOf(b) <= a < AddrOf(b + runs[b])
  }

  ghost predicate DataKept(s: Machine, s': Machine, runs: Runs, dir: nat, tabs: Tables, skip: nat) {
    forall a: nat :: a < SPACE && InData(runs, dir, tabs, skip, a) ==> s'.ram[a] == s.ram[a]
  }

  ghost predicate Extends(runs: Runs, runs': Runs) {
    forall b :: b in runs ==> b in runs' && runs'[b] == runs[b]
  }

  /** No page outside `lo .. hi` moves. */
  ghost predicate LeafKept(w: Ram, w': Ram, dir: nat, lo: nat, hi: nat) {
    dir < PAGES && forall p: nat :: p < PAGES && !(lo <= p < hi) ==> Leaf(w', dir, p) == Leaf(w, dir, p)
  }

  /** The process reads `x` at `va`, from a data allocation. */
  ghost predicate ByteSeen(s: Machine, runs: Runs, dir: nat, tabs: Tables, skip: nat, va: Word, x: Byte) {
    && dir < PAGES && Translate(View(s), dir, va).Some?
    && var a := Translate(View(s), dir, va).value;
       a < SPACE && InData(runs, dir, tabs, skip, a) && s.ram[a] == x
  }

  /** The page entry lets the user read, and write as given. */
  ghost predicate EntryGrants(w: Ram, dir: nat, va: Word, write: bool) {
    && dir < PAGES && Leaf(w, dir, va / PAGE_SIZE).Some?
    && UserAccess(Leaf(w, dir, va / PAGE_SIZE).value)
    && Writable(Leaf(w, dir, va / PAGE_SIZE).value) == write
  }

  lemma EntryKept(w: Ram, w': Ram, dir: nat, lo: nat, hi: nat, va: Word, write: bool)
    requires EntryGrants(w, dir, va, write) && LeafKept(w, w', dir, lo, hi) && !(lo <= va / PAGE_SIZE < hi)
    ensures EntryGrants(w', dir, va, write)
  {
    hide Leaf;
  }

  lemma InDataGrows(runs: Runs, runs': Runs, dir: nat, tabs: Tables, skip: nat, a: nat)
    requires InData(runs, dir, tabs, skip, a) && Extends(runs, runs')
    ensures InData(runs', dir, tabs, skip, a)
  {
    var b: nat :| b != skip && DataRun(runs, dir, tabs, b) && AddrOf(b) <= a < AddrOf(b + runs[b]);
    assert DataRun(runs', dir, tabs, b);
  }

  lemma SeenKept(s: Machine, runs: Runs, s': Machine, runs': Runs, dir: nat, tabs: Tables, skip: nat,
                 lo: nat, hi: nat, va: Word, x: Byte)
    requires ByteSeen(s, runs, dir, tabs, skip, va, x) && !(lo <= va / PAGE_SIZE < hi)
    requires LeafKept(View(s), View(s'), dir, lo, hi) && DataKept(s, s', runs, dir, tabs, skip) && Extends(runs, runs')
    ensures ByteSeen(s', runs', dir, tabs, skip, va, x)
  {
    hide Leaf;
    InDataGrows(runs, runs', dir, tabs, skip, Translate(View(s), dir, va).value);
  }

  lemma TableWritesKeepData(s: Machine, s': Machine, runs: Runs, dir: nat, tabs: Tables, skip: nat)
    requires Tidy(s, runs, dir, tabs) && SameElsewhere(s.ram, s'.ram, Frames(dir, tabs))
    ensures DataKept(s, s', runs, dir, tabs, skip)
  {
    hide Tidy;
    forall a: nat | a < SPACE && InData(runs, dir, tabs, skip, a) ensures s'.ram[a] == s.ram[a] {
      var b: nat :| b != skip && DataRun(runs, dir, tabs, b) && AddrOf(b) <= a < AddrOf(b + runs[b]);
      DataOutsideTables(s, runs, dir, tabs, b, a);
    }
  }

  /** Writes inside one live run leave the data of the others alone. */
  lemma RunWritesKeepData(s: Machine, s': Machine, runs: Runs, runs': Runs, dir: nat, tabs: Tables, skip: nat, b: nat)
    requires Disjoint(runs') && Extends(runs, runs') && b !in runs && b in runs'
    requires SameOutside(s.ram, s'.ram, AddrOf(b), AddrOf(b + runs'[b]))
    ensures DataKept(s, s', runs, dir, tabs, skip)
  {
    forall a: nat | a < SPACE && InData(runs, dir, tabs, skip, a) ensures s'.ram[a] == s.ram[a] {
      var b': nat :| b' != skip && DataRun(runs, dir, tabs, b') && AddrOf(b') <= a < AddrOf(b' + runs[b']);
      assert Apart(runs', b, b') && Apart(runs', b', b);
    }
  }

  lemma DataKeptTrans(s: Machine, s1: Machine, s2: Machine, runs: Runs, runs1: Runs, dir: nat, tabs: Tables, skip: nat)
    requires DataKept(s, s1, runs, dir, tabs, skip) && DataKept(s1, s2, runs1, dir, tabs, skip) && Extends(runs, runs1)
    ensures DataKept(s, s2, runs, dir, tabs, skip)
  {
    forall a: nat | a < SPACE && InData(runs, dir, tabs, skip, a) ensures s2.ram[a] == s.ram[a] {
      InDataGrows(runs, runs1, dir, tabs, skip, a);
    }
  }

  // ---------------------------------------------------------- the ELF file

  predicate Loads(ph: Phdr) { ph.pType == PT_LOAD && ph.memsz > 0 }

  /** What a loadable segment must satisfy: the "Program Header" section of the
      TIS ELF Specification 1.2, and page alignment for one with a zero tail. */
  predicate SegmentOk(ph: Phdr, fileLen: nat) {
    Loads(ph) ==>
      && ph.filesz <= ph.memsz && ph.offset + ph.filesz <= fileLen && ph.vaddr + ph.memsz <= 0xffff_f000
      && (ph.filesz == ph.memsz ==> ph.vaddr % PAGE_SIZE == ph.offset % PAGE_SIZE)
      && (ph.filesz < ph.memsz ==> ph.vaddr % PAGE_SIZE == 0)
  }

  /** Byte `va` of the segment, as the specification defines it. */
  function SegmentByte(ph: Phdr, file: seq<Byte>, va: Word): Byte
    requires SegmentOk(ph, |file|) && Loads(ph) && ph.vaddr <= va < ph.vaddr + ph.memsz
  {
    if va - ph.vaddr < ph.filesz then file[ph.offset + (va - ph.vaddr)] else 0
  }

  /** The file is in memory, in an allocation of its own. */
  ghost predicate FileAt(s: Machine, runs: Runs, dir: nat, tabs: Tables, skip: nat, elf: Word, file: seq<Byte>) {
    && elf == AddrOf(BlockOf(elf)) && DataRun(runs, dir, tabs, BlockOf(elf))
    && skip in runs && BlockOf(elf) != skip
    && |file| <= runs[BlockOf(elf)] * PAGE_SIZE && elf + |file| <= SPACE
    && (forall i :: 0 <= i < |file| ==> s.ram[elf + i] == file[i])
  }

  lemma FileInData(s: Machine, runs: Runs, dir: nat, tabs: Tables, skip: nat, elf: Word, file: seq<Byte>, i: nat)
    requires FileAt(s, runs, dir, tabs, skip, elf, file) && i < |file|
    ensures InData(runs, dir, tabs, skip, elf + i) && elf + i < SPACE && s.ram[elf + i] == file[i]
  {
    var b := BlockOf(elf);
    assert DataRun(runs, dir, tabs, b) && AddrOf(b) <= elf + i < AddrOf(b + runs[b]);
  }

  lemma FileKept(s: Machine, runs: Runs, s': Machine, runs': Runs, dir: nat, tabs: Tables, skip: nat, elf: Word,
                 file: seq<Byte>)
    requires FileAt(s, runs, dir, tabs, skip, elf, file) && DataKept(s, s', runs, dir, tabs, skip)
    requires Extends(runs, runs')
    ensures FileAt(s', runs', dir, tabs, skip, elf, file)
  {
    forall i: nat | i < |file| ensures s'.ram[elf + i] == file[i] {
      FileInData(s, runs, dir, tabs, skip, elf, file, i);
    }
  }

  lemma WordFromFile(s: Machine, runs: Runs, dir: nat, tabs: Tables, skip: nat, elf: Word, file: seq<Byte>, at: nat)
    requires FileAt(s, runs, dir, tabs, skip, elf, file) && at + 4 <= |file|
    ensures GetWord(s.ram, elf + at) == GetWord(file, at)
  {
    assert s.ram[elf + at] == file[at] && s.ram[elf + (at + 1)] == file[at + 1]
        && s.ram[elf + (at + 2)] == file[at + 2] && s.ram[elf + (at + 3)] == file[at + 3];
  }

  /** A header read from memory is the header in the file. */
  lemma HeaderFromFile(s: Machine, runs: Runs, dir: nat, tabs: Tables, skip: nat, elf: Word, file: seq<Byte>, at: nat)
    requires FileAt(s, runs, dir, tabs, skip, elf, file) && at + PHDR_SIZE <= |file|
    ensures PhdrAt(s.ram, elf + at) == PhdrAt(file, at)
  {
    hide GetWord;
    WordFromFile(s, runs, dir, tabs, skip, elf, file, at);
    WordFromFile(s, runs, dir, tabs, skip, elf, file, at + 4);
    WordFromFile(s, runs, dir, tabs, skip, elf, file, at + 8);
    WordFromFile(s, runs, dir, tabs, skip, elf, file, at + 12);
    WordFromFile(s, runs, dir, tabs, skip, elf, file, at + 16);
    WordFromFile(s, runs, dir, tabs, skip, elf, file, at + 20);
    WordFromFile(s, runs, dir, tabs, skip, elf, file, at + 24);
    WordFromFile(s, runs, dir, tabs, skip, elf, file, at + 28);
  }

  // ------------------------------------------------------------ one segment

  /** Byte `va` of the segment stands at its place from `pa`. */
  ghost predicate BackedAt(s: Machine, runs: Runs, dir: nat, tabs: Tables, skip: nat, ph: Phdr, file: seq<Byte>,
                           pa: Word, va: Word)
    requires SegmentOk(ph, |file|) && Loads(ph) && ph.vaddr <= va < ph.vaddr + ph.memsz
  {
    var a := pa + (va - DownAlign(ph.vaddr));
    a < SPACE && InData(runs, dir, tabs, skip, a) && s.ram[a] == SegmentByte(ph, file, va)
  }

  ghost predicate Backed(s: Machine, runs: Runs, dir: nat, tabs: Tables, skip: nat, ph: Phdr, file: seq<Byte>, pa: Word)
    requires SegmentOk(ph, |file|) && Loads(ph)
  {
    && pa % PAGE_SIZE == 0 && pa + (UpAlign(ph.vaddr + ph.memsz) - DownAlign(ph.vaddr)) <= SPACE
    && (forall va: Word :: ph.vaddr <= va < ph.vaddr + ph.memsz ==>
          BackedAt(s, runs, dir, tabs, skip, ph, file, pa, va))
  }

  /** A segment without a zero tail is mapped where it stands in the file. */
  lemma SourceInFile(s: Machine, runs: Runs, dir: nat, tabs: Tables, skip: nat, elf: Word, ph: Phdr, file: seq<Byte>)
    requires Represents(s.table, runs)
    requires FileAt(s, runs, dir, tabs, skip, elf, file) && SegmentOk(ph, |file|) && Loads(ph) && ph.filesz == ph.memsz
    ensures elf + ph.offset < SPACE && Backed(s, runs, dir, tabs, skip, ph, file, DownAlign(elf + ph.offset))
  {
    hide Represents;
    RunBelowBoundary(s, runs, BlockOf(elf));
    var pa := DownAlign(elf + ph.offset);
    forall va: Word | ph.vaddr <= va < ph.vaddr + ph.memsz
      ensures BackedAt(s, runs, dir, tabs, skip, ph, file, pa, va)
    {
      assert pa + (va - DownAlign(ph.vaddr)) == elf + (ph.offset + (va - ph.vaddr));
      FileInData(s, runs, dir, tabs, skip, elf, file, ph.offset + (va - ph.vaddr));
    }
  }

  lemma RunBelowBoundary(s: Machine, runs: Runs, b: nat)
    requires Represents(s.table, runs) && b in runs
    ensures AddrOf(b + runs[b]) <= KHEAP_SAFE_BOUNDARY
  {
  }

  /** A segment with a zero tail gets a zeroed copy. */
  lemma SourceCopied(s: Machine, runs: Runs, dir: nat, tabs: Tables, skip: nat, elf: Word, ph: Phdr, file: seq<Byte>)
    returns (runs': Runs)
    requires Tidy(s, runs, dir, tabs) && ScanSafe(s.table, NumBlocks(ph.memsz))
    requires FileAt(s, runs, dir, tabs, skip, elf, file) && SegmentOk(ph, |file|) && Loads(ph) && ph.filesz < ph.memsz
    requires Kzalloc(s, ph.memsz).ptr != 0
    ensures elf + ph.offset < SPACE
    ensures
      var r := Kzalloc(s, ph.memsz);
      var s' := r.s.(ram := Copied(r.s.ram, r.ptr, elf + ph.offset, ph.filesz));
      && Tidy(s', runs', dir, tabs) && Extends(runs, runs') && DataKept(s, s', runs, dir, tabs, skip)
      && LeafKept(View(s), View(s'), dir, 0, 0) && View(s')[dir] == View(s)[dir]
      && Backed(s', runs', dir, tabs, skip, ph, file, r.ptr)
  {
    hide Leaf, Kzalloc, Copied, InData;
    runs' := KzallocKeepsTables(s, runs, dir, tabs, ph.memsz);
    var r := Kzalloc(s, ph.memsz);
    var b := BlockOf(r.ptr);
    FreshIsData(s, runs, dir, tabs, b, runs'[b]);
    RunBelowBoundary(s, runs, BlockOf(elf));
    FileApart(s, runs, runs', elf, file, dir, tabs, skip, b);
    CopiedMeaning(r.s.ram, r.ptr, elf + ph.offset, ph.filesz);
    var s' := r.s.(ram := Copied(r.s.ram, r.ptr, elf + ph.offset, ph.filesz));
    DataWriteKeepsTables(r.s, s', runs', dir, tabs, b);
    RunWritesKeepData(s, s', runs, runs', dir, tabs, skip, b);
    CopyBacks(s, r.s, s', runs, runs', dir, tabs, skip, elf, ph, file, r.ptr);
  }

  /** The file lies outside a run allocated later. */
  lemma FileApart(s: Machine, runs: Runs, runs': Runs, elf: Word, file: seq<Byte>, dir: nat, tabs: Tables, skip: nat,
                  b: nat)
    requires FileAt(s, runs, dir, tabs, skip, elf, file) && Disjoint(runs') && Extends(runs, runs') && b !in runs
    requires b in runs'
    ensures elf + |file| <= AddrOf(b) || AddrOf(b + runs'[b]) <= elf
  {
    var e := BlockOf(elf);
    assert Apart(runs', e, b) && Apart(runs', b, e);
  }

  /** Writing to a data run moves no page. */
  lemma DataWriteKeepsTables(s: Machine, s': Machine, runs: Runs, dir: nat, tabs: Tables, b: nat)
    requires Tidy(s, runs, dir, tabs) && DataRun(runs, dir, tabs, b) && s'.table == s.table
    requires SameOutside(s.ram, s'.ram, AddrOf(b), AddrOf(b + runs[b]))
    ensures Tidy(s', runs, dir, tabs) && LeafKept(View(s), View(s'), dir, 0, 0) && View(s')[dir] == View(s)[dir]
  {
    hide Shape, Leaf;
    TidyDir(s, runs, dir, tabs);
    forall f: nat | f < PAGES && f in Frames(dir, tabs) ensures View(s')[f] == View(s)[f] {
      assert HeapBlock(f) != b;
      ApartFrames(runs, b, runs[b], f);
      PagesSame(s.ram, s'.ram, f);
    }
    UntouchedTables(View(s), View(s'), dir, tabs);
  }

  lemma CopyBacks(s: Machine, s1: Machine, s': Machine, runs: Runs, runs': Runs, dir: nat, tabs: Tables, skip: nat,
                  elf: Word, ph: Phdr, file: seq<Byte>, ptr: Word)
    requires FileAt(s, runs, dir, tabs, skip, elf, file) && SegmentOk(ph, |file|) && Loads(ph) && ph.filesz < ph.memsz
    requires ptr == AddrOf(BlockOf(ptr)) && DataRun(runs', dir, tabs, BlockOf(ptr)) && BlockOf(ptr) != skip
    requires ptr + ph.memsz <= AddrOf(BlockOf(ptr) + runs'[BlockOf(ptr)]) <= KHEAP_SAFE_BOUNDARY
    requires elf + |file| <= ptr || ptr + ph.memsz <= elf
    requires SameOutside(s.ram, s1.ram, ptr, ptr + ph.memsz) && forall a :: ptr <= a < ptr + ph.memsz ==> s1.ram[a] == 0
    requires SameOutside(s1.ram, s'.ram, ptr, ptr + ph.filesz)
    requires forall k :: ptr <= k < ptr + ph.filesz ==> s'.ram[k] == s1.ram[elf + ph.offset + k - ptr]
    ensures Backed(s', runs', dir, tabs, skip, ph, file, ptr)
  {
    hide InData;
    assert DownAlign(ph.vaddr) == ph.vaddr;
    forall va: Word | ph.vaddr <= va < ph.vaddr + ph.memsz
      ensures BackedAt(s', runs', dir, tabs, skip, ph, file, ptr, va)
    {
      var k := va - ph.vaddr;
      InRunIsData(runs', dir, tabs, skip, BlockOf(ptr), ptr + k);
      if k < ph.filesz {
        assert s'.ram[ptr + k] == s1.ram[elf + ph.offset + k];
        assert s.ram[elf + (ph.offset + k)] == file[ph.offset + k];
      }
    }
  }

  lemma InRunIsData(runs: Runs, dir: nat, tabs: Tables, skip: nat, b: nat, a: nat)
    requires b != skip && DataRun(runs, dir, tabs, b) && AddrOf(b) <= a < AddrOf(b + runs[b])
    ensures InData(runs, dir, tabs, skip, a)
  {
  }

  /** Pages of a segment. */
  function FirstPage(ph: Phdr): nat { ph.vaddr / PAGE_SIZE }

  function LastPage(ph: Phdr): nat
    requires ph.vaddr + ph.memsz < SPACE
  {
    PagesUpTo(ph.vaddr + ph.memsz)
  }

  /** PF_W */
  predicate WantsWrite(ph: Phdr) { ph.flags / 2 % 2 == 1 }

  /** The whole segment reads, through the page table, as the file says, and its
      pages are the user's to read, and to write exactly when it asks for that. */
  ghost predicate Image(s: Machine, runs: Runs, dir: nat, tabs: Tables, skip: nat, ph: Phdr, file: seq<Byte>)
    requires SegmentOk(ph, |file|)
  {
    Loads(ph) ==> forall va: Word :: ph.vaddr <= va < ph.vaddr + ph.memsz ==>
      ByteSeen(s, runs, dir, tabs, skip, va, SegmentByte(ph, file, va)) && EntryGrants(View(s), dir, va, WantsWrite(ph))
  }

  lemma SourceMeaning(v: Vmem, runs: Runs, dir: nat, tabs: Tables, skip: nat, elf: Word, ph: Phdr, file: seq<Byte>)
    returns (runs': Runs)
    requires Tidy(v.s, runs, dir, tabs) && FileAt(v.s, runs, dir, tabs, skip, elf, file)
    requires SegmentOk(ph, |file|) && Loads(ph) && SegmentSource(v, elf, ph).status == Ok
    ensures
      var src := SegmentSource(v, elf, ph);
      && Tidy(src.v.s, runs', dir, tabs) && Extends(runs, runs') && DataKept(v.s, src.v.s, runs, dir, tabs, skip)
      && LeafKept(View(v.s), View(src.v.s), dir, 0, 0) && View(src.v.s)[dir] == View(v.s)[dir]
      && Backed(src.v.s, runs', dir, tabs, skip, ph, file, src.pa)
  {
    hide Represents, Leaf, Shape, Owned, Kzalloc, Copied, Backed, DataKept;
    TidyDir(v.s, runs, dir, tabs);
    runs' := runs;
    if ph.filesz == ph.memsz {
      SourceInFile(v.s, runs, dir, tabs, skip, elf, ph, file);
      NoDataChange(v.s, runs, dir, tabs, skip);
    } else {
      runs' := SourceCopied(v.s, runs, dir, tabs, skip, elf, ph, file);
    }
  }

  lemma NoDataChange(s: Machine, runs: Runs, dir: nat, tabs: Tables, skip: nat)
    ensures DataKept(s, s, runs, dir, tabs, skip)
  {
  }

  lemma EntryInRegion(w: Ram, w': Ram, dir: nat, tabs: Tables, vaStart: Word, pa: Word, vaEnd: Word, ph: Phdr, va: Word)
    requires RegionOk(vaStart, pa, vaEnd) && pa + (vaEnd - vaStart) <= SPACE && vaStart <= va < vaEnd
    requires RegionMapped(w, w', dir, tabs, vaStart / PAGE_SIZE, vaEnd / PAGE_SIZE - vaStart / PAGE_SIZE,
                          pa / PAGE_SIZE, SegmentFlags(ph))
    ensures EntryGrants(w', dir, va, WantsWrite(ph))
  {
    hide RegionMapped, Leaf, Writable, UserAccess;
    RegionLeaf(w, w', dir, tabs, vaStart / PAGE_SIZE, vaEnd / PAGE_SIZE - vaStart / PAGE_SIZE,
               pa / PAGE_SIZE, SegmentFlags(ph), va / PAGE_SIZE);
    PteParts(pa / PAGE_SIZE + va / PAGE_SIZE - vaStart / PAGE_SIZE, SegmentFlags(ph));
    FlagsOfSegment(ph);
  }

  lemma FlagsOfSegment(ph: Phdr)
    ensures UserAccess(SegmentFlags(ph)) && Writable(SegmentFlags(ph)) == WantsWrite(ph)
  {
  }

  /** Mapping backed pages shows the segment and nothing else changes. */
  lemma MapBacked(s: Machine, runs: Runs, dir: nat, tabs: Tables, skip: nat, ph: Phdr, file: seq<Byte>, pa: Word)
    requires Tidy(s, runs, dir, tabs) && Full(tabs) && SegmentOk(ph, |file|) && Loads(ph)
    requires Backed(s, runs, dir, tabs, skip, ph, file, pa)
    ensures
      dir < PAGES && DownAlign(ph.vaddr) < UpAlign(ph.vaddr + ph.memsz)
      && var m := MapRegion(s, dir, DownAlign(ph.vaddr), pa, UpAlign(ph.vaddr + ph.memsz), SegmentFlags(ph));
      && m.1 == Ok && m.0.table == s.table && Tidy(m.0, runs, dir, tabs)
      && DataKept(s, m.0, runs, dir, tabs, skip)
      && LeafKept(View(s), View(m.0), dir, FirstPage(ph), LastPage(ph)) && FirstPage(ph) < LastPage(ph)
      && RegionMapped(View(s), View(m.0), dir, tabs, FirstPage(ph), LastPage(ph) - FirstPage(ph),
                      pa / PAGE_SIZE, SegmentFlags(ph))
      && Image(m.0, runs, dir, tabs, skip, ph, file)
  {
    hide Tidy, MapRegion, RegionMapped, InData, Leaf;
    TidyDir(s, runs, dir, tabs);
    var vaStart, vaEnd, flags := DownAlign(ph.vaddr), UpAlign(ph.vaddr + ph.memsz), SegmentFlags(ph);
    MapRegionMeaning(s, runs, dir, tabs, vaStart, pa, vaEnd, flags);
    var s' := MapRegion(s, dir, vaStart, pa, vaEnd, flags).0;
    TableWritesKeepData(s, s', runs, dir, tabs, skip);
    forall va: Word | ph.vaddr <= va < ph.vaddr + ph.memsz
      ensures ByteSeen(s', runs, dir, tabs, skip, va, SegmentByte(ph, file, va))
      ensures EntryGrants(View(s'), dir, va, WantsWrite(ph))
    {
      assert BackedAt(s, runs, dir, tabs, skip, ph, file, pa, va);
      TranslateInRegion(View(s), View(s'), dir, tabs, vaStart, pa, vaEnd, flags, va);
      EntryInRegion(View(s), View(s'), dir, tabs, vaStart, pa, vaEnd, ph, va);
    }
    forall p: nat | p < PAGES && !(FirstPage(ph) <= p < LastPage(ph))
      ensures Leaf(View(s'), dir, p) == Leaf(View(s), dir, p)
    {
      RegionLeaf(View(s), View(s'), dir, tabs, vaStart / PAGE_SIZE, vaEnd / PAGE_SIZE - vaStart / PAGE_SIZE,
                 pa / PAGE_SIZE, flags, p);
    }
  }

  /** The pages of the segment, and no others, are mapped with its flags. */
  ghost predicate SegmentMapped(w: Ram, w': Ram, dir: nat, tabs: Tables, ph: Phdr) {
    && ph.vaddr + ph.memsz < SPACE && FirstPage(ph) < LastPage(ph)
    && exists pfn: nat :: MappedFrom(w, w', dir, tabs, ph, pfn)
  }

  ghost predicate MappedFrom(w: Ram, w': Ram, dir: nat, tabs: Tables, ph: Phdr, pfn: nat)
    requires ph.vaddr + ph.memsz < SPACE && FirstPage(ph) < LastPage(ph)
  {
    RegionMapped(w, w', dir, tabs, FirstPage(ph), LastPage(ph) - FirstPage(ph), pfn, SegmentFlags(ph))
  }

  lemma MappedLeaves(w: Ram, w': Ram, dir: nat, tabs: Tables, ph: Phdr)
    requires SegmentMapped(w, w', dir, tabs, ph)
    ensures LeafKept(w, w', dir, FirstPage(ph), LastPage(ph))
  {
  }

  /** One turn of the loop, for a segment in order. */
  lemma SegmentUnfolds(v: Vmem, dir: nat, elf: Word, ph: Phdr, fileLen: nat)
    requires dir < PAGES && SegmentOk(ph, fileLen)
    ensures !Loads(ph) ==> MapSegment(v, dir, elf, ph) == (v, Ok)
    ensures Loads(ph) ==>
      && ph.vaddr + ph.memsz < SPACE
      && var src := SegmentSource(v, elf, ph);
      var m := MapRegion(src.v.s, dir, DownAlign(ph.vaddr), src.pa, UpAlign(ph.vaddr + ph.memsz), SegmentFlags(ph));
      MapSegment(v, dir, elf, ph) == if src.status != Ok then (src.v, src.status) else (src.v.(s := m.0), m.1)
  {
    hide SegmentSource, MapRegion, DownAlign, UpAlign;
    if Loads(ph) {
      assert (ph.vaddr + ph.memsz) % SPACE == ph.vaddr + ph.memsz;
      UpOfDown(ph.vaddr, ph.memsz);
    }
  }

  /** One turn of the loop shows its segment and keeps everything else. */
  lemma SegmentMeaning(v: Vmem, runs: Runs, dir: nat, tabs: Tables, skip: nat, elf: Word, ph: Phdr, file: seq<Byte>)
    returns (runs': Runs)
    requires Tidy(v.s, runs, dir, tabs) && Full(tabs) && FileAt(v.s, runs, dir, tabs, skip, elf, file)
    requires dir < PAGES && SegmentOk(ph, |file|) && MapSegment(v, dir, elf, ph).1 == Ok
    ensures
      var s' := MapSegment(v, dir, elf, ph).0.s;
      && Tidy(s', runs', dir, tabs) && Extends(runs, runs') && DataKept(v.s, s', runs, dir, tabs, skip)
      && (if Loads(ph) then SegmentMapped(View(v.s), View(s'), dir, tabs, ph) else s' == v.s)
      && Image(s', runs', dir, tabs, skip, ph, file)
  {
    hide Tidy, SegmentSource, MapRegion, Leaf, Backed, Image, DataKept, FileAt, RegionMapped, SegmentMapped, MapSegment,
      SegmentOk, DownAlign, UpAlign;
    runs' := runs;
    SegmentUnfolds(v, dir, elf, ph, |file|);
    NoDataChange(v.s, runs, dir, tabs, skip);
    NotLoaded(v.s, runs, dir, tabs, skip, ph, file);
    if Loads(ph) {
      var src := SegmentSource(v, elf, ph);
      runs' := SourceMeaning(v, runs, dir, tabs, skip, elf, ph, file);
      MapBacked(src.v.s, runs', dir, tabs, skip, ph, file, src.pa);
      DataKeptTrans(v.s, src.v.s, MapSegment(v, dir, elf, ph).0.s, runs, runs', dir, tabs, skip);
      MappedSince(View(v.s), View(src.v.s), View(MapSegment(v, dir, elf, ph).0.s), dir, tabs, ph, src.pa / PAGE_SIZE);
    }
  }

  lemma MappedSince(w: Ram, w1: Ram, w': Ram, dir: nat, tabs: Tables, ph: Phdr, pfn: nat)
    requires ph.vaddr + ph.memsz < SPACE && FirstPage(ph) < LastPage(ph)
    requires RegionMapped(w1, w', dir, tabs, FirstPage(ph), LastPage(ph) - FirstPage(ph), pfn, SegmentFlags(ph))
    requires LeafKept(w, w1, dir, 0, 0) && w1[dir] == w[dir]
    ensures SegmentMapped(w, w', dir, tabs, ph)
  {
    hide Leaf;
    assert MappedFrom(w, w', dir, tabs, ph, pfn);
  }

  lemma NotLoaded(s: Machine, runs: Runs, dir: nat, tabs: Tables, skip: nat, ph: Phdr, file: seq<Byte>)
    requires SegmentOk(ph, |file|)
    ensures !Loads(ph) ==> Image(s, runs, dir, tabs, skip, ph, file)
  {
  }

  // ------------------------------------------------------------- whole file

  /** Header `i` of the file. */
  function Header(file: seq<Byte>, phoff: nat, i: nat): Phdr
    requires phoff + PHDR_SIZE * (i + 1) <= |file|
  {
    PhdrAt(file, phoff + PHDR_SIZE * i)
  }

  predicate PagesApart(ph: Phdr, ph': Phdr)
    requires ph.vaddr + ph.memsz < SPACE && ph'.vaddr + ph'.memsz < SPACE
  {
    LastPage(ph) <= FirstPage(ph') || LastPage(ph') <= FirstPage(ph)
  }

  predicate ClearOfStack(ph: Phdr)
    requires ph.vaddr + ph.memsz < SPACE
  {
    LastPage(ph) <= STACK_END / PAGE_SIZE || STACK_START / PAGE_SIZE <= FirstPage(ph)
  }

  /** A file the loader can place: headers inside it, good segments, on pages
      apart from each other and from the stack. */
  ghost predicate Placeable(file: seq<Byte>, phoff: nat, phnum: nat) {
    && phoff + PHDR_SIZE * phnum <= |file|
    && (forall i: nat :: i < phnum ==> SegmentOk(Header(file, phoff, i), |file|))
    && (forall i: nat :: i < phnum && Loads(Header(file, phoff, i)) ==> ClearOfStack(Header(file, phoff, i)))
    && (forall i: nat, j: nat :: i < j < phnum && Loads(Header(file, phoff, i)) && Loads(Header(file, phoff, j)) ==>
          PagesApart(Header(file, phoff, i), Header(file, phoff, j)))
  }

  ghost predicate Loaded(s: Machine, runs: Runs, dir: nat, tabs: Tables, skip: nat, file: seq<Byte>, phoff: nat,
                         phnum: nat, i: nat)
    requires Placeable(file, phoff, phnum) && i <= phnum
  {
    forall j: nat :: j < i ==> Image(s, runs, dir, tabs, skip, Header(file, phoff, j), file)
  }

  lemma ImageKept(s: Machine, runs: Runs, s': Machine, runs': Runs, dir: nat, tabs: Tables, skip: nat, ph: Phdr,
                  file: seq<Byte>,
                  lo: nat, hi: nat)
    requires SegmentOk(ph, |file|) && Image(s, runs, dir, tabs, skip, ph, file)
    requires Loads(ph) ==> LastPage(ph) <= lo || hi <= FirstPage(ph)
    requires LeafKept(View(s), View(s'), dir, lo, hi) && DataKept(s, s', runs, dir, tabs, skip) && Extends(runs, runs')
    ensures Image(s', runs', dir, tabs, skip, ph, file)
  {
    hide ByteSeen, LeafKept, DataKept, Extends, EntryGrants;
    if Loads(ph) {
      forall va: Word | ph.vaddr <= va < ph.vaddr + ph.memsz
        ensures ByteSeen(s', runs', dir, tabs, skip, va, SegmentByte(ph, file, va))
        ensures EntryGrants(View(s'), dir, va, WantsWrite(ph))
      {
        assert FirstPage(ph) <= va / PAGE_SIZE < LastPage(ph);
        EntryKept(View(s), View(s'), dir, lo, hi, va, WantsWrite(ph));
        SeenKept(s, runs, s', runs', dir, tabs, skip, lo, hi, va, SegmentByte(ph, file, va));
      }
    }
  }

  lemma {:induction false} SegmentsMeaning(v: Vmem, runs: Runs, dir: nat, tabs: Tables, skip: nat, elf: Word,
                                           file: seq<Byte>,
                                           phoff: nat, phnum: nat, i: nat) returns (runs': Runs)
    requires Tidy(v.s, runs, dir, tabs) && Full(tabs) && FileAt(v.s, runs, dir, tabs, skip, elf, file)
    requires dir < PAGES && Placeable(file, phoff, phnum) && i <= phnum && elf + phoff + PHDR_SIZE * phnum <= SPACE
    requires Loaded(v.s, runs, dir, tabs, skip, file, phoff, phnum, i)
    requires MapSegments(v, dir, elf, phoff, phnum, i).1 == Ok
    ensures
      var s' := MapSegments(v, dir, elf, phoff, phnum, i).0.s;
      && Tidy(s', runs', dir, tabs) && Extends(runs, runs') && DataKept(v.s, s', runs, dir, tabs, skip)
      && Loaded(s', runs', dir, tabs, skip, file, phoff, phnum, phnum)
    decreases phnum - i
  {
    hide Tidy, FileAt, MapSegment, MapSegments, Image, DataKept, LeafKept, SegmentMapped, SegmentOk;
    runs' := runs;
    NoDataChange(v.s, runs, dir, tabs, skip);
    if i == phnum {
      NoSegments(v, dir, elf, phoff, phnum);
    } else {
      var ph := Header(file, phoff, i);
      HeaderFromFile(v.s, runs, dir, tabs, skip, elf, file, phoff + PHDR_SIZE * i);
      SegmentsTurn(v, dir, elf, phoff, phnum, i, ph);
      var v1 := MapSegment(v, dir, elf, ph).0;
      var runs1 := SegmentMeaning(v, runs, dir, tabs, skip, elf, ph, file);
      FileKept(v.s, runs, v1.s, runs1, dir, tabs, skip, elf, file);
      forall j: nat | j < i + 1 ensures Image(v1.s, runs1, dir, tabs, skip, Header(file, phoff, j), file) {
        if j < i { EarlierKept(v.s, runs, v1.s, runs1, dir, tabs, skip, file, phoff, phnum, i, j); }
      }
      runs' := SegmentsMeaning(v1, runs1, dir, tabs, skip, elf, file, phoff, phnum, i + 1);
      DataKeptTrans(v.s, v1.s, MapSegments(v, dir, elf, phoff, phnum, i).0.s, runs, runs1, dir, tabs, skip);
    }
  }

  lemma EarlierKept(s: Machine, runs: Runs, s': Machine, runs': Runs, dir: nat, tabs: Tables, skip: nat,
                    file: seq<Byte>,
                    phoff: nat, phnum: nat, i: nat, j: nat)
    requires Placeable(file, phoff, phnum) && j < i < phnum
    requires Loaded(s, runs, dir, tabs, skip, file, phoff, phnum, i)
    requires DataKept(s, s', runs, dir, tabs, skip) && Extends(runs, runs')
    requires
      var ph := Header(file, phoff, i);
      if Loads(ph) then SegmentMapped(View(s), View(s'), dir, tabs, ph) else s' == s
    requires dir < PAGES
    ensures Image(s', runs', dir, tabs, skip, Header(file, phoff, j), file)
  {
    hide Image, DataKept, SegmentMapped;
    var ph, phj := Header(file, phoff, i), Header(file, phoff, j);
    if Loads(ph) {
      MappedLeaves(View(s), View(s'), dir, tabs, ph);
      ImageKept(s, runs, s', runs', dir, tabs, skip, phj, file, FirstPage(ph), LastPage(ph));
    } else {
      ImageKept(s, runs, s', runs', dir, tabs, skip, phj, file, 0, 0);
    }
  }

  /** The stack block, mapped below STACK_START. */
  ghost predicate StackMapped(s: Machine, dir: nat, stack: Word) {
    dir < PAGES && forall va: Word :: STACK_END <= va < STACK_START ==>
      Translate(View(s), dir, va) == Some(stack + (va - STACK_END))
  }

  /** The stack pages are the user's to read and write, at both levels. */
  ghost predicate StackRights(s: Machine, dir: nat) {
    dir < PAGES && forall p: nat :: STACK_END / PAGE_SIZE <= p < STACK_START / PAGE_SIZE ==>
      EffectiveRights(View(s), dir, p) == Rights(true, true, true)
  }

  lemma StackRightsAfter(w: Ram, s': Machine, dir: nat, tabs: Tables, pfn: nat)
    requires RegionMapped(w, View(s'), dir, tabs, STACK_END / PAGE_SIZE,
                          STACK_START / PAGE_SIZE - STACK_END / PAGE_SIZE, pfn, STACK_FLAGS)
    ensures StackRights(s', dir)
  {
    hide RegionMapped, EffectiveRights, Leaf;
    var lo, n := STACK_END / PAGE_SIZE, STACK_START / PAGE_SIZE - STACK_END / PAGE_SIZE;
    RegionLeaf(w, View(s'), dir, tabs, lo, n, pfn, STACK_FLAGS, lo);
    forall p: nat | lo <= p < lo + n ensures EffectiveRights(View(s'), dir, p) == Rights(true, true, true) {
      RightsAfterMapping(w, View(s'), dir, tabs, lo, n, pfn, STACK_FLAGS, p);
    }
  }

  lemma MapStack(s: Machine, runs: Runs, dir: nat, tabs: Tables, skip: nat, stack: Word)
    requires Tidy(s, runs, dir, tabs) && Full(tabs) && stack % PAGE_SIZE == 0 && stack < KHEAP_SAFE_BOUNDARY
    ensures
      dir < PAGES && var m := MapRegion(s, dir, STACK_END, stack, STACK_START, STACK_FLAGS);
      && m.1 == Ok && Tidy(m.0, runs, dir, tabs) && DataKept(s, m.0, runs, dir, tabs, skip)
      && LeafKept(View(s), View(m.0), dir, STACK_END / PAGE_SIZE, STACK_START / PAGE_SIZE)
      && StackMapped(m.0, dir, stack) && StackRights(m.0, dir)
  {
    hide Tidy, MapRegion, RegionMapped, Leaf, Translate, DataKept, StackRights;
    TidyDir(s, runs, dir, tabs);
    MapRegionMeaning(s, runs, dir, tabs, STACK_END, stack, STACK_START, STACK_FLAGS);
    var s' := MapRegion(s, dir, STACK_END, stack, STACK_START, STACK_FLAGS).0;
    StackRightsAfter(View(s), s', dir, tabs, stack / PAGE_SIZE);
    TableWritesKeepData(s, s', runs, dir, tabs, skip);
    var lo, n := STACK_END / PAGE_SIZE, STACK_START / PAGE_SIZE - STACK_END / PAGE_SIZE;
    forall va: Word | STACK_END <= va < STACK_START
      ensures Translate(View(s'), dir, va) == Some(stack + (va - STACK_END))
    {
      TranslateInRegion(View(s), View(s'), dir, tabs, STACK_END, stack, STACK_START, STACK_FLAGS, va);
    }
    forall p: nat | p < PAGES && !(lo <= p < lo + n) ensures Leaf(View(s'), dir, p) == Leaf(View(s), dir, p) {
      RegionLeaf(View(s), View(s'), dir, tabs, lo, n, stack / PAGE_SIZE, STACK_FLAGS, p);
    }
  }

  /** Loader correctness.  For every placeable file in memory, when
      process_map_elf succeeds the process reads, at every address of every
      loadable segment, the file byte up to p_filesz and zero from there to
      p_memsz, from pages whose entries grant the rights it asks for; and its
      stack block lies below STACK_START, readable and writable. */
  lemma LoaderCorrect(v: Vmem, runs: Runs, dir: nat, tabs: Tables, elf: Word, stack: Word, file: seq<Byte>)
    returns (runs': Runs)
    requires Tidy(v.s, runs, dir, tabs) && Full(tabs) && FileAt(v.s, runs, dir, tabs, BlockOf(stack), elf, file)
    requires dir < PAGES && EHDR_SIZE <= |file| && Placeable(file, PhOffset(file, 0), PhCount(file, 0))
    requires stack % PAGE_SIZE == 0 && stack < KHEAP_SAFE_BOUNDARY
    requires MapElf(v, dir, elf, stack).1 == Ok
    ensures
      var s' := MapElf(v, dir, elf, stack).0.s;
      && Tidy(s', runs', dir, tabs) && Extends(runs, runs') && DataKept(v.s, s', runs, dir, tabs, BlockOf(stack))
      && Loaded(s', runs', dir, tabs, BlockOf(stack), file, PhOffset(file, 0), PhCount(file, 0), PhCount(file, 0))
      && StackMapped(s', dir, stack) && StackRights(s', dir)
  {
    hide Tidy, DataKept, LeafKept, Loaded, MapSegments, MapRegion, Placeable, FileAt, Extends, PhOffset, PhCount,
      StackMapped, StackRights;
    HeaderWords(v.s, runs, dir, tabs, BlockOf(stack), elf, file);
    var phoff, phnum := PhOffset(file, 0), PhCount(file, 0);
    NothingLoaded(v.s, runs, dir, tabs, BlockOf(stack), file, phoff, phnum);
    runs' := SegmentsMeaning(v, runs, dir, tabs, BlockOf(stack), elf, file, phoff, phnum, 0);
    var s1 := MapSegments(v, dir, elf, phoff, phnum, 0).0.s;
    MapStack(s1, runs', dir, tabs, BlockOf(stack), stack);
    var s' := MapElf(v, dir, elf, stack).0.s;
    DataKeptTrans(v.s, s1, s', runs, runs', dir, tabs, BlockOf(stack));
    LoadedKept(s1, s', runs', dir, tabs, BlockOf(stack), file, phoff, phnum);
  }

  lemma HeaderWords(s: Machine, runs: Runs, dir: nat, tabs: Tables, skip: nat, elf: Word, file: seq<Byte>)
    requires FileAt(s, runs, dir, tabs, skip, elf, file) && EHDR_SIZE <= |file|
    ensures elf + EHDR_SIZE <= elf + |file| <= SPACE && PhOffset(s.ram, elf) == PhOffset(file, 0)
    ensures PhCount(s.ram, elf) == PhCount(file, 0)
  {
    WordFromFile(s, runs, dir, tabs, skip, elf, file, 28);
    assert s.ram[elf + 44] == file[44] && s.ram[elf + 45] == file[45];
  }

  lemma NothingLoaded(s: Machine, runs: Runs, dir: nat, tabs: Tables, skip: nat, file: seq<Byte>, phoff: nat,
                      phnum: nat)
    requires Placeable(file, phoff, phnum)
    ensures phoff + PHDR_SIZE * phnum <= |file| && Loaded(s, runs, dir, tabs, skip, file, phoff, phnum, 0)
  {
  }

  /** Mapping the stack keeps the image of every segment. */
  lemma LoadedKept(s: Machine, s': Machine, runs: Runs, dir: nat, tabs: Tables, skip: nat, file: seq<Byte>,
                   phoff: nat, phnum: nat)
    requires Placeable(file, phoff, phnum) && Loaded(s, runs, dir, tabs, skip, file, phoff, phnum, phnum)
    requires LeafKept(View(s), View(s'), dir, STACK_END / PAGE_SIZE, STACK_START / PAGE_SIZE)
    requires DataKept(s, s', runs, dir, tabs, skip)
    ensures Loaded(s', runs, dir, tabs, skip, file, phoff, phnum, phnum)
  {
    hide Image, LeafKept, DataKept, SegmentOk;
    forall j: nat | j < phnum ensures Image(s', runs, dir, tabs, skip, Header(file, phoff, j), file) {
      SegmentBounds(Header(file, phoff, j), |file|);
      ImageKept(s, runs, s', runs, dir, tabs, skip, Header(file, phoff, j), file, STACK_END / PAGE_SIZE,
                STACK_START / PAGE_SIZE);
    }
  }

  lemma SegmentBounds(ph: Phdr, fileLen: nat)
    requires SegmentOk(ph, fileLen)
    ensures Loads(ph) ==> ph.vaddr + ph.memsz < SPACE
  {
  }

  // ----------------------------------------------------------- when it loads

  /** A segment with a zero tail. */
  predicate NeedsCopy(ph: Phdr) { Loads(ph) && ph.filesz < ph.memsz }

  /** From header `i` on, every copy finds its blocks in the block table, first
      fit, with the copies before it taken. */
  predicate CopiesFit(t: Table, file: seq<Byte>, phoff: nat, phnum: nat, i: nat)
    requires phoff + PHDR_SIZE * phnum <= |file| && i <= phnum
    decreases phnum - i
  {
    if i == phnum then true
    else
      var ph := Header(file, phoff, i);
      if !NeedsCopy(ph) then CopiesFit(t, file, phoff, phnum, i + 1)
      else
        var n := NumBlocks(ph.memsz);
        ScanMeaning(t, n);
        match Scan(t, n, 0)
        case Found(k) => CopiesFit(Marked(t, k, Need(n)), file, phoff, phnum, i + 1)
        case _ => false
  }

  lemma CopiesTurn(t: Table, file: seq<Byte>, phoff: nat, phnum: nat, i: nat)
    requires phoff + PHDR_SIZE * phnum <= |file| && i < phnum
    ensures
      var ph := Header(file, phoff, i);
      var n := NumBlocks(ph.memsz);
      var scan := Scan(t, n, 0);
      CopiesFit(t, file, phoff, phnum, i) <==>
      if !NeedsCopy(ph) then CopiesFit(t, file, phoff, phnum, i + 1)
      else
        && scan.Found? && scan.at + Need(n) <= |t|
        && CopiesFit(Marked(t, scan.at, Need(n)), file, phoff, phnum, i + 1)
  {
    hide Scan, Marked, NumBlocks, NeedsCopy, Header;
    ScanMeaning(t, NumBlocks(Header(file, phoff, i).memsz));
  }

  lemma NoCopies(t: Table, file: seq<Byte>, phoff: nat, phnum: nat)
    requires phoff + PHDR_SIZE * phnum <= |file|
    ensures CopiesFit(t, file, phoff, phnum, phnum)
  {
  }

  /** Where a segment comes from, and what it takes of the heap. */
  lemma SourceOutcome(v: Vmem, elf: Word, ph: Phdr, fileLen: nat)
    requires SegmentOk(ph, fileLen) && Loads(ph)
    ensures
      var src, n := SegmentSource(v, elf, ph), NumBlocks(ph.memsz);
      var scan := Scan(v.s.table, n, 0);
      && (src.status == Ok <==> NeedsCopy(ph) ==> scan.Found?)
      && (src.status == Ok ==>
            if !NeedsCopy(ph) then src.v.s.table == v.s.table
            else scan.at + Need(n) <= |v.s.table| && src.v.s.table == Marked(v.s.table, scan.at, Need(n)))
  {
    hide Copied, Zeroed, Marked, Scan, NumBlocks;
    ScanMeaning(v.s.table, NumBlocks(ph.memsz));
  }

  lemma SegmentOutcome(v: Vmem, runs: Runs, dir: nat, tabs: Tables, skip: nat, elf: Word, ph: Phdr, file: seq<Byte>)
    requires Tidy(v.s, runs, dir, tabs) && Full(tabs) && FileAt(v.s, runs, dir, tabs, skip, elf, file)
    requires dir < PAGES && SegmentOk(ph, |file|)
    ensures
      var r, n := MapSegment(v, dir, elf, ph), NumBlocks(ph.memsz);
      var scan := Scan(v.s.table, n, 0);
      && (r.1 == Ok <==> NeedsCopy(ph) ==> scan.Found?)
      && (r.1 == Ok ==>
            if !NeedsCopy(ph) then r.0.s.table == v.s.table
            else scan.at + Need(n) <= |v.s.table| && r.0.s.table == Marked(v.s.table, scan.at, Need(n)))
  {
    hide Tidy, SegmentSource, MapRegion, Backed, Image, FileAt, RegionMapped, Scan, Marked, NumBlocks, LeafKept,
      DataKept, MapSegment, SegmentOk, DownAlign, UpAlign;
    SegmentUnfolds(v, dir, elf, ph, |file|);
    if Loads(ph) {
      SourceOutcome(v, elf, ph, |file|);
      var src := SegmentSource(v, elf, ph);
      if src.status == Ok {
        var runs' := SourceMeaning(v, runs, dir, tabs, skip, elf, ph, file);
        MapBacked(src.v.s, runs', dir, tabs, skip, ph, file, src.pa);
      }
    }
  }

  lemma {:induction false} SegmentsOutcome(v: Vmem, runs: Runs, dir: nat, tabs: Tables, skip: nat, elf: Word,
                                           file: seq<Byte>, phoff: nat, phnum: nat, i: nat)
    requires Tidy(v.s, runs, dir, tabs) && Full(tabs) && FileAt(v.s, runs, dir, tabs, skip, elf, file)
    requires dir < PAGES && Placeable(file, phoff, phnum) && i <= phnum && elf + phoff + PHDR_SIZE * phnum <= SPACE
    ensures MapSegments(v, dir, elf, phoff, phnum, i).1 == Ok <==> CopiesFit(v.s.table, file, phoff, phnum, i)
    decreases phnum - i
  {
    hide Tidy, FileAt, MapSegment, MapSegments, CopiesFit, Image, DataKept, SegmentMapped, Scan, Marked, NumBlocks,
      NeedsCopy, SegmentOk;
    if i == phnum {
      NoSegments(v, dir, elf, phoff, phnum);
      NoCopies(v.s.table, file, phoff, phnum);
    } else {
      var ph := Header(file, phoff, i);
      HeaderFromFile(v.s, runs, dir, tabs, skip, elf, file, phoff + PHDR_SIZE * i);
      SegmentsTurn(v, dir, elf, phoff, phnum, i, ph);
      CopiesTurn(v.s.table, file, phoff, phnum, i);
      SegmentOutcome(v, runs, dir, tabs, skip, elf, ph, file);
      if MapSegment(v, dir, elf, ph).1 == Ok {
        var v1 := MapSegment(v, dir, elf, ph).0;
        var runs1 := SegmentMeaning(v, runs, dir, tabs, skip, elf, ph, file);
        FileKept(v.s, runs, v1.s, runs1, dir, tabs, skip, elf, file);
        SegmentsOutcome(v1, runs1, dir, tabs, skip, elf, file, phoff, phnum, i + 1);
      }
    }
  }

  /** process_map_elf loads a placeable file exactly when every zero-tailed
      segment finds the blocks for its copy. */
  lemma LoaderSucceeds(v: Vmem, runs: Runs, dir: nat, tabs: Tables, elf: Word, stack: Word, file: seq<Byte>)
    requires Tidy(v.s, runs, dir, tabs) && Full(tabs) && FileAt(v.s, runs, dir, tabs, BlockOf(stack), elf, file)
    requires dir < PAGES && EHDR_SIZE <= |file| && Placeable(file, PhOffset(file, 0), PhCount(file, 0))
    requires stack % PAGE_SIZE == 0 && stack < KHEAP_SAFE_BOUNDARY
    ensures MapElf(v, dir, elf, stack).1 == Ok <==>
            CopiesFit(v.s.table, file, PhOffset(file, 0), PhCount(file, 0), 0)
  {
    hide Tidy, DataKept, Loaded, MapSegments, MapRegion, Placeable, FileAt, PhOffset, PhCount, StackMapped, StackRights,
      CopiesFit;
    var skip, phoff, phnum := BlockOf(stack), PhOffset(file, 0), PhCount(file, 0);
    HeaderWords(v.s, runs, dir, tabs, skip, elf, file);
    NothingLoaded(v.s, runs, dir, tabs, skip, file, phoff, phnum);
    SegmentsOutcome(v, runs, dir, tabs, skip, elf, file, phoff, phnum, 0);
    if MapSegments(v, dir, elf, phoff, phnum, 0).1 == Ok {
      var runs' := SegmentsMeaning(v, runs, dir, tabs, skip, elf, file, phoff, phnum, 0);
      MapStack(MapSegments(v, dir, elf, phoff, phnum, 0).0.s, runs', dir, tabs, skip, stack);
    }
  }

  /** Why the alignment conditions: in a mapped segment the byte at `va` is at
      its place in the file exactly when p_vaddr and p_offset agree modulo the
      page size, and at its place in a zeroed copy exactly when p_vaddr is
      page aligned. */
  lemma PlacementExact(w: Ram, w': Ram, dir: nat, tabs: Tables, elf: Word, ph: Phdr, pa: Word, va: Word)
    requires Loads(ph) && ph.vaddr + ph.memsz <= 0xffff_f000 && ph.vaddr <= va < ph.vaddr + ph.memsz
    requires pa % PAGE_SIZE == 0 && elf % PAGE_SIZE == 0 && elf + ph.offset < SPACE
    requires pa + (UpAlign(ph.vaddr + ph.memsz) - DownAlign(ph.vaddr)) <= SPACE
    requires RegionMapped(w, w', dir, tabs, DownAlign(ph.vaddr) / PAGE_SIZE,
                          UpAlign(ph.vaddr + ph.memsz) / PAGE_SIZE - DownAlign(ph.vaddr) / PAGE_SIZE,
                          pa / PAGE_SIZE, SegmentFlags(ph))
    ensures dir < PAGES
    ensures pa == DownAlign(elf + ph.offset) ==>
              (Translate(w', dir, va) == Some(elf + ph.offset + (va - ph.vaddr))
               <==> ph.vaddr % PAGE_SIZE == ph.offset % PAGE_SIZE)
    ensures Translate(w', dir, va) == Some(pa + (va - ph.vaddr)) <==> ph.vaddr % PAGE_SIZE == 0
  {
    hide RegionMapped, Translate, DownAlign, UpAlign;
    UpOfDown(ph.vaddr, ph.memsz);
    RegionLeaf(w, w', dir, tabs, DownAlign(ph.vaddr) / PAGE_SIZE,
               UpAlign(ph.vaddr + ph.memsz) / PAGE_SIZE - DownAlign(ph.vaddr) / PAGE_SIZE,
               pa / PAGE_SIZE, SegmentFlags(ph), 0);
    TranslateInRegion(w, w', dir, tabs, DownAlign(ph.vaddr), pa, UpAlign(ph.vaddr + ph.memsz), SegmentFlags(ph), va);
    PlacedInFile(elf, ph.offset, ph.vaddr);
    DownOf(ph.vaddr);
  }

  lemma DownOf(a: Word)
    ensures DownAlign(a) == a - a % PAGE_SIZE
  {
  }

  lemma UpOfDown(vaddr: Word, memsz: Word)
    requires memsz > 0 && vaddr + memsz <= 0xffff_f000
    ensures DownAlign(vaddr) < UpAlign(vaddr + memsz)
  {
  }

  lemma PlacedInFile(elf: Word, offset: Word, vaddr: Word)
    requires elf % PAGE_SIZE == 0 && elf + offset < SPACE
    ensures DownAlign(elf + offset) - DownAlign(vaddr) == elf + offset - vaddr
            <==> vaddr % PAGE_SIZE == offset % PAGE_SIZE
  {
    assert (elf + offset) % PAGE_SIZE == offset % PAGE_SIZE;
  }
}
