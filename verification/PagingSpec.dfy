/** What the calls of src/memory/paging/paging.c do to the machine, and what
    they mean for the flat page map and for the heap. */
module PagingSpec {
  import opened Memory
  import opened HeapTable
  import opened MachineState
  import opened PageWalk
  import opened Status

  /** Frame number of heap block 0. */
  const HEAP_FRAME: nat := 0x1000

  /** The heap block that a frame is. */
  function HeapBlock(frame: nat): nat {
    if frame < HEAP_FRAME then 0 else frame - HEAP_FRAME
  }

  /** Every frame is a live one-block allocation of the heap. */
  ghost predicate Owned(runs: Runs, frames: set<nat>) {
    forall f :: f in frames ==>
      HEAP_FRAME <= f && HeapBlock(f) in runs && runs[HeapBlock(f)] == 1
  }

  ghost function View(s: Machine): Ram { Pages(s.ram) }

  /** One address space in order: a table for each present slot, each in a
      heap block of its own. */
  ghost predicate Tidy(s: Machine, runs: Runs, dir: nat, tabs: Tables) {
    && Represents(s.table, runs)
    && Shape(View(s), dir, tabs)
    && Owned(runs, Frames(dir, tabs))
  }

  ghost function GetEntry(s: Machine, frame: nat, i: nat): Word
    requires frame < PAGES && i < ENTRIES
  {
    View(s)[frame][i]
  }

  ghost function PutEntry(s: Machine, frame: nat, i: nat, w: Word): (s': Machine)
    requires frame < PAGES && i < ENTRIES
    ensures View(s') == View(s)[frame := View(s)[frame][i := w]]
    ensures SameElsewhere(s.ram, s'.ram, {frame}) && s'.table == s.table
  {
    PagesPut(s.ram, frame, i, w);
    s.(ram := PutWord(s.ram, frame * PAGE_SIZE + 4 * i, w))
  }

  // ------------------------------------------------------------- one page

  datatype Mapping = Mapping(s: Machine, ok: bool)

  /** paging_new_vpn_to_pfn with overwrite = true. */
  ghost function MapOne(s: Machine, dir: nat, vpn: nat, pfn: nat, flags: Byte): Mapping
    requires dir < PAGES && vpn < PAGES
  {
    var pte := GetEntry(s, dir, Slot(vpn));
    if Present(pte) then
      Mapping(Link(s, dir, Frame(pte), vpn, pfn, flags), true)
    else
      var r := Kzalloc(s, PAGE_SIZE);
      if r.ptr == 0 then Mapping(r.s, false)
      else Mapping(Link(r.s, dir, FrameOf(r.ptr), vpn, pfn, flags), true)
  }

  function FrameOf(addr: nat): nat { addr / PAGE_SIZE % PAGES }

  /** Write the entry of the page, then the directory entry of its slot. */
  ghost function Link(s: Machine, dir: nat, tab: nat, vpn: nat, pfn: nat, flags: Byte): Machine
    requires dir < PAGES && tab < PAGES && vpn < PAGES
  {
    PutEntry(PutEntry(s, tab, Index(vpn), Pte(pfn, flags)), dir, Slot(vpn), Pte(tab, flags))
  }

  /** kzalloc of one page, in terms of pages. */
  lemma NewPage(s: Machine, runs: Runs) returns (runs': Runs)
    requires Represents(s.table, runs)
    ensures
      var r := Kzalloc(s, PAGE_SIZE);
      && Represents(r.s.table, runs')
      && (r.ptr == 0 <==> !FitExists(s.table, 1))
      && (r.ptr == 0 ==>
            && runs' == runs && r.s.table == s.table && SameElsewhere(s.ram, r.s.ram, {0})
            && (forall f: nat :: 0 < f < PAGES ==> View(r.s)[f] == View(s)[f]))
      && (r.ptr != 0 ==>
            var f := FrameOf(r.ptr);
            && HEAP_FRAME <= f && r.ptr == f * PAGE_SIZE
            && HeapBlock(f) !in runs && runs' == runs[HeapBlock(f) := 1]
            && SameElsewhere(s.ram, r.s.ram, {f})
            && (forall f': nat :: f' < PAGES && f' != f ==> View(r.s)[f'] == View(s)[f'])
            && (forall i :: 0 <= i < ENTRIES ==> View(r.s)[f][i] == 0))
  {
    assert NumBlocks(PAGE_SIZE) == 1;
    runs' := KmallocMeaning(s, runs, PAGE_SIZE);
    var r := Kzalloc(s, PAGE_SIZE);
    if r.ptr != 0 {
      FrameOfBlock(BlockOf(r.ptr));
      ZeroedPage(s.ram, FrameOf(r.ptr));
    } else {
      ZeroedPage(s.ram, 0);
    }
  }

  /** The frames a call may write: those of the tables, and, when a table could
      not be had, the first page of memory. */
  ghost function Written(dir: nat, tabs: Tables, ok: bool): set<nat> {
    Frames(dir, tabs) + if ok then {} else {0}
  }

  /** Writes to low memory move no page. */
  lemma LowWritesKeepTables(s: Machine, s': Machine, runs: Runs, dir: nat, tabs: Tables)
    requires Tidy(s, runs, dir, tabs) && s'.table == s.table
    requires forall f: nat :: HEAP_FRAME <= f < PAGES ==> View(s')[f] == View(s)[f]
    ensures Tidy(s', runs, dir, tabs) && View(s')[dir] == View(s)[dir]
    ensures forall v: nat :: v < PAGES ==> Leaf(View(s'), dir, v) == Leaf(View(s), dir, v)
  {
    hide Leaf;
    UntouchedTables(View(s), View(s'), dir, tabs);
  }

  lemma FrameOfBlock(b: nat)
    requires AddrOf(b) < SPACE
    ensures FrameOf(AddrOf(b)) == HEAP_FRAME + b && HeapBlock(HEAP_FRAME + b) == b
    ensures (HEAP_FRAME + b) * PAGE_SIZE == AddrOf(b)
  {
  }

  lemma ZeroedPage(m: seq<Byte>, f: nat)
    requires |m| == SPACE && f < PAGES
    ensures
      var m' := Zeroed(m, f * PAGE_SIZE, PAGE_SIZE);
      && SameElsewhere(m, m', {f})
      && (forall f': nat :: f' < PAGES && f' != f ==> Pages(m')[f'] == Pages(m)[f'])
      && (forall i :: 0 <= i < ENTRIES ==> Pages(m')[f][i] == 0)
  {
    hide Zeroed, SameElsewhere, SameOutside, Pages;
    var m' := Zeroed(m, f * PAGE_SIZE, PAGE_SIZE);
    PageWrittenOnly(m, m', f);
    PagesElsewhere(m, m', {f});
    forall i | 0 <= i < ENTRIES ensures Pages(m')[f][i] == 0 {
      ZeroWord(m', f, i);
      assert PageWord(m', f, i) == 0;
    }
  }

  lemma PageWrittenOnly(m: seq<Byte>, m': seq<Byte>, f: nat)
    requires SameOutside(m, m', f * PAGE_SIZE, f * PAGE_SIZE + PAGE_SIZE)
    ensures SameElsewhere(m, m', {f})
  {
    forall a | 0 <= a < |m| && a / PAGE_SIZE !in {f} ensures m'[a] == m[a] {
      assert a / PAGE_SIZE != f;
    }
  }

  lemma ZeroWord(m: seq<Byte>, f: nat, i: nat)
    requires (f + 1) * PAGE_SIZE <= |m| && i < ENTRIES
    requires forall k :: f * PAGE_SIZE <= k < f * PAGE_SIZE + PAGE_SIZE ==> m[k] == 0
    ensures PageWord(m, f, i) == 0
  {
  }

  /** Tables and allocations only grow, and new tables are new allocations. */
  ghost predicate TablesGrew(tabs: Tables, runs: Runs, tabs': Tables, runs': Runs) {
    && (forall k :: k in tabs ==> k in tabs' && tabs'[k] == tabs[k])
    && (forall k :: k in tabs' && k !in tabs ==> HeapBlock(tabs'[k]) !in runs)
    && (forall b :: b in runs ==> b in runs' && runs'[b] == runs[b])
  }

  lemma OwnedGrows(runs: Runs, dir: nat, tabs: Tables, d: nat, tab: nat)
    requires Owned(runs, Frames(dir, tabs)) && d !in tabs
    requires HEAP_FRAME <= tab && HeapBlock(tab) !in runs
    ensures tab !in Frames(dir, tabs)
    ensures Owned(runs[HeapBlock(tab) := 1], Frames(dir, tabs[d := tab]))
    ensures TablesGrew(tabs, runs, tabs[d := tab], runs[HeapBlock(tab) := 1])
  {
    var tabs' := tabs[d := tab];
    forall f | f in Frames(dir, tabs') ensures f == tab || f in Frames(dir, tabs) {
      if f != dir {
        var k :| k in tabs' && tabs'[k] == f;
        assert k != d ==> k in tabs && tabs[k] == f;
      }
    }
    assert forall k :: k in tabs' && k !in tabs ==> k == d;
  }

  lemma LinkView(s: Machine, dir: nat, tab: nat, vpn: nat, pfn: nat, flags: Byte)
    requires dir < PAGES && tab < PAGES && vpn < PAGES
    ensures
      var w1 := View(s)[tab := View(s)[tab][Index(vpn) := Pte(pfn, flags)]];
      View(Link(s, dir, tab, vpn, pfn, flags)) == w1[dir := w1[dir][Slot(vpn) := Pte(tab, flags)]]
    ensures SameElsewhere(s.ram, Link(s, dir, tab, vpn, pfn, flags).ram, {tab, dir})
  {
    var s1 := PutEntry(s, tab, Index(vpn), Pte(pfn, flags));
    SameElsewhereTrans(s.ram, s1.ram, Link(s, dir, tab, vpn, pfn, flags).ram, {tab}, {dir}, {tab, dir});
  }

  lemma MapOneMeaning(s: Machine, runs: Runs, dir: nat, tabs: Tables, vpn: nat, pfn: nat, flags: Byte)
    returns (runs': Runs, tabs': Tables)
    requires Tidy(s, runs, dir, tabs) && vpn < PAGES && Present(flags)
    ensures
      var r := MapOne(s, dir, vpn, pfn, flags);
      && Tidy(r.s, runs', dir, tabs')
      && TablesGrew(tabs, runs, tabs', runs')
      && SameElsewhere(s.ram, r.s.ram, Written(dir, tabs', r.ok))
      && (r.ok ==> PageMapped(View(s), View(r.s), dir, tabs', vpn, pfn, flags))
      && (!r.ok ==>
            && r.s.table == s.table && runs' == runs && tabs' == tabs && !FitExists(s.table, 1) && Slot(vpn) !in tabs
            && RegionMapped(View(s), View(r.s), dir, tabs, vpn, 0, pfn, flags))
      && (Slot(vpn) in tabs ==> r.ok && tabs' == tabs && runs' == runs && r.s.table == s.table)
  {
    runs', tabs' := runs, tabs;
    var pte := GetEntry(s, dir, Slot(vpn));
    if Present(pte) {
      LinkView(s, dir, Frame(pte), vpn, pfn, flags);
      MapInPresentSlot(View(s), dir, tabs, vpn, pfn, flags);
    } else {
      runs' := NewPage(s, runs);
      var r := Kzalloc(s, PAGE_SIZE);
      if r.ptr != 0 {
        var tab := FrameOf(r.ptr);
        tabs' := tabs[Slot(vpn) := tab];
        OwnedGrows(runs, dir, tabs, Slot(vpn), tab);
        LinkView(r.s, dir, tab, vpn, pfn, flags);
        MapInAbsentSlot(View(s), View(r.s), dir, tabs, tab, vpn, pfn, flags);
        SameElsewhereTrans(s.ram, r.s.ram, Link(r.s, dir, tab, vpn, pfn, flags).ram,
                           {tab}, {tab, dir}, Frames(dir, tabs'));
      } else {
        LowWritesKeepTables(s, r.s, runs, dir, tabs);
      }
    }
  }

  // -------------------------------------------------------------- regions

  /** paging_down_align_addr */
  function DownAlign(a: Word): (r: Word)
    ensures r % PAGE_SIZE == 0 && r <= a < r + PAGE_SIZE
  {
    a - a % PAGE_SIZE
  }

  /** paging_up_align_addr, in 32 bits */
  function UpAlign(a: Word): (r: Word)
    ensures r % PAGE_SIZE == 0
    ensures a <= 0xffff_f000 ==> r - PAGE_SIZE < a <= r
    ensures a > 0xffff_f000 ==> r == 0
  {
    if a % PAGE_SIZE != 0 then (a + (PAGE_SIZE - a % PAGE_SIZE)) % SPACE else a
  }

  /** The loop of paging_map_memory_region: `n` pages from `lo`. */
  ghost function MapMany(s: Machine, dir: nat, lo: nat, n: nat, pfn: nat, flags: Byte): Mapping
    requires dir < PAGES && lo + n <= PAGES
    decreases n
  {
    if n == 0 then Mapping(s, true)
    else
      var r := MapOne(s, dir, lo, pfn, flags);
      if r.ok then MapMany(r.s, dir, lo + 1, n - 1, pfn + 1, flags) else r
  }

  /** The arguments paging_map_memory_region accepts. */
  predicate RegionOk(vaStart: Word, paddr: Word, vaEnd: Word) {
    && vaStart % PAGE_SIZE == 0 && paddr % PAGE_SIZE == 0 && vaEnd % PAGE_SIZE == 0
    && vaStart < vaEnd
  }

  /** paging_map_memory_region */
  ghost function MapRegion(s: Machine, dir: nat, vaStart: Word, paddr: Word, vaEnd: Word, flags: Byte)
    : (Machine, Status)
    requires dir < PAGES
  {
    if !RegionOk(vaStart, paddr, vaEnd) then (s, InvalidArg)
    else
      var r := MapMany(s, dir, vaStart / PAGE_SIZE, vaEnd / PAGE_SIZE - vaStart / PAGE_SIZE,
                       paddr / PAGE_SIZE, flags);
      (r.s, if r.ok then Ok else NotEnoughMem)
  }

  lemma JoinMapped(s: Machine, s1: Machine, s2: Machine, runs: Runs, runs1: Runs, runs2: Runs,
                   dir: nat, tabs: Tables, tabs1: Tables, tabs2: Tables, lo: nat, n: nat, pfn: nat, flags: Byte,
                   ok: bool)
    requires PageMapped(View(s), View(s1), dir, tabs1, lo, pfn, flags)
    requires RegionMapped(View(s1), View(s2), dir, tabs2, lo + 1, n, pfn + 1, flags)
    requires TablesGrew(tabs, runs, tabs1, runs1) && TablesGrew(tabs1, runs1, tabs2, runs2)
    requires SameElsewhere(s.ram, s1.ram, Written(dir, tabs1, true))
    requires SameElsewhere(s1.ram, s2.ram, Written(dir, tabs2, ok))
    ensures RegionMapped(View(s), View(s2), dir, tabs2, lo, n + 1, pfn, flags)
    ensures TablesGrew(tabs, runs, tabs2, runs2)
    ensures SameElsewhere(s.ram, s2.ram, Written(dir, tabs2, ok))
  {
    RegionStep(View(s), View(s1), View(s2), dir, tabs1, tabs2, lo, n, pfn, flags);
    assert Frames(dir, tabs1) <= Frames(dir, tabs2);
    SameElsewhereTrans(s.ram, s1.ram, s2.ram, Written(dir, tabs1, true), Written(dir, tabs2, ok),
                       Written(dir, tabs2, ok));
  }

  /** What a mapping loop comes to: the pages below `stop` are mapped, all of them
      unless the slot of `stop` has no table and no block is left for one.  With
      every table there it takes no block. */
  ghost predicate MappedUpTo(s: Machine, r: Mapping, runs: Runs, runs': Runs, dir: nat, tabs: Tables, tabs': Tables,
                             lo: nat, n: nat, pfn: nat, flags: Byte, stop: nat) {
    && lo <= stop <= lo + n && (r.ok <==> stop == lo + n)
    && Tidy(r.s, runs', dir, tabs')
    && RegionMapped(View(s), View(r.s), dir, tabs', lo, stop - lo, pfn, flags)
    && SameElsewhere(s.ram, r.s.ram, Written(dir, tabs', r.ok))
    && TablesGrew(tabs, runs, tabs', runs')
    && (!r.ok ==> !FitExists(r.s.table, 1) && Slot(stop) !in tabs')
    && (Full(tabs) ==> r.ok && tabs' == tabs && runs' == runs && r.s.table == s.table)
  }

  lemma NoneMapped(s: Machine, runs: Runs, dir: nat, tabs: Tables, lo: nat, pfn: nat, flags: Byte)
    requires Tidy(s, runs, dir, tabs) && lo <= PAGES
    ensures MappedUpTo(s, Mapping(s, true), runs, runs, dir, tabs, tabs, lo, 0, pfn, flags, lo)
  {
    NothingMapped(s, runs, dir, tabs, lo, pfn, flags);
  }

  /** No table for the first page: nothing is mapped. */
  lemma FirstRefused(s: Machine, runs: Runs, dir: nat, tabs: Tables, lo: nat, n: nat, pfn: nat, flags: Byte)
    requires Tidy(s, runs, dir, tabs) && 0 < n && lo + n <= PAGES && Present(flags)
    requires dir < PAGES && !MapOne(s, dir, lo, pfn, flags).ok
    ensures MappedUpTo(s, MapOne(s, dir, lo, pfn, flags), runs, runs, dir, tabs, tabs, lo, n, pfn, flags, lo)
  {
    hide MapOne, Tidy, RegionMapped, PageMapped, SameElsewhere, FitExists, Written;
    NothingMapped(s, runs, dir, tabs, lo, pfn, flags);
    var runs', tabs' := MapOneMeaning(s, runs, dir, tabs, lo, pfn, flags);
  }

  lemma OneMoreMapped(s: Machine, r: Mapping, r': Mapping, runs: Runs, runs1: Runs, runs': Runs, dir: nat,
                      tabs: Tables, tabs1: Tables, tabs': Tables, lo: nat, n: nat, pfn: nat, flags: Byte, stop: nat)
    requires Tidy(s, runs, dir, tabs) && lo + n < PAGES && r.ok
    requires PageMapped(View(s), View(r.s), dir, tabs1, lo, pfn, flags) && TablesGrew(tabs, runs, tabs1, runs1)
    requires SameElsewhere(s.ram, r.s.ram, Written(dir, tabs1, true))
    requires Slot(lo) in tabs ==> tabs1 == tabs && runs1 == runs && r.s.table == s.table
    requires MappedUpTo(r.s, r', runs1, runs', dir, tabs1, tabs', lo + 1, n, pfn + 1, flags, stop)
    ensures MappedUpTo(s, r', runs, runs', dir, tabs, tabs', lo, n + 1, pfn, flags, stop)
  {
    hide Tidy, RegionMapped, PageMapped, SameElsewhere, FitExists, Written, TablesGrew, Full;
    NothingMapped(s, runs, dir, tabs, lo, pfn, flags);
    JoinMapped(s, r.s, r'.s, runs, runs1, runs', dir, tabs, tabs1, tabs', lo, stop - (lo + 1), pfn, flags, r'.ok);
  }

  lemma {:induction false} MapManyMeaning(s: Machine, runs: Runs, dir: nat, tabs: Tables,
                                          lo: nat, n: nat, pfn: nat, flags: Byte)
    returns (runs': Runs, tabs': Tables, stop: nat)
    requires Tidy(s, runs, dir, tabs) && lo + n <= PAGES && Present(flags) && dir < PAGES
    ensures MappedUpTo(s, MapMany(s, dir, lo, n, pfn, flags), runs, runs', dir, tabs, tabs', lo, n, pfn, flags, stop)
    decreases n
  {
    hide MapOne, Tidy, RegionMapped, PageMapped, SameElsewhere, TablesGrew, Written, FitExists, MappedUpTo;
    runs', tabs', stop := runs, tabs, lo;
    if n == 0 {
      NoneMapped(s, runs, dir, tabs, lo, pfn, flags);
    } else {
      var r := MapOne(s, dir, lo, pfn, flags);
      var runs1, tabs1 := MapOneMeaning(s, runs, dir, tabs, lo, pfn, flags);
      if r.ok {
        runs', tabs', stop := MapManyMeaning(r.s, runs1, dir, tabs1, lo + 1, n - 1, pfn + 1, flags);
        var r' := MapMany(r.s, dir, lo + 1, n - 1, pfn + 1, flags);
        OneMoreMapped(s, r, r', runs, runs1, runs', dir, tabs, tabs1, tabs', lo, n - 1, pfn, flags, stop);
      } else {
        FirstRefused(s, runs, dir, tabs, lo, n, pfn, flags);
      }
    }
  }

  lemma NothingMapped(s: Machine, runs: Runs, dir: nat, tabs: Tables, lo: nat, pfn: nat, flags: Byte)
    requires Tidy(s, runs, dir, tabs) && lo <= PAGES
    ensures dir < PAGES
    ensures RegionMapped(View(s), View(s), dir, tabs, lo, 0, pfn, flags)
    ensures SameElsewhere(s.ram, s.ram, Written(dir, tabs, true))
    ensures TablesGrew(tabs, runs, tabs, runs)
    ensures lo < PAGES && Full(tabs) ==> Slot(lo) in tabs
  {
  }

  /** paging_free_vpn */
  ghost function FreeOne(s: Machine, dir: nat, vpn: nat): Machine
    requires dir < PAGES && vpn < PAGES
  {
    var pte := GetEntry(s, dir, Slot(vpn));
    if !Present(pte) || !Present(GetEntry(s, Frame(pte), Index(vpn))) then s
    else PutEntry(s, Frame(pte), Index(vpn), 0)
  }

  ghost function FreeMany(s: Machine, dir: nat, lo: nat, n: nat): Machine
    requires dir < PAGES && lo + n <= PAGES
    decreases n
  {
    if n == 0 then s else FreeMany(FreeOne(s, dir, lo), dir, lo + 1, n - 1)
  }

  /** paging_free_va: whole pages around `[vaStart, vaEnd)`. */
  ghost function FreeVa(s: Machine, dir: nat, vaStart: Word, vaEnd: Word): (Machine, Status)
    requires dir < PAGES
  {
    if vaEnd < vaStart then (s, InvalidArg)
    else
      var lo, hi := vaStart / PAGE_SIZE, PagesUpTo(vaEnd);
      (FreeMany(s, dir, lo, hi - lo), Ok)
  }

  function PagesUpTo(va: Word): nat {
    va / PAGE_SIZE + if va % PAGE_SIZE != 0 then 1 else 0
  }

  lemma FreeOneMeaning(s: Machine, runs: Runs, dir: nat, tabs: Tables, vpn: nat)
    requires Tidy(s, runs, dir, tabs) && vpn < PAGES
    ensures
      var s' := FreeOne(s, dir, vpn);
      && Tidy(s', runs, dir, tabs) && s'.table == s.table
      && RegionFreed(View(s), View(s'), dir, tabs, vpn, 1)
      && SameElsewhere(s.ram, s'.ram, Frames(dir, tabs))
  {
    LeafIs(View(s), dir, tabs, vpn);
    var pte := GetEntry(s, dir, Slot(vpn));
    if Present(pte) {
        if Present(GetEntry(s, Frame(pte), Index(vpn))) {
        SetLeaf(View(s), dir, tabs, vpn, 0);
      }
    }
  }

  lemma {:induction false} FreeManyMeaning(s: Machine, runs: Runs, dir: nat, tabs: Tables, lo: nat, n: nat)
    requires Tidy(s, runs, dir, tabs) && lo + n <= PAGES
    ensures
      var s' := FreeMany(s, dir, lo, n);
      && Tidy(s', runs, dir, tabs) && s'.table == s.table
      && RegionFreed(View(s), View(s'), dir, tabs, lo, n)
      && SameElsewhere(s.ram, s'.ram, Frames(dir, tabs))
    decreases n
  {
    if n > 0 {
      var s1 := FreeOne(s, dir, lo);
      FreeOneMeaning(s, runs, dir, tabs, lo);
      FreeManyMeaning(s1, runs, dir, tabs, lo + 1, n - 1);
      var s' := FreeMany(s1, dir, lo + 1, n - 1);
      FreedStep(View(s), View(s1), View(s'), dir, tabs, lo, n - 1);
    }
  }

  lemma TidyDir(s: Machine, runs: Runs, dir: nat, tabs: Tables)
    requires Tidy(s, runs, dir, tabs)
    ensures dir < PAGES && SameElsewhere(s.ram, s.ram, Frames(dir, tabs))
  {
  }

  /** paging_map_memory_region on tables that are all there: it takes no block. */
  lemma MapRegionMeaning(s: Machine, runs: Runs, dir: nat, tabs: Tables,
                         vaStart: Word, paddr: Word, vaEnd: Word, flags: Byte)
    requires Tidy(s, runs, dir, tabs) && Full(tabs) && Present(flags) && RegionOk(vaStart, paddr, vaEnd)
    ensures
      var r := MapRegion(s, dir, vaStart, paddr, vaEnd, flags);
      && r.1 == Ok && r.0.table == s.table && Tidy(r.0, runs, dir, tabs)
      && RegionMapped(View(s), View(r.0), dir, tabs, vaStart / PAGE_SIZE,
                      vaEnd / PAGE_SIZE - vaStart / PAGE_SIZE, paddr / PAGE_SIZE, flags)
      && SameElsewhere(s.ram, r.0.ram, Frames(dir, tabs))
  {
    hide Tidy, MapMany, RegionMapped, SameElsewhere, Frames, TablesGrew, FitExists;
    assert Written(dir, tabs, true) == Frames(dir, tabs);
    TidyDir(s, runs, dir, tabs);
    var runs', tabs', stop := MapManyMeaning(s, runs, dir, tabs, vaStart / PAGE_SIZE,
                                             vaEnd / PAGE_SIZE - vaStart / PAGE_SIZE, paddr / PAGE_SIZE, flags);
  }

  lemma FreeVaMeaning(s: Machine, runs: Runs, dir: nat, tabs: Tables, vaStart: Word, vaEnd: Word)
    requires Tidy(s, runs, dir, tabs) && vaStart <= vaEnd
    ensures
      var r := FreeVa(s, dir, vaStart, vaEnd);
      && r.1 == Ok && r.0.table == s.table && Tidy(r.0, runs, dir, tabs)
      && RegionFreed(View(s), View(r.0), dir, tabs, vaStart / PAGE_SIZE, PagesUpTo(vaEnd) - vaStart / PAGE_SIZE)
      && SameElsewhere(s.ram, r.0.ram, Frames(dir, tabs))
  {
    hide Tidy, FreeMany, RegionFreed, SameElsewhere, Frames;
    TidyDir(s, runs, dir, tabs);
    FreeManyMeaning(s, runs, dir, tabs, vaStart / PAGE_SIZE, PagesUpTo(vaEnd) - vaStart / PAGE_SIZE);
  }

  /** kzalloc leaves an address space as it was: the new run is apart from every
      table, and so is the low memory that a small failed call clears. */
  lemma KzallocKeepsTables(s: Machine, runs: Runs, dir: nat, tabs: Tables, size: Word) returns (runs': Runs)
    requires Tidy(s, runs, dir, tabs) && ScanSafe(s.table, NumBlocks(size)) && size <= 0xffff_f000
    requires Kzalloc(s, size).ptr != 0 || size <= KHEAP_TABLE_ADDR
    ensures
      var r, n := Kzalloc(s, size), Need(NumBlocks(size));
      && Tidy(r.s, runs', dir, tabs)
      && View(r.s)[dir] == View(s)[dir]
      && (forall v: nat :: v < PAGES ==> Leaf(View(r.s), dir, v) == Leaf(View(s), dir, v))
      && (r.ptr == 0 ==> r.s.table == s.table && runs' == runs && SameOutside(s.ram, r.s.ram, 0, size))
      && (r.ptr != 0 ==>
            && r.ptr == AddrOf(BlockOf(r.ptr)) && BlockOf(r.ptr) !in runs
            && runs' == runs[BlockOf(r.ptr) := n]
            && Freed(r.s.table, BlockOf(r.ptr)) == s.table
            && r.ptr + size <= AddrOf(BlockOf(r.ptr) + n) <= KHEAP_SAFE_BOUNDARY
            && SameOutside(s.ram, r.s.ram, r.ptr, r.ptr + size)
            && (forall a :: r.ptr <= a < r.ptr + size ==> r.s.ram[a] == 0))
  {
    hide Shape, Leaf;
    runs' := KmallocMeaning(s, runs, size);
    var r, n := Kzalloc(s, size), Need(NumBlocks(size));
    if r.ptr != 0 {
      var b := BlockOf(r.ptr);
      NumBlocksCovers(size);
      forall f: nat | f < PAGES && f in Frames(dir, tabs) ensures View(r.s)[f] == View(s)[f] {
        ApartFrames(runs', b, n, f);
        PagesSame(s.ram, r.s.ram, f);
      }
      UntouchedTables(View(s), View(r.s), dir, tabs);
    } else {
      forall f: nat | HEAP_FRAME <= f < PAGES ensures View(r.s)[f] == View(s)[f] {
        PagesSame(s.ram, r.s.ram, f);
      }
      LowWritesKeepTables(s, r.s, runs, dir, tabs);
    }
  }

  /** An owned frame lies outside the bytes of any other run. */
  lemma ApartFrames(runs: Runs, b: nat, n: nat, f: nat)
    requires Disjoint(runs) && b in runs && runs[b] == n && HEAP_FRAME <= f
    requires HeapBlock(f) in runs && runs[HeapBlock(f)] == 1 && HeapBlock(f) != b
    ensures (f + 1) * PAGE_SIZE <= AddrOf(b) || AddrOf(b + n) <= f * PAGE_SIZE
  {
    assert Apart(runs, b, HeapBlock(f)) && Apart(runs, HeapBlock(f), b);
  }

  lemma MapRegionRefused(s: Machine, dir: nat, vaStart: Word, paddr: Word, vaEnd: Word, flags: Byte)
    requires dir < PAGES && !RegionOk(vaStart, paddr, vaEnd)
    ensures MapRegion(s, dir, vaStart, paddr, vaEnd, flags) == (s, InvalidArg)
  {
  }

  lemma FreeVaRefused(s: Machine, dir: nat, vaStart: Word, vaEnd: Word)
    requires dir < PAGES && vaEnd < vaStart
    ensures FreeVa(s, dir, vaStart, vaEnd) == (s, InvalidArg)
  {
  }

  // --------------------------------------------- memory seen by the process

  /** Physical address behind a virtual one. */
  ghost function Translate(w: Ram, dir: nat, va: Word): Option<nat>
    requires dir < PAGES
  {
    match Leaf(w, dir, va / PAGE_SIZE)
    case None => None
    case Some(p) => Some(Frame(p) * PAGE_SIZE + va % PAGE_SIZE)
  }

  /** The byte a process reads at a virtual address. */
  ghost function UserByte(s: Machine, dir: nat, va: Word): Option<Byte>
    requires dir < PAGES
  {
    match Translate(View(s), dir, va)
    case None => None
    case Some(a) => Some(s.ram[a])
  }

  /** A live allocation that is not a page table. */
  ghost predicate DataRun(runs: Runs, dir: nat, tabs: Tables, b: nat) {
    b in runs && HEAP_FRAME + b !in Frames(dir, tabs)
  }

  /** Its bytes are in no page table. */
  lemma DataOutsideTables(s: Machine, runs: Runs, dir: nat, tabs: Tables, b: nat, a: nat)
    requires Tidy(s, runs, dir, tabs) && DataRun(runs, dir, tabs, b)
    requires AddrOf(b) <= a < AddrOf(b + runs[b])
    ensures a / PAGE_SIZE !in Frames(dir, tabs)
  {
    var f := a / PAGE_SIZE;
    if f in Frames(dir, tabs) {
      assert HeapBlock(f) != b;
      ApartFrames(runs, b, runs[b], f);
    }
  }

  /** In a mapped region virtual and physical addresses advance together. */
  lemma TranslateInRegion(w: Ram, w': Ram, dir: nat, tabs: Tables, vaStart: Word, paddr: Word, vaEnd: Word,
                          flags: Byte, va: Word)
    requires RegionOk(vaStart, paddr, vaEnd) && paddr + (vaEnd - vaStart) <= SPACE && vaStart <= va < vaEnd
    requires RegionMapped(w, w', dir, tabs, vaStart / PAGE_SIZE, vaEnd / PAGE_SIZE - vaStart / PAGE_SIZE,
                          paddr / PAGE_SIZE, flags)
    ensures Translate(w', dir, va) == Some(paddr + (va - vaStart))
  {
    hide RegionMapped, Leaf;
    RegionLeaf(w, w', dir, tabs, vaStart / PAGE_SIZE, vaEnd / PAGE_SIZE - vaStart / PAGE_SIZE,
               paddr / PAGE_SIZE, flags, va / PAGE_SIZE);
    PteParts(paddr / PAGE_SIZE + va / PAGE_SIZE - vaStart / PAGE_SIZE, flags);
  }

  lemma RegionLeaf(w: Ram, w': Ram, dir: nat, tabs: Tables, lo: nat, n: nat, pfn: nat, flags: Byte, v: nat)
    requires RegionMapped(w, w', dir, tabs, lo, n, pfn, flags) && v < PAGES
    ensures dir < PAGES
    ensures Leaf(w', dir, v) == if lo <= v < lo + n then Some(Pte(pfn + v - lo, flags)) else Leaf(w, dir, v)
  {
  }

  /** kfree of data leaves the address space in order. */
  lemma KfreeKeepsTables(s: Machine, runs: Runs, dir: nat, tabs: Tables, ptr: nat)
    requires Tidy(s, runs, dir, tabs) && DataRun(runs, dir, tabs, BlockOf(ptr))
    ensures Tidy(Kfree(s, ptr), runs - {BlockOf(ptr)}, dir, tabs)
  {
    KfreeMeaning(s, runs, ptr);
    assert forall f :: f in Frames(dir, tabs) ==> f == HEAP_FRAME + HeapBlock(f);
  }
}
