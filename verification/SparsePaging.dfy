/** Page tables that are not all there: paging_new_vpn_to_pfn makes the table of a
    slot when it first needs one.  Runs of map and unmap calls on any tables follow
    a small machine: a flat map, the slots that have a table, and a count of free
    blocks.  The flags of a call are any flags. */
module SparsePaging {
  import opened Memory
  import opened HeapTable
  import opened MachineState
  import opened PageWalk
  import opened PagingSpec
  import opened PagingLife

  datatype Sparse = Sparse(flat: map<nat, Word>, slots: set<nat>, free: nat)

  ghost function Abstract(s: Machine, dir: nat, tabs: Tables): Sparse
    requires dir < PAGES
  {
    Sparse(Flat(View(s), dir), tabs.Keys, FreeBelow(s.table, |s.table|))
  }

  /** The slot of the page has a table, or there is a block for one. */
  predicate Room(a: Sparse, vpn: nat) { Slot(vpn) in a.slots || a.free > 0 }

  /** One page.  The flags also go to the directory entry, so without PRESENT the
      whole slot is lost, with its table. */
  function MapPage(a: Sparse, vpn: nat, pfn: nat, flags: Byte): Sparse
    requires Room(a, vpn)
  {
    var free := if Slot(vpn) in a.slots then a.free else a.free - 1;
    if Present(flags) then Sparse(a.flat[vpn := Pte(pfn, flags)], a.slots + {Slot(vpn)}, free)
    else Sparse(WithoutSlot(a.flat, Slot(vpn)), a.slots - {Slot(vpn)}, free)
  }

  function WithoutSlot(flat: map<nat, Word>, k: nat): map<nat, Word> {
    map v | v in flat && Slot(v) != k :: flat[v]
  }

  /** Consecutive pages, up to the first without room. */
  function MapPages(a: Sparse, lo: nat, n: nat, pfn: nat, flags: Byte): Sparse
    decreases n
  {
    if n == 0 || !Room(a, lo) then a
    else MapPages(MapPage(a, lo, pfn, flags), lo + 1, n - 1, pfn + 1, flags)
  }

  ghost function SparseOp(a: Sparse, op: PageOp): Sparse {
    match op
    case MapOp(vaStart, paddr, vaEnd, flags) =>
      if !RegionOk(vaStart, paddr, vaEnd) then a
      else MapPages(a, vaStart / PAGE_SIZE, vaEnd / PAGE_SIZE - vaStart / PAGE_SIZE, paddr / PAGE_SIZE, flags)
    case FreeOp(_, _) => a.(flat := FlatOp(a.flat, op))
  }

  ghost function SparseOps(a: Sparse, ops: seq<PageOp>): Sparse
    decreases |ops|
  {
    if ops == [] then a else SparseOps(SparseOp(a, ops[0]), ops[1..])
  }

  // --------------------------------------------------------- the machine

  /** What a mapping call with PRESENT does to it: a prefix of the pages is mapped, all of them
      unless the next one has no table and no block is left; blocks and tables
      together stay as many. */
  lemma {:induction false} PrefixMapped(a: Sparse, lo: nat, n: nat, pfn: nat, flags: Byte) returns (stop: nat)
    requires lo + n <= PAGES && Present(flags)
    ensures
      var b := MapPages(a, lo, n, pfn, flags);
      && lo <= stop <= lo + n && b.flat == a.flat + Region(lo, stop - lo, pfn, flags)
      && (stop < lo + n ==> Slot(stop) !in b.slots && b.free == 0)
      && a.slots <= b.slots && b.free + |b.slots| == a.free + |a.slots|
    decreases n
  {
    hide Pte, Slot, Region, MapPage;
    stop := lo;
    if n > 0 && Room(a, lo) {
      var lo1, pfn1 := lo + 1, pfn + 1;
      OnePage(a, lo, pfn, flags);
      stop := PrefixMapped(MapPage(a, lo, pfn, flags), lo1, n - 1, pfn1, flags);
      RegionFirst(a.flat, lo, stop - lo, pfn, flags);
    } else {
      RegionNone(a.flat, lo, pfn, flags);
    }
  }

  lemma OnePage(a: Sparse, vpn: nat, pfn: nat, flags: Byte)
    requires Room(a, vpn) && Present(flags)
    ensures
      var b := MapPage(a, vpn, pfn, flags);
      b.flat == a.flat[vpn := Pte(pfn, flags)] && a.slots <= b.slots && b.free + |b.slots| == a.free + |a.slots|
  {
    if Slot(vpn) in a.slots { assert a.slots + {Slot(vpn)} == a.slots; }
  }

  lemma RegionNone(flat: map<nat, Word>, lo: nat, pfn: nat, flags: Byte)
    ensures flat + Region(lo, 0, pfn, flags) == flat
  {
  }

  lemma RegionFirst(flat: map<nat, Word>, lo: nat, n: nat, pfn: nat, flags: Byte)
    requires 0 < n && lo + n <= PAGES
    ensures flat[lo := Pte(pfn, flags)] + Region(lo + 1, n - 1, pfn + 1, flags) == flat + Region(lo, n, pfn, flags)
  {
    hide Pte;
  }

  // ------------------------------------------------------------ one page

  /** A page in a slot without a table takes a block, or there is none. */
  lemma NewTable(s: Machine, runs: Runs, dir: nat, tabs: Tables, vpn: nat, pfn: nat, flags: Byte)
    requires Tidy(s, runs, dir, tabs) && vpn < PAGES && Slot(vpn) !in tabs && dir < PAGES
    ensures
      var r, free := MapOne(s, dir, vpn, pfn, flags), FreeBelow(s.table, |s.table|);
      && (r.ok <==> free > 0)
      && FreeBelow(r.s.table, |r.s.table|) == if r.ok then free - 1 else free
  {
    hide FreeBelow, Represents, Marked;
    FreeCount(s.table);
    var _ := NewPage(s, runs);
    if FitExists(s.table, 1) {
      TakenBlock(s, runs, PAGE_SIZE, BlockOf(Kmalloc(s, PAGE_SIZE).ptr));
    }
  }

  lemma PageFlat(w: Ram, w': Ram, dir: nat, tabs: Tables, tabs': Tables, vpn: nat, pfn: nat, flags: Byte)
    requires Shape(w, dir, tabs) && PageMapped(w, w', dir, tabs', vpn, pfn, flags)
    ensures Flat(w', dir) == Flat(w, dir)[vpn := Pte(pfn, flags)]
    ensures tabs'.Keys == tabs.Keys + {Slot(vpn)}
  {
    hide Leaf, Pte, Present, Frame;
    forall k: nat | k < ENTRIES ensures k in tabs' <==> k in tabs || k == Slot(vpn) {
      assert k != Slot(vpn) ==> w'[dir][k] == w[dir][k];
    }
  }

  /** A directory entry without PRESENT hides its table and every page in it. */
  lemma SlotGone(w: Ram, w': Ram, dir: nat, tabs: Tables, k: nat, d: Word)
    requires Shape(w, dir, tabs) && k < ENTRIES && !Present(d) && w'[dir] == w[dir][k := d]
    requires forall j: nat :: j in tabs && j != k ==> w'[tabs[j]] == w[tabs[j]]
    ensures Shape(w', dir, tabs - {k})
    ensures forall v: nat :: v < PAGES ==> Leaf(w', dir, v) == if Slot(v) == k then None else Leaf(w, dir, v)
  {
    hide Leaf, Frame, Present;
    ShapeWithout(w, w', dir, tabs, k, d);
    forall v: nat | v < PAGES ensures Leaf(w', dir, v) == if Slot(v) == k then None else Leaf(w, dir, v) {
      LeafIs(w, dir, tabs, v);
      LeafIs(w', dir, tabs - {k}, v);
    }
  }

  lemma ShapeWithout(w: Ram, w': Ram, dir: nat, tabs: Tables, k: nat, d: Word)
    requires Shape(w, dir, tabs) && k < ENTRIES && !Present(d) && w'[dir] == w[dir][k := d]
    ensures Shape(w', dir, tabs - {k})
  {
    hide Frame, Present;
    var tabs' := tabs - {k};
    forall i, j ensures Unshared(tabs', i, j) {
      assert Unshared(tabs, i, j);
    }
  }

  lemma GoneFlat(w: Ram, w': Ram, dir: nat, k: nat)
    requires dir < PAGES
    requires forall v: nat :: v < PAGES ==> Leaf(w', dir, v) == if Slot(v) == k then None else Leaf(w, dir, v)
    ensures Flat(w', dir) == WithoutSlot(Flat(w, dir), k)
  {
    hide Leaf;
  }

  /** Writing a page and a directory entry without PRESENT. */
  lemma LinkAbsent(s: Machine, dir: nat, tabs: Tables, tab: nat, vpn: nat, pfn: nat, flags: Byte)
    requires Shape(View(s), dir, tabs) && vpn < PAGES && tab < PAGES && tab != dir && !Present(flags)
    requires forall j: nat :: j in tabs && j != Slot(vpn) ==> tabs[j] != tab
    ensures
      var r := Link(s, dir, tab, vpn, pfn, flags);
      && r.table == s.table && Shape(View(r), dir, tabs - {Slot(vpn)})
      && Flat(View(r), dir) == WithoutSlot(Flat(View(s), dir), Slot(vpn))
  {
    hide Leaf, Flat, Pte, Frame, Present, WithoutSlot;
    LinkView(s, dir, tab, vpn, pfn, flags);
    PteParts(tab, flags);
    var r := Link(s, dir, tab, vpn, pfn, flags);
    assert Slot(vpn) < ENTRIES;
    SlotGone(View(s), View(r), dir, tabs, Slot(vpn), Pte(tab, flags));
    GoneFlat(View(s), View(r), dir, Slot(vpn));
  }

  /** A page mapped without PRESENT, where there is room. */
  lemma MapOneAbsent(s: Machine, runs: Runs, dir: nat, tabs: Tables, vpn: nat, pfn: nat, flags: Byte)
    returns (runs': Runs)
    requires Tidy(s, runs, dir, tabs) && vpn < PAGES && !Present(flags) && dir < PAGES
    requires MapOne(s, dir, vpn, pfn, flags).ok
    ensures
      var r := MapOne(s, dir, vpn, pfn, flags).s;
      && Tidy(r, runs', dir, tabs - {Slot(vpn)})
      && Flat(View(r), dir) == WithoutSlot(Flat(View(s), dir), Slot(vpn))
      && (Slot(vpn) in tabs ==> r.table == s.table)
  {
    hide Represents, Leaf, Flat, Link, Kzalloc, WithoutSlot;
    runs' := runs;
    var pte := GetEntry(s, dir, Slot(vpn));
    if Present(pte) {
      forall j: nat | j in tabs && j != Slot(vpn) ensures tabs[j] != Frame(pte) {
        assert Unshared(tabs, j, Slot(vpn));
      }
      LinkAbsent(s, dir, tabs, Frame(pte), vpn, pfn, flags);
    } else {
      runs' := NewPage(s, runs);
      var r := Kzalloc(s, PAGE_SIZE);
      var tab := FrameOf(r.ptr);
      OwnedGrows(runs, dir, tabs, Slot(vpn), tab);
      UntouchedTables(View(s), View(r.s), dir, tabs);
      FlatSame(View(s), View(r.s), dir);
      LinkAbsent(r.s, dir, tabs, tab, vpn, pfn, flags);
    }
  }

  lemma FlatSame(w: Ram, w': Ram, dir: nat)
    requires dir < PAGES && forall v: nat :: v < PAGES ==> Leaf(w', dir, v) == Leaf(w, dir, v)
    ensures Flat(w', dir) == Flat(w, dir)
  {
    hide Leaf;
  }

  /** A page without room: nothing moves, whatever the flags. */
  lemma MapOneRefused(s: Machine, runs: Runs, dir: nat, tabs: Tables, vpn: nat, pfn: nat, flags: Byte)
    requires Tidy(s, runs, dir, tabs) && vpn < PAGES && dir < PAGES && !MapOne(s, dir, vpn, pfn, flags).ok
    ensures
      var r := MapOne(s, dir, vpn, pfn, flags).s;
      Tidy(r, runs, dir, tabs) && r.table == s.table && Flat(View(r), dir) == Flat(View(s), dir)
  {
    hide Represents, Leaf, Flat, Link, Kzalloc;
    var _ := NewPage(s, runs);
    var r := Kzalloc(s, PAGE_SIZE).s;
    LowWritesKeepTables(s, r, runs, dir, tabs);
    FlatSame(View(s), View(r), dir);
  }

  lemma MapOneSparse(s: Machine, runs: Runs, dir: nat, tabs: Tables, vpn: nat, pfn: nat, flags: Byte)
    returns (runs': Runs, tabs': Tables)
    requires Tidy(s, runs, dir, tabs) && vpn < PAGES && dir < PAGES
    ensures
      var r, a := MapOne(s, dir, vpn, pfn, flags), Abstract(s, dir, tabs);
      && Tidy(r.s, runs', dir, tabs') && (r.ok <==> Room(a, vpn))
      && Abstract(r.s, dir, tabs') == if Room(a, vpn) then MapPage(a, vpn, pfn, flags) else a
  {
    hide MapOne, Represents, Owned, Leaf, FreeBelow, SameElsewhere, PageMapped, Slot, Pte, FitExists, Flat, WithoutSlot;
    runs', tabs' := runs, tabs;
    var r := MapOne(s, dir, vpn, pfn, flags);
    if Slot(vpn) !in tabs {
      NewTable(s, runs, dir, tabs, vpn, pfn, flags);
    } else {
      TableThere(s, runs, dir, tabs, vpn, pfn, flags);
    }
    if !r.ok {
      MapOneRefused(s, runs, dir, tabs, vpn, pfn, flags);
    } else if Present(flags) {
      runs', tabs' := MapOneMeaning(s, runs, dir, tabs, vpn, pfn, flags);
      PageFlat(View(s), View(r.s), dir, tabs, tabs', vpn, pfn, flags);
    } else {
      runs' := MapOneAbsent(s, runs, dir, tabs, vpn, pfn, flags);
      tabs' := tabs - {Slot(vpn)};
    }
  }

  lemma TableThere(s: Machine, runs: Runs, dir: nat, tabs: Tables, vpn: nat, pfn: nat, flags: Byte)
    requires Tidy(s, runs, dir, tabs) && vpn < PAGES && dir < PAGES && Slot(vpn) in tabs
    ensures MapOne(s, dir, vpn, pfn, flags).ok && MapOne(s, dir, vpn, pfn, flags).s.table == s.table
  {
  }

  // ---------------------------------------------------------------- runs

  lemma {:induction false} MapManySparse(s: Machine, runs: Runs, dir: nat, tabs: Tables, lo: nat, n: nat, pfn: nat,
                                         flags: Byte) returns (runs': Runs, tabs': Tables)
    requires Tidy(s, runs, dir, tabs) && lo + n <= PAGES && dir < PAGES
    ensures
      var r := MapMany(s, dir, lo, n, pfn, flags).s;
      && Tidy(r, runs', dir, tabs')
      && Abstract(r, dir, tabs') == MapPages(Abstract(s, dir, tabs), lo, n, pfn, flags)
    decreases n
  {
    hide MapOne, Tidy, Abstract, Room, MapPage;
    runs', tabs' := runs, tabs;
    if n > 0 {
      var r := MapOne(s, dir, lo, pfn, flags);
      var lo1, pfn1 := lo + 1, pfn + 1;
      runs', tabs' := MapOneSparse(s, runs, dir, tabs, lo, pfn, flags);
      if r.ok {
        runs', tabs' := MapManySparse(r.s, runs', dir, tabs', lo1, n - 1, pfn1, flags);
      }
    }
  }

  lemma StepSparse(s: Machine, runs: Runs, dir: nat, tabs: Tables, op: PageOp) returns (runs': Runs, tabs': Tables)
    requires Tidy(s, runs, dir, tabs) && dir < PAGES
    ensures
      var s' := StepOp(s, dir, op);
      Tidy(s', runs', dir, tabs') && Abstract(s', dir, tabs') == SparseOp(Abstract(s, dir, tabs), op)
  {
    hide Tidy, MapMany, FreeVa, MapPages, Flat, FreeBelow, RegionFreed, SameElsewhere;
    runs', tabs' := runs, tabs;
    match op
    case MapOp(vaStart, paddr, vaEnd, flags) =>
      if RegionOk(vaStart, paddr, vaEnd) {
        runs', tabs' := MapManySparse(s, runs, dir, tabs, vaStart / PAGE_SIZE,
                                      vaEnd / PAGE_SIZE - vaStart / PAGE_SIZE, paddr / PAGE_SIZE, flags);
      }
    case FreeOp(vaStart, vaEnd) =>
      if vaStart <= vaEnd {
        FreeVaMeaning(s, runs, dir, tabs, vaStart, vaEnd);
        FreedFlat(View(s), View(StepOp(s, dir, op)), dir, tabs, vaStart / PAGE_SIZE,
                  PagesUpTo(vaEnd) - vaStart / PAGE_SIZE);
      } else {
        FreeVaRefused(s, dir, vaStart, vaEnd);
      }
  }

  /** Refinement on any tables, with any flags: after every run of map and unmap
      calls the walk, the tables and the free blocks are what the machine says,
      each call mapping its pages up to the first that finds neither table nor
      block. */
  lemma {:induction false} SparseRefinement(s: Machine, runs: Runs, dir: nat, tabs: Tables, ops: seq<PageOp>)
    returns (runs': Runs, tabs': Tables)
    requires Tidy(s, runs, dir, tabs) && dir < PAGES
    ensures
      var s' := RunOps(s, dir, ops);
      Tidy(s', runs', dir, tabs') && Abstract(s', dir, tabs') == SparseOps(Abstract(s, dir, tabs), ops)
    decreases |ops|
  {
    hide Tidy, StepOp, Abstract, SparseOp;
    runs', tabs' := runs, tabs;
    if ops != [] {
      runs', tabs' := StepSparse(s, runs, dir, tabs, ops[0]);
      runs', tabs' := SparseRefinement(StepOp(s, dir, ops[0]), runs', dir, tabs', ops[1..]);
    }
  }

  lemma {:induction false} SlotsKept(a: Sparse, ops: seq<PageOp>)
    requires forall op :: op in ops ==> PresentOp(op)
    ensures
      var b := SparseOps(a, ops);
      a.slots <= b.slots && b.free + |b.slots| == a.free + |a.slots|
    decreases |ops|
  {
    hide MapPages, FlatOp;
    if ops != [] {
      assert PresentOp(ops[0]);
      if ops[0].MapOp? && RegionOk(ops[0].vaStart, ops[0].paddr, ops[0].vaEnd) {
        var _ := PrefixMapped(a, ops[0].vaStart / PAGE_SIZE,
                              ops[0].vaEnd / PAGE_SIZE - ops[0].vaStart / PAGE_SIZE,
                              ops[0].paddr / PAGE_SIZE, ops[0].flags);
      }
      SlotsKept(SparseOp(a, ops[0]), ops[1..]);
    }
  }

  /** With PRESENT in every call, as the kernel has it, no table is lost and every
      block a run takes is a table. */
  lemma TablesConserved(s: Machine, runs: Runs, dir: nat, tabs: Tables, ops: seq<PageOp>)
    returns (runs': Runs, tabs': Tables)
    requires Tidy(s, runs, dir, tabs) && dir < PAGES && forall op :: op in ops ==> PresentOp(op)
    ensures
      var s' := RunOps(s, dir, ops);
      && Tidy(s', runs', dir, tabs') && tabs.Keys <= tabs'.Keys
      && FreeBelow(s'.table, |s'.table|) + |tabs'.Keys| == FreeBelow(s.table, |s.table|) + |tabs.Keys|
  {
    hide RunOps, SparseOps, Tidy, Flat, FreeBelow;
    runs', tabs' := SparseRefinement(s, runs, dir, tabs, ops);
    SlotsKept(Abstract(s, dir, tabs), ops);
  }
}
