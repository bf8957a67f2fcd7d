/** The life of one set of page tables: paging_create_4gb_page_tables and
    paging_free_page_table, and what they leave of the heap. */
module PagingLife {
  import opened Memory
  import opened HeapTable
  import opened MachineState
  import opened PageWalk
  import opened PagingSpec

  // ------------------------------------------------------------- creation

  /** Entries `j ..` of the table of slot `i`: the identity. */
  ghost function FillFrom(s: Machine, tab: nat, i: nat, flags: Byte, j: nat): Machine
    requires tab < PAGES && i < ENTRIES && j <= ENTRIES
    decreases ENTRIES - j
  {
    if j == ENTRIES then s
    else FillFrom(PutEntry(s, tab, j, Pte(i * ENTRIES + j, flags)), tab, i, flags, j + 1)
  }

  /** One turn of the loop. */
  lemma FillTurn(s: Machine, tab: nat, i: nat, flags: Byte, j: nat)
    requires tab < PAGES && i < ENTRIES && j <= ENTRIES
    ensures FillFrom(s, tab, i, flags, j) ==
            if j == ENTRIES then s
            else FillFrom(PutEntry(s, tab, j, Pte(i * ENTRIES + j, flags)), tab, i, flags, j + 1)
  {
  }

  lemma {:induction false} FillFromMeaning(s: Machine, tab: nat, i: nat, flags: Byte, j: nat)
    requires tab < PAGES && i < ENTRIES && j <= ENTRIES
    ensures
      var s' := FillFrom(s, tab, i, flags, j);
      && s'.table == s.table && SameElsewhere(s.ram, s'.ram, {tab})
      && (forall k :: 0 <= k < ENTRIES ==>
            View(s')[tab][k] == if k < j then View(s)[tab][k] else Pte(i * ENTRIES + k, flags))
    decreases ENTRIES - j
  {
    hide FillFrom, Pte;
    FillTurn(s, tab, i, flags, j);
    if j < ENTRIES {
      var s1 := PutEntry(s, tab, j, Pte(i * ENTRIES + j, flags));
      FillFromMeaning(s1, tab, i, flags, j + 1);
      var s' := FillFrom(s, tab, i, flags, j);
      forall k | 0 <= k < ENTRIES
        ensures View(s')[tab][k] == if k < j then View(s)[tab][k] else Pte(i * ENTRIES + k, flags)
      {
        assert View(s1)[tab][k] == if k == j then Pte(i * ENTRIES + j, flags) else View(s)[tab][k];
      }
    }
  }

  /** kfree of the tables in slots `j .. i` of a directory; with `checked`,
      only of present slots. */
  ghost function FreeSlots(s: Machine, dir: nat, checked: bool, j: nat, i: nat): Machine
    requires dir < PAGES && j <= i <= ENTRIES
    decreases i - j
  {
    if j == i then s
    else
      var pte := GetEntry(s, dir, j);
      FreeSlots(if !checked || Present(pte) then Kfree(s, Frame(pte) * PAGE_SIZE) else s, dir, checked, j + 1, i)
  }

  /** Slots `i ..` of a new directory; when a block is missing, the directory
      and the tables so far are freed. */
  ghost function AddTables(s: Machine, dir: nat, flags: Byte, i: nat): Mapping
    requires dir < PAGES && i <= ENTRIES
    decreases ENTRIES - i
  {
    if i == ENTRIES then Mapping(s, true)
    else
      var r := Kzalloc(s, PAGE_SIZE);
      if r.ptr == 0 then Mapping(FreeSlots(Kfree(r.s, dir * PAGE_SIZE), dir, false, 0, i), false)
      else AddTables(AddOne(r.s, dir, FrameOf(r.ptr), flags, i), dir, flags, i + 1)
  }

  /** One turn of the outer loop. */
  lemma AddTablesTurn(s: Machine, dir: nat, flags: Byte, i: nat)
    requires dir < PAGES && i <= ENTRIES
    ensures AddTables(s, dir, flags, i) ==
            if i == ENTRIES then Mapping(s, true)
            else
              var r := Kzalloc(s, PAGE_SIZE);
              if r.ptr == 0 then Mapping(FreeSlots(Kfree(r.s, dir * PAGE_SIZE), dir, false, 0, i), false)
              else AddTables(AddOne(r.s, dir, FrameOf(r.ptr), flags, i), dir, flags, i + 1)
  {
    hide Kzalloc, FreeSlots, AddOne, FrameOf, Kfree;
  }

  ghost function AddOne(s: Machine, dir: nat, tab: nat, flags: Byte, i: nat): Machine
    requires dir < PAGES && tab < PAGES && i < ENTRIES
  {
    PutEntry(FillFrom(s, tab, i, flags, 0), dir, i, Pte(tab, OrWrite(flags)))
  }

  datatype Created = Created(s: Machine, ok: bool, dir: nat)

  /** paging_create_4gb_page_tables */
  ghost function CreateTables(s: Machine, flags: Byte): Created {
    var r := Kzalloc(s, PAGE_SIZE);
    if r.ptr == 0 then Created(r.s, false, 0)
    else
      var m := AddTables(r.s, FrameOf(r.ptr), flags, 0);
      Created(m.s, m.ok, if m.ok then FrameOf(r.ptr) else 0)
  }

  /** paging_free_page_table */
  ghost function FreeTables(s: Machine, dir: nat): Machine
    requires dir < PAGES
  {
    Kfree(FreeSlots(s, dir, true, 0, ENTRIES), dir * PAGE_SIZE)
  }

  // -------------------------------------------- what is taken is given back

  /** The allocations `runs` are `before` plus the given single blocks. */
  ghost predicate GrownBy(before: Runs, runs: Runs, blocks: set<nat>) {
    && before.Keys !! blocks && runs.Keys == before.Keys + blocks
    && (forall b :: b in before ==> runs[b] == before[b])
    && (forall b :: b in blocks ==> runs[b] == 1)
  }

  lemma GrownByNothing(before: Runs, runs: Runs)
    requires GrownBy(before, runs, {})
    ensures runs == before
  {
  }

  /** kfree of one of the blocks. */
  lemma FreeFrame(s: Machine, before: Runs, runs: Runs, blocks: set<nat>, f: nat)
    requires Represents(s.table, runs) && GrownBy(before, runs, blocks)
    requires HeapBlock(f) in blocks && HEAP_FRAME <= f < PAGES
    ensures Represents(Kfree(s, f * PAGE_SIZE).table, runs - {HeapBlock(f)})
    ensures GrownBy(before, runs - {HeapBlock(f)}, blocks - {HeapBlock(f)})
  {
    assert BlockOf(f * PAGE_SIZE) == HeapBlock(f);
    KfreeMeaning(s, runs, f * PAGE_SIZE);
  }

  ghost function SlotBlocks(tabs: Tables, j: nat, i: nat): set<nat> {
    set k | k in tabs && j <= k < i :: HeapBlock(tabs[k])
  }

  /** The tables are heap blocks, each its own. */
  ghost predicate InHeap(tabs: Tables) {
    && (forall k :: k in tabs ==> HEAP_FRAME <= tabs[k] < PAGES)
    && (forall i, j :: Unshared(tabs, i, j))
  }

  lemma SlotBlocksStep(tabs: Tables, j: nat, i: nat)
    requires InHeap(tabs) && j < i
    ensures j in tabs ==>
              && SlotBlocks(tabs, j, i) == SlotBlocks(tabs, j + 1, i) + {HeapBlock(tabs[j])}
              && HeapBlock(tabs[j]) !in SlotBlocks(tabs, j + 1, i)
    ensures j !in tabs ==> SlotBlocks(tabs, j, i) == SlotBlocks(tabs, j + 1, i)
  {
    forall k | k in tabs && j < k < i && j in tabs ensures HeapBlock(tabs[k]) != HeapBlock(tabs[j]) {
      assert Unshared(tabs, j, k);
    }
  }

  /** Freeing slots `j .. i` gives back the blocks of their tables. */
  lemma {:induction false} FreeSlotsMeaning(s: Machine, before: Runs, runs: Runs, dir: nat, tabs: Tables,
                                            blocks: set<nat>, checked: bool, j: nat, i: nat) returns (runs': Runs)
    requires Shape(View(s), dir, tabs) && InHeap(tabs) && Represents(s.table, runs)
    requires GrownBy(before, runs, blocks) && j <= i <= ENTRIES && SlotBlocks(tabs, j, i) <= blocks
    requires !checked ==> forall k: nat :: j <= k < i ==> k in tabs
    ensures
      var s' := FreeSlots(s, dir, checked, j, i);
      && s'.ram == s.ram && Represents(s'.table, runs')
      && GrownBy(before, runs', blocks - SlotBlocks(tabs, j, i))
    decreases i - j
  {
    hide Represents, GrownBy, SlotBlocks;
    runs' := runs;
    if j < i {
      SlotBlocksStep(tabs, j, i);
      if j in tabs {
        FreeFrame(s, before, runs, blocks, tabs[j]);
        var b := HeapBlock(tabs[j]);
        runs' := FreeSlotsMeaning(Kfree(s, tabs[j] * PAGE_SIZE), before, runs - {b}, dir, tabs,
                                  blocks - {b}, checked, j + 1, i);
        assert blocks - {b} - SlotBlocks(tabs, j + 1, i) == blocks - SlotBlocks(tabs, j, i);
      } else {
        runs' := FreeSlotsMeaning(s, before, runs, dir, tabs, blocks, checked, j + 1, i);
      }
    } else {
      NoSlotBlocks(tabs, j);
      assert blocks - SlotBlocks(tabs, j, i) == blocks;
    }
  }

  lemma NoSlotBlocks(tabs: Tables, j: nat)
    ensures SlotBlocks(tabs, j, j) == {}
  {
  }

  ghost function TableBlocks(dir: nat, tabs: Tables): set<nat> {
    {HeapBlock(dir)} + SlotBlocks(tabs, 0, ENTRIES)
  }

  /** paging_free_page_table gives back the directory and every table. */
  lemma FreeTablesMeaning(s: Machine, before: Runs, runs: Runs, dir: nat, tabs: Tables)
    requires Tidy(s, runs, dir, tabs) && GrownBy(before, runs, TableBlocks(dir, tabs))
    ensures Represents(FreeTables(s, dir).table, before)
    ensures FreeTables(s, dir).ram == s.ram
  {
    OwnedInHeap(s, runs, dir, tabs);
    var blocks := TableBlocks(dir, tabs);
    var runs1 := FreeSlotsMeaning(s, before, runs, dir, tabs, blocks, true, 0, ENTRIES);
    var left := blocks - SlotBlocks(tabs, 0, ENTRIES);
    assert left == {HeapBlock(dir)};
    FreeFrame(FreeSlots(s, dir, true, 0, ENTRIES), before, runs1, left, dir);
    assert left - {HeapBlock(dir)} == {};
    GrownByNothing(before, runs1 - {HeapBlock(dir)});
  }

  lemma OwnedInHeap(s: Machine, runs: Runs, dir: nat, tabs: Tables)
    requires Tidy(s, runs, dir, tabs)
    ensures InHeap(tabs) && HEAP_FRAME <= dir < PAGES
    ensures HeapBlock(dir) !in SlotBlocks(tabs, 0, ENTRIES)
  {
    assert dir in Frames(dir, tabs);
    forall k | k in tabs ensures HEAP_FRAME <= tabs[k] < PAGES && HeapBlock(tabs[k]) != HeapBlock(dir) {
      assert tabs[k] in Frames(dir, tabs);
    }
  }

  // ------------------------------------------------ creation, slot by slot

  /** A directory with its first `i` slots built. */
  ghost predicate Building(s: Machine, before: Runs, runs: Runs, dir: nat, tabs: Tables, flags: Byte, i: nat) {
    && i <= ENTRIES && Tidy(s, runs, dir, tabs)
    && (forall k: nat :: k in tabs <==> k < i)
    && GrownBy(before, runs, {HeapBlock(dir)} + SlotBlocks(tabs, 0, i))
    && (forall v: nat :: v < PAGES && Slot(v) < i ==> Leaf(View(s), dir, v) == Some(Pte(v, flags)))
    && (forall k: nat :: k < i ==> View(s)[dir][k] == Pte(tabs[k], OrWrite(flags)))
  }

  lemma AddOneView(s: Machine, dir: nat, tab: nat, flags: Byte, i: nat)
    requires dir < PAGES && tab < PAGES && i < ENTRIES
    ensures
      var s1, s' := FillFrom(s, tab, i, flags, 0), AddOne(s, dir, tab, flags, i);
      && s'.table == s.table
      && View(s') == View(s1)[dir := View(s1)[dir][i := Pte(tab, OrWrite(flags))]]
      && (forall f: nat :: f < PAGES && f != tab ==> View(s1)[f] == View(s)[f])
      && (forall k :: 0 <= k < ENTRIES ==> View(s1)[tab][k] == Pte(i * ENTRIES + k, flags))
      && SameElsewhere(s.ram, s'.ram, {tab, dir})
  {
    hide FillFrom;
    var s1 := FillFrom(s, tab, i, flags, 0);
    FillFromMeaning(s, tab, i, flags, 0);
    PagesElsewhere(s.ram, s1.ram, {tab});
    SameElsewhereTrans(s.ram, s1.ram, AddOne(s, dir, tab, flags, i).ram, {tab}, {dir}, {tab, dir});
  }

  /** Slot and index make up a page number. */
  lemma PageNumber(v: nat)
    ensures Slot(v) * ENTRIES + Index(v) == v && Index(v) < ENTRIES
  {
  }

  lemma IdentityTable(w: Ram, tab: nat, i: nat, flags: Byte, v: nat)
    requires tab < PAGES && v < PAGES && Slot(v) == i && Present(flags)
    requires forall k :: 0 <= k < ENTRIES ==> w[tab][k] == Pte(i * ENTRIES + k, flags)
    ensures w[tab][Index(v)] == Pte(v, flags) && Present(w[tab][Index(v)])
  {
    PageNumber(v);
    PteParts(v, flags);
  }

  lemma BuildStep(s: Machine, s0: Machine, before: Runs, runs: Runs, dir: nat, tabs: Tables,
                  flags: Byte, i: nat, tab: nat)
    requires Building(s, before, runs, dir, tabs, flags, i) && i < ENTRIES && Present(flags)
    requires HEAP_FRAME <= tab < PAGES && HeapBlock(tab) !in runs
    requires Represents(s0.table, runs[HeapBlock(tab) := 1]) && SameElsewhere(s.ram, s0.ram, {tab})
    ensures Building(AddOne(s0, dir, tab, flags, i), before, runs[HeapBlock(tab) := 1],
                     dir, tabs[i := tab], flags, i + 1)
  {
    hide FillFrom, Represents, GrownBy, SlotBlocks, Leaf, Shape, Owned, Pte;
    TidyDir(s, runs, dir, tabs);
    var s1, s', tabs' := FillFrom(s0, tab, i, flags, 0), AddOne(s0, dir, tab, flags, i), tabs[i := tab];
    AddOneView(s0, dir, tab, flags, i);
    PagesElsewhere(s.ram, s0.ram, {tab});
    OwnedGrows(runs, dir, tabs, i, tab);
    OrWritePresent(flags);
    AddTable(View(s), View(s1), dir, tabs, i, tab, OrWrite(flags));
    forall v: nat | v < PAGES && Slot(v) < i + 1 ensures Leaf(View(s'), dir, v) == Some(Pte(v, flags)) {
      if Slot(v) == i { IdentityTable(View(s1), tab, i, flags, v); }
    }
    GrownByStep(before, runs, dir, tabs, i, tab);
  }

  lemma OrWritePresent(flags: Byte)
    requires Present(flags)
    ensures Present(OrWrite(flags))
  {
  }

  lemma GrownByStep(before: Runs, runs: Runs, dir: nat, tabs: Tables, i: nat, tab: nat)
    requires GrownBy(before, runs, {HeapBlock(dir)} + SlotBlocks(tabs, 0, i)) && HeapBlock(tab) !in runs
    requires forall k: nat :: k in tabs <==> k < i
    ensures GrownBy(before, runs[HeapBlock(tab) := 1], {HeapBlock(dir)} + SlotBlocks(tabs[i := tab], 0, i + 1))
  {
    var tabs' := tabs[i := tab];
    assert SlotBlocks(tabs', 0, i + 1) == SlotBlocks(tabs, 0, i) + {HeapBlock(tab)} by {
      assert forall k: nat :: k in tabs ==> tabs'[k] == tabs[k];
      assert i in tabs' && tabs'[i] == tab;
    }
  }

  /** Either every slot gets built, or everything taken is given back. */
  lemma {:induction false} AddTablesMeaning(s: Machine, before: Runs, runs: Runs, dir: nat, tabs: Tables,
                                            flags: Byte, i: nat) returns (runs': Runs, tabs': Tables)
    requires Building(s, before, runs, dir, tabs, flags, i) && Present(flags)
    ensures
      var r := AddTables(s, dir, flags, i);
      && |r.s.table| == |s.table|
      && (r.ok ==>
            && Building(r.s, before, runs', dir, tabs', flags, ENTRIES)
            && Frames(dir, tabs) <= Frames(dir, tabs') && SameElsewhere(s.ram, r.s.ram, Frames(dir, tabs')))
      && (!r.ok ==> Represents(r.s.table, before))
    decreases ENTRIES - i
  {
    hide FillFrom, FreeSlots, Represents, GrownBy, Leaf, Shape, Owned, AddOne, SameElsewhere, Frames;
    runs', tabs' := runs, tabs;
    TidyDir(s, runs, dir, tabs);
    if i < ENTRIES {
      var r := Kzalloc(s, PAGE_SIZE);
      var runs1 := NewPage(s, runs);
      if r.ptr != 0 {
        var tab := FrameOf(r.ptr);
        BuildStep(s, r.s, before, runs, dir, tabs, flags, i, tab);
        AddOneView(r.s, dir, tab, flags, i);
        var s1 := AddOne(r.s, dir, tab, flags, i);
        runs', tabs' := AddTablesMeaning(s1, before, runs1, dir, tabs[i := tab], flags, i + 1);
        FramesGrow(dir, tabs, i, tab);
        var s', f := AddTables(s, dir, flags, i).s, Frames(dir, tabs[i := tab]);
        SameElsewhereTrans(s.ram, r.s.ram, s1.ram, {tab}, {tab, dir}, f);
        if AddTables(s, dir, flags, i).ok {
          SameElsewhereTrans(s.ram, s1.ram, s'.ram, f, Frames(dir, tabs'), Frames(dir, tabs'));
        }
      } else {
        StillBuilding(s, r.s, before, runs, dir, tabs, flags, i);
        UndoMeaning(r.s, before, runs, dir, tabs, flags, i);
      }
    }
  }

  lemma FramesGrow(dir: nat, tabs: Tables, i: nat, tab: nat)
    requires i !in tabs
    ensures Frames(dir, tabs) <= Frames(dir, tabs[i := tab]) && {tab, dir} <= Frames(dir, tabs[i := tab])
  {
    var tabs' := tabs[i := tab];
    assert forall k :: k in tabs ==> k in tabs' && tabs'[k] == tabs[k];
    assert i in tabs' && tabs'[i] == tab;
  }

  lemma StillBuilding(s: Machine, s': Machine, before: Runs, runs: Runs, dir: nat, tabs: Tables, flags: Byte, i: nat)
    requires Building(s, before, runs, dir, tabs, flags, i) && s'.table == s.table
    requires forall f: nat :: 0 < f < PAGES ==> View(s')[f] == View(s)[f]
    ensures Building(s', before, runs, dir, tabs, flags, i)
  {
    hide Leaf, Tidy, GrownBy, SlotBlocks;
    LowWritesKeepTables(s, s', runs, dir, tabs);
  }

  /** The slots from `i` on all get their table exactly when as many blocks are
      free. */
  lemma {:induction false} AddTablesSucceeds(s: Machine, runs: Runs, dir: nat, flags: Byte, i: nat)
    requires Represents(s.table, runs) && dir < PAGES && i <= ENTRIES
    ensures AddTables(s, dir, flags, i).ok <==> FreeBelow(s.table, |s.table|) >= ENTRIES - i
    decreases ENTRIES - i
  {
    hide AddTables, AddOne, FreeSlots, Represents, FreeBelow, Kzalloc, Kfree;
    AddTablesTurn(s, dir, flags, i);
    if i < ENTRIES {
      var runs1 := PageTaken(s, runs);
      var r := Kzalloc(s, PAGE_SIZE);
      if r.ptr != 0 {
        AddOneTable(r.s, dir, FrameOf(r.ptr), flags, i);
        AddTablesSucceeds(AddOne(r.s, dir, FrameOf(r.ptr), flags, i), runs1, dir, flags, i + 1);
      }
    }
  }

  lemma AddOneTable(s: Machine, dir: nat, tab: nat, flags: Byte, i: nat)
    requires dir < PAGES && tab < PAGES && i < ENTRIES
    ensures AddOne(s, dir, tab, flags, i).table == s.table
  {
    AddOneView(s, dir, tab, flags, i);
  }

  /** kzalloc of a page in terms of the count of free blocks. */
  lemma PageTaken(s: Machine, runs: Runs) returns (runs': Runs)
    requires Represents(s.table, runs)
    ensures
      var r := Kzalloc(s, PAGE_SIZE);
      && (r.ptr == 0 <==> FreeBelow(s.table, |s.table|) == 0)
      && Represents(r.s.table, runs') && |r.s.table| == |s.table|
      && (r.ptr != 0 ==> FreeBelow(r.s.table, |s.table|) == FreeBelow(s.table, |s.table|) - 1)
  {
    hide Represents, FreeBelow;
    runs' := NewPage(s, runs);
    FreeCount(s.table);
    if Kzalloc(s, PAGE_SIZE).ptr != 0 {
      TakenBlock(s, runs, PAGE_SIZE, BlockOf(Kmalloc(s, PAGE_SIZE).ptr));
    }
  }

  /** The failure branch of creation: the directory first, then its tables. */
  lemma UndoMeaning(s: Machine, before: Runs, runs: Runs, dir: nat, tabs: Tables, flags: Byte, i: nat)
    requires Building(s, before, runs, dir, tabs, flags, i)
    ensures
      var s' := FreeSlots(Kfree(s, dir * PAGE_SIZE), dir, false, 0, i);
      |s'.table| == |s.table| && Represents(s'.table, before)
  {
    hide FreeSlots, Represents, GrownBy;
    OwnedInHeap(s, runs, dir, tabs);
    var blocks := {HeapBlock(dir)} + SlotBlocks(tabs, 0, i);
    assert SlotBlocks(tabs, 0, i) == SlotBlocks(tabs, 0, ENTRIES);
    FreeFrame(s, before, runs, blocks, dir);
    var s1 := Kfree(s, dir * PAGE_SIZE);
    var runs1 := FreeSlotsMeaning(s1, before, runs - {HeapBlock(dir)}, dir, tabs,
                                  blocks - {HeapBlock(dir)}, false, 0, i);
    assert blocks - {HeapBlock(dir)} - SlotBlocks(tabs, 0, i) == {};
    GrownByNothing(before, runs1);
    FreeSlotsSize(s1, dir, false, 0, i);
  }

  lemma {:induction false} FreeSlotsSize(s: Machine, dir: nat, checked: bool, j: nat, i: nat)
    requires dir < PAGES && j <= i <= ENTRIES
    ensures |FreeSlots(s, dir, checked, j, i).table| == |s.table| && FreeSlots(s, dir, checked, j, i).ram == s.ram
    decreases i - j
  {
    if j < i {
      var pte := GetEntry(s, dir, j);
      FreeSlotsSize(if !checked || Present(pte) then Kfree(s, Frame(pte) * PAGE_SIZE) else s, dir, checked, j + 1, i);
    }
  }

  /** paging_create_4gb_page_tables: with 1025 free blocks, and only then, the
      identity map over all 2^20 pages, in as many new blocks; otherwise the block
      table as it was. */
  lemma CreateMeaning(s: Machine, before: Runs, flags: Byte) returns (runs: Runs, tabs: Tables)
    requires Represents(s.table, before) && Present(flags)
    ensures
      var r := CreateTables(s, flags);
      && |r.s.table| == |s.table|
      && (r.ok <==> FreeBelow(s.table, |s.table|) >= ENTRIES + 1)
      && (r.ok ==>
            && Tidy(r.s, runs, r.dir, tabs) && Full(tabs)
            && GrownBy(before, runs, TableBlocks(r.dir, tabs))
            && SameElsewhere(s.ram, r.s.ram, Frames(r.dir, tabs))
            && (forall v: nat :: v < PAGES ==> Leaf(View(r.s), r.dir, v) == Some(Pte(v, flags)))
            && (forall k: nat :: k < ENTRIES ==> View(r.s)[r.dir][k] == Pte(tabs[k], OrWrite(flags))))
      && (!r.ok ==> r.s.table == s.table)
  {
    hide AddTables, Represents, Leaf, Owned, GrownBy, FreeBelow, FitExists;
    var r := Kzalloc(s, PAGE_SIZE);
    var _ := PageTaken(s, before);
    var runs0 := NewPage(s, before);
    runs, tabs := before, map[];
    if r.ptr != 0 {
      AddTablesSucceeds(r.s, runs0, FrameOf(r.ptr), flags, 0);
      var dir := FrameOf(r.ptr);
      BuildEmpty(r.s, before, runs0, dir, flags);
      runs, tabs := AddTablesMeaning(r.s, before, runs0, dir, map[], flags, 0);
      var r' := AddTables(r.s, dir, flags, 0);
      if r'.ok {
        SameElsewhereTrans(s.ram, r.s.ram, r'.s.ram, {dir}, Frames(dir, tabs), Frames(dir, tabs));
      } else {
        TableUnique(s.table, r'.s.table, before);
      }
    }
  }

  lemma BuildEmpty(s: Machine, before: Runs, runs: Runs, dir: nat, flags: Byte)
    requires Represents(s.table, runs) && HEAP_FRAME <= dir < PAGES
    requires HeapBlock(dir) !in before && runs == before[HeapBlock(dir) := 1]
    requires forall i :: 0 <= i < ENTRIES ==> View(s)[dir][i] == 0
    ensures Building(s, before, runs, dir, map[], flags, 0)
  {
    assert SlotBlocks(map[], 0, 0) == {};
    assert {HeapBlock(dir)} + SlotBlocks(map[], 0, 0) == {HeapBlock(dir)};
  }

  // ------------------------------------------------------------ whole lives

  datatype PageOp =
    | MapOp(vaStart: Word, paddr: Word, vaEnd: Word, flags: Byte)
    | FreeOp(vaStart: Word, vaEnd: Word)

  /** Mapping calls of the kernel always carry the PRESENT flag. */
  predicate PresentOp(op: PageOp) { op.MapOp? ==> Present(op.flags) }

  ghost function StepOp(s: Machine, dir: nat, op: PageOp): Machine
    requires dir < PAGES
  {
    match op
    case MapOp(vaStart, paddr, vaEnd, flags) => MapRegion(s, dir, vaStart, paddr, vaEnd, flags).0
    case FreeOp(vaStart, vaEnd) => FreeVa(s, dir, vaStart, vaEnd).0
  }

  /** The same call on a flat map from page to entry. */
  ghost function FlatOp(flat: map<nat, Word>, op: PageOp): map<nat, Word> {
    match op
    case MapOp(vaStart, paddr, vaEnd, flags) =>
      if !RegionOk(vaStart, paddr, vaEnd) then flat
      else flat + Region(vaStart / PAGE_SIZE, vaEnd / PAGE_SIZE - vaStart / PAGE_SIZE, paddr / PAGE_SIZE, flags)
    case FreeOp(vaStart, vaEnd) =>
      if vaEnd < vaStart then flat
      else flat - Range(vaStart / PAGE_SIZE, PagesUpTo(vaEnd) - vaStart / PAGE_SIZE)
  }

  ghost function RunOps(s: Machine, dir: nat, ops: seq<PageOp>): Machine
    requires dir < PAGES
    decreases |ops|
  {
    if ops == [] then s else RunOps(StepOp(s, dir, ops[0]), dir, ops[1..])
  }

  ghost function FlatOps(flat: map<nat, Word>, ops: seq<PageOp>): map<nat, Word>
    decreases |ops|
  {
    if ops == [] then flat else FlatOps(FlatOp(flat, ops[0]), ops[1..])
  }

  /** One call on full tables: it takes no block, moves no table, and is
      exactly the pointwise update of the flat map. */
  lemma StepOpMeaning(s: Machine, runs: Runs, dir: nat, tabs: Tables, op: PageOp)
    requires Tidy(s, runs, dir, tabs) && Full(tabs) && PresentOp(op)
    ensures
      var s' := StepOp(s, dir, op);
      && Tidy(s', runs, dir, tabs) && s'.table == s.table
      && Flat(View(s'), dir) == FlatOp(Flat(View(s), dir), op)
      && SameElsewhere(s.ram, s'.ram, Frames(dir, tabs))
  {
    hide Tidy, MapRegion, FreeVa, Flat, SameElsewhere, RegionMapped, RegionFreed;
    TidyDir(s, runs, dir, tabs);
    match op
    case MapOp(vaStart, paddr, vaEnd, flags) =>
      if RegionOk(vaStart, paddr, vaEnd) {
        MapRegionMeaning(s, runs, dir, tabs, vaStart, paddr, vaEnd, flags);
        RegionFlat(View(s), View(StepOp(s, dir, op)), dir, tabs, vaStart / PAGE_SIZE,
                   vaEnd / PAGE_SIZE - vaStart / PAGE_SIZE, paddr / PAGE_SIZE, flags);
      } else {
        MapRegionRefused(s, dir, vaStart, paddr, vaEnd, flags);
      }
    case FreeOp(vaStart, vaEnd) =>
      if vaStart <= vaEnd {
        FreeVaMeaning(s, runs, dir, tabs, vaStart, vaEnd);
        FreedFlat(View(s), View(StepOp(s, dir, op)), dir, tabs, vaStart / PAGE_SIZE,
                  PagesUpTo(vaEnd) - vaStart / PAGE_SIZE);
      } else {
        FreeVaRefused(s, dir, vaStart, vaEnd);
      }
  }

  /** Page-table refinement: after any run of map and unmap calls the two-level
      walk is the flat map that the same calls update pointwise; the tables keep
      their frames, apart from each other and from the directory, and the block
      table does not change. */
  lemma {:induction false} PageTableRefinement(s: Machine, runs: Runs, dir: nat, tabs: Tables, ops: seq<PageOp>)
    requires Tidy(s, runs, dir, tabs) && Full(tabs) && forall op :: op in ops ==> PresentOp(op)
    ensures
      var s' := RunOps(s, dir, ops);
      && Tidy(s', runs, dir, tabs) && s'.table == s.table
      && Flat(View(s'), dir) == FlatOps(Flat(View(s), dir), ops)
    decreases |ops|
  {
    hide Tidy, StepOp, Flat, FlatOp;
    TidyDir(s, runs, dir, tabs);
    if ops != [] {
      StepOpMeaning(s, runs, dir, tabs, ops[0]);
      PageTableRefinement(StepOp(s, dir, ops[0]), runs, dir, tabs, ops[1..]);
    }
  }

  /** Table life cycle: create, any run of map and unmap calls, free: the block
      table is back byte for byte. */
  lemma LifeCycleConservesHeap(s: Machine, before: Runs, flags: Byte, ops: seq<PageOp>)
    requires Represents(s.table, before) && Present(flags)
    requires CreateTables(s, flags).ok && forall op :: op in ops ==> PresentOp(op)
    ensures
      var r := CreateTables(s, flags);
      r.dir < PAGES && FreeTables(RunOps(r.s, r.dir, ops), r.dir).table == s.table
  {
    hide Tidy, RunOps, Represents, GrownBy, FreeSlots, CreateTables;
    var r := CreateTables(s, flags);
    var runs, tabs := CreateMeaning(s, before, flags);
    TidyDir(r.s, runs, r.dir, tabs);
    PageTableRefinement(r.s, runs, r.dir, tabs, ops);
    var s' := RunOps(r.s, r.dir, ops);
    FreeTablesMeaning(s', before, runs, r.dir, tabs);
    FreeSlotsSize(s', r.dir, true, 0, ENTRIES);
    TableUnique(s.table, FreeTables(s', r.dir).table, before);
  }
}
