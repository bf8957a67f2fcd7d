/** What the processor does with a virtual address, from the bytes in memory (section
    4.3 of the Intel SDM, volume 3A: 32-bit paging with pages of 4 KiB); and what the
    calls of src/memory/paging/paging.c mean for it, address by address. */
module HardwareWalk {
  import opened Memory
  import opened HeapTable
  import opened MachineState
  import opened PageWalk
  import opened PagingSpec
  import opened PagingLife
  import opened Status

  /** The physical address behind a virtual one, and what a process may do there. */
  datatype Access = Access(address: nat, write: bool, user: bool)

  /** The four bytes at `a`, the lowest first. */
  function Bytes4(m: seq<Byte>, a: nat): (w: Word)
    requires a + 4 <= |m|
  {
    m[a] as int + 0x100 * m[a + 1] as int + 0x1_0000 * m[a + 2] as int + 0x100_0000 * m[a + 3] as int
  }

  function Walk(m: seq<Byte>, cr3: nat, va: Word): Option<Access>
    requires |m| == 0x1_0000_0000 && cr3 + 4096 <= |m|
  {
    var pde := Bytes4(m, cr3 + va / 0x40_0000 * 4);
    if pde % 2 == 0 then None
    else
      EntryInside(pde, va / 4096 % 1024);
      var pte := Bytes4(m, pde / 4096 * 4096 + va / 4096 % 1024 * 4);
      if pte % 2 == 0 then None
      else
        Some(Access(pte / 4096 * 4096 + va % 4096,
                    pde / 2 % 2 == 1 && pte / 2 % 2 == 1, pde / 4 % 2 == 1 && pte / 4 % 2 == 1))
  }

  lemma EntryInside(e: Word, i: nat)
    requires i < 1024
    ensures e / 4096 * 4096 + i * 4 + 4 <= 0x1_0000_0000
  {
  }

  /** The two-level walk over pages of words is the walk over the bytes. */
  lemma WalkIs(s: Machine, dir: nat, va: Word)
    requires dir < PAGES
    ensures
      Walk(s.ram, dir * 4096, va) ==
      match Translate(View(s), dir, va)
      case None => None
      case Some(a) =>
        var rights := EffectiveRights(View(s), dir, va / 4096);
        Some(Access(a, rights.write, rights.user))
  {
    var vpn := va / 4096;
    SlotOfAddress(va);
    EntryBytes(s, dir, Slot(vpn));
    var d := View(s)[dir][Slot(vpn)];
    EntryBytes(s, Frame(d), Index(vpn));
  }

  lemma EntryBytes(s: Machine, frame: nat, i: nat)
    requires frame < PAGES && i < ENTRIES
    ensures View(s)[frame][i] == Bytes4(s.ram, frame * 4096 + i * 4)
  {
    assert PageWord(s.ram, frame, i) == View(s)[frame][i];
  }

  /** Equal walks over pages are equal walks over bytes. */
  lemma SameWalk(s: Machine, s': Machine, dir: nat, va: Word)
    requires dir < PAGES && Leaf(View(s'), dir, va / 4096) == Leaf(View(s), dir, va / 4096)
    requires EffectiveRights(View(s'), dir, va / 4096) == EffectiveRights(View(s), dir, va / 4096)
    ensures Walk(s'.ram, dir * 4096, va) == Walk(s.ram, dir * 4096, va)
  {
    hide Walk, EffectiveRights, Leaf;
    WalkIs(s, dir, va);
    WalkIs(s', dir, va);
  }

  // ------------------------------------------------------------------ create

  /** Creation gives the identity over all addresses, with the rights asked for. */
  lemma CreateExact(s: Machine, before: Runs, flags: Byte)
    requires Represents(s.table, before) && flags % 2 == 1 && CreateTables(s, flags).ok
    ensures
      var r := CreateTables(s, flags);
      && r.dir < PAGES
      && forall va: Word :: Walk(r.s.ram, r.dir * 4096, va)
                            == Some(Access(va, flags / 2 % 2 == 1, flags / 4 % 2 == 1))
  {
    hide CreateTables, Represents, FreeBelow, Tidy, GrownBy, SameElsewhere, Leaf, Walk, EffectiveRights, Pte;
    var r := CreateTables(s, flags);
    var runs, tabs := CreateMeaning(s, before, flags);
    TidyDir(r.s, runs, r.dir, tabs);
    forall va: Word
      ensures Walk(r.s.ram, r.dir * 4096, va) == Some(Access(va, flags / 2 % 2 == 1, flags / 4 % 2 == 1))
    {
      WalkIs(r.s, r.dir, va);
      assert va / 4096 < PAGES && Slot(va / 4096) < ENTRIES;
      TabFrame(r.s, runs, r.dir, tabs, Slot(va / 4096));
      IdentityRights(View(r.s), r.dir, va / 4096, tabs[Slot(va / 4096)], flags);
      assert va / 4096 * 4096 + va % 4096 == va;
    }
  }

  lemma TabFrame(s: Machine, runs: Runs, dir: nat, tabs: Tables, k: nat)
    requires Tidy(s, runs, dir, tabs) && Full(tabs) && k < ENTRIES
    ensures k in tabs && tabs[k] < PAGES
  {
  }

  lemma IdentityRights(w: Ram, dir: nat, vpn: nat, tab: nat, flags: Byte)
    requires dir < PAGES && vpn < PAGES && tab < PAGES && Slot(vpn) < ENTRIES
    requires Leaf(w, dir, vpn) == Some(Pte(vpn, flags)) && w[dir][Slot(vpn)] == Pte(tab, OrWrite(flags))
    ensures EffectiveRights(w, dir, vpn) == Rights(true, flags / 2 % 2 == 1, flags / 4 % 2 == 1)
    ensures Frame(Pte(vpn, flags)) == vpn
  {
    hide Leaf, Pte;
    PteParts(vpn, flags);
    PteParts(tab, OrWrite(flags));
    OrWriteBits(flags);
  }

  lemma OrWriteBits(flags: Byte)
    ensures Writable(OrWrite(flags)) && UserAccess(OrWrite(flags)) == UserAccess(flags)
  {
  }

  // --------------------------------------------------------------------- map

  /** Whole pages, the right way round. */
  predicate WholePages(vaStart: Word, paddr: Word, vaEnd: Word) {
    vaStart % 4096 == 0 && paddr % 4096 == 0 && vaEnd % 4096 == 0 && vaStart < vaEnd
  }

  /** paging_map_memory_region refuses what is not whole pages; otherwise each address
      of the region leads to the one as far from `paddr`, modulo 2^32, with the rights
      of the flags, and no other address leads elsewhere than before.  In other parts
      of 4 MiB the rights stay, too. */
  lemma MapExact(s: Machine, runs: Runs, dir: nat, tabs: Tables, vaStart: Word, paddr: Word, vaEnd: Word, flags: Byte)
    requires Tidy(s, runs, dir, tabs) && Full(tabs) && flags % 2 == 1
    ensures dir < PAGES
    ensures !WholePages(vaStart, paddr, vaEnd) ==>
              MapRegion(s, dir, vaStart, paddr, vaEnd, flags) == (s, InvalidArg)
    ensures WholePages(vaStart, paddr, vaEnd) ==>
              var r := MapRegion(s, dir, vaStart, paddr, vaEnd, flags);
              r.1 == Ok && forall va: Word :: Moved(s, r.0, dir, vaStart, paddr, vaEnd, flags, va)
  {
    hide Tidy, MapRegion, Leaf, SameElsewhere, RegionMapped, Walk;
    TidyDir(s, runs, dir, tabs);
    if WholePages(vaStart, paddr, vaEnd) {
      MapRegionMeaning(s, runs, dir, tabs, vaStart, paddr, vaEnd, flags);
      var s' := MapRegion(s, dir, vaStart, paddr, vaEnd, flags).0;
      forall va: Word ensures Moved(s, s', dir, vaStart, paddr, vaEnd, flags, va) {
        OneMoved(s, s', dir, tabs, vaStart, paddr, vaEnd, flags, va);
      }
    } else {
      MapRegionRefused(s, dir, vaStart, paddr, vaEnd, flags);
    }
  }

  /** What the walk finds at an address before and after the mapping. */
  ghost predicate Moved(s: Machine, s': Machine, dir: nat, vaStart: Word, paddr: Word, vaEnd: Word, flags: Byte,
                        va: Word)
    requires dir < PAGES
  {
    var was, now := Walk(s.ram, dir * 4096, va), Walk(s'.ram, dir * 4096, va);
    if vaStart <= va < vaEnd then
      now == Some(Access((paddr + (va - vaStart)) % 0x1_0000_0000, flags / 2 % 2 == 1, flags / 4 % 2 == 1))
    else
      && (now.Some? <==> was.Some?) && (now.Some? ==> now.value.address == was.value.address)
      && (va / 0x40_0000 < vaStart / 0x40_0000 || (vaEnd - 1) / 0x40_0000 < va / 0x40_0000 ==> now == was)
  }

  lemma OneMoved(s: Machine, s': Machine, dir: nat, tabs: Tables, vaStart: Word, paddr: Word, vaEnd: Word,
                 flags: Byte, va: Word)
    requires WholePages(vaStart, paddr, vaEnd) && dir < PAGES
    requires RegionMapped(View(s), View(s'), dir, tabs, vaStart / PAGE_SIZE,
                          vaEnd / PAGE_SIZE - vaStart / PAGE_SIZE, paddr / PAGE_SIZE, flags)
    ensures Moved(s, s', dir, vaStart, paddr, vaEnd, flags, va)
  {
    hide Leaf, RegionMapped, Walk, EffectiveRights, Pte;
    var lo, n, pfn, v := vaStart / 4096, vaEnd / 4096 - vaStart / 4096, paddr / 4096, va / 4096;
    WalkIs(s, dir, va);
    WalkIs(s', dir, va);
    RegionLeaf(View(s), View(s'), dir, tabs, lo, n, pfn, flags, v);
    RightsAfterMapping(View(s), View(s'), dir, tabs, lo, n, pfn, flags, v);
    assert lo <= v < lo + n <==> vaStart <= va < vaEnd;
    if vaStart <= va < vaEnd {
      PteFrame(pfn + v - lo, flags);
      Displaced(vaStart, paddr, va);
    } else {
      SlotsAside(vaStart, vaEnd, va);
    }
  }

  /** On tables that are not all there the call gets as far as page `stop`: to the end,
      or to a page that has no table while no block is free for one. */
  lemma MapAsFar(s: Machine, runs: Runs, dir: nat, tabs: Tables, vaStart: Word, paddr: Word, vaEnd: Word, flags: Byte)
    returns (stop: nat)
    requires Tidy(s, runs, dir, tabs) && flags % 2 == 1 && WholePages(vaStart, paddr, vaEnd)
    ensures dir < PAGES && vaStart / 4096 <= stop <= vaEnd / 4096
    ensures
      var r := MapRegion(s, dir, vaStart, paddr, vaEnd, flags);
      && r.1 == (if stop == vaEnd / 4096 then Ok else NotEnoughMem)
      && (r.1 != Ok ==> forall k :: 0 <= k < |r.0.table| ==> r.0.table[k] & 0x0f != 0)
      && (stop > vaStart / 4096 && stop < PAGES ==>
            forall va: Word :: Moved(s, r.0, dir, vaStart, paddr, stop * 4096, flags, va))
  {
    hide Tidy, MapMany, Leaf, SameElsewhere, RegionMapped, Walk, TablesGrew;
    TidyDir(s, runs, dir, tabs);
    var runs', tabs';
    runs', tabs', stop := MapManyMeaning(s, runs, dir, tabs, vaStart / PAGE_SIZE,
                                         vaEnd / PAGE_SIZE - vaStart / PAGE_SIZE, paddr / PAGE_SIZE, flags);
    var s' := MapRegion(s, dir, vaStart, paddr, vaEnd, flags).0;
    forall k | 0 <= k < |s'.table| && stop < vaEnd / 4096 ensures s'.table[k] & 0x0f != 0 {
      assert !FreeRun(s'.table, k, 1);
    }
    if vaStart / 4096 < stop < PAGES {
      forall va: Word ensures Moved(s, s', dir, vaStart, paddr, stop * 4096, flags, va) {
        OneMoved(s, s', dir, tabs', vaStart, paddr, stop * 4096, flags, va);
      }
    }
  }

  lemma PteFrame(pfn: nat, flags: Byte)
    ensures Frame(Pte(pfn, flags)) == pfn % PAGES
  {
    PteParts(pfn % PAGES, flags);
  }

  lemma Displaced(vaStart: Word, paddr: Word, va: Word)
    requires vaStart % 4096 == 0 && paddr % 4096 == 0 && vaStart <= va
    ensures (paddr / 4096 + va / 4096 - vaStart / 4096) % PAGES * 4096 + va % 4096
            == (paddr + (va - vaStart)) % 0x1_0000_0000
  {
  }

  lemma SlotsAside(vaStart: Word, vaEnd: Word, va: Word)
    requires vaStart % 4096 == 0 && vaEnd % 4096 == 0 && vaStart < vaEnd
    ensures va / 0x40_0000 < vaStart / 0x40_0000 || (vaEnd - 1) / 0x40_0000 < va / 0x40_0000 ==>
              !SlotTouched(Slot(va / 4096), vaStart / 4096, vaEnd / 4096 - vaStart / 4096)
  {
    SlotOfAddress(va);
    SlotOfAddress(vaStart);
    SlotOfAddress(vaEnd - 1);
    assert vaStart / 4096 + (vaEnd / 4096 - vaStart / 4096) - 1 == (vaEnd - 1) / 4096;
  }

  lemma SlotOfAddress(va: Word)
    ensures Slot(va / 4096) == va / 0x40_0000
  {
  }

  // -------------------------------------------------------------------- free

  /** paging_free_va: no address of the pages around the range leads anywhere, and
      every other address leads where it did, with the same rights. */
  lemma FreeExact(s: Machine, runs: Runs, dir: nat, tabs: Tables, vaStart: Word, vaEnd: Word)
    requires Tidy(s, runs, dir, tabs)
    ensures dir < PAGES
    ensures vaEnd < vaStart ==> FreeVa(s, dir, vaStart, vaEnd) == (s, InvalidArg)
    ensures vaStart <= vaEnd ==>
              var r := FreeVa(s, dir, vaStart, vaEnd);
              r.1 == Ok && forall va: Word ::
                Walk(r.0.ram, dir * 4096, va) ==
                if vaStart / 4096 * 4096 <= va < (vaEnd + 4095) / 4096 * 4096 then None
                else Walk(s.ram, dir * 4096, va)
  {
    hide Tidy, FreeVa, Leaf, SameElsewhere, Walk, EffectiveRights, Shape;
    TidyDir(s, runs, dir, tabs);
    if vaStart <= vaEnd {
      FreeVaMeaning(s, runs, dir, tabs, vaStart, vaEnd);
      var s' := FreeVa(s, dir, vaStart, vaEnd).0;
      forall va: Word
        ensures Walk(s'.ram, dir * 4096, va) ==
                if vaStart / 4096 * 4096 <= va < (vaEnd + 4095) / 4096 * 4096 then None
                else Walk(s.ram, dir * 4096, va)
      {
        WalkIs(s', dir, va);
        PagesAround(vaStart, vaEnd, va);
        if !(vaStart / 4096 * 4096 <= va < (vaEnd + 4095) / 4096 * 4096) {
          RightsByEntries(View(s), View(s'), dir, va / 4096);
          SameWalk(s, s', dir, va);
        }
      }
    } else {
      FreeVaRefused(s, dir, vaStart, vaEnd);
    }
  }

  lemma PagesAround(vaStart: Word, vaEnd: Word, va: Word)
    ensures vaStart / 4096 * 4096 <= va < (vaEnd + 4095) / 4096 * 4096
            <==> vaStart / PAGE_SIZE <= va / 4096 < PagesUpTo(vaEnd)
  {
  }

  lemma RightsByEntries(w: Ram, w': Ram, dir: nat, vpn: nat)
    requires dir < PAGES && vpn < PAGES && w'[dir] == w[dir] && Leaf(w', dir, vpn) == Leaf(w, dir, vpn)
    ensures EffectiveRights(w', dir, vpn) == EffectiveRights(w, dir, vpn)
  {
    hide Leaf;
  }

  /** In the tables, the entries of the pages freed that were present are zero, and no
      other entry changes. */
  ghost predicate EntriesCleared(w: Ram, w': Ram, tabs: Tables, lo: nat, n: nat) {
    forall k, i: nat :: k in tabs && tabs[k] < PAGES && i < ENTRIES ==>
      w'[tabs[k]][i] == if lo <= k * 1024 + i < lo + n && Present(w[tabs[k]][i]) then 0 else w[tabs[k]][i]
  }

  lemma {:induction false} FreeManyEntries(s: Machine, runs: Runs, dir: nat, tabs: Tables, lo: nat, n: nat)
    requires Tidy(s, runs, dir, tabs) && lo + n <= PAGES
    ensures dir < PAGES && EntriesCleared(View(s), View(FreeMany(s, dir, lo, n)), tabs, lo, n)
    decreases n
  {
    hide Tidy, FreeOne, EntriesCleared;
    TidyDir(s, runs, dir, tabs);
    if n > 0 {
      var s1 := FreeOne(s, dir, lo);
      FreeOneMeaning(s, runs, dir, tabs, lo);
      FreeOneEntries(s, runs, dir, tabs, lo);
      FreeManyEntries(s1, runs, dir, tabs, lo + 1, n - 1);
      ClearedMore(View(s), View(s1), View(FreeMany(s, dir, lo, n)), tabs, lo, n - 1);
    } else {
      NoneCleared(View(s), tabs, lo);
    }
  }

  lemma NoneCleared(w: Ram, tabs: Tables, lo: nat)
    ensures EntriesCleared(w, w, tabs, lo, 0)
  {
  }

  lemma ClearedMore(w: Ram, w1: Ram, w2: Ram, tabs: Tables, lo: nat, n: nat)
    requires EntriesCleared(w, w1, tabs, lo, 1) && EntriesCleared(w1, w2, tabs, lo + 1, n)
    ensures EntriesCleared(w, w2, tabs, lo, n + 1)
  {
  }

  lemma FreeOneEntries(s: Machine, runs: Runs, dir: nat, tabs: Tables, vpn: nat)
    requires Tidy(s, runs, dir, tabs) && vpn < PAGES
    ensures dir < PAGES && EntriesCleared(View(s), View(FreeOne(s, dir, vpn)), tabs, vpn, 1)
  {
    var w, w' := View(s), View(FreeOne(s, dir, vpn));
    forall k, i: nat | k in tabs && tabs[k] < PAGES && i < ENTRIES
      ensures w'[tabs[k]][i] == if vpn <= k * 1024 + i < vpn + 1 && Present(w[tabs[k]][i]) then 0 else w[tabs[k]][i]
    {
      EntryOf(vpn, k, i);
      assert Unshared(tabs, k, Slot(vpn));
    }
  }

  lemma EntryOf(vpn: nat, k: nat, i: nat)
    requires i < ENTRIES
    ensures k * 1024 + i == vpn <==> k == Slot(vpn) && i == Index(vpn)
  {
    PageNumber(vpn);
  }

  /** paging_free_va, entry by entry. */
  lemma FreeVaEntries(s: Machine, runs: Runs, dir: nat, tabs: Tables, vaStart: Word, vaEnd: Word)
    requires Tidy(s, runs, dir, tabs) && vaStart <= vaEnd
    ensures dir < PAGES
    ensures EntriesCleared(View(s), View(FreeVa(s, dir, vaStart, vaEnd).0), tabs, vaStart / 4096,
                           (vaEnd + 4095) / 4096 - vaStart / 4096)
  {
    hide Tidy, FreeMany, EntriesCleared;
    TidyDir(s, runs, dir, tabs);
    assert (vaEnd + 4095) / 4096 == PagesUpTo(vaEnd);
    FreeManyEntries(s, runs, dir, tabs, vaStart / 4096, PagesUpTo(vaEnd) - vaStart / 4096);
  }
}
