/** src/memory/paging/paging.c in place: each call changes the memory and the
    block table exactly as its specification function says. */
module Paging {
  import opened Memory
  import opened MachineState
  import opened KernelHeap
  import opened PageWalk
  import opened PagingSpec
  import opened PagingLife
  import opened Status

  class PageTable {
    const heap: KHeap
    var cr3: nat

    ghost predicate Valid()
      reads this
    {
      heap.Valid() && cr3 % PAGE_SIZE == 0 && cr3 < SPACE
    }

    ghost function State(): Machine
      requires heap.Valid()
      reads heap.entries, heap.mem
    {
      heap.State()
    }

    function Dir(): nat
      reads this
    {
      cr3 / PAGE_SIZE
    }

    constructor (h: KHeap)
      requires h.Valid()
      ensures Valid() && heap == h
    {
      heap := h;
      cr3 := 0;
    }

    method Get(frame: nat, i: nat) returns (w: Word)
      requires heap.Valid() && frame < PAGES && i < ENTRIES
      ensures w == GetEntry(State(), frame, i)
    {
      w := LoadEntry(heap.mem, frame, i);
    }

    method Put(frame: nat, i: nat, w: Word)
      requires heap.Valid() && frame < PAGES && i < ENTRIES
      modifies heap.mem
      ensures State() == PutEntry(old(State()), frame, i, w)
    {
      StoreEntry(heap.mem, frame, i, w);
    }

    /** paging_new_vpn_to_pfn with overwrite = true */
    method NewVpnToPfn(vpn: nat, pfn: nat, flags: Byte) returns (ok: bool)
      requires Valid() && vpn < PAGES
      modifies heap.mem, heap.entries
      ensures Mapping(State(), ok) == MapOne(old(State()), Dir(), vpn, pfn, flags)
    {
      hide PutEntry, GetEntry, Kzalloc, View;
      var pte := Get(cr3 / PAGE_SIZE, Slot(vpn));
      var table;
      if !Present(pte) {
        var ptr := heap.Zalloc(PAGE_SIZE);
        if ptr == 0 { return false; }
        table := FrameOf(ptr);
      } else {
        table := Frame(pte);
      }
      Put(table, Index(vpn), Pte(pfn, flags));
      Put(cr3 / PAGE_SIZE, Slot(vpn), Pte(table, flags));
      ok := true;
    }

    /** paging_map_memory_region */
    method MapMemoryRegion(vaStart: Word, paddr: Word, vaEnd: Word, flags: Byte) returns (status: Status)
      requires Valid()
      modifies heap.mem, heap.entries
      ensures (State(), status) == MapRegion(old(State()), Dir(), vaStart, paddr, vaEnd, flags)
    {
      hide MapOne;
      if vaStart % PAGE_SIZE != 0 || paddr % PAGE_SIZE != 0 || vaEnd % PAGE_SIZE != 0 {
        return InvalidArg;
      }
      var vpnStart, vpnEnd, pfnStart := vaStart / PAGE_SIZE, vaEnd / PAGE_SIZE, paddr / PAGE_SIZE;
      if vpnEnd <= vpnStart { return InvalidArg; }
      var i := 0;
      while i + vpnStart < vpnEnd
        invariant 0 <= i <= vpnEnd - vpnStart
        invariant MapMany(old(State()), Dir(), vpnStart, vpnEnd - vpnStart, pfnStart, flags)
                  == MapMany(State(), Dir(), vpnStart + i, vpnEnd - vpnStart - i, pfnStart + i, flags)
      {
        var ok := NewVpnToPfn(vpnStart + i, pfnStart + i, flags);
        if !ok { return NotEnoughMem; }
        i := i + 1;
      }
      status := Ok;
    }

    /** paging_free_vpn */
    method FreeVpn(vpn: nat)
      requires Valid() && vpn < PAGES
      modifies heap.mem
      ensures State() == FreeOne(old(State()), Dir(), vpn)
    {
      var pte := Get(cr3 / PAGE_SIZE, Slot(vpn));
      if !Present(pte) { return; }
      var second := Get(Frame(pte), Index(vpn));
      if !Present(second) { return; }
      Put(Frame(pte), Index(vpn), 0);
    }

    /** paging_free_va */
    method FreeVaRange(vaStart: Word, vaEnd: Word) returns (status: Status)
      requires Valid()
      modifies heap.mem
      ensures (State(), status) == FreeVa(old(State()), Dir(), vaStart, vaEnd)
    {
      hide FreeOne;
      if vaEnd < vaStart { return InvalidArg; }
      var startVpn, endVpn := vaStart / PAGE_SIZE, vaEnd / PAGE_SIZE;
      if vaEnd % PAGE_SIZE != 0 { endVpn := endVpn + 1; }
      var i := startVpn;
      while i < endVpn
        invariant startVpn <= i <= endVpn <= PAGES
        invariant FreeMany(old(State()), Dir(), startVpn, endVpn - startVpn)
                  == FreeMany(State(), Dir(), i, endVpn - i)
      {
        FreeVpn(i);
        i := i + 1;
      }
      status := Ok;
    }

    /** kfree of the tables of the slots below `to`: the loops of
        paging_free_page_table and of the failure branch of creation. */
    method FreeSlotTables(dir: nat, checked: bool, to: nat)
      requires heap.Valid() && dir < PAGES && to <= ENTRIES
      modifies heap.entries
      ensures State() == FreeSlots(old(State()), dir, checked, 0, to)
    {
      var j := 0;
      while j < to
        invariant j <= to
        invariant FreeSlots(old(State()), dir, checked, 0, to) == FreeSlots(State(), dir, checked, j, to)
      {
        var pte := Get(dir, j);
        if !checked || Present(pte) {
          heap.Free(Frame(pte) * PAGE_SIZE);
        }
        j := j + 1;
      }
    }

    /** paging_free_page_table */
    method FreePageTable()
      requires Valid()
      modifies heap.entries
      ensures State() == FreeTables(old(State()), Dir())
    {
      hide FreeSlots;
      FreeSlotTables(cr3 / PAGE_SIZE, true, ENTRIES);
      heap.Free(cr3);
    }

    /** The inner loop of paging_create_4gb_page_tables. */
    method FillTable(tab: nat, i: nat, flags: Byte)
      requires heap.Valid() && tab < PAGES && i < ENTRIES
      modifies heap.mem
      ensures State() == FillFrom(old(State()), tab, i, flags, 0)
    {
      hide FillFrom, PutEntry;
      var j := 0;
      while j < ENTRIES
        invariant j <= ENTRIES
        invariant FillFrom(old(State()), tab, i, flags, 0) == FillFrom(State(), tab, i, flags, j)
      {
        FillTurn(State(), tab, i, flags, j);
        Put(tab, j, Pte(i * ENTRIES + j, flags));
        j := j + 1;
      }
      FillTurn(State(), tab, i, flags, j);
    }

    /** paging_create_4gb_page_tables */
    method Create4gbPageTables(flags: Byte) returns (status: Status)
      requires Valid()
      modifies this, heap.mem, heap.entries
      ensures Valid()
      ensures status == if CreateTables(old(State()), flags).ok then Ok else NotEnoughMem
      ensures State() == CreateTables(old(State()), flags).s
      ensures status == Ok ==> Dir() == CreateTables(old(State()), flags).dir
    {
      hide AddTables, FillFrom, FreeSlots, PutEntry, GetEntry, Kzalloc, Kfree, View;
      var ptr := heap.Zalloc(PAGE_SIZE);
      if ptr == 0 { return NotEnoughMem; }
      var dir := FrameOf(ptr);
      var i := 0;
      while i < ENTRIES
        invariant i <= ENTRIES && cr3 == old(cr3)
        invariant CreateTables(old(State()), flags)
                  == var m := AddTables(State(), dir, flags, i);
                     Created(m.s, m.ok, if m.ok then dir else 0)
      {
        AddTablesTurn(State(), dir, flags, i);
        var pt := heap.Zalloc(PAGE_SIZE);
        if pt == 0 {
          heap.Free(dir * PAGE_SIZE);
          FreeSlotTables(dir, false, i);
          return NotEnoughMem;
        }
        FillTable(FrameOf(pt), i, flags);
        Put(dir, i, Pte(FrameOf(pt), OrWrite(flags)));
        i := i + 1;
      }
      AddTablesTurn(State(), dir, flags, i);
      cr3 := dir * PAGE_SIZE;
      status := Ok;
    }
  }
}
