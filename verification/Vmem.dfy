/** The region table of a process and the memory calls on it, in place. */
module Vmem {
  import opened Memory
  import opened HeapTable
  import opened MachineState
  import opened PageWalk
  import opened PagingSpec
  import opened Paging
  import opened VmemSpec
  import opened LoaderSpec
  import opened Status

  /** The part of `struct process` these calls use. */
  class Process {
    const blocks: array<Block>
    const pt: PageTable

    ghost predicate Valid()
      reads pt
    {
      pt.Valid() && blocks.Length == MAX_BLOCKS
      && blocks as object != pt.heap.mem && blocks as object != pt.heap.entries
    }

    ghost function Now(): Vmem
      requires Valid()
      reads pt, pt.heap.mem, pt.heap.entries, blocks
    {
      VmemSpec.Vmem(pt.State(), blocks[..])
    }

    constructor (table: PageTable)
      requires table.Valid()
      ensures Valid() && pt == table && fresh(blocks)
      ensures forall i :: 0 <= i < MAX_BLOCKS ==> blocks[i] == Block(0, 0)
    {
      blocks := new Block[MAX_BLOCKS](_ => Block(0, 0));
      pt := table;
    }

    /** The scan of process_get_vmem_block, and of process_add_vmem_block for 0. */
    method GetVmemBlock(va: Word) returns (r: Option<nat>)
      requires Valid()
      ensures r == Find(blocks[..], va, 0)
    {
      var i := 0;
      while i < MAX_BLOCKS
        invariant i <= MAX_BLOCKS
        invariant Find(blocks[..], va, 0) == Find(blocks[..], va, i)
      {
        if blocks[i].start == va { return Some(i); }
        i := i + 1;
      }
      return None;
    }

    /** process_free_vmem_block */
    method FreeVmemBlock(va: Word) returns (status: Status)
      requires Valid()
      modifies blocks, pt.heap.mem
      ensures (Now(), status) == FreeBlock(old(Now()), pt.Dir(), va)
    {
      hide FreeVa;
      FindMeaning(blocks[..], va, 0);
      var i := GetVmemBlock(va);
      if i.None? { return InvalidArg; }
      var freed := pt.FreeVaRange(va, blocks[i.value].end);
      blocks[i.value] := Block(0, 0);
      status := Ok;
    }

    /** syscall_mmap */
    method SyscallMmap(vaStart: Word, vaEnd: Word, userFlags: Word) returns (status: Status)
      requires Valid()
      modifies blocks, pt.heap.mem, pt.heap.entries
      ensures (Now(), status) == Mmap(old(Now()), pt.Dir(), vaStart, vaEnd, userFlags)
    {
      hide MapRegion, Kzalloc, Kfree, Find, Scan, NumBlocks;
      var flags: Byte := PRESENT + USER_ALLOW;
      if userFlags / 2 % 2 == 1 { flags := flags + WRITE_ALLOW; }
      if vaStart != DownAlign(vaStart) || vaEnd != UpAlign(vaEnd) { return InvalidArg; }
      if vaStart < KHEAP_SAFE_BOUNDARY || vaEnd < KHEAP_SAFE_BOUNDARY || vaStart >= vaEnd {
        return InvalidUserMemAccess;
      }
      var nbytes := vaEnd - vaStart;
      ScanMeaning(pt.heap.entries[..], NumBlocks(nbytes));
      if Scan(pt.heap.entries[..], NumBlocks(nbytes), 0).Overrun? { return Undefined; }
      var paStart := pt.heap.Zalloc(nbytes);
      if paStart == 0 {
        return if nbytes <= KHEAP_TABLE_ADDR then NotEnoughMem else Undefined;
      }
      FindMeaning(blocks[..], 0, 0);
      var i := GetVmemBlock(0);
      if i.None? {
        pt.heap.Free(paStart);
        return OutOfVmemBlocks;
      }
      blocks[i.value] := Block(vaStart, vaEnd);
      assert blocks[..] == old(blocks[..])[i.value := Block(vaStart, vaEnd)];
      status := pt.MapMemoryRegion(vaStart, paStart, vaEnd, flags);
      if status != Ok {
        blocks[i.value] := Block(0, 0);
        assert blocks[..] == old(blocks[..])[i.value := Block(0, 0)];
        pt.heap.Free(paStart);
      }
    }

    /** The block loop of process_exit. */
    method ExitVmemBlocks()
      requires Valid()
      modifies blocks, pt.heap.mem
      ensures Now() == ExitBlocks(old(Now()), pt.Dir(), 0)
    {
      hide FreeBlock;
      var i := 0;
      while i < MAX_BLOCKS
        invariant i <= MAX_BLOCKS
        invariant ExitBlocks(old(Now()), pt.Dir(), 0) == ExitBlocks(Now(), pt.Dir(), i)
      {
        if blocks[i].start != 0 {
          var freed := FreeVmemBlock(blocks[i].start);
        }
        i := i + 1;
      }
    }

    method ReadPhdr(at: nat) returns (ph: Phdr)
      requires Valid() && at + PHDR_SIZE <= SPACE
      ensures ph == PhdrAt(pt.heap.mem[..], at)
    {
      var w0 := LoadWord(pt.heap.mem, at);
      var w1 := LoadWord(pt.heap.mem, at + 4);
      var w2 := LoadWord(pt.heap.mem, at + 8);
      var w3 := LoadWord(pt.heap.mem, at + 12);
      var w4 := LoadWord(pt.heap.mem, at + 16);
      var w5 := LoadWord(pt.heap.mem, at + 20);
      var w6 := LoadWord(pt.heap.mem, at + 24);
      var w7 := LoadWord(pt.heap.mem, at + 28);
      ph := Phdr(w0, w1, w2, w3, w4, w5, w6, w7);
    }

    /** The source of one segment: the file itself or a zeroed copy. */
    method LoadSource(elf: Word, ph: Phdr) returns (pa: Word, status: Status)
      requires Valid()
      modifies blocks, pt.heap.mem, pt.heap.entries
      ensures Source(Now(), pa, status) == SegmentSource(old(Now()), elf, ph)
    {
      hide Kzalloc, Copied, Find, Scan, NumBlocks;
      var data := (elf + ph.offset) % SPACE;
      if ph.filesz == ph.memsz { return DownAlign(data), Ok; }
      if ph.filesz > ph.memsz { return 0, Panic; }
      ScanMeaning(pt.heap.entries[..], NumBlocks(ph.memsz));
      if ph.memsz > 0xffff_f000 || Scan(pt.heap.entries[..], NumBlocks(ph.memsz), 0).Overrun? {
        return 0, Undefined;
      }
      pa := pt.heap.Zalloc(ph.memsz);
      if pa == 0 {
        return 0, if ph.memsz <= KHEAP_TABLE_ADDR then NotEnoughMem else Undefined;
      }
      Memcpy(pt.heap.mem, pa, data, ph.filesz);
      FindMeaning(blocks[..], 0, 0);
      var i := GetVmemBlock(0);
      if i.Some? {
        blocks[i.value] := Block(pa, (pa + ph.memsz) % SPACE);
        assert blocks[..] == old(blocks[..])[i.value := Block(pa, (pa + ph.memsz) % SPACE)];
      }
      status := Ok;
    }

    /** One turn of process_map_elf. */
    method LoadSegment(elf: Word, ph: Phdr) returns (status: Status)
      requires Valid()
      modifies blocks, pt.heap.mem, pt.heap.entries
      ensures (Now(), status) == MapSegment(old(Now()), pt.Dir(), elf, ph)
    {
      hide SegmentSource, MapRegion;
      if ph.pType != PT_LOAD || ph.memsz == 0 { return Ok; }
      var pa;
      pa, status := LoadSource(elf, ph);
      if status != Ok { return; }
      var vaStart, vaEnd := DownAlign(ph.vaddr), UpAlign((ph.vaddr + ph.memsz) % SPACE);
      var flags: Byte := PRESENT + USER_ALLOW;
      if ph.flags / 2 % 2 == 1 { flags := flags + WRITE_ALLOW; }
      if vaEnd <= vaStart { return Ok; }
      status := pt.MapMemoryRegion(vaStart, pa, vaEnd, flags);
    }

    /** process_map_elf */
    method ProcessMapElf(elf: Word, stack: Word) returns (status: Status)
      requires Valid() && elf + EHDR_SIZE <= SPACE
      modifies blocks, pt.heap.mem, pt.heap.entries
      ensures (Now(), status) == MapElf(old(Now()), pt.Dir(), elf, stack)
    {
      hide MapSegment, MapSegments, PhdrAt, MapRegion, GetWord;
      var phoff := LoadWord(pt.heap.mem, elf + 28);
      var phnum := pt.heap.mem[elf + 44] + 0x100 * (pt.heap.mem[elf + 45] as int);
      if elf + phoff + PHDR_SIZE * phnum > SPACE { return Undefined; }
      var i := 0;
      while i < phnum
        invariant i <= phnum
        invariant MapSegments(old(Now()), pt.Dir(), elf, phoff, phnum, 0)
                  == MapSegments(Now(), pt.Dir(), elf, phoff, phnum, i)
      {
        var ph := ReadPhdr(elf + phoff + PHDR_SIZE * i);
        SegmentsTurn(Now(), pt.Dir(), elf, phoff, phnum, i, ph);
        status := LoadSegment(elf, ph);
        if status != Ok { return; }
        i := i + 1;
      }
      NoSegments(Now(), pt.Dir(), elf, phoff, phnum);
      status := pt.MapMemoryRegion(STACK_END, stack, STACK_START, STACK_FLAGS);
    }
  }
}
