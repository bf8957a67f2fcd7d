/** Building the image of a process: process_map_elf of src/task/process.c over
    the program headers of an ELF file in memory (src/loader/). */
module LoaderSpec {
  import opened Memory
  import opened HeapTable
  import opened MachineState
  import opened PageWalk
  import opened PagingSpec
  import opened VmemSpec
  import opened Status

  const PT_LOAD: Word := 1
  const STACK_END: Word := 0x083f_b000
  const STACK_START: Word := 0x083f_f000
  const STACK_FLAGS: Byte := 7

  /** struct elf32_phdr */
  datatype Phdr = Phdr(pType: Word, offset: Word, vaddr: Word, paddr: Word,
                       filesz: Word, memsz: Word, flags: Word, align: Word)

  const PHDR_SIZE: nat := 32

  function PhdrAt(m: seq<Byte>, at: nat): Phdr
    requires at + PHDR_SIZE <= |m|
  {
    Phdr(GetWord(m, at), GetWord(m, at + 4), GetWord(m, at + 8), GetWord(m, at + 12),
         GetWord(m, at + 16), GetWord(m, at + 20), GetWord(m, at + 24), GetWord(m, at + 28))
  }

  /** process_add_vmem_block, as process_map_elf calls it: a full table is ignored. */
  function Record(blocks: Blocks, block: Block): Blocks {
    FindMeaning(blocks, 0, 0);
    match Find(blocks, 0, 0)
    case None => blocks
    case Some(i) => blocks[i := block]
  }

  function SegmentFlags(ph: Phdr): Byte {
    if ph.flags / 2 % 2 == 1 then 7 else 5
  }

  /** Where the bytes of a segment are: in the file, or in a zeroed copy when
      the segment is longer than its file part. */
  datatype Source = Source(v: Vmem, pa: Word, status: Status)

  ghost function SegmentSource(v: Vmem, elf: Word, ph: Phdr): Source {
    var data := (elf + ph.offset) % SPACE;
    if ph.filesz == ph.memsz then Source(v, DownAlign(data), Ok)
    else if ph.filesz > ph.memsz then Source(v, 0, Panic)
    else if ph.memsz > 0xffff_f000 || !ScanSafe(v.s.table, NumBlocks(ph.memsz)) then Source(v, 0, Undefined)
    else
      var r := Kzalloc(v.s, ph.memsz);
      if r.ptr == 0 then Source(v.(s := r.s), 0, if ph.memsz <= KHEAP_TABLE_ADDR then NotEnoughMem else Undefined)
      else
        Source(Vmem(r.s.(ram := Copied(r.s.ram, r.ptr, data, ph.filesz)),
                    Record(v.blocks, Block(r.ptr, (r.ptr + ph.memsz) % SPACE))),
               r.ptr, Ok)
  }

  /** One turn of the loop of process_map_elf. */
  ghost function MapSegment(v: Vmem, dir: nat, elf: Word, ph: Phdr): (Vmem, Status)
    requires dir < PAGES
  {
    if ph.pType != PT_LOAD || ph.memsz == 0 then (v, Ok)
    else
      var src := SegmentSource(v, elf, ph);
      if src.status != Ok then (src.v, src.status)
      else
        var vaStart, vaEnd := DownAlign(ph.vaddr), UpAlign((ph.vaddr + ph.memsz) % SPACE);
        if vaEnd <= vaStart then (src.v, Ok)
        else
          var m := MapRegion(src.v.s, dir, vaStart, src.pa, vaEnd, SegmentFlags(ph));
          (src.v.(s := m.0), m.1)
  }

  /** The loop from header `i`; the headers are read from memory each turn. */
  ghost function MapSegments(v: Vmem, dir: nat, elf: Word, phoff: nat, phnum: nat, i: nat): (Vmem, Status)
    requires dir < PAGES && elf + phoff + PHDR_SIZE * phnum <= SPACE && i <= phnum
    decreases phnum - i
  {
    if i == phnum then (v, Ok)
    else
      var r := MapSegment(v, dir, elf, PhdrAt(v.s.ram, elf + phoff + PHDR_SIZE * i));
      if r.1 != Ok then r else MapSegments(r.0, dir, elf, phoff, phnum, i + 1)
  }

  /** One turn of the loop. */
  lemma SegmentsTurn(v: Vmem, dir: nat, elf: Word, phoff: nat, phnum: nat, i: nat, ph: Phdr)
    requires dir < PAGES && elf + phoff + PHDR_SIZE * phnum <= SPACE && i < phnum
    requires ph == PhdrAt(v.s.ram, elf + phoff + PHDR_SIZE * i)
    ensures
      var r := MapSegment(v, dir, elf, ph);
      MapSegments(v, dir, elf, phoff, phnum, i)
      == if r.1 != Ok then r else MapSegments(r.0, dir, elf, phoff, phnum, i + 1)
  {
    hide MapSegment, PhdrAt;
  }

  lemma NoSegments(v: Vmem, dir: nat, elf: Word, phoff: nat, phnum: nat)
    requires dir < PAGES && elf + phoff + PHDR_SIZE * phnum <= SPACE
    ensures MapSegments(v, dir, elf, phoff, phnum, phnum) == (v, Ok)
  {
  }

  /** e_phoff and e_phnum of the ELF header at `at`. */
  const EHDR_SIZE: nat := 52

  function PhOffset(m: seq<Byte>, at: nat): Word
    requires at + EHDR_SIZE <= |m|
  {
    GetWord(m, at + 28)
  }

  function PhCount(m: seq<Byte>, at: nat): nat
    requires at + EHDR_SIZE <= |m|
  {
    m[at + 44] + 0x100 * (m[at + 45] as int)
  }

  /** process_map_elf */
  ghost function MapElf(v: Vmem, dir: nat, elf: Word, stack: Word): (Vmem, Status)
    requires dir < PAGES && elf + EHDR_SIZE <= SPACE
  {
    var phoff, phnum := PhOffset(v.s.ram, elf), PhCount(v.s.ram, elf);
    if elf + phoff + PHDR_SIZE * phnum > SPACE then (v, Undefined)
    else
      var r := MapSegments(v, dir, elf, phoff, phnum, 0);
      if r.1 != Ok then r
      else
        var m := MapRegion(r.0.s, dir, STACK_END, stack, STACK_START, STACK_FLAGS);
        (r.0.(s := m.0), m.1)
  }
}
