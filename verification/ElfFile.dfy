/** From the disk to a process: process_new takes the stack block and elf_load reads
    the file into the heap.  The file is open, and its size is known. */
module ElfFile {
  import opened Memory
  import opened HeapTable
  import opened MachineState
  import opened KernelHeap
  import opened PageWalk
  import opened Stream
  import opened FatSpec
  import opened Fat16
  import opened ProcessImage
  import opened Status
  import Arguments

  /** sizeof(struct elf_file) */
  const ELF_FILE_SIZE: Word := 132

  /** The block table after a kzalloc that finds its blocks. */
  function Taken(t: Table, size: Word): Option<Table> {
    var n := NumBlocks(size);
    ScanMeaning(t, n);
    match Scan(t, n, 0)
    case Found(i) => Some(Marked(t, i, Need(n)))
    case _ => None
  }

  /** Stack, descriptor of the file and file find their blocks one after the other. */
  predicate FileFits(t: Table, size: Word) {
    var t1 := Taken(t, Arguments.STACK_SIZE);
    t1.Some? && var t2 := Taken(t1.value, ELF_FILE_SIZE);
    t2.Some? && Taken(t2.value, size).Some?
  }

  /** An allocation of `size` bytes at `ptr`, new to `runs`. */
  predicate Grabbed(runs: Runs, runs': Runs, ptr: Word, size: Word) {
    var b, n := BlockOf(ptr), Need(NumBlocks(size));
    ptr == AddrOf(b) && b !in runs && runs' == runs[b := n] && ptr + size <= AddrOf(b + n) <= KHEAP_SAFE_BOUNDARY
  }

  /** kzalloc with the outcomes it can have. */
  method Grab(heap: KHeap, size: Word, ghost runs: Runs) returns (ptr: Word, status: Status, ghost runs': Runs)
    requires heap.Valid() && Represents(heap.entries[..], runs) && size <= 0xffff_f000
    modifies heap.entries, heap.mem
    ensures status == Ok <==> Taken(old(heap.entries[..]), size).Some?
    ensures status == Ok ==>
      heap.entries[..] == Taken(old(heap.entries[..]), size).value && Grabbed(runs, runs', ptr, size)
    ensures status == Ok || status == Undefined || (status == NotEnoughMem && runs' == runs)
    ensures status != Undefined ==> Represents(heap.entries[..], runs')
  {
    hide Represents, Scan, Marked, NumBlocks;
    ptr, runs' := 0, runs;
    ScanMeaning(heap.entries[..], NumBlocks(size));
    if Scan(heap.entries[..], NumBlocks(size), 0).Overrun? { return 0, Undefined, runs; }
    runs' := KmallocMeaning(heap.State(), runs, size);
    ptr := heap.Zalloc(size);
    if ptr == 0 {
      return 0, if size <= KHEAP_TABLE_ADDR then NotEnoughMem else Undefined, runs;
    }
    NumBlocksCovers(size);
    status := Ok;
  }

  /** The memory of an allocation can be read to. */
  lemma TakenClear(t: Table, runs: Runs, b: nat, to: nat, n: nat)
    requires Represents(t, runs) && b in runs && AddrOf(|t|) <= KHEAP_SAFE_BOUNDARY
    requires AddrOf(b) <= to && to + n <= AddrOf(b + runs[b])
    ensures Clear(t, to, n)
  {
    forall a: nat | to <= a < to + n ensures !InBuffer(t, a) {
      var k := BlockOf(a);
      assert InRun(runs, b, k);
      FreeIffUncovered(t, runs, k);
    }
  }

  /** And so can a local variable of the kernel, below the heap and above the
      block table. */
  lemma LocalClear(t: Table, local: nat)
    requires KHEAP_TABLE_ADDR + |t| <= local && local + 4 <= KHEAP_ADDR
    ensures Clear(t, local, 4)
  {
  }

  /** The file on the disk, as one item from its start, is read without a gap. */
  lemma WholeFile(y: Layout, first: int, n: nat, size: nat)
    requires 0 < y.size < SPACE && File(y, first, n) && size <= n * y.size
    ensures Times(1, size) == size && ItemsReadable(y, first, 0, size, 1) && |Contents(y, first, n)| == n * y.size
    ensures ItemsRead(y, first, 0, size, 1) == Contents(y, first, n)[..size]
  {
    hide File, Contents, Readable, DataRead, Follows;
    TimesTurn(1, size);
    TimesTurn(0, size);
    StartOfFile(y);
    AlignedFollows(y, first, n, 0, size);
    OneItem(y, first, size);
    ItemsRoundTrip(y, first, n, 0, size, 1);
    assert Contents(y, first, n)[0..size] == Contents(y, first, n)[..size];
  }

  lemma StartOfFile(y: Layout)
    requires 0 < y.size
    ensures Rest(y, 0) == 0
  {
  }

  lemma OneItem(y: Layout, first: int, size: nat)
    requires 0 < y.size < SPACE && Follows(y, first, 0, size)
    ensures ItemsFollow(y, first, 0, size, 1)
  {
    hide Follows;
    assert ItemsFollow(y, first, size, size, 0);
  }

  /** process_new up to the loaded file.  It succeeds exactly when the file is not
      empty and the three allocations find their blocks, and then the heap holds
      the file as its cluster chain has it, and the stack block. */
  method LoadFile(fs: FileSystem, fd: Descriptor, size: Word, local: nat, ghost n: nat, ghost runs: Runs)
    returns (stack: Word, elf: Word, status: Status, ghost runs': Runs)
    requires fs.Valid() && Represents(fs.heap.entries[..], runs) && fd.pos == 0
    requires File(fs.Y(), fd.firstCluster, n) && size <= n * fs.Y().size && size + fs.Y().size <= INT_LIMIT
    requires KHEAP_TABLE_ADDR + fs.heap.entries.Length <= local && local + 4 <= KHEAP_ADDR
    modifies fd, fs.fatStream, fs.clusterStream, fs.heap.entries, fs.heap.mem
    ensures status == Ok <==> size > 0 && FileFits(old(fs.heap.entries[..]), size)
    ensures status == Ok ==>
      && |Contents(fs.Y(), fd.firstCluster, n)| == n * fs.Y().size
      && Prepared(fs.heap.State(), runs', elf, stack, Contents(fs.Y(), fd.firstCluster, n)[..size])
    ensures status != Undefined ==> Represents(fs.heap.entries[..], runs')
  {
    hide Represents, Taken, File, Contents, Clear, Fetched, ItemsReadable, ItemsRead, Times, Prepared, LayoutOf,
      NumBlocks;
    elf := 0;
    stack, status, runs' := Grab(fs.heap, Arguments.STACK_SIZE, runs);
    if status != Ok { return; }
    ghost var runs1 := runs';
    var elfFile;
    elfFile, status, runs' := Grab(fs.heap, ELF_FILE_SIZE, runs1);
    if status != Ok { return; }
    ghost var runs2 := runs';
    elf, status, runs' := Grab(fs.heap, size, runs2);
    if status == Undefined { return; }
    if status == NotEnoughMem {
      runs' := GiveUp(fs.heap, elfFile, runs2);
      return;
    }
    if size == 0 {
      ghost var runs3 := GiveUp(fs.heap, elf, runs');
      runs' := GiveUp(fs.heap, elfFile, runs3);
      status := InvalidArg;
      return;
    }
    ghost var y, s := fs.Y(), fs.heap.State();
    WholeFile(y, fd.firstCluster, n, size);
    GrabbedTarget(s, runs2, runs', elf, size, local);
    var _ := fs.Read(fd, size, 1, elf, local, runs');
    ghost var file := Contents(y, fd.firstCluster, n)[..size];
    FetchedTable(s, fs.heap.State(), elf, file, local);
    ThreeGrabbed(s, fs.heap.State(), runs, runs1, runs2, runs', stack, elfFile, elf, size, local, file);
  }

  /** kfree of an allocation. */
  method GiveUp(heap: KHeap, ptr: Word, ghost runs: Runs) returns (ghost runs': Runs)
    requires heap.Valid() && Represents(heap.entries[..], runs) && BlockOf(ptr) in runs
    modifies heap.entries
    ensures runs' == runs - {BlockOf(ptr)} && Represents(heap.entries[..], runs')
  {
    hide Represents;
    KfreeMeaning(heap.State(), runs, ptr);
    heap.Free(ptr);
    runs' := runs - {BlockOf(ptr)};
  }

  lemma GrabbedTarget(s: Machine, runs: Runs, runs': Runs, ptr: Word, size: Word, local: nat)
    requires Represents(s.table, runs') && Grabbed(runs, runs', ptr, size)
    requires KHEAP_TABLE_ADDR + |s.table| <= local && local + 4 <= KHEAP_ADDR
    ensures Target(s.table, ptr, size, local)
  {
    hide Represents, Clear;
    TakenClear(s.table, runs', BlockOf(ptr), ptr, size);
    LocalClear(s.table, local);
  }

  /** The file read into the last of the three allocations. */
  lemma ThreeGrabbed(s: Machine, s': Machine, runs: Runs, runs1: Runs, runs2: Runs, runs3: Runs, stack: Word,
                     elfFile: Word, elf: Word, size: Word, local: nat, file: seq<Byte>)
    requires Grabbed(runs, runs1, stack, Arguments.STACK_SIZE) && Grabbed(runs1, runs2, elfFile, ELF_FILE_SIZE)
    requires Grabbed(runs2, runs3, elf, size) && Represents(s.table, runs3) && Fetched(s, s', elf, file, local)
    requires |file| == size
    ensures Prepared(s', runs3, elf, stack, file)
  {
    hide Represents, InBuffer, NumBlocks;
    forall i | 0 <= i < |file| ensures s'.ram[elf + i] == file[i] {
      assert s'.ram[elf..elf + |file|][i] == file[i];
    }
  }
}
