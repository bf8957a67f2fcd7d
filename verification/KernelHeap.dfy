/** The kernel heap of src/memory/heap/kheap.c, updating its block table and the
    memory behind it in place. */
module KernelHeap {
  import opened Memory
  import opened HeapTable
  import opened MachineState

  class KHeap {
    const entries: array<bv8>
    const mem: array<Byte>

    ghost predicate Valid() {
      && AddrOf(entries.Length) <= KHEAP_SAFE_BOUNDARY && mem.Length == SPACE
      && mem as object != entries as object
    }

    ghost function State(): Machine
      requires Valid()
      reads entries, mem
    {
      Raw(mem[..], entries[..])
    }

    /** kheap_create: every block free. */
    constructor (blocks: nat, ram: array<Byte>)
      requires AddrOf(blocks) <= KHEAP_SAFE_BOUNDARY && ram.Length == SPACE
      ensures Valid() && fresh(entries) && mem == ram
      ensures State().ram == old(ram[..]) && Represents(State().table, map[])
    {
      entries := new bv8[blocks](_ => FREE);
      mem := ram;
    }

    /** The inner scan of kmalloc at `i`. */
    method ProbeAt(i: nat, n: nat) returns (fits: bool)
      requires i < entries.Length && !Probe(entries[..], i, n, i).Overrun?
      ensures fits <==> Probe(entries[..], i, n, i) == Found(i)
    {
      var j := i;
      while j < i + n
        invariant i <= j <= entries.Length
        invariant Probe(entries[..], i, n, i) == Probe(entries[..], i, n, j)
      {
        if !IsFree(entries[j]) { return false; }
        j := j + 1;
      }
      return true;
    }

    /** The search of kmalloc. */
    method FindFit(n: nat) returns (found: bool, i: nat)
      requires !Scan(entries[..], n, 0).Overrun?
      ensures found ==> Scan(entries[..], n, 0) == Found(i) && i + Need(n) <= entries.Length
      ensures !found ==> Scan(entries[..], n, 0).NotFound?
    {
      ScanMeaning(entries[..], n);
      i := 0;
      while i < entries.Length
        invariant i <= entries.Length
        invariant Scan(entries[..], n, 0) == Scan(entries[..], n, i)
      {
        if IsFree(entries[i]) {
          ProbeMeaning(entries[..], i, n, i);
          found := ProbeAt(i, n);
          if found { return; }
        }
        i := i + 1;
      }
      found := false;
    }

    method MarkRun(start: nat, n: nat)
      requires start + Need(n) <= entries.Length
      modifies entries
      ensures entries[..] == Marked(old(entries[..]), start, Need(n))
    {
      entries[start] := TAKEN | IS_FIRST;
      if n > 1 {
        entries[start] := TAKEN | IS_FIRST | HAS_NEXT;
      }
      var i := start + 1;
      while i < start + n
        invariant start + 1 <= i <= start + Need(n)
        invariant forall k :: 0 <= k < entries.Length ==>
          entries[k] == if start <= k < i then Mark(k == start, k + 1 < start + Need(n))
                        else old(entries[..])[k]
      {
        entries[i] := TAKEN;
        if i < start + n - 1 {
          entries[i] := TAKEN | HAS_NEXT;
        }
        i := i + 1;
      }
    }

    /** kmalloc, where the scan stays in the table. */
    method Malloc(size: Word) returns (ptr: Word)
      requires Valid() && ScanSafe(entries[..], NumBlocks(size))
      modifies entries
      ensures Allocated(State(), ptr) == Kmalloc(old(State()), size)
    {
      var n := NumBlocks(size);
      ScanMeaning(entries[..], n);
      var found, i := FindFit(n);
      if !found { return 0; }
      MarkRun(i, n);
      ptr := AddrOf(i);
    }

    /** The entries of the block table that memset(0, 0, size) reaches. */
    method ClearEntries(size: Word)
      modifies entries
      ensures entries[..] == ClearedTo(old(entries[..]), size)
    {
      var k := 0;
      while k < entries.Length && KHEAP_TABLE_ADDR + k < size
        invariant k <= entries.Length
        invariant forall j :: 0 <= j < entries.Length ==>
          entries[j] == if j < k then FREE else old(entries[..])[j]
        invariant k == 0 || KHEAP_TABLE_ADDR + k <= size
      {
        entries[k] := FREE;
        k := k + 1;
      }
    }

    /** kzalloc */
    method Zalloc(size: Word) returns (ptr: Word)
      requires Valid() && ScanSafe(entries[..], NumBlocks(size)) && size <= 0xffff_f000
      modifies entries, mem
      ensures Allocated(State(), ptr) == Kzalloc(old(State()), size)
    {
      hide Scan, Marked;
      ptr := Malloc(size);
      ScanMeaning(old(entries[..]), NumBlocks(size));
      NumBlocksCovers(size);
      BlockEnds(old(State()), size);
      Fill(mem, ptr, 0, size);
      assert mem[..] == Zeroed(old(mem[..]), ptr, size);
      if ptr == 0 {
        ClearEntries(size);
      }
    }

    /** kfree */
    method Free(ptr: nat)
      requires Valid()
      modifies entries
      ensures State() == Kfree(old(State()), ptr)
    {
      var start := BlockOf(ptr);
      var i := start;
      while i < entries.Length
        invariant start <= i && (start < entries.Length ==>
          && i <= entries.Length
          && start + RunLength(old(entries[..]), start)
             == i + if i < entries.Length then RunLength(old(entries[..]), i) else 0)
        invariant forall k :: 0 <= k < entries.Length ==>
          entries[k] == if start <= k < i then FREE else old(entries[..])[k]
      {
        var entry := entries[i];
        entries[i] := FREE;
        i := i + 1;
        if !HasNext(entry) { break; }
      }
    }

    /** kheap_num_free_blocks */
    method NumFreeBlocks() returns (n: nat)
      ensures n == FreeBelow(entries[..], entries.Length)
    {
      n := 0;
      for i := 0 to entries.Length
        invariant n == FreeBelow(entries[..], i)
      {
        if IsFree(entries[i]) { n := n + 1; }
      }
    }
  }
}
