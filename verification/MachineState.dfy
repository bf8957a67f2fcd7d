/** The state the kernel works on, as a value: the 32-bit physical address space
    and the block table of the heap; and what kmalloc, kzalloc and kfree do to it. */
module MachineState {
  import opened Memory
  import opened HeapTable

  const KHEAP_ADDR: nat := 0x0100_0000

  /** INVARIANT of src/config.h: the kernel uses no physical address beyond this. */
  const KHEAP_SAFE_BOUNDARY: nat := 0x0800_0000

  /** Where the bytes of the block table are. */
  const KHEAP_TABLE_ADDR: nat := 0x7e00

  /** Size of the 32-bit address space. */
  const SPACE: nat := 0x1_0000_0000

  datatype Raw = Raw(ram: seq<Byte>, table: Table)

  ghost predicate Sound(s: Raw) {
    |s.ram| == SPACE && AddrOf(|s.table|) <= KHEAP_SAFE_BOUNDARY
  }

  type Machine = s: Raw | Sound(s)
    ghost witness Raw(seq(SPACE, _ => 0), [])

  /** Blocks asked for by `kmalloc(size)`; the sum is taken in 32 bits. */
  function NumBlocks(size: Word): nat {
    (size + PAGE_SIZE - 1) % SPACE / PAGE_SIZE
  }

  function AddrOf(block: nat): nat { KHEAP_ADDR + block * PAGE_SIZE }

  /** The subtraction is taken in 32 bits, so an address below the heap gives
      an index far above the table. */
  function BlockOf(addr: nat): nat {
    (if addr < KHEAP_ADDR then addr + SPACE - KHEAP_ADDR else addr - KHEAP_ADDR) / PAGE_SIZE
  }

  /** Every address inside a block leads back to that block. */
  lemma BlockOfInside(block: nat, offset: nat)
    requires offset < PAGE_SIZE
    ensures BlockOf(AddrOf(block) + offset) == block
  {
  }

  /** The bytes requested fit in the blocks counted exactly when the sum does not wrap. */
  lemma NumBlocksCovers(size: Word)
    ensures size <= NumBlocks(size) * PAGE_SIZE <==> size <= 0xffff_f000
    ensures size <= 0xffff_f000 ==> NumBlocks(size) * PAGE_SIZE < size + PAGE_SIZE
    ensures size > 0xffff_f000 ==> NumBlocks(size) == 0
  {
  }

  // ------------------------------------------------------------------ memcpy

  /** memcpy, byte by byte upwards. */
  ghost function Copied(m: seq<Byte>, dest: nat, src: nat, n: nat): (r: seq<Byte>)
    requires |m| == SPACE
    ensures |r| == SPACE
    decreases n
  {
    if n == 0 then m
    else Copied(m[dest % SPACE := m[src % SPACE]], dest + 1, src + 1, n - 1)
  }

  lemma CopiedTurn(m: seq<Byte>, dest: nat, src: nat, n: nat)
    requires |m| == SPACE && dest + n <= SPACE && src + n <= SPACE
    ensures n == 0 ==> Copied(m, dest, src, n) == m
    ensures n > 0 ==> Copied(m, dest, src, n) == Copied(m[dest := m[src]], dest + 1, src + 1, n - 1)
  {
    if n > 0 { assert dest % SPACE == dest && src % SPACE == src; }
  }

  /** Where memcpy has the byte for `dest + k` from.  It is the plain copy unless the
      source begins below the destination and reaches into it: then bytes repeat. */
  function CopiedFrom(dest: nat, src: nat, k: nat): nat {
    if src < dest then src + k % (dest - src) else src + k
  }

  lemma CopiedFromNext(dest: nat, src: nat, k: nat)
    ensures CopiedFrom(dest, src, 0) == src && CopiedFrom(dest, src, k) <= src + k
    ensures CopiedFrom(dest + 1, src + 1, k) ==
            if src < dest && CopiedFrom(dest, src, k + 1) == src then dest else CopiedFrom(dest, src, k + 1)
    ensures src >= dest ==> CopiedFrom(dest, src, k) >= src
    ensures src < dest ==> src <= CopiedFrom(dest, src, k) < dest
  {
    if src < dest {
      NextRemainder(k, dest - src);
      AtMost(k, dest - src);
    }
  }

  lemma AtMost(a: nat, d: nat)
    requires d > 0
    ensures a % d <= a
  {
  }

  lemma RemainderIs(a: nat, q: nat, r: nat, d: nat)
    requires d > 0 && a == q * d + r && r < d
    ensures a % d == r
  {
    var k := a / d - q;
    assert a == a / d * d + a % d;
    assert k * d == r - a % d;
    assert k >= 1 ==> k * d >= d;
    assert k <= -1 ==> k * d + d <= 0;
  }

  lemma NextRemainder(a: nat, d: nat)
    requires d > 0
    ensures (a + 1) % d == if a % d + 1 == d then 0 else a % d + 1
  {
    var q, r := a / d, a % d;
    assert a + 1 == q * d + (r + 1);
    if r + 1 == d {
      RemainderIs(a + 1, q + 1, 0, d);
    } else {
      RemainderIs(a + 1, q, r + 1, d);
    }
  }

  /** memcpy of any two ranges. */
  lemma {:induction false} CopiedExact(m: seq<Byte>, dest: nat, src: nat, n: nat)
    requires |m| == SPACE && dest + n <= SPACE && src + n <= SPACE
    ensures SameOutside(m, Copied(m, dest, src, n), dest, dest + n)
    ensures forall k: nat :: k < n ==>
              CopiedFrom(dest, src, k) < SPACE && Copied(m, dest, src, n)[dest + k] == m[CopiedFrom(dest, src, k)]
    decreases n
  {
    hide Copied, CopiedFrom;
    CopiedTurn(m, dest, src, n);
    if n > 0 {
      var m1 := m[dest := m[src]];
      CopiedExact(m1, dest + 1, src + 1, n - 1);
      forall k: nat | k < n
        ensures
          CopiedFrom(dest, src, k) < SPACE && Copied(m, dest, src, n)[dest + k] == m[CopiedFrom(dest, src, k)]
      {
        CopiedFromNext(dest, src, if k == 0 then 0 else k - 1);
        CopiedFromNext(dest, src, k);
      }
    }
  }

  /** memcpy of ranges apart. */
  lemma CopiedMeaning(m: seq<Byte>, dest: nat, src: nat, n: nat)
    requires |m| == SPACE && dest + n <= SPACE && src + n <= SPACE
    requires dest + n <= src || src + n <= dest
    ensures SameOutside(m, Copied(m, dest, src, n), dest, dest + n)
    ensures forall k :: dest <= k < dest + n ==> Copied(m, dest, src, n)[k] == m[src + k - dest]
  {
    hide Copied, CopiedFrom;
    CopiedExact(m, dest, src, n);
    forall k | dest <= k < dest + n ensures Copied(m, dest, src, n)[k] == m[src + k - dest] {
      var i := k - dest;
      CopiedFromApart(dest, src, n, i);
      assert Copied(m, dest, src, n)[dest + i] == m[CopiedFrom(dest, src, i)];
    }
  }

  lemma CopiedFromApart(dest: nat, src: nat, n: nat, k: nat)
    requires k < n && (dest + n <= src || src + n <= dest)
    ensures CopiedFrom(dest, src, k) == src + k
  {
    if src < dest { RemainderIs(k, 0, k, dest - src); }
  }

  /** memcpy in place. */
  method Memcpy(mem: array<Byte>, dest: nat, src: nat, num: nat)
    requires mem.Length == SPACE
    modifies mem
    ensures mem[..] == Copied(old(mem[..]), dest, src, num)
  {
    var i := 0;
    while i < num
      invariant i <= num
      invariant Copied(old(mem[..]), dest, src, num) == Copied(mem[..], dest + i, src + i, num - i)
    {
      ghost var m := mem[..];
      mem[(dest + i) % SPACE] := mem[(src + i) % SPACE];
      assert mem[..] == m[(dest + i) % SPACE := m[(src + i) % SPACE]];
      i := i + 1;
    }
  }

  // ------------------------------------------------------------- heap calls

  /** A call that hands out memory: the new state, and null or an address. */
  datatype Allocated = Allocated(s: Machine, ptr: Word)

  function Kmalloc(s: Machine, size: Word): Allocated {
    var n := NumBlocks(size);
    ScanMeaning(s.table, n);
    match Scan(s.table, n, 0)
    case Found(i) => Allocated(s.(table := Marked(s.table, i, Need(n))), AddrOf(i))
    case _ => Allocated(s, 0)
  }

  function Zeroed(m: seq<Byte>, at: nat, size: nat): (r: seq<Byte>)
    ensures SameOutside(m, r, at, at + size)
    ensures forall k :: at <= k < at + size && k < |m| ==> r[k] == 0
  {
    seq(|m|, k requires 0 <= k < |m| => if at <= k < at + size then 0 else m[k])
  }

  /** memset(0, 0, size): it clears low memory, and with it the entries of the
      block table it reaches. */
  function NullCleared(s: Machine, size: Word): Machine {
    s.(ram := Zeroed(s.ram, 0, size), table := ClearedTo(s.table, size))
  }

  function ClearedTo(t: Table, size: nat): (r: Table)
    ensures |r| == |t|
    ensures size <= KHEAP_TABLE_ADDR ==> r == t
  {
    seq(|t|, k requires 0 <= k < |t| => if KHEAP_TABLE_ADDR + k < size then FREE else t[k])
  }

  /** kzalloc, which clears the bytes at address zero when there is no block. */
  function Kzalloc(s: Machine, size: Word): Allocated {
    var r := Kmalloc(s, size);
    if r.ptr == 0 then Allocated(NullCleared(r.s, size), 0)
    else Allocated(r.s.(ram := Zeroed(r.s.ram, r.ptr, size)), r.ptr)
  }

  /** kfree, of any pointer. */
  function Kfree(s: Machine, ptr: nat): Machine {
    s.(table := Freed(s.table, BlockOf(ptr)))
  }

  // ---------------------------------------------------------------- meaning

  /** kmalloc refines the abstract allocator: null when nothing fits, and
      otherwise a new run at the lowest fit, apart from every live one. */
  lemma KmallocMeaning(s: Machine, runs: Runs, size: Word) returns (runs': Runs)
    requires Represents(s.table, runs) && ScanSafe(s.table, NumBlocks(size))
    ensures
      var r, n := Kmalloc(s, size), Need(NumBlocks(size));
      && r.s.ram == s.ram
      && Represents(r.s.table, runs')
      && (r.ptr == 0 ==> !FitExists(s.table, n) && r.s == s && runs' == runs)
      && (r.ptr != 0 ==>
            && r.ptr == AddrOf(BlockOf(r.ptr))
            && LowestFit(s.table, n, BlockOf(r.ptr))
            && BlockOf(r.ptr) !in runs && runs' == runs[BlockOf(r.ptr) := n]
            && Freed(r.s.table, BlockOf(r.ptr)) == s.table)
  {
    var n := NumBlocks(size);
    ScanMeaning(s.table, n);
    runs' := runs;
    if Scan(s.table, n, 0).Found? {
      var i := Scan(s.table, n, 0).at;
      BlockOfInside(i, 0);
      MarkedRepresents(s.table, runs, i, Need(n));
      FreeUndoesAlloc(s.table, runs, i, Need(n));
      runs' := runs[i := Need(n)];
    }
  }

  /** Blocks of a request of so many bytes: at least one, and in 32 bits the count
      wraps for the largest requests. */
  function BlocksFor(size: Word): nat {
    if size == 0 || size > 0xffff_f000 then 1 else (size + 4095) / 4096
  }

  /** The entries of blocks `i .. i + n` are free. */
  predicate AllFree(t: Table, i: nat, n: nat) {
    i + n <= |t| && forall k :: i <= k < i + n ==> t[k] & 0x0f == 0
  }

  /** kmalloc on any table, byte for byte: the lowest run of free entries that is long
      enough, its first entry with the bit 0x40 and all but its last with 0x80. */
  lemma KmallocExact(s: Machine, size: Word)
    requires ScanSafe(s.table, NumBlocks(size))
    ensures
      var r, t, n := Kmalloc(s, size), s.table, BlocksFor(size);
      if r.ptr == 0 then r.s == s && forall i: nat :: !AllFree(t, i, n)
      else
        var i := (r.ptr - 0x100_0000) / 4096;
        && r.ptr == 0x100_0000 + i * 4096 && AllFree(t, i, n) && (forall j: nat :: j < i ==> !AllFree(t, j, n))
        && r.s.ram == s.ram && |r.s.table| == |t|
        && (forall k :: 0 <= k < |t| ==>
              r.s.table[k] ==
              if i <= k < i + n
              then if k == i then if n == 1 then 0x41 else 0xc1 else if k == i + n - 1 then 0x01 else 0x81
              else t[k])
  {
    var n := NumBlocks(size);
    BlocksCounted(size);
    ScanMeaning(s.table, n);
    assert forall i: nat :: AllFree(s.table, i, Need(n)) ==> FreeRun(s.table, i, Need(n));
    if Scan(s.table, n, 0).Found? {
      var i := Scan(s.table, n, 0).at;
      BlockOfInside(i, 0);
      assert LowestFit(s.table, Need(n), i) && AllFree(s.table, i, Need(n));
      assert Mark(true, false) == 0x41 && Mark(true, true) == 0xc1;
      assert Mark(false, false) == 0x01 && Mark(false, true) == 0x81;
    }
  }

  lemma BlocksCounted(size: Word)
    ensures Need(NumBlocks(size)) == BlocksFor(size)
    ensures 0 < size <= 0xffff_f000 ==> NumBlocks(size) == BlocksFor(size)
  {
  }

  /** kzalloc: the block that kmalloc finds, with the bytes asked for cleared; without
      one, as many bytes from address zero, where byte `k` of the table is at 0x7e00 + k. */
  lemma KzallocExact(s: Machine, size: Word)
    ensures
      var r, r' := Kmalloc(s, size), Kzalloc(s, size);
      && r'.ptr == r.ptr && |r'.s.ram| == |s.ram| && |r'.s.table| == |s.table|
      && (forall a :: 0 <= a < |s.ram| ==> r'.s.ram[a] == if r.ptr <= a < r.ptr + size then 0 else s.ram[a])
      && (forall k :: 0 <= k < |s.table| ==>
            r'.s.table[k] == if r.ptr == 0 && 0x7e00 + k < size then 0 else r.s.table[k])
  {
    hide Scan, NumBlocks;
    ScanMeaning(s.table, NumBlocks(size));
  }

  /** kfree of any pointer: it takes the bytes below 0x100_0000 for blocks past the
      table. */
  lemma KfreeExact(s: Machine, ptr: Word)
    ensures Kfree(s, ptr).ram == s.ram
    ensures ptr < 0x100_0000 ==> Kfree(s, ptr) == s
    ensures ptr >= 0x100_0000 ==> forall k :: 0 <= k < |s.table| ==>
              var i := (ptr - 0x100_0000) / 4096;
              Kfree(s, ptr).table[k] ==
              if i <= k && (forall j :: i <= j < k ==> s.table[j] & 0x80 != 0) then 0 else s.table[k]
  {
    hide RunLength;
    FreedExact(s.table, BlockOf(ptr));
  }

  /** An allocation ends inside the address space. */
  lemma BlockEnds(s: Machine, size: Word)
    requires ScanSafe(s.table, NumBlocks(size)) && size <= 0xffff_f000
    ensures Kzalloc(s, size).ptr == Kmalloc(s, size).ptr && Kmalloc(s, size).ptr + size <= SPACE
  {
    ScanMeaning(s.table, NumBlocks(size));
    NumBlocksCovers(size);
  }

  /** kfree of null takes it for a block past the table, and does nothing. */
  lemma KfreeNull(s: Machine)
    ensures Kfree(s, 0) == s
  {
    assert BlockOf(0) > |s.table|;
  }

  lemma KfreeMeaning(s: Machine, runs: Runs, ptr: nat)
    requires Represents(s.table, runs) && BlockOf(ptr) in runs
    ensures Represents(Kfree(s, ptr).table, runs - {BlockOf(ptr)})
  {
    FreedRepresents(s.table, runs, BlockOf(ptr));
  }

  /** A request of at most a block, when one is free: the block is taken. */
  lemma TakenBlock(s: Machine, runs: Runs, size: nat, b: nat)
    requires Represents(s.table, runs) && 1 <= size <= PAGE_SIZE && FitExists(s.table, 1)
    requires b == BlockOf(Kmalloc(s, size).ptr)
    ensures
      var r := Kzalloc(s, size);
      && r.ptr == AddrOf(b) && b < |s.table| && b !in runs && r.s.table == Marked(s.table, b, 1)
      && Represents(r.s.table, runs[b := 1])
      && FreeBelow(r.s.table, |s.table|) == FreeBelow(s.table, |s.table|) - 1
      && SameOutside(s.ram, r.s.ram, r.ptr, r.ptr + PAGE_SIZE)
  {
    hide Represents, FreeBelow;
    assert NumBlocks(size) == 1;
    var _ := KmallocMeaning(s, runs, size);
    ScanMeaning(s.table, 1);
    assert FreeRun(s.table, b, 1) && IsFree(s.table[b]);
    MarkedRepresents(s.table, runs, b, 1);
    OneFewer(s.table, b, |s.table|);
  }

  /** A failed kzalloc leaves the block table alone exactly when every entry it
      reaches is free already; so every failed call of at most 0x7e00 bytes does. */
  lemma FailedKzalloc(s: Machine, runs: Runs, size: Word)
    requires Represents(s.table, runs) && ScanSafe(s.table, NumBlocks(size)) && Kzalloc(s, size).ptr == 0
    ensures Kzalloc(s, size).s.table == s.table <==>
            forall k :: 0 <= k < |s.table| && KHEAP_TABLE_ADDR + k < size ==> IsFree(s.table[k])
    ensures size <= KHEAP_TABLE_ADDR ==> Kzalloc(s, size).s.table == s.table
  {
    var n := NumBlocks(size);
    ScanMeaning(s.table, n);
    var t := ClearedTo(s.table, size);
    MarkBits(false, false);
    forall k | 0 <= k < |t| ensures t[k] == s.table[k] <==> KHEAP_TABLE_ADDR + k >= size || IsFree(s.table[k]) {
      FreeIffUncovered(s.table, runs, k);
    }
    if t == s.table {
      forall k | 0 <= k < |t| && KHEAP_TABLE_ADDR + k < size ensures IsFree(s.table[k]) {
        assert t[k] == s.table[k];
      }
    }
  }

  /** With the first block taken, a failed kzalloc of a megabyte marks it free. */
  lemma FailedKzallocClearsTable(s: Machine, runs: Runs)
    requires Represents(s.table, runs) && 0 in runs
    requires ScanSafe(s.table, NumBlocks(0x10_0000)) && Kzalloc(s, 0x10_0000).ptr == 0
    ensures 0 < |s.table| && !IsFree(s.table[0]) && IsFree(Kzalloc(s, 0x10_0000).s.table[0])
  {
    assert InRun(runs, 0, 0);
    MarkBits(true, 1 < runs[0]);
  }
}
