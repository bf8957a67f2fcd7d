/** The disk stream of src/disk/streamer.c: sector-sized reads behind a byte
    position.  The disk is a sequence of bytes whose sector reads succeed, and
    the sector buffer is taken from the kernel heap and given back. */
module Stream {
  import opened Memory
  import opened HeapTable
  import opened MachineState
  import opened KernelHeap

  const SECTOR: nat := 512

  /** The bytes a read takes.  Its end is computed in 32 bits, so a range that
      wraps around ends before it starts and nothing is read. */
  function Wanted(offset: Word, size: Word): (n: Word)
    ensures n == size || (n == 0 && offset + size >= SPACE)
    ensures offset + n < SPACE
  {
    if offset + size < SPACE then size else 0
  }

  /** The memory of the free blocks of a heap. */
  predicate InFreeBlock(t: Table, a: nat) {
    KHEAP_ADDR <= a && BlockOf(a) < |t| && IsFree(t[BlockOf(a)])
  }

  /** Where the sector buffer is: in a free block, or at address zero when there
      is none. */
  ghost predicate InBuffer(t: Table, a: nat) {
    InFreeBlock(t, a) || (!FitExists(t, 1) && a < SECTOR)
  }

  /** Memory a read may fill: apart from the sector buffer and the block table. */
  ghost predicate Clear(t: Table, to: nat, n: nat) {
    && to + n <= SPACE && (to + n <= KHEAP_TABLE_ADDR || KHEAP_TABLE_ADDR + |t| <= to)
    && forall a: nat :: to <= a < to + n ==> !InBuffer(t, a)
  }

  /** The bytes are at `to`, and nothing else has changed but the memory of the
      sector buffer. */
  ghost predicate ReadInto(s: Machine, s': Machine, to: nat, data: seq<Byte>) {
    && s'.table == s.table && to + |data| <= SPACE && s'.ram[to..to + |data|] == data
    && forall a: nat :: a < SPACE && !InBuffer(s.table, a) && !(to <= a < to + |data|) ==> s'.ram[a] == s.ram[a]
  }

  /** One read after another is one read. */
  lemma ReadTwice(s: Machine, s1: Machine, s2: Machine, to: nat, a: seq<Byte>, b: seq<Byte>)
    requires ReadInto(s, s1, to, a) && ReadInto(s1, s2, to + |a|, b) && Clear(s.table, to, |a| + |b|)
    ensures ReadInto(s, s2, to, a + b)
  {
    hide InBuffer;
    forall k | 0 <= k < |a| ensures s2.ram[to + k] == a[k] {
      assert s1.ram[to..to + |a|][k] == a[k];
    }
    forall k | 0 <= k < |b| ensures s2.ram[to + |a| + k] == b[k] {
      assert s2.ram[to + |a|..to + |a| + |b|][k] == b[k];
    }
    assert s2.ram[to..to + |a + b|] == a + b;
  }

  /** The sector buffer: the lowest free block, or null, which is used like any
      other address and which kfree takes for a block past the table. */
  lemma BufferTaken(s: Machine, runs: Runs)
    requires Represents(s.table, runs)
    ensures
      var r := Kzalloc(s, SECTOR);
      && ScanSafe(s.table, NumBlocks(SECTOR)) && r.ptr + SECTOR <= SPACE
      && Kfree(r.s, r.ptr).table == s.table
      && SameOutside(s.ram, r.s.ram, r.ptr, r.ptr + SECTOR)
      && (forall a: nat :: r.ptr <= a < r.ptr + SECTOR ==> InBuffer(s.table, a))
  {
    assert NumBlocks(SECTOR) == 1;
    var _ := KmallocMeaning(s, runs, SECTOR);
    var r := Kzalloc(s, SECTOR);
    if r.ptr != 0 {
      var b := BlockOf(r.ptr);
      assert IsFree(s.table[b]);
      forall a: nat | r.ptr <= a < r.ptr + SECTOR ensures InBuffer(s.table, a) {
        BlockOfInside(b, a - AddrOf(b));
      }
    } else {
      KfreeNull(r.s);
    }
  }

  class DiskStream {
    const disk: seq<Byte>
    const heap: KHeap
    var byteOffset: Word

    ghost predicate Valid() { heap.Valid() && |disk| % SECTOR == 0 }

    /** disk_stream_new */
    constructor (disk: seq<Byte>, heap: KHeap)
      requires heap.Valid() && |disk| % SECTOR == 0
      ensures Valid() && this.disk == disk && this.heap == heap && byteOffset == 0
    {
      this.disk, this.heap, byteOffset := disk, heap, 0;
    }

    /** disk_stream_seek */
    method Seek(pos: Word)
      modifies `byteOffset
      ensures byteOffset == pos
    {
      byteOffset := pos;
    }

    /** disk_read_sectors of one sector. */
    method ReadSector(lba: nat, buf: nat)
      requires Valid() && (lba + 1) * SECTOR <= |disk| && buf + SECTOR <= SPACE
      modifies heap.mem
      ensures heap.mem[..] == Blit(old(heap.mem[..]), buf, disk[lba * SECTOR..(lba + 1) * SECTOR])
    {
      Transfer(heap.mem, buf, disk[lba * SECTOR..(lba + 1) * SECTOR]);
    }

    /** One turn of the loop of disk_stream_read: read a sector, copy its part. */
    method Turn(buf: nat, to: nat, end: Word) returns (n: nat)
      requires Valid() && byteOffset < end <= |disk|
      requires buf + SECTOR <= SPACE && to + (end - byteOffset) <= SPACE
      requires buf + SECTOR <= to || to + (end - byteOffset) <= buf
      modifies `byteOffset, heap.mem
      ensures 0 < n && byteOffset == old(byteOffset) + n <= end
      ensures Landed(old(heap.mem[..]), heap.mem[..], buf, to, disk[old(byteOffset)..byteOffset])
    {
      hide Blit, SameOutside, Copied, Landed;
      var lba, lbaOffset := byteOffset / SECTOR, byteOffset % SECTOR;
      SectorOnDisk(|disk|, byteOffset);
      n := end - byteOffset;
      if lbaOffset + n > SECTOR {
        n := SECTOR - lbaOffset;
      }
      ReadSector(lba, buf);
      ghost var m := heap.mem[..];
      SliceOfBlit(old(heap.mem[..]), buf, disk[lba * SECTOR..(lba + 1) * SECTOR], lbaOffset, n);
      SliceOfSlice(disk, lba * SECTOR, (lba + 1) * SECTOR, lbaOffset, n);
      Memcpy(heap.mem, to, buf + lbaOffset, n);
      CopyLands(old(heap.mem[..]), m, heap.mem[..], buf, to, buf + lbaOffset, n);
      byteOffset := byteOffset + n;
    }

    /** The loop of disk_stream_read up to `end`. */
    method ReadLoop(buf: nat, to: nat, end: Word)
      requires Valid() && byteOffset <= |disk| && buf + SECTOR <= SPACE && to <= SPACE
      requires byteOffset < end ==>
        && end <= |disk| && to + (end - byteOffset) <= SPACE
        && (buf + SECTOR <= to || to + (end - byteOffset) <= buf)
      modifies `byteOffset, heap.mem
      ensures byteOffset == if old(byteOffset) < end then end else old(byteOffset)
      ensures Landed(old(heap.mem[..]), heap.mem[..], buf, to, disk[old(byteOffset)..byteOffset])
    {
      hide Landed;
      ghost var start := byteOffset;
      var at := to;
      assert disk[start..start] == [];
      NothingLanded(heap.mem[..], buf, to);
      while byteOffset < end
        invariant start <= byteOffset <= |disk| && (start < end ==> byteOffset <= end)
        invariant end <= start ==> byteOffset == start
        invariant at == to + (byteOffset - start)
        invariant Landed(old(heap.mem[..]), heap.mem[..], buf, to, disk[start..byteOffset])
      {
        ghost var off, m := byteOffset, heap.mem[..];
        var n := Turn(buf, at, end);
        MoreLanded(old(heap.mem[..]), m, heap.mem[..], buf, to, disk[start..off], disk[off..byteOffset]);
        assert disk[start..off] + disk[off..byteOffset] == disk[start..byteOffset];
        at := at + n;
      }
    }

    /** disk_stream_read: the slice of the disk at the position, which moves past
        it, is at `to`; the heap table is as before, and no other memory changes
        but the buffer's, also when there is no block for it. */
    method Read(to: nat, size: Word, ghost runs: Runs) returns (ret: int)
      requires Valid() && Represents(heap.entries[..], runs)
      requires byteOffset + Wanted(byteOffset, size) <= |disk|
      requires Clear(heap.entries[..], to, Wanted(byteOffset, size))
      modifies `byteOffset, heap.entries, heap.mem
      ensures ret == 0
      ensures byteOffset == old(byteOffset) + Wanted(old(byteOffset), size)
      ensures ReadInto(old(heap.State()), heap.State(), to, disk[old(byteOffset)..byteOffset])
    {
      hide SameOutside, Represents, Kzalloc, ScanSafe, Freed, InBuffer, Landed, ReadInto;
      ghost var s := heap.State();
      BufferTaken(s, runs);
      var buf := heap.Zalloc(SECTOR);
      BufferApart(s.table, buf, to, Wanted(byteOffset, size));
      ReadLoop(buf, to, (byteOffset + size) % SPACE);
      heap.Free(buf);
      BufferRead(s, Kzalloc(s, SECTOR).s.ram, heap.State(), buf, to, disk[old(byteOffset)..byteOffset]);
      ret := 0;
    }

    /** Reading `a` bytes and then `b` is reading `a + b`. */
    method ReadInTwo(to: nat, a: Word, b: Word, ghost runs: Runs)
      requires Valid() && Represents(heap.entries[..], runs)
      requires byteOffset + a + b < SPACE && byteOffset + a + b <= |disk| && Clear(heap.entries[..], to, a + b)
      modifies `byteOffset, heap.entries, heap.mem
      ensures byteOffset == old(byteOffset) + Wanted(old(byteOffset), a + b)
      ensures ReadInto(old(heap.State()), heap.State(), to, disk[old(byteOffset)..byteOffset])
    {
      hide Represents, InBuffer;
      ghost var start, s := byteOffset, heap.State();
      var _ := Read(to, a, runs);
      ghost var mid, s1 := byteOffset, heap.State();
      var _ := Read(to + a, b, runs);
      ReadTwice(s, s1, heap.State(), to, disk[start..mid], disk[mid..byteOffset]);
      assert disk[start..mid] + disk[mid..byteOffset] == disk[start..byteOffset];
    }
  }

  // ------------------------------------------------------- memory in between

  /** The bytes are at `to`, and nothing else has changed but the sector at `buf`. */
  ghost predicate Landed(m: seq<Byte>, m': seq<Byte>, buf: nat, to: nat, data: seq<Byte>) {
    && |m'| == |m| && to + |data| <= |m| && m'[to..to + |data|] == data
    && forall a :: 0 <= a < |m| && !(buf <= a < buf + SECTOR) && !(to <= a < to + |data|) ==> m'[a] == m[a]
  }

  lemma NothingLanded(m: seq<Byte>, buf: nat, to: nat)
    requires to <= |m|
    ensures Landed(m, m, buf, to, [])
  {
  }

  lemma MoreLanded(m: seq<Byte>, m1: seq<Byte>, m2: seq<Byte>, buf: nat, to: nat, a: seq<Byte>, b: seq<Byte>)
    requires Landed(m, m1, buf, to, a) && Landed(m1, m2, buf, to + |a|, b)
    requires buf + SECTOR <= to || to + |a| + |b| <= buf
    ensures Landed(m, m2, buf, to, a + b)
  {
    forall k | 0 <= k < |a| ensures m2[to + k] == a[k] {
      assert m1[to..to + |a|][k] == a[k];
    }
    forall k | 0 <= k < |b| ensures m2[to + |a| + k] == b[k] {
      assert m2[to + |a|..to + |a| + |b|][k] == b[k];
    }
    assert m2[to..to + |a + b|] == a + b;
  }

  /** A part of the sector at `buf`, copied to `to`. */
  lemma CopyLands(m: seq<Byte>, m1: seq<Byte>, m2: seq<Byte>, buf: nat, to: nat, from: nat, n: nat)
    requires |m| == SPACE && SameOutside(m, m1, buf, buf + SECTOR) && m2 == Copied(m1, to, from, n)
    requires buf <= from && from + n <= buf + SECTOR <= SPACE && to + n <= SPACE
    requires buf + SECTOR <= to || to + n <= buf
    ensures Landed(m, m2, buf, to, m1[from..from + n])
  {
    hide Copied;
    CopiedMeaning(m1, to, from, n);
    var data := m1[from..from + n];
    forall k | 0 <= k < n ensures m2[to..to + n][k] == data[k] {
      assert m2[to + k] == m1[from + (to + k) - to];
    }
    assert m2[to..to + n] == data;
  }

  /** Clear memory is apart from the buffer. */
  lemma BufferApart(t: Table, buf: nat, to: nat, n: nat)
    requires Clear(t, to, n) && forall a: nat :: buf <= a < buf + SECTOR ==> InBuffer(t, a)
    ensures n == 0 || buf + SECTOR <= to || to + n <= buf
  {
    hide InBuffer;
    var a := if buf < to then to else buf;
    assert buf <= a < buf + SECTOR ==> InBuffer(t, a);
    assert to <= a < to + n ==> !InBuffer(t, a);
  }

  /** The state between allocation and release of the buffer. */
  lemma BufferRead(s: Machine, m: seq<Byte>, s': Machine, buf: nat, to: nat, data: seq<Byte>)
    requires s'.table == s.table && SameOutside(s.ram, m, buf, buf + SECTOR) && Landed(m, s'.ram, buf, to, data)
    requires forall a: nat :: buf <= a < buf + SECTOR ==> InBuffer(s.table, a)
    ensures ReadInto(s, s', to, data)
  {
    hide InBuffer;
  }

  /** The sector of a byte on the disk is on the disk. */
  lemma SectorOnDisk(size: nat, offset: nat)
    requires size % SECTOR == 0 && offset < size
    ensures (offset / SECTOR + 1) * SECTOR <= size && offset == offset / SECTOR * SECTOR + offset % SECTOR
  {
    var sectors, lba := size / SECTOR, offset / SECTOR;
    assert size == sectors * SECTOR && lba * SECTOR <= offset;
    assert lba + 1 <= sectors;
  }

  lemma SliceOfBlit(m: seq<Byte>, at: nat, data: seq<Byte>, from: nat, n: nat)
    requires at + |data| <= |m| && from + n <= |data|
    ensures Blit(m, at, data)[at + from..at + from + n] == data[from..from + n]
  {
  }
}
