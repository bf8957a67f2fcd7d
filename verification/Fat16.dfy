/** The read path of src/fs/fat/fat16.c over two disk streams, in place. */
module Fat16 {
  import opened Memory
  import opened HeapTable
  import opened MachineState
  import opened KernelHeap
  import opened Stream
  import opened FatSpec

  /** Offsets are computed in signed 32-bit integers. */
  const INT_LIMIT: nat := 0x8000_0000

  /** struct fat16_file_descriptor, with the first cluster of its entry. */
  class Descriptor {
    const firstCluster: int
    var pos: nat

    constructor (first: int)
      ensures firstCluster == first && pos == 0
    {
      firstCluster, pos := first, 0;
    }
  }

  class FileSystem {
    const volume: Volume
    const heap: KHeap
    const clusterStream: DiskStream
    const fatStream: DiskStream

    ghost predicate Valid() {
      && clusterStream.Valid() && fatStream.Valid() && clusterStream != fatStream
      && clusterStream.heap == heap && fatStream.heap == heap
      && clusterStream.disk == volume.disk && fatStream.disk == volume.disk
      && 0 < volume.sectorsPerCluster <= 0xff
    }

    ghost function Y(): (y: Layout)
      requires Valid()
      ensures 0 < y.size < SPACE && y.disk == volume.disk
    {
      LayoutOf(volume)
    }

    constructor (v: Volume, h: KHeap)
      requires h.Valid() && |v.disk| % SECTOR == 0 && 0 < v.sectorsPerCluster <= 0xff
      ensures Valid() && volume == v && heap == h && fresh(clusterStream) && fresh(fatStream)
    {
      volume, heap := v, h;
      var c := new DiskStream(v.disk, h);
      var f := new DiskStream(v.disk, h);
      clusterStream, fatStream := c, f;
    }

    /** fat16_get_fat_entry, on an entry that is on the disk; `local` is the
        address of its variable. */
    method GetFatEntry(cluster: int, local: nat, ghost runs: Runs) returns (entry: int)
      requires Valid() && Represents(heap.entries[..], runs) && !Y().next(cluster).OffDisk?
      requires Clear(heap.entries[..], local, 4)
      modifies fatStream, heap.entries, heap.mem
      ensures Y().next(cluster) == if EndsWalk(entry) then Broken else To(entry)
      ensures Fetched(old(heap.State()), heap.State(), 0, [], local)
    {
      hide Represents, GetWord, DataStart, SectorOf, ReadInto, InBuffer, Fetched;
      ghost var s := heap.State();
      var pos := EntryPos(volume, cluster);
      fatStream.Seek(pos);
      StoreWord(heap.mem, local, 0);
      ghost var s1 := heap.State();
      var _ := fatStream.Read(local, 4, runs);
      LocalRead(s, s1, heap.State(), local, volume.disk[pos..pos + 4]);
      WordOfSlice(volume.disk, pos, heap.mem[..], local);
      var w := LoadWord(heap.mem, local);
      entry := Signed(w);
    }

    /** fat16_get_cluster_at_byte_offset_from_start: the chain walk. */
    method GetClusterAt(start: int, offset: nat, local: nat, ghost runs: Runs) returns (res: int)
      requires Valid() && Represents(heap.entries[..], runs) && Linked(Y(), start, Hop(Y(), offset))
      requires offset + Y().size <= INT_LIMIT && Clear(heap.entries[..], local, 4)
      modifies fatStream, heap.entries, heap.mem
      ensures res == Walk(Y(), start, Hop(Y(), offset))
      ensures Fetched(old(heap.State()), heap.State(), 0, [], local)
    {
      hide Represents, LayoutOf, Clear, Fetched;
      ghost var s := heap.State();
      NothingFetched(s, local);
      var numClusters := NumClusters(offset);
      var curr := start;
      var i: nat := 1;
      while i < numClusters
        invariant 1 <= i <= numClusters
        invariant Linked(Y(), curr, numClusters - i)
        invariant Walk(Y(), start, numClusters - 1) == Walk(Y(), curr, numClusters - i)
        invariant heap.entries[..] == old(heap.entries[..]) && Fetched(s, heap.State(), 0, [], local)
      {
        ghost var s1 := heap.State();
        var entry := GetFatEntry(curr, local, runs);
        LocalTwice(s, s1, heap.State(), local);
        FetchedTable(s, heap.State(), 0, [], local);
        if EndsWalk(entry) {
          return IO_ERROR;
        }
        curr := entry;
        i := i + 1;
      }
      res := curr;
    }

    /** The clusters up to an offset, rounded up as the source does. */
    method NumClusters(offset: nat) returns (n: nat)
      requires Valid() && offset + Y().size <= INT_LIMIT
      ensures n == Hop(Y(), offset) + 1
    {
      var bytesPerCluster := volume.sectorsPerCluster * SECTOR;
      n := (offset + 1 + bytesPerCluster - 1) / bytesPerCluster;
      Advance(Y(), offset, bytesPerCluster);
    }

    /** The byte position of an offset in a cluster, in 32 bits. */
    method BytePos(cluster: int, o: nat) returns (pos: Word)
      requires Valid() && o < SPACE
      ensures pos == FatSpec.Seek(Y(), cluster, o)
    {
      var sector := SectorOf(volume, cluster);
      pos := (sector * SECTOR + o) % SPACE;
      Carried(sector * SECTOR, o);
    }

    /** fat16_read_file_data_from_cluster, to the memory at `to`.  It always reports
        success. */
    method ReadFileData(start: int, offset: nat, totalBytes: nat, to: nat, local: nat, ghost runs: Runs)
      returns (res: int)
      requires Valid() && Represents(heap.entries[..], runs) && Target(heap.entries[..], to, totalBytes, local)
      requires Readable(Y(), start, offset, totalBytes) && offset + totalBytes + Y().size <= INT_LIMIT
      modifies fatStream, clusterStream, heap.entries, heap.mem
      ensures res == 0
      ensures Fetched(old(heap.State()), heap.State(), to, DataRead(Y(), start, offset, totalBytes), local)
    {
      hide Represents, Y, Linked, Hop, ChunkPos, DataRead, Readable, Clear, Fetched;
      ghost var y, s := Y(), heap.State();
      ghost var all := DataRead(y, start, offset, totalBytes);
      var off, total, out := offset, totalBytes, to;
      ghost var done: seq<Byte> := [];
      NothingFetched(s, local);
      PartOf(s.table, to, totalBytes, local, 0, 0);
      NoBytes(s, s, to, local);
      while total > 0
        invariant 0 <= total <= totalBytes && out == to + |done| && |done| == totalBytes - total
        invariant off == offset + |done|
        invariant Readable(y, start, off, total) && all == done + DataRead(y, start, off, total)
        invariant heap.entries[..] == old(heap.entries[..]) && Fetched(s, heap.State(), to, done, local)
      {
        DataReadTurn(y, start, off, total);
        ghost var pos, s1 := ChunkPos(y, start, off), heap.State();
        PartOf(s.table, to, totalBytes, local, |done|, total);
        var n := ReadChunk(start, off, total, out, local, runs);
        ghost var chunk := y.disk[pos..pos + n];
        PartOf(s.table, to, totalBytes, local, 0, |done| + n);
        MoreFetched(s, s1, heap.State(), to, done, chunk, local);
        FetchedTable(s, heap.State(), to, done + chunk, local);
        ghost var rest := DataRead(y, start, off + n, total - n);
        assert done + (chunk + rest) == (done + chunk) + rest;
        done := done + chunk;
        out, off, total := out + n, off + n, total - n;
      }
      DataReadTurn(y, start, off, total);
      assert done + [] == done;
      res := 0;
    }

    /** One turn of its loop. */
    method ReadChunk(start: int, off: nat, total: nat, to: nat, local: nat, ghost runs: Runs) returns (n: nat)
      requires Valid() && Represents(heap.entries[..], runs) && Target(heap.entries[..], to, total, local)
      requires 0 < total && off + total + Y().size <= INT_LIMIT
      requires Linked(Y(), start, Hop(Y(), off)) && InDisk(Y(), ChunkPos(Y(), start, off), Min(total, Y().size))
      modifies fatStream, clusterStream, heap.entries, heap.mem
      ensures n == Min(total, Y().size)
      ensures
        var pos := ChunkPos(Y(), start, off);
        Fetched(old(heap.State()), heap.State(), to, volume.disk[pos..pos + n], local)
    {
      hide Represents, Linked, Walk, SectorOf, NextOf, Clear, Fetched, ReadInto;
      ghost var s := heap.State();
      var bytesPerCluster := volume.sectorsPerCluster * SECTOR;
      var currCluster := GetClusterAt(start, off, local, runs);
      ghost var s1 := heap.State();
      var pos := BytePos(currCluster, off % bytesPerCluster);
      n := if total > bytesPerCluster then bytesPerCluster else total;
      clusterStream.Seek(pos);
      FetchedTable(s, s1, 0, [], local);
      PartOf(s.table, to, total, local, 0, n);
      var _ := clusterStream.Read(to, n, runs);
      NoBytes(s, s1, to, local);
      ReadFetched(s1, heap.State(), to, volume.disk[pos..pos + n], local);
      MoreFetched(s, s1, heap.State(), to, [], volume.disk[pos..pos + n], local);
      assert [] + volume.disk[pos..pos + n] == volume.disk[pos..pos + n];
    }

    /** fat16_read: `count` items of `size` bytes from the descriptor's position, to
        the memory at `to`. */
    method Read(fd: Descriptor, size: nat, count: nat, to: nat, local: nat, ghost runs: Runs) returns (res: int)
      requires Valid() && Represents(heap.entries[..], runs)
      requires Target(heap.entries[..], to, Times(count, size), local)
      requires fd.pos + Times(count, size) + Y().size <= INT_LIMIT
      requires ItemsReadable(Y(), fd.firstCluster, fd.pos, size, count)
      modifies fd, fatStream, clusterStream, heap.entries, heap.mem
      ensures res == count && fd.pos == old(fd.pos) + Times(count, size)
      ensures Fetched(old(heap.State()), heap.State(), to,
                      ItemsRead(Y(), fd.firstCluster, old(fd.pos), size, count), local)
    {
      hide Represents, Y, Readable, DataRead, Times, ItemsReadable, ItemsRead, Clear, Fetched;
      ghost var y, s := Y(), heap.State();
      var offset, out, i := fd.pos, to, 0;
      ghost var done: seq<Byte> := [];
      ghost var all := ItemsRead(y, fd.firstCluster, offset, size, count);
      NothingFetched(s, local);
      PartOf(s.table, to, |all|, local, 0, 0);
      NoBytes(s, s, to, local);
      while i < count
        invariant 0 <= i <= count && out == to + |done| && offset == fd.pos + |done|
        invariant |done| + Times(count - i, size) == |all|
        invariant ItemsReadable(y, fd.firstCluster, offset, size, count - i)
        invariant all == done + ItemsRead(y, fd.firstCluster, offset, size, count - i)
        invariant heap.entries[..] == old(heap.entries[..]) && Fetched(s, heap.State(), to, done, local)
        invariant fd.pos == old(fd.pos)
      {
        TimesStep(count - i, size);
        ItemsTurn(y, fd.firstCluster, offset, size, count - i);
        ghost var s1 := heap.State();
        PartOf(s.table, to, |all|, local, |done|, size);
        res := ReadFileData(fd.firstCluster, offset, size, out, local, runs);
        ghost var chunk := DataRead(y, fd.firstCluster, offset, size);
        PartOf(s.table, to, |all|, local, 0, |done| + size);
        MoreFetched(s, s1, heap.State(), to, done, chunk, local);
        FetchedTable(s, heap.State(), to, done + chunk, local);
        ghost var rest := ItemsRead(y, fd.firstCluster, offset + size, size, count - i - 1);
        assert done + (chunk + rest) == (done + chunk) + rest;
        done := done + chunk;
        out, offset, i := out + size, offset + size, i + 1;
      }
      ItemsTurn(y, fd.firstCluster, offset, size, 0);
      assert done + [] == done;
      fd.pos := offset;
      res := count;
    }
  }

  // ------------------------------------------------------- memory in between

  /** Where a file may be read to: clear memory apart from the local variable. */
  ghost predicate Target(t: Table, to: nat, n: nat, local: nat) {
    Clear(t, to, n) && Clear(t, local, 4) && (to + n <= local || local + 4 <= to)
  }

  lemma PartOf(t: Table, to: nat, n: nat, local: nat, at: nat, len: nat)
    requires Target(t, to, n, local) && at + len <= n
    ensures Target(t, to + at, len, local) && to + n <= SPACE
  {
    hide InBuffer;
  }

  /** The bytes are at `to`, and nothing else has changed but the sector buffer's
      memory and the four bytes of the local variable. */
  ghost predicate Fetched(s: Machine, s': Machine, to: nat, data: seq<Byte>, local: nat) {
    && s'.table == s.table && to + |data| <= SPACE && s'.ram[to..to + |data|] == data
    && forall a: nat :: a < SPACE && !InBuffer(s.table, a) && !(to <= a < to + |data|) && !(local <= a < local + 4) ==>
         s'.ram[a] == s.ram[a]
  }

  lemma FetchedTable(s: Machine, s': Machine, to: nat, data: seq<Byte>, local: nat)
    requires Fetched(s, s', to, data, local)
    ensures s'.table == s.table
  {
  }

  lemma NothingFetched(s: Machine, local: nat)
    ensures Fetched(s, s, 0, [], local)
  {
  }

  lemma NoBytes(s: Machine, s': Machine, to: nat, local: nat)
    requires Fetched(s, s', 0, [], local) && to <= SPACE
    ensures Fetched(s, s', to, [], local)
  {
    hide InBuffer;
  }

  lemma ReadFetched(s: Machine, s': Machine, to: nat, data: seq<Byte>, local: nat)
    requires ReadInto(s, s', to, data)
    ensures Fetched(s, s', to, data, local)
  {
    hide InBuffer;
  }

  lemma LocalTwice(s: Machine, s1: Machine, s2: Machine, local: nat)
    requires Fetched(s, s1, 0, [], local) && Fetched(s1, s2, 0, [], local)
    ensures Fetched(s, s2, 0, [], local)
  {
    hide InBuffer;
  }

  /** The local variable, cleared and then read. */
  lemma LocalRead(s: Machine, s1: Machine, s2: Machine, local: nat, data: seq<Byte>)
    requires s1.table == s.table && SameOutside(s.ram, s1.ram, local, local + 4) && |data| == 4
    requires ReadInto(s1, s2, local, data)
    ensures Fetched(s, s2, 0, [], local) && s2.ram[local..local + 4] == data
  {
    hide InBuffer;
  }

  lemma MoreFetched(s: Machine, s1: Machine, s2: Machine, to: nat, a: seq<Byte>, b: seq<Byte>, local: nat)
    requires Fetched(s, s1, to, a, local) && Fetched(s1, s2, to + |a|, b, local)
    requires Target(s.table, to, |a| + |b|, local)
    ensures Fetched(s, s2, to, a + b, local)
  {
    hide InBuffer;
    forall k | 0 <= k < |a| ensures s2.ram[to + k] == a[k] {
      assert s1.ram[to..to + |a|][k] == a[k];
    }
    forall k | 0 <= k < |b| ensures s2.ram[to + |a| + k] == b[k] {
      assert s2.ram[to + |a|..to + |a| + |b|][k] == b[k];
    }
    assert s2.ram[to..to + |a + b|] == a + b;
  }

  lemma TimesStep(n: nat, size: nat)
    requires n > 0
    ensures Times(n, size) == Times(n - 1, size) + size && Times(0, size) == 0
  {
  }

  lemma WordOfSlice(disk: seq<Byte>, pos: nat, m: seq<Byte>, at: nat)
    requires pos + 4 <= |disk| && at + 4 <= |m| && m[at..at + 4] == disk[pos..pos + 4]
    ensures GetWord(m, at) == GetWord(disk, pos)
  {
    var four := m[at..at + 4];
    assert four[0] == m[at] && four[1] == m[at + 1] && four[2] == m[at + 2] && four[3] == m[at + 3];
  }
}
