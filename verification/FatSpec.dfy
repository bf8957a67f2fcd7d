/** Reading a file along its cluster chain, src/fs/fat/fat16.c, as functions of
    the disk contents. */
module FatSpec {
  import opened Memory
  import opened MachineState
  import opened Stream

  const IO_ERROR: int := -1
  const DIR_ENTRY_SIZE: nat := 32

  /** What a table entry says: it is not on the disk, it ends the walk, or it
      names the next cluster. */
  datatype Entry = OffDisk | Broken | To(cluster: int)

  /** A disk, its cluster size, its links, and where each cluster starts. */
  datatype Layout = Layout(disk: seq<Byte>, size: nat, next: int -> Entry, at: int -> Word)

  predicate InDisk(y: Layout, pos: nat, n: nat) {
    pos + n <= |y.disk| && pos + n < SPACE
  }

  // ------------------------------------------------------------------ walks

  /** Every entry looked at in a walk is on the disk. */
  predicate Linked(y: Layout, c: int, hops: nat)
    decreases hops
  {
    hops > 0 ==> match y.next(c)
                 case OffDisk => false
                 case Broken => true
                 case To(c') => Linked(y, c', hops - 1)
  }

  /** fat16_get_cluster_at_byte_offset_from_start, after `hops` links. */
  function Walk(y: Layout, c: int, hops: nat): int
    requires Linked(y, c, hops)
    decreases hops
  {
    if hops == 0 then c
    else match y.next(c)
         case To(c') => Walk(y, c', hops - 1)
         case _ => IO_ERROR
  }

  /** All the links of a walk exist. */
  predicate Chain(y: Layout, c: int, hops: nat)
    decreases hops
  {
    hops > 0 ==> y.next(c).To? && Chain(y, y.next(c).cluster, hops - 1)
  }

  /** A walk fails exactly when some link on its way is missing. */
  lemma {:induction false} WalkFails(y: Layout, c: int, hops: nat)
    requires c != IO_ERROR && (forall d :: y.next(d) != To(IO_ERROR)) && Linked(y, c, hops)
    ensures Walk(y, c, hops) == IO_ERROR <==> !Chain(y, c, hops)
    decreases hops
  {
    if hops > 0 && y.next(c).To? {
      WalkFails(y, y.next(c).cluster, hops - 1);
    }
  }

  /** Walking on from where a walk stopped is one longer walk. */
  lemma {:induction false} WalkOn(y: Layout, c: int, hops: nat, more: nat)
    requires Chain(y, c, hops + more)
    ensures Linked(y, c, hops) && Linked(y, c, hops + more) && Linked(y, Walk(y, c, hops), more)
    ensures Walk(y, c, hops + more) == Walk(y, Walk(y, c, hops), more)
    decreases hops + more
  {
    if hops > 0 {
      WalkOn(y, y.next(c).cluster, hops - 1, more);
    } else if more > 0 {
      WalkOn(y, y.next(c).cluster, 0, more - 1);
    }
  }

  // ---------------------------------------------------------------- reading

  function Min(a: nat, b: nat): nat { if a < b then a else b }

  function Hop(y: Layout, off: nat): nat
    requires y.size > 0
  {
    off / y.size
  }

  function Rest(y: Layout, off: nat): nat
    requires y.size > 0
  {
    off % y.size
  }

  /** The position sought, in 32 bits. */
  function Seek(y: Layout, c: int, o: nat): Word
    requires o < SPACE
  {
    if y.at(c) + o < SPACE then y.at(c) + o else y.at(c) + o - SPACE
  }

  /** The position of the chunk read at a file offset. */
  function ChunkPos(y: Layout, start: int, off: nat): Word
    requires 0 < y.size < SPACE && Linked(y, start, Hop(y, off))
  {
    Seek(y, Walk(y, start, Hop(y, off)), Rest(y, off))
  }

  /** Every sector a read asks for, in the table or in the data, is on the disk. */
  predicate Readable(y: Layout, start: int, off: nat, total: nat)
    requires 0 < y.size < SPACE
    decreases total
  {
    total > 0 ==>
      var n := Min(total, y.size);
      && Linked(y, start, Hop(y, off))
      && InDisk(y, ChunkPos(y, start, off), n)
      && Readable(y, start, off + n, total - n)
  }

  /** fat16_read_file_data_from_cluster: for each chunk a walk from the start,
      whose failure is not looked at, and a read of up to a cluster of bytes. */
  function DataRead(y: Layout, start: int, off: nat, total: nat): (r: seq<Byte>)
    requires 0 < y.size < SPACE && Readable(y, start, off, total)
    ensures |r| == total
    decreases total
  {
    if total == 0 then []
    else
      var n, pos := Min(total, y.size), ChunkPos(y, start, off);
      y.disk[pos..pos + n] + DataRead(y, start, off + n, total - n)
  }

  /** One turn of the read loop. */
  lemma DataReadTurn(y: Layout, start: int, off: nat, total: nat)
    requires 0 < y.size < SPACE && Readable(y, start, off, total)
    ensures total == 0 ==> DataRead(y, start, off, total) == []
    ensures total > 0 ==>
      var n := Min(total, y.size);
      && Linked(y, start, Hop(y, off)) && InDisk(y, ChunkPos(y, start, off), n)
      && Readable(y, start, off + n, total - n)
      && var pos := ChunkPos(y, start, off);
      DataRead(y, start, off, total) == y.disk[pos..pos + n] + DataRead(y, start, off + n, total - n)
  {
  }

  // --------------------------------------------------------------- the file

  /** A chain of `n` clusters, all of them on the disk. */
  predicate File(y: Layout, c: int, n: nat)
    decreases n
  {
    n > 0 ==>
      && InDisk(y, y.at(c), y.size)
      && (n > 1 ==> y.next(c).To? && File(y, y.next(c).cluster, n - 1))
  }

  /** Its contents: the clusters in a single walk along the chain. */
  function Contents(y: Layout, c: int, n: nat): seq<Byte>
    requires File(y, c, n)
    decreases n
  {
    if n == 0 then []
    else
      var here := y.disk[y.at(c)..y.at(c) + y.size];
      if n == 1 then here else here + Contents(y, y.next(c).cluster, n - 1)
  }

  /** Where byte `p` of the file is. */
  function TruePos(y: Layout, start: int, p: nat): nat
    requires y.size > 0 && Linked(y, start, Hop(y, p))
  {
    y.at(Walk(y, start, Hop(y, p))) + Rest(y, p)
  }

  lemma {:induction false} HopInFile(y: Layout, c: int, n: nat, h: nat)
    requires File(y, c, n) && h < n
    ensures Linked(y, c, h) && Chain(y, c, h) && InDisk(y, y.at(Walk(y, c, h)), y.size)
    decreases n
  {
    if h > 0 {
      HopInFile(y, y.next(c).cluster, n - 1, h - 1);
    }
  }

  /** `h * size`, as repeated addition. */
  function Times(h: nat, size: nat): nat { if h == 0 then 0 else Times(h - 1, size) + size }

  lemma {:induction false} TimesIs(h: nat, size: nat)
    ensures Times(h, size) == h * size
  {
    if h > 0 {
      TimesIs(h - 1, size);
      assert h * size == (h - 1) * size + size;
    }
  }

  lemma TimesTurn(n: nat, size: nat)
    ensures Times(n, size) == if n == 0 then 0 else Times(n - 1, size) + size
  {
  }

  /** The first cluster of a file and the rest of its chain. */
  lemma ContentsTurn(y: Layout, c: int, n: nat, h: nat)
    requires File(y, c, n) && h < n
    ensures InDisk(y, y.at(c), y.size) && Linked(y, c, 0) && Walk(y, c, 0) == c
    ensures n == 1 ==> Contents(y, c, n) == y.disk[y.at(c)..y.at(c) + y.size]
    ensures n > 1 ==>
              && y.next(c).To? && File(y, y.next(c).cluster, n - 1)
              && Contents(y, c, n) == y.disk[y.at(c)..y.at(c) + y.size] + Contents(y, y.next(c).cluster, n - 1)
    ensures h > 0 && Linked(y, y.next(c).cluster, h - 1) ==>
              Linked(y, c, h) && Walk(y, c, h) == Walk(y, y.next(c).cluster, h - 1)
  {
  }

  lemma {:induction false} ContentsAt(y: Layout, c: int, n: nat, h: nat, o: nat)
    requires File(y, c, n) && h < n && o < y.size
    ensures |Contents(y, c, n)| == Times(n, y.size) && Times(h, y.size) + o < Times(n, y.size)
    ensures Linked(y, c, h) && InDisk(y, y.at(Walk(y, c, h)), y.size)
    ensures Contents(y, c, n)[Times(h, y.size) + o] == y.disk[y.at(Walk(y, c, h)) + o]
    decreases n
  {
    hide Times, File, Contents, Linked, Walk;
    TimesTurn(n, y.size);
    TimesTurn(h, y.size);
    ContentsTurn(y, c, n, h);
    if n > 1 {
      var next, h1 := y.next(c).cluster, if h > 0 then h - 1 else 0;
      ContentsAt(y, next, n - 1, h1, o);
    } else {
      TimesTurn(0, y.size);
    }
  }

  /** Byte `p` of the contents is the byte of the disk at its place. */
  lemma ContentsByte(y: Layout, start: int, n: nat, p: nat)
    requires y.size > 0 && File(y, start, n) && p < n * y.size
    ensures Hop(y, p) < n && Rest(y, p) < y.size && Linked(y, start, Hop(y, p))
    ensures |Contents(y, start, n)| == n * y.size && TruePos(y, start, p) < |y.disk|
    ensures Contents(y, start, n)[p] == y.disk[TruePos(y, start, p)]
  {
    hide Contents, File, Times;
    Divided(p, n, y.size);
    TimesIs(n, y.size);
    TimesIs(Hop(y, p), y.size);
    ContentsAt(y, start, n, Hop(y, p), Rest(y, p));
  }

  lemma Scale(a: nat, b: nat, size: nat)
    requires a <= b
    ensures a * size <= b * size
  {
  }

  lemma Divided(p: nat, n: nat, size: nat)
    requires size > 0 && p < n * size
    ensures p / size < n && p == p / size * size + p % size && 0 <= p % size < size
  {
    if p / size >= n {
      Scale(n, p / size, size);
    }
  }

  lemma QuotientIs(p: nat, q: nat, r: nat, size: nat)
    requires size > 0 && p == q * size + r && r < size
    ensures p / size == q && p % size == r
  {
    if p / size < q {
      Scale(p / size + 1, q, size);
    } else if q < p / size {
      Scale(q + 1, p / size, size);
    }
  }

  /** Moving `d` bytes on from `off`, within two clusters. */
  lemma Advance(y: Layout, off: nat, d: nat)
    requires y.size > 0 && d <= y.size
    ensures Rest(y, off) < y.size
    ensures Rest(y, off) + d < y.size ==> Hop(y, off + d) == Hop(y, off) && Rest(y, off + d) == Rest(y, off) + d
    ensures Rest(y, off) + d >= y.size ==>
              Hop(y, off + d) == Hop(y, off) + 1 && Rest(y, off + d) == Rest(y, off) + d - y.size
  {
    var q, r, size := off / y.size, off % y.size, y.size;
    if r + d < size {
      QuotientIs(off + d, q, r + d, size);
    } else {
      assert (q + 1) * size == q * size + size;
      QuotientIs(off + d, q + 1, r + d - size, size);
    }
  }

  // ------------------------------------------------------- reads that follow

  /** Cluster `h + 1` of the chain comes right after cluster `h` on the disk. */
  predicate Adjacent(y: Layout, start: int, h: nat)
    requires Linked(y, start, h) && Linked(y, start, h + 1)
  {
    y.at(Walk(y, start, h + 1)) == y.at(Walk(y, start, h)) + y.size
  }

  /** A chunk that runs over the edge of a cluster. */
  predicate Crosses(y: Layout, off: nat, n: nat)
    requires y.size > 0
  {
    Rest(y, off) + n > y.size
  }

  /** Each chunk of a read stays in its cluster, or the next cluster of the
      chain comes right after it. */
  predicate Follows(y: Layout, start: int, off: nat, total: nat)
    requires y.size > 0
    decreases total
  {
    total > 0 ==>
      var n, h := Min(total, y.size), Hop(y, off);
      && Linked(y, start, h)
      && (Crosses(y, off, n) ==> Linked(y, start, h + 1) && Adjacent(y, start, h))
      && Follows(y, start, off + n, total - n)
  }

  /** Where the read takes byte `k` from. */
  function ReadPos(y: Layout, start: int, off: nat, k: nat): int
    requires 0 < y.size < SPACE
    decreases k
  {
    if k >= y.size then ReadPos(y, start, off + y.size, k - y.size)
    else if Linked(y, start, Hop(y, off)) then ChunkPos(y, start, off) + k
    else -1
  }

  /** DataRead in closed form: byte `k` comes from ReadPos. */
  lemma {:induction false} ReadAt(y: Layout, start: int, off: nat, total: nat, k: nat)
    requires 0 < y.size < SPACE && Readable(y, start, off, total) && k < total
    ensures 0 <= ReadPos(y, start, off, k) < |y.disk|
    ensures DataRead(y, start, off, total)[k] == y.disk[ReadPos(y, start, off, k)]
    decreases total
  {
    hide ChunkPos, Hop, DataRead, Readable, Linked;
    DataReadTurn(y, start, off, total);
    if k >= y.size {
      var off1, total1, k1 := off + y.size, total - y.size, k - y.size;
      ReadAt(y, start, off1, total1, k1);
    }
  }

  /** The read takes byte `k` from its place in the file. */
  predicate InPlace(y: Layout, start: int, off: nat, k: nat)
    requires 0 < y.size < SPACE
  {
    Linked(y, start, Hop(y, off + k)) && ReadPos(y, start, off, k) == TruePos(y, start, off + k)
  }

  /** A byte of the first chunk is in place exactly when it is in the cluster
      of the first byte, or the next cluster is adjacent. */
  lemma FirstChunkByte(y: Layout, start: int, n: nat, off: nat, k: nat)
    requires 0 < y.size < SPACE && File(y, start, n) && k < y.size && off + k < n * y.size
    ensures Linked(y, start, Hop(y, off)) && InDisk(y, TruePos(y, start, off), 1)
    ensures ChunkPos(y, start, off) == TruePos(y, start, off)
    ensures Rest(y, off) + k >= y.size ==> Linked(y, start, Hop(y, off) + 1)
    ensures InPlace(y, start, off, k)
            <==> (Rest(y, off) + k >= y.size ==> Adjacent(y, start, Hop(y, off)))
  {
    hide File, Linked, Walk, Hop, Rest;
    Within(y, n, off);
    HopInFile(y, start, n, Hop(y, off));
    Within(y, n, off + k);
    HopInFile(y, start, n, Hop(y, off + k));
    Advance(y, off, k);
  }

  lemma Within(y: Layout, n: nat, p: nat)
    requires y.size > 0 && p < n * y.size
    ensures Hop(y, p) < n && Rest(y, p) < y.size
  {
    Divided(p, n, y.size);
  }

  /** Bytes past the first chunk are bytes of the read that starts a cluster on. */
  lemma LaterChunk(y: Layout, start: int, off: nat, k: nat)
    requires 0 < y.size < SPACE
    ensures InPlace(y, start, off, k + y.size) <==> InPlace(y, start, off + y.size, k)
  {
    hide Linked, Walk, Hop, Rest;
    assert off + (k + y.size) == off + y.size + k;
  }

  /** A read takes every byte from its place in the file exactly when each of
      its chunks stays in its cluster or runs into an adjacent one. */
  lemma {:induction false} ReadsInPlace(y: Layout, start: int, n: nat, off: nat, total: nat)
    requires 0 < y.size < SPACE && File(y, start, n) && off + total <= n * y.size
    ensures (forall k: nat :: k < total ==> InPlace(y, start, off, k)) <==> Follows(y, start, off, total)
    decreases total
  {
    hide File, Linked, Walk, Hop, Rest, InPlace, Adjacent, TruePos, ChunkPos;
    if total > 0 {
      var m := Min(total, y.size);
      Within(y, n, off);
      ReadsInPlace(y, start, n, off + m, total - m);
      forall k: nat | k < m
        ensures Linked(y, start, Hop(y, off))
        ensures Rest(y, off) + k >= y.size ==> Linked(y, start, Hop(y, off) + 1)
        ensures InPlace(y, start, off, k) <==> (Rest(y, off) + k >= y.size ==> Adjacent(y, start, Hop(y, off)))
      {
        FirstChunkByte(y, start, n, off, k);
      }
      assert Linked(y, start, Hop(y, off)) by { FirstChunkByte(y, start, n, off, 0); }
      forall k: nat | m <= k < total ensures InPlace(y, start, off, k) <==> InPlace(y, start, off + m, k - m) {
        LaterChunk(y, start, off, k - m);
      }
      if forall k: nat :: k < total ==> InPlace(y, start, off, k) {
        if Crosses(y, off, m) {
          var edge: nat := y.size - Rest(y, off);
          assert InPlace(y, start, off, edge);
        }
        var later := off + m;
        forall k: nat | k < total - m ensures InPlace(y, start, later, k) {
          assert InPlace(y, start, off, m + k);
        }
      }
    }
  }

  lemma {:induction false} FollowsReadable(y: Layout, start: int, n: nat, off: nat, total: nat)
    requires 0 < y.size < SPACE && File(y, start, n) && off + total <= n * y.size
    requires Follows(y, start, off, total)
    ensures Readable(y, start, off, total)
    decreases total
  {
    hide File, Linked, Walk, Hop, Rest;
    if total > 0 {
      var m, h := Min(total, y.size), Hop(y, off);
      Within(y, n, off);
      FirstChunkByte(y, start, n, off, 0);
      HopInFile(y, start, n, h);
      if Crosses(y, off, m) {
        Within(y, n, off + m - 1);
        Advance(y, off, m - 1);
        HopInFile(y, start, n, h + 1);
      }
      FollowsReadable(y, start, n, off + m, total - m);
    }
  }

  /** Chain read: such a read returns the file's bytes, so that starting the
      walk again for each chunk comes to one walk along the chain. */
  lemma ChainRead(y: Layout, start: int, n: nat, off: nat, total: nat)
    requires 0 < y.size < SPACE && File(y, start, n) && off + total <= n * y.size
    requires Follows(y, start, off, total)
    ensures Readable(y, start, off, total) && |Contents(y, start, n)| == n * y.size
    ensures DataRead(y, start, off, total) == Contents(y, start, n)[off..off + total]
  {
    hide File, Linked, Walk, Hop, Rest, Contents, DataRead, Readable, Follows, ReadPos, TruePos;
    FollowsReadable(y, start, n, off, total);
    ReadsInPlace(y, start, n, off, total);
    ContentsSize(y, start, n);
    forall k: nat | k < total
      ensures DataRead(y, start, off, total)[k] == Contents(y, start, n)[off + k]
    {
      assert InPlace(y, start, off, k);
      ReadAt(y, start, off, total, k);
      ContentsByte(y, start, n, off + k);
    }
  }

  lemma ContentsSize(y: Layout, start: int, n: nat)
    requires y.size > 0 && File(y, start, n)
    ensures |Contents(y, start, n)| == n * y.size
  {
    TimesIs(n, y.size);
    if n > 0 { ContentsAt(y, start, n, 0, 0); }
  }

  /** Reads that start at a cluster edge, and reads inside one cluster, always
      follow the chain. */
  lemma {:induction false} AlignedFollows(y: Layout, start: int, n: nat, off: nat, total: nat)
    requires 0 < y.size < SPACE && File(y, start, n) && off + total <= n * y.size
    requires Rest(y, off) == 0 || Rest(y, off) + total <= y.size
    ensures Follows(y, start, off, total)
    decreases total
  {
    hide File, Linked, Walk, Hop, Rest;
    if total > 0 {
      Within(y, n, off);
      FirstChunkByte(y, start, n, off, 0);
      if total > y.size {
        Advance(y, off, y.size);
        AlignedFollows(y, start, n, off + y.size, total - y.size);
      }
    }
  }

  /** Items of `size` bytes one after the other: fat16_read. */
  predicate ItemsReadable(y: Layout, start: int, pos: nat, size: nat, count: nat)
    requires 0 < y.size < SPACE
    decreases count
  {
    count > 0 ==> Readable(y, start, pos, size) && ItemsReadable(y, start, pos + size, size, count - 1)
  }

  function ItemsRead(y: Layout, start: int, pos: nat, size: nat, count: nat): (r: seq<Byte>)
    requires 0 < y.size < SPACE && ItemsReadable(y, start, pos, size, count)
    ensures |r| == Times(count, size)
    decreases count
  {
    if count == 0 then []
    else DataRead(y, start, pos, size) + ItemsRead(y, start, pos + size, size, count - 1)
  }

  /** One turn of the item loop. */
  lemma ItemsTurn(y: Layout, start: int, pos: nat, size: nat, count: nat)
    requires 0 < y.size < SPACE && ItemsReadable(y, start, pos, size, count)
    ensures count == 0 ==> ItemsRead(y, start, pos, size, count) == []
    ensures count > 0 ==>
      && Readable(y, start, pos, size) && ItemsReadable(y, start, pos + size, size, count - 1)
      && ItemsRead(y, start, pos, size, count)
         == DataRead(y, start, pos, size) + ItemsRead(y, start, pos + size, size, count - 1)
  {
    hide Readable, DataRead;
  }

  predicate ItemsFollow(y: Layout, start: int, pos: nat, size: nat, count: nat)
    requires 0 < y.size < SPACE
    decreases count
  {
    count > 0 ==> Follows(y, start, pos, size) && ItemsFollow(y, start, pos + size, size, count - 1)
  }

  /** Items that all follow the chain are the file's bytes without a gap. */
  lemma {:induction false} ItemsRoundTrip(y: Layout, start: int, n: nat, pos: nat, size: nat, count: nat)
    requires 0 < y.size < SPACE && File(y, start, n) && pos + Times(count, size) <= n * y.size
    requires ItemsFollow(y, start, pos, size, count)
    ensures ItemsReadable(y, start, pos, size, count) && |Contents(y, start, n)| == n * y.size
    ensures ItemsRead(y, start, pos, size, count) == Contents(y, start, n)[pos..pos + Times(count, size)]
    decreases count
  {
    hide File, Follows, Readable, DataRead, Contents;
    ContentsSize(y, start, n);
    if count > 0 {
      ChainRead(y, start, n, pos, size);
      var next := pos + size;
      ItemsRoundTrip(y, start, n, next, size, count - 1);
      SlicesJoin(Contents(y, start, n), pos, next, next + Times(count - 1, size));
    }
  }

  lemma SlicesJoin(s: seq<Byte>, lo: nat, mid: nat, hi: nat)
    requires lo <= mid <= hi <= |s|
    ensures s[lo..mid] + s[mid..hi] == s[lo..hi]
  {
  }

  // ---------------------------------------------------------------- volumes

  /** The disk and the header fields the read path uses. */
  datatype Volume = Volume(disk: seq<Byte>, sectorsPerCluster: nat, reservedSectors: nat,
                           fatCopies: nat, sectorsPerFat: nat, rootEntries: nat)

  /** dir_end_sector_pos: the first sector of the data area. */
  function DataStart(v: Volume): nat {
    v.fatCopies * v.sectorsPerFat + v.reservedSectors
    + (v.rootEntries * DIR_ENTRY_SIZE + SECTOR - 1) / SECTOR
  }

  /** fat16_cluster_to_sector */
  function SectorOf(v: Volume, cluster: int): int {
    DataStart(v) + (cluster - 2) * v.sectorsPerCluster
  }

  function EntryPos(v: Volume, cluster: int): Word {
    (v.reservedSectors * SECTOR + 2 * cluster) % SPACE
  }

  function Signed(w: Word): int { if w < 0x8000_0000 then w else w - SPACE }

  /** fat16_get_fat_entry, which reads the entry four bytes wide. */
  function FatEntry(v: Volume, cluster: int): int
    requires EntryPos(v, cluster) + 4 <= |v.disk|
  {
    Signed(GetWord(v.disk, EntryPos(v, cluster)))
  }

  /** The entries that end a walk. */
  predicate EndsWalk(entry: int) {
    entry == 0xff8 || entry == 0xfff || entry < 0 || entry == 0xff7
    || entry == 0xff0 || entry == 0xff6 || entry == 0
  }

  function NextOf(v: Volume, cluster: int): Entry {
    if EntryPos(v, cluster) + 4 > |v.disk| || EntryPos(v, cluster) + 4 >= SPACE then OffDisk
    else
      var entry := FatEntry(v, cluster);
      if EndsWalk(entry) then Broken else To(entry)
  }

  function LayoutOf(v: Volume): Layout {
    Layout(v.disk, v.sectorsPerCluster * SECTOR, c => NextOf(v, c), c => (SectorOf(v, c) * SECTOR) % SPACE)
  }

  /** The 16-bit entry of the table. */
  function TableEntry(v: Volume, cluster: int): nat
    requires EntryPos(v, cluster) + 2 <= |v.disk|
  {
    v.disk[EntryPos(v, cluster)] + 0x100 * (v.disk[EntryPos(v, cluster) + 1] as int)
  }

  /** The four-byte link is the entry of the table exactly when the next entry
      is zero. */
  lemma LinkIsEntry(v: Volume, cluster: int)
    requires EntryPos(v, cluster) + 4 <= |v.disk| && EntryPos(v, cluster) + 4 <= SPACE
    ensures EntryPos(v, cluster + 1) == EntryPos(v, cluster) + 2
    ensures FatEntry(v, cluster) == TableEntry(v, cluster) <==> TableEntry(v, cluster + 1) == 0
  {
    NextEntryPos(v.reservedSectors * SECTOR + 2 * cluster);
  }

  lemma NextEntryPos(a: int)
    requires a % SPACE + 4 <= SPACE
    ensures (a + 2) % SPACE == a % SPACE + 2
  {
  }

  /** Where the link of a cluster is on the disk, and what it means. */
  lemma LinkExact(v: Volume, c: nat)
    ensures
      var pos, next := v.reservedSectors * 512 + 2 * c, LayoutOf(v).next(c);
      && (|v.disk| < pos + 4 < SPACE ==> next == OffDisk)
      && (pos + 4 <= |v.disk| && pos + 4 < SPACE ==>
            var w := (v.disk[pos] as int) + 0x100 * (v.disk[pos + 1] as int) + 0x1_0000 * (v.disk[pos + 2] as int)
                     + 0x100_0000 * (v.disk[pos + 3] as int);
            if w in {0, 0xff0, 0xff6, 0xff7, 0xff8, 0xfff} || w >= 0x8000_0000 then next == Broken
            else next == To(w))
  {
    var pos := v.reservedSectors * 512 + 2 * c;
    if pos + 4 < SPACE { assert EntryPos(v, c) == pos; }
  }

  // The regions of a volume, in bytes, as the "Boot Sector and BPB" and "FAT Data
  // Structure" sections of Microsoft's FAT specification place them.

  predicate InReserved(v: Volume, a: nat) { a < v.reservedSectors * 512 }

  /** Copy `k` of the file allocation table. */
  predicate InTable(v: Volume, k: nat, a: nat) {
    k < v.fatCopies
    && (v.reservedSectors + k * v.sectorsPerFat) * 512 <= a < (v.reservedSectors + (k + 1) * v.sectorsPerFat) * 512
  }

  function RootStart(v: Volume): nat { (v.reservedSectors + v.fatCopies * v.sectorsPerFat) * 512 }

  predicate InRoot(v: Volume, a: nat) { RootStart(v) <= a < RootStart(v) + 32 * v.rootEntries }

  /** Cluster 2 starts at the first sector at or after the end of the root directory,
      and cluster `c` as many clusters after it. */
  lemma ClusterPlaced(v: Volume, c: nat)
    requires 2 <= c && RootStart(v) + 32 * v.rootEntries + 512 + (c - 2) * (v.sectorsPerCluster * 512) <= SPACE
    ensures
      var at := LayoutOf(v).at;
      && at(2) % 512 == 0 && RootStart(v) + 32 * v.rootEntries <= at(2) < RootStart(v) + 32 * v.rootEntries + 512
      && at(c) == at(2) + (c - 2) * (v.sectorsPerCluster * 512)
      && LayoutOf(v).size == v.sectorsPerCluster * 512
  {
    hide DataStart, RootStart, LayoutOf, SectorOf;
    DataPlaced(v);
    SectorPlaced(v, c);
    SectorPlaced(v, 2);
    Scale(0, c - 2, v.sectorsPerCluster * 512);
    LayoutAt(v, c);
    LayoutAt(v, 2);
  }

  lemma LayoutAt(v: Volume, c: nat)
    ensures LayoutOf(v).size == v.sectorsPerCluster * 512
    ensures 0 <= SectorOf(v, c) * 512 < SPACE ==> LayoutOf(v).at(c) == SectorOf(v, c) * 512
  {
    hide SectorOf;
  }

  /** The position sought for byte `o` of a cluster, for any number of a cluster, also
      one that is none: computed from the first sector of the data area, in 32 bits. */
  lemma PositionExact(v: Volume, c: int, o: nat)
    requires o < 0x1_0000_0000
    ensures
      var first := (RootStart(v) + 32 * v.rootEntries + 511) / 512;
      Seek(LayoutOf(v), c, o) == ((first + (c - 2) * v.sectorsPerCluster) * 512 + o) % 0x1_0000_0000
  {
    hide RootStart, DataStart;
    DataPlaced(v);
    Carried((DataStart(v) + (c - 2) * v.sectorsPerCluster) * 512, o);
  }

  lemma Carried(a: int, o: nat)
    requires o < SPACE
    ensures (a + o) % SPACE == if a % SPACE + o < SPACE then a % SPACE + o else a % SPACE + o - SPACE
  {
  }

  lemma SectorPlaced(v: Volume, c: nat)
    requires 2 <= c
    ensures SectorOf(v, c) * 512 == DataStart(v) * 512 + (c - 2) * (v.sectorsPerCluster * 512)
  {
    hide DataStart;
    var k, s := c - 2, v.sectorsPerCluster;
    assert k * s * 512 == k * (s * 512);
  }

  lemma DataPlaced(v: Volume)
    ensures RootStart(v) + 32 * v.rootEntries <= DataStart(v) * 512 < RootStart(v) + 32 * v.rootEntries + 512
    ensures DataStart(v) == (RootStart(v) + 32 * v.rootEntries + 511) / 512
  {
    RoundedUp(v.rootEntries * 32);
    var tables := v.fatCopies * v.sectorsPerFat;
  }

  lemma RoundedUp(n: nat)
    ensures n <= (n + 511) / 512 * 512 < n + 512
  {
  }

  /** Clusters do not overlap, and none has a byte in the reserved sectors, in a copy
      of the table or in the root directory. */
  lemma ClustersApart(v: Volume, c: nat, d: nat, a: nat, k: nat)
    requires 2 <= c < d
    requires RootStart(v) + 32 * v.rootEntries + 512 + (d - 2) * (v.sectorsPerCluster * 512) <= SPACE
    ensures LayoutOf(v).at(c) + LayoutOf(v).size <= LayoutOf(v).at(d)
    ensures LayoutOf(v).at(c) <= a < LayoutOf(v).at(c) + LayoutOf(v).size ==>
              !InReserved(v, a) && !InTable(v, k, a) && !InRoot(v, a)
  {
    hide LayoutOf;
    var size := v.sectorsPerCluster * 512;
    Scale(c - 1, d - 2, size);
    Scale(0, c - 2, size);
    assert (c - 1) * size == (c - 2) * size + size;
    ClusterPlaced(v, c);
    ClusterPlaced(v, d);
    if k < v.fatCopies { Scale(k + 1, v.fatCopies, v.sectorsPerFat); }
  }

  /** The volume of src/boot/boot.asm: its root directory is at sector 712 and cluster
      2 at sector 716, with 64 KiB to a cluster. */
  lemma OwnVolume(disk: seq<Byte>)
    ensures
      var v := Volume(disk, 128, 200, 2, 256, 64);
      RootStart(v) == 712 * 512 && LayoutOf(v).at(2) == 716 * 512 && LayoutOf(v).size == 0x1_0000
  {
    var v := Volume(disk, 128, 200, 2, 256, 64);
    assert SectorOf(v, 2) == 716;
  }

  /** A failed walk is not reported: the read goes on with the error code as a
      cluster number, three clusters before the data area. */
  lemma FailedWalkUnreported(v: Volume, start: int, off: nat)
    requires 0 < v.sectorsPerCluster <= 255
    requires
      var y := LayoutOf(v);
      && Linked(y, start, Hop(y, off)) && !Chain(y, start, Hop(y, off))
      && start != IO_ERROR && Readable(y, start, off, 1)
    ensures
      var y := LayoutOf(v);
      var pos := Seek(y, IO_ERROR, Rest(y, off));
      pos < |v.disk| && DataRead(y, start, off, 1) == [v.disk[pos]]
    ensures LayoutOf(v).at(IO_ERROR) == ((DataStart(v) - 3 * v.sectorsPerCluster) * SECTOR) % SPACE
  {
    hide NextOf, Chain, Linked;
    var y := LayoutOf(v);
    NeverError(v);
    WalkFails(y, start, Hop(y, off));
    assert DataRead(y, start, off + 1, 0) == [];
  }

  lemma NeverError(v: Volume)
    ensures forall d :: LayoutOf(v).next(d) != To(IO_ERROR)
  {
    hide FatEntry, EntryPos;
  }

  /** One-sector clusters; the file is cluster 2 and then cluster 4. */
  function SplitVolume(): Volume {
    Volume(seq(3072, i => if i == 516 then 4 else if i < 2048 then 0 else 1), 1, 1, 1, 1, 0)
  }

  lemma SplitLayout()
    ensures
      var y := LayoutOf(SplitVolume());
      && y.size == 512 && |y.disk| == 3072 && y.at(2) == 1024 && y.at(4) == 2048 && y.next(2) == To(4)
      && y.disk[1535] == 0 && y.disk[1536] == 0 && y.disk[2048] == 1
  {
    hide GetWord;
    var v := SplitVolume();
    SplitEntry(v);
    assert EntryPos(v, 2) == 516;
  }

  lemma SplitEntry(v: Volume)
    requires 520 <= |v.disk| && v.disk[516] == 4 && v.disk[517] == 0 && v.disk[518] == 0 && v.disk[519] == 0
    ensures GetWord(v.disk, 516) == 4
  {
  }

  /** A two-byte read across the edge of cluster 2 takes its second byte from
      cluster 3, not from the file. */
  lemma ReadLeavesChain()
    ensures
      var y := LayoutOf(SplitVolume());
      && 0 < y.size < SPACE && File(y, 2, 2) && Readable(y, 2, 511, 2)
      && |Contents(y, 2, 2)| == 1024 && DataRead(y, 2, 511, 2) == [0, 0]
      && Contents(y, 2, 2)[511..513] == [0, 1]
  {
    hide SplitVolume, LayoutOf;
    var y := LayoutOf(SplitVolume());
    SplitLayout();
    assert File(y, 4, 1);
    assert ChunkPos(y, 2, 511) == 1535 && Readable(y, 2, 513, 0);
    assert DataRead(y, 2, 511, 2) == y.disk[1535..1537] + DataRead(y, 2, 513, 0);
    var whole := Contents(y, 2, 2);
    assert whole == y.disk[1024..1536] + y.disk[2048..2560];
    assert whole[511] == y.disk[1535] && whole[512] == y.disk[2048];
  }
}
