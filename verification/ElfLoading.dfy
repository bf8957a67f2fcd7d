/** process_map_elf on a file given by its bytes: an ELF header and program headers as
    the TIS ELF Specification 1.2 lays them out. */
module ElfLoading {
  import opened Memory
  import opened HeapTable
  import opened MachineState
  import opened PageWalk
  import opened PagingSpec
  import opened VmemSpec
  import opened LoaderSpec
  import opened Loader
  import opened ProcessImage
  import opened SegmentFrames
  import opened ElfFormat
  import opened Status

  // ----------------------------------------------------------------- the file

  /** The file holds this ELF header and, where it says, these program headers. */
  ghost predicate Encodes(file: seq<Byte>, h: Ehdr, phs: seq<Phdr>) {
    && |h.ident| == 16 && |phs| == h.phnum && 52 <= |file| && file[..52] == EncodeEhdr(h)
    && h.phoff + 32 * |phs| <= |file|
    && forall i: nat :: i < |phs| ==> HeaderAt(file, h.phoff + 32 * i, phs[i])
  }

  predicate HeaderAt(file: seq<Byte>, at: nat, ph: Phdr) {
    at + 32 <= |file| && file[at..at + 32] == EncodePhdr(ph)
  }

  /** A segment to load. */
  predicate IsLoad(ph: Phdr) { ph.pType == 1 && ph.memsz > 0 }

  /** Inside the file and the address space, at its offset modulo the page, or page
      aligned when it has a zero tail, and away from the stack. */
  predicate InOrder(ph: Phdr, fileLen: nat) {
    IsLoad(ph) ==>
      && ph.filesz <= ph.memsz && ph.offset + ph.filesz <= fileLen && ph.vaddr + ph.memsz <= 0xffff_f000
      && (if ph.filesz == ph.memsz then ph.vaddr % 4096 == ph.offset % 4096 else ph.vaddr % 4096 == 0)
      && (ph.vaddr + ph.memsz <= 0x83f_b000 || 0x83f_f000 <= ph.vaddr)
  }

  /** The segment has bytes on the page. */
  predicate HasPage(ph: Phdr, p: nat) {
    IsLoad(ph) && ph.vaddr / 4096 <= p && p * 4096 < ph.vaddr + ph.memsz
  }

  ghost predicate NoSharedPage(ph: Phdr, ph': Phdr) {
    forall p: nat :: !(HasPage(ph, p) && HasPage(ph', p))
  }

  ghost predicate GoodHeaders(phs: seq<Phdr>, fileLen: nat) {
    && (forall i: nat :: i < |phs| ==> InOrder(phs[i], fileLen))
    && (forall i: nat, j: nat :: i < j < |phs| ==> NoSharedPage(phs[i], phs[j]))
  }

  // ------------------------------------------------------- what is read of it

  lemma HeadersRead(file: seq<Byte>, h: Ehdr, phs: seq<Phdr>)
    requires Encodes(file, h, phs)
    ensures PhOffset(file, 0) == h.phoff && PhCount(file, 0) == |phs| && h.phoff + PHDR_SIZE * |phs| <= |file|
    ensures forall i: nat :: i < |phs| ==> Header(file, h.phoff, i) == phs[i]
  {
    hide EncodeEhdr, EncodePhdr, PhdrAt, PhOffset, PhCount;
    assert file[0..52] == file[..52];
    EhdrRoundTrip(file, 0, h);
    forall i: nat | i < |phs| ensures Header(file, h.phoff, i) == phs[i] {
      assert HeaderAt(file, h.phoff + 32 * i, phs[i]);
      PhdrRoundTrip(file, h.phoff + 32 * i, phs[i]);
    }
  }

  lemma PagesOf(ph: Phdr, fileLen: nat, p: nat)
    requires InOrder(ph, fileLen)
    ensures IsLoad(ph) ==> ph.vaddr + ph.memsz < SPACE
    ensures HasPage(ph, p) <==> OnPage(ph, p)
  {
    if IsLoad(ph) { PageBelow(ph.vaddr + ph.memsz, p); }
  }

  lemma PageBelow(end: Word, p: nat)
    ensures p < PagesUpTo(end) <==> p * PAGE_SIZE < end
  {
  }

  lemma ApartFromPages(ph: Phdr, ph': Phdr, fileLen: nat)
    requires InOrder(ph, fileLen) && InOrder(ph', fileLen) && NoSharedPage(ph, ph') && IsLoad(ph) && IsLoad(ph')
    ensures ph.vaddr + ph.memsz < SPACE && ph'.vaddr + ph'.memsz < SPACE && PagesApart(ph, ph')
  {
    hide HasPage;
    var p := if FirstPage(ph) < FirstPage(ph') then FirstPage(ph') else FirstPage(ph);
    PagesOf(ph, fileLen, p);
    PagesOf(ph', fileLen, p);
    NonEmpty(ph, fileLen);
    NonEmpty(ph', fileLen);
    assert !(HasPage(ph, p) && HasPage(ph', p));
  }

  lemma NonEmpty(ph: Phdr, fileLen: nat)
    requires InOrder(ph, fileLen) && IsLoad(ph)
    ensures ph.vaddr + ph.memsz < SPACE && FirstPage(ph) < LastPage(ph)
  {
  }

  /** Good headers are placeable. */
  lemma HeadersPlaceable(file: seq<Byte>, h: Ehdr, phs: seq<Phdr>)
    requires Encodes(file, h, phs) && GoodHeaders(phs, |file|)
    ensures EHDR_SIZE <= |file| && Placeable(file, PhOffset(file, 0), PhCount(file, 0))
  {
    hide Encodes, InOrder, Header, PhOffset, PhCount, NoSharedPage, PagesApart, ClearOfStack;
    HeadersRead(file, h, phs);
    FileHasHeader(file, h, phs);
    forall i: nat | i < |phs| ensures SegmentOk(phs[i], |file|) && (Loads(phs[i]) ==> ClearOfStack(phs[i])) {
      InOrderOk(phs[i], |file|);
    }
    forall i: nat, j: nat | i < j < |phs| && Loads(phs[i]) && Loads(phs[j]) ensures PagesApart(phs[i], phs[j]) {
      ApartFromPages(phs[i], phs[j], |file|);
    }
  }

  lemma FileHasHeader(file: seq<Byte>, h: Ehdr, phs: seq<Phdr>)
    requires Encodes(file, h, phs)
    ensures EHDR_SIZE <= |file|
  {
  }

  lemma InOrderOk(ph: Phdr, fileLen: nat)
    requires InOrder(ph, fileLen)
    ensures SegmentOk(ph, fileLen) && (Loads(ph) <==> IsLoad(ph)) && (Loads(ph) ==> ClearOfStack(ph))
  {
    PageBelow(0x83f_b000, 0x83f_b);
  }

  // -------------------------------------------------------------- the process

  /** The byte the specification puts at `va`: of the file, or zero past p_filesz. */
  function ImageByte(file: seq<Byte>, ph: Phdr, va: Word): Byte
    requires InOrder(ph, |file|) && IsLoad(ph) && ph.vaddr <= va < ph.vaddr + ph.memsz
  {
    if va - ph.vaddr < ph.filesz then file[ph.offset + (va - ph.vaddr)] else 0
  }

  /** The process reads the segment, and may write it when it has PF_W. */
  ghost predicate Shows(s: Machine, dir: nat, file: seq<Byte>, ph: Phdr)
    requires dir < PAGES && InOrder(ph, |file|)
  {
    IsLoad(ph) ==> forall va: Word :: ph.vaddr <= va < ph.vaddr + ph.memsz ==>
      && UserByte(s, dir, va) == Some(ImageByte(file, ph, va))
      && Leaf(View(s), dir, va / 4096).Some?
      && UserAccess(Leaf(View(s), dir, va / 4096).value)
      && (Writable(Leaf(View(s), dir, va / 4096).value) <==> ph.flags / 2 % 2 == 1)
  }

  /** Loader correctness, from the bytes of the file: every loadable segment is
      shown; the stack block is seen from 0x83fb000 to 0x83ff000 with all rights;
      and every other page is as it was. */
  lemma ElfLoads(v: Vmem, runs: Runs, dir: nat, tabs: Tables, elf: Word, stack: Word, file: seq<Byte>, h: Ehdr,
                 phs: seq<Phdr>)
    requires Encodes(file, h, phs) && GoodHeaders(phs, |file|)
    requires SpaceOk(v.s, runs, dir, tabs) && FileAt(v.s, runs, dir, tabs, BlockOf(stack), elf, file) && dir < PAGES
    requires stack % 4096 == 0 && stack < 0x800_0000 && elf + 52 <= SPACE && MapElf(v, dir, elf, stack).1 == Ok
    ensures
      var s' := MapElf(v, dir, elf, stack).0.s;
      && (forall i: nat :: i < |phs| ==> Shows(s', dir, file, phs[i]))
      && (forall va: Word :: 0x83f_b000 <= va < 0x83f_f000 ==>
            Translate(View(s'), dir, va) == Some(stack + (va - 0x83f_b000)))
      && (forall p: nat :: 0x83f_b <= p < 0x83f_f ==> EffectiveRights(View(s'), dir, p) == Rights(true, true, true))
      && (forall p: nat :: p < PAGES && !(0x83f_b <= p < 0x83f_f) && OnNoSegment(phs, p) ==>
            Leaf(View(s'), dir, p) == Leaf(View(v.s), dir, p))
  {
    hide MapElf, Encodes, PhOffset, PhCount, Header, KernelMapped, Tidy, FileAt, Placeable, InOrder, Shows, Image,
      EffectiveRights, Translate, Leaf, ElfSpread, DataKept, NoSharedPage;
    HeadersRead(file, h, phs);
    HeadersPlaceable(file, h, phs);
    var runs' := LoaderCorrect(v, runs, dir, tabs, elf, stack, file);
    var s', skip := MapElf(v, dir, elf, stack).0.s, BlockOf(stack);
    forall i: nat | i < |phs| ensures Shows(s', dir, file, phs[i]) {
      ShownImage(s', runs', dir, tabs, skip, file, h, phs, i);
    }
    var runs1, at := ElfFrames(v, runs, dir, tabs, elf, stack, file);
    forall p: nat | p < PAGES && !(0x83f_b <= p < 0x83f_f) && OnNoSegment(phs, p)
      ensures Leaf(View(s'), dir, p) == Leaf(View(v.s), dir, p)
    {
      OtherPage(View(v.s), View(s'), runs, runs1, dir, elf, stack, file, h, phs, at, p);
    }
  }

  ghost predicate OnNoSegment(phs: seq<Phdr>, p: nat) {
    forall i: nat :: i < |phs| ==> !HasPage(phs[i], p)
  }

  lemma ShownImage(s: Machine, runs: Runs, dir: nat, tabs: Tables, skip: nat, file: seq<Byte>, h: Ehdr,
                   phs: seq<Phdr>, i: nat)
    requires Encodes(file, h, phs) && GoodHeaders(phs, |file|) && i < |phs| && dir < PAGES
    requires EHDR_SIZE <= |file| && Placeable(file, PhOffset(file, 0), PhCount(file, 0))
    requires Loaded(s, runs, dir, tabs, skip, file, PhOffset(file, 0), PhCount(file, 0), PhCount(file, 0))
    ensures Shows(s, dir, file, phs[i])
  {
    hide Encodes, PhOffset, PhCount, Header, Leaf, Translate, InData, PagesApart, ClearOfStack, NoSharedPage;
    HeadersRead(file, h, phs);
    InOrderOk(phs[i], |file|);
    var ph := phs[i];
    assert Image(s, runs, dir, tabs, skip, ph, file);
    if IsLoad(ph) {
      forall va: Word | ph.vaddr <= va < ph.vaddr + ph.memsz
        ensures UserByte(s, dir, va) == Some(ImageByte(file, ph, va)) && EntryGrants(View(s), dir, va, WantsWrite(ph))
      {
        assert ByteSeen(s, runs, dir, tabs, skip, va, SegmentByte(ph, file, va));
      }
    }
  }

  lemma OtherPage(w: Ram, w': Ram, runs: Runs, runs': Runs, dir: nat, elf: Word, stack: Word, file: seq<Byte>, h: Ehdr,
                  phs: seq<Phdr>, at: seq<nat>, p: nat)
    requires Encodes(file, h, phs) && GoodHeaders(phs, |file|) && EHDR_SIZE <= |file|
    requires ElfSpread(w, w', runs, runs', dir, elf, stack, file, PhOffset(file, 0), PhCount(file, 0), at)
    requires p < PAGES && !(0x83f_b <= p < 0x83f_f) && OnNoSegment(phs, p)
    ensures dir < PAGES && Leaf(w', dir, p) == Leaf(w, dir, p)
  {
    hide Encodes, PhOffset, PhCount, Header, Leaf, InOrder, HasPage, OnPage, SegmentSpread, NoSharedPage;
    HeadersRead(file, h, phs);
    forall j: nat | j < |phs| ensures !OnPage(Header(file, h.phoff, j), p) {
      PagesOf(phs[j], |file|, p);
    }
    assert NoSegment(file, h.phoff, |phs|, 0, p);
  }

  // ----------------------------------------------------------- when it loads

  /** Each segment with a zero tail, in turn, finds the lowest free run of blocks
      for its copy. */
  ghost predicate CopiesFind(t: Table, phs: seq<Phdr>)
    decreases |phs|, 0
  {
    phs != [] ==>
      if IsLoad(phs[0]) && phs[0].filesz < phs[0].memsz then CopyFinds(t, (phs[0].memsz + 4095) / 4096, phs[1..])
      else CopiesFind(t, phs[1..])
  }

  ghost predicate CopyFinds(t: Table, n: nat, rest: seq<Phdr>)
    decreases |rest|, 2
  {
    exists k: nat :: CopyAt(t, n, k, rest)
  }

  ghost predicate CopyAt(t: Table, n: nat, k: nat, rest: seq<Phdr>)
    decreases |rest|, 1
  {
    LowestFit(t, n, k) && CopiesFind(Marked(t, k, n), rest)
  }

  lemma OneLowest(t: Table, n: nat, i: nat, j: nat)
    requires LowestFit(t, n, i) && LowestFit(t, n, j)
    ensures i == j
  {
  }

  lemma {:induction false} CopiesSame(t: Table, file: seq<Byte>, h: Ehdr, phs: seq<Phdr>, i: nat)
    requires Encodes(file, h, phs) && GoodHeaders(phs, |file|) && i <= |phs|
    requires h.phoff + PHDR_SIZE * |phs| <= |file|
    ensures CopiesFit(t, file, h.phoff, |phs|, i) <==> CopiesFind(t, phs[i..])
    decreases |phs| - i
  {
    hide Encodes, Header, InOrder, CopiesFit, Scan, Marked, NumBlocks, LowestFit, NoSharedPage, CopyFinds, CopiesFind,
      IsLoad;
    FindTurn(t, phs[i..]);
    if i == |phs| {
      NoCopies(t, file, h.phoff, |phs|);
    } else {
      HeadersRead(file, h, phs);
      var ph := phs[i];
      assert phs[i..][1..] == phs[i + 1..];
      if IsLoad(ph) && ph.filesz < ph.memsz {
        CopySame(t, file, h, phs, i);
      } else {
        CopiesTurn(t, file, h.phoff, |phs|, i);
        NotCopied(ph, |file|);
        CopiesSame(t, file, h, phs, i + 1);
      }
    }
  }

  lemma FindTurn(t: Table, phs: seq<Phdr>)
    ensures
      CopiesFind(t, phs) <==>
      if phs == [] then true
      else if IsLoad(phs[0]) && phs[0].filesz < phs[0].memsz then CopyFinds(t, (phs[0].memsz + 4095) / 4096, phs[1..])
      else CopiesFind(t, phs[1..])
  {
    hide CopyFinds, IsLoad;
  }

  lemma SizeInOrder(ph: Phdr, fileLen: nat)
    requires InOrder(ph, fileLen) && IsLoad(ph)
    ensures 0 < ph.memsz <= 0xffff_f000
  {
  }

  lemma NotCopied(ph: Phdr, fileLen: nat)
    requires InOrder(ph, fileLen) && !(IsLoad(ph) && ph.filesz < ph.memsz)
    ensures !NeedsCopy(ph)
  {
  }

  lemma {:induction false} CopySame(t: Table, file: seq<Byte>, h: Ehdr, phs: seq<Phdr>, i: nat)
    requires Encodes(file, h, phs) && GoodHeaders(phs, |file|) && i < |phs|
    requires h.phoff + PHDR_SIZE * |phs| <= |file|
    requires IsLoad(phs[i]) && phs[i].filesz < phs[i].memsz
    ensures
      var n := (phs[i].memsz + 4095) / 4096;
      CopiesFit(t, file, h.phoff, |phs|, i) <==> CopyFinds(t, n, phs[i + 1..])
    decreases |phs| - i, 0
  {
    hide Encodes, Header, InOrder, CopiesFit, Scan, Marked, NumBlocks, LowestFit, NoSharedPage, CopiesFind;
    HeadersRead(file, h, phs);
    CopiesTurn(t, file, h.phoff, |phs|, i);
    var ph, rest := phs[i], phs[i + 1..];
    var n := (ph.memsz + 4095) / 4096;
    SizeInOrder(ph, |file|);
    BlocksCounted(ph.memsz);
    assert NeedsCopy(ph);
    ScanMeaning(t, n);
    var scan := Scan(t, n, 0);
    LowestBound(t, n);
    if scan.Found? {
      CopiesSame(Marked(t, scan.at, n), file, h, phs, i + 1);
      if CopiesFind(Marked(t, scan.at, n), rest) { assert CopyAt(t, n, scan.at, rest); }
    }
    if CopyFinds(t, n, rest) {
      var k := FoundCopy(t, n, rest);
      FitOfLowest(t, n, k);
      OneLowest(t, n, k, scan.at);
    }
  }

  lemma FoundCopy(t: Table, n: nat, rest: seq<Phdr>) returns (k: nat)
    requires CopyFinds(t, n, rest)
    ensures CopyAt(t, n, k, rest)
  {
    k :| CopyAt(t, n, k, rest);
  }

  lemma LowestBound(t: Table, n: nat)
    ensures forall k: nat :: LowestFit(t, n, k) ==> k + n <= |t|
  {
  }

  lemma FitOfLowest(t: Table, n: nat, k: nat)
    requires LowestFit(t, n, k)
    ensures FitExists(t, n)
  {
  }

  /** process_map_elf succeeds on good headers exactly when the copies find their
      blocks. */
  lemma ElfLoadsExactly(v: Vmem, runs: Runs, dir: nat, tabs: Tables, elf: Word, stack: Word, file: seq<Byte>, h: Ehdr,
                        phs: seq<Phdr>)
    requires Encodes(file, h, phs) && GoodHeaders(phs, |file|)
    requires SpaceOk(v.s, runs, dir, tabs) && FileAt(v.s, runs, dir, tabs, BlockOf(stack), elf, file) && dir < PAGES
    requires stack % 4096 == 0 && stack < 0x800_0000 && elf + 52 <= SPACE
    ensures MapElf(v, dir, elf, stack).1 == Ok <==> CopiesFind(v.s.table, phs)
  {
    hide MapElf, Encodes, PhOffset, PhCount, Header, KernelMapped, Tidy, FileAt, Placeable, GoodHeaders, CopiesFit,
      CopiesFind;
    HeadersRead(file, h, phs);
    HeadersPlaceable(file, h, phs);
    LoaderSucceeds(v, runs, dir, tabs, elf, stack, file);
    CopiesSame(v.s.table, file, h, phs, 0);
    assert phs[0..] == phs;
  }

  // ------------------------------------------------------------ other headers

  /** What a header that asks for nothing, or for the impossible, comes to, in any
      state: it is passed over, or the kernel stops. */
  lemma OddHeaders(v: Vmem, dir: nat, elf: Word, ph: Phdr)
    requires dir < PAGES
    ensures ph.pType != 1 || ph.memsz == 0 ==> MapSegment(v, dir, elf, ph) == (v, Ok)
    ensures ph.pType == 1 && 0 < ph.memsz < ph.filesz ==> MapSegment(v, dir, elf, ph) == (v, Panic)
  {
    hide MapRegion, Kzalloc, Copied, ScanSafe;
  }

  /** The block table after one segment: a copy is recorded, from its first byte to
      past its last, in the first unused entry, if there is one. */
  lemma SegmentRecorded(v: Vmem, dir: nat, elf: Word, ph: Phdr, k: nat)
    requires dir < PAGES && IsLoad(ph) && ph.memsz <= 0xffff_f000 && MapSegment(v, dir, elf, ph).1 == Ok
    requires ph.filesz < ph.memsz ==> LowestFit(v.s.table, (ph.memsz + 4095) / 4096, k)
    ensures
      var blocks := MapSegment(v, dir, elf, ph).0.blocks;
      if ph.filesz < ph.memsz && exists i :: 0 <= i < MAX_BLOCKS && v.blocks[i].start == 0 then
        exists i :: 0 <= i < MAX_BLOCKS && FirstUnused(v.blocks, i)
                    && RecordedAt(v.blocks, blocks, i, 0x100_0000 + k * 4096, 0x100_0000 + k * 4096 + ph.memsz)
      else blocks == v.blocks
  {
    hide MapRegion, LowestFit, Find, SegmentSource, UpAlign, DownAlign;
    FindMeaning(v.blocks, 0, 0);
    SourceRecorded(v, elf, ph, k);
    if ph.filesz < ph.memsz && Find(v.blocks, 0, 0).Some? {
      var i := Find(v.blocks, 0, 0).value;
      assert FirstUnused(v.blocks, i);
      assert RecordedAt(v.blocks, MapSegment(v, dir, elf, ph).0.blocks, i, AddrOf(k), AddrOf(k) + ph.memsz);
    }
  }

  lemma SourceRecorded(v: Vmem, elf: Word, ph: Phdr, k: nat)
    requires IsLoad(ph) && ph.memsz <= 0xffff_f000 && SegmentSource(v, elf, ph).status == Ok
    requires ph.filesz < ph.memsz ==> LowestFit(v.s.table, (ph.memsz + 4095) / 4096, k)
    ensures
      var blocks := SegmentSource(v, elf, ph).v.blocks;
      if ph.filesz < ph.memsz then
        AddrOf(k) + ph.memsz < SPACE && blocks == Record(v.blocks, Block(AddrOf(k), AddrOf(k) + ph.memsz))
      else blocks == v.blocks
  {
    hide Copied, LowestFit, Scan, Marked, NumBlocks, Record, Zeroed;
    if ph.filesz < ph.memsz {
      var n := (ph.memsz + 4095) / 4096;
      BlocksCounted(ph.memsz);
      ScanMeaning(v.s.table, n);
      FitOfLowest(v.s.table, n, k);
      OneLowest(v.s.table, n, k, Scan(v.s.table, n, 0).at);
      LowestInTable(v.s, n, k, ph.memsz);
    }
  }

  predicate FirstUnused(blocks: Blocks, i: int)
    requires 0 <= i < MAX_BLOCKS
  {
    blocks[i].start == 0 && forall j :: 0 <= j < i ==> blocks[j].start != 0
  }

  predicate RecordedAt(blocks: Blocks, blocks': Blocks, i: int, start: nat, end: nat)
    requires 0 <= i < MAX_BLOCKS
  {
    && start < SPACE && end < SPACE && blocks'[i] == Block(start, end)
    && forall j :: 0 <= j < MAX_BLOCKS && j != i ==> blocks'[j] == blocks[j]
  }

  lemma LowestInTable(s: Machine, n: nat, k: nat, size: Word)
    requires LowestFit(s.table, n, k) && n == (size + 4095) / 4096
    ensures AddrOf(k) + size <= KHEAP_SAFE_BOUNDARY
  {
  }
}
