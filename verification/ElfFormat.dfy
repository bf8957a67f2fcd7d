/** The bytes of an ELF file: the header and the program headers of the "ELF Header"
    and "Program Header" sections of the TIS ELF Specification 1.2, written out
    field by field, and what the loader reads of them. */
module ElfFormat {
  import opened Memory
  import opened LoaderSpec

  type Half = x: int | 0 <= x < 0x1_0000

  /** Least significant byte first. */
  function HalfBytes(h: Half): seq<Byte> { [h % 0x100, h / 0x100] }

  function WordBytes(w: Word): seq<Byte> {
    [w % 0x100, w / 0x100 % 0x100, w / 0x1_0000 % 0x100, w / 0x100_0000]
  }

  /** Elf32_Ehdr */
  datatype Ehdr = Ehdr(ident: seq<Byte>, eType: Half, machine: Half, version: Word, entry: Word, phoff: Word,
                       shoff: Word, flags: Word, ehsize: Half, phentsize: Half, phnum: Half, shentsize: Half,
                       shnum: Half, shstrndx: Half)

  function EncodeEhdr(h: Ehdr): seq<Byte> {
    h.ident + HalfBytes(h.eType) + HalfBytes(h.machine) + WordBytes(h.version) + WordBytes(h.entry)
    + WordBytes(h.phoff) + WordBytes(h.shoff) + WordBytes(h.flags) + HalfBytes(h.ehsize) + HalfBytes(h.phentsize)
    + HalfBytes(h.phnum) + HalfBytes(h.shentsize) + HalfBytes(h.shnum) + HalfBytes(h.shstrndx)
  }

  /** Words one after the other. */
  function Words(ws: seq<Word>): (r: seq<Byte>)
    ensures |r| == 4 * |ws|
  {
    if ws == [] then [] else WordBytes(ws[0]) + Words(ws[1..])
  }

  /** Elf32_Phdr: p_type, p_offset, p_vaddr, p_paddr, p_filesz, p_memsz, p_flags,
      p_align. */
  function EncodePhdr(ph: Phdr): (r: seq<Byte>)
    ensures |r| == 32
  {
    Words([ph.pType, ph.offset, ph.vaddr, ph.paddr, ph.filesz, ph.memsz, ph.flags, ph.align])
  }

  lemma {:induction false} WordOf(ws: seq<Word>, k: nat)
    requires k < |ws|
    ensures Words(ws)[4 * k..4 * k + 4] == WordBytes(ws[k])
  {
    hide WordBytes;
    if k > 0 {
      WordOf(ws[1..], k - 1);
      var rest := Words(ws[1..]);
      assert Words(ws)[4 * k..4 * k + 4] == rest[4 * (k - 1)..4 * (k - 1) + 4];
    }
  }

  lemma WordRead(m: seq<Byte>, at: nat, w: Word)
    requires at + 4 <= |m| && m[at..at + 4] == WordBytes(w)
    ensures GetWord(m, at) == w
  {
    WordDigits(w);
    var four := m[at..at + 4];
    assert four[0] == m[at] && four[1] == m[at + 1] && four[2] == m[at + 2] && four[3] == m[at + 3];
  }

  lemma WordAt(m: seq<Byte>, at: nat, ws: seq<Word>, k: nat)
    requires at + 4 * |ws| <= |m| && m[at..at + 4 * |ws|] == Words(ws) && k < |ws|
    ensures GetWord(m, at + 4 * k) == ws[k]
  {
    hide GetWord, WordBytes, Words;
    WordOf(ws, k);
    WordIn(m, at, Words(ws), 4 * k, ws[k]);
  }

  /** A word inside some bytes of the memory. */
  lemma WordIn(m: seq<Byte>, at: nat, part: seq<Byte>, o: nat, w: Word)
    requires at + |part| <= |m| && m[at..at + |part|] == part && o + 4 <= |part| && part[o..o + 4] == WordBytes(w)
    ensures GetWord(m, at + o) == w
  {
    hide GetWord, WordBytes;
    SliceOfSlice(m, at, at + |part|, o, 4);
    WordRead(m, at + o, w);
  }

  /** A program header is read back field by field, wherever it stands. */
  lemma PhdrRoundTrip(m: seq<Byte>, at: nat, ph: Phdr)
    requires at + 32 <= |m| && m[at..at + 32] == EncodePhdr(ph)
    ensures PhdrAt(m, at) == ph
  {
    hide GetWord, Words;
    var ws := [ph.pType, ph.offset, ph.vaddr, ph.paddr, ph.filesz, ph.memsz, ph.flags, ph.align];
    WordAt(m, at, ws, 0);
    WordAt(m, at, ws, 1);
    WordAt(m, at, ws, 2);
    WordAt(m, at, ws, 3);
    WordAt(m, at, ws, 4);
    WordAt(m, at, ws, 5);
    WordAt(m, at, ws, 6);
    WordAt(m, at, ws, 7);
  }

  /** And of the ELF header the place and the number of the program headers. */
  lemma EhdrRoundTrip(m: seq<Byte>, at: nat, h: Ehdr)
    requires |h.ident| == 16 && at + 52 <= |m| && m[at..at + 52] == EncodeEhdr(h)
    ensures PhOffset(m, at) == h.phoff && PhCount(m, at) == h.phnum
  {
    hide GetWord;
    var all := EncodeEhdr(h);
    assert all[28..32] == WordBytes(h.phoff);
    WordIn(m, at, all, 28, h.phoff);
    assert all[44] == h.phnum % 0x100 && all[45] == h.phnum / 0x100;
    assert m[at..at + 52][44] == m[at + 44] && m[at..at + 52][45] == m[at + 45];
  }
}
