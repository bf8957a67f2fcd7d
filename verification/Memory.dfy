/** Physical memory: bytes, little-endian 32-bit words, and the two block
    operations of src/memory/memory.c. */
module Memory {

  type Byte = x: int | 0 <= x < 256
  type Word = x: int | 0 <= x < 0x1_0000_0000

  function LittleEndian(b0: int, b1: int, b2: int, b3: int): int {
    b0 + 0x100 * b1 + 0x1_0000 * b2 + 0x100_0000 * b3
  }

  /** The word stored at byte address `a`, least significant byte first. */
  function GetWord(m: seq<Byte>, a: nat): Word
    requires a + 4 <= |m|
  {
    LittleEndian(m[a], m[a + 1], m[a + 2], m[a + 3])
  }

  /** Two memories that agree on every byte outside `[lo, hi)`. */
  ghost predicate SameOutside(m: seq<Byte>, m': seq<Byte>, lo: int, hi: int) {
    |m'| == |m| && forall a :: 0 <= a < |m| && !(lo <= a < hi) ==> m'[a] == m[a]
  }

  /** `r` is `m` with the word at `a` replaced. */
  ghost predicate WordReplaced(m: seq<Byte>, r: seq<Byte>, a: nat, w: Word)
    requires a + 4 <= |m|
  {
    SameOutside(m, r, a, a + 4) && GetWord(r, a) == w
  }

  ghost function PutWord(m: seq<Byte>, a: nat, w: Word): (r: seq<Byte>)
    requires a + 4 <= |m|
    ensures WordReplaced(m, r, a, w)
  {
    WordDigits(w);
    assert WordReplaced(m, m[a := w % 0x100][a + 1 := w / 0x100 % 0x100]
                            [a + 2 := w / 0x1_0000 % 0x100][a + 3 := w / 0x100_0000], a, w);
    var r :| WordReplaced(m, r, a, w);
    r
  }

  lemma WordDigits(w: Word)
    ensures w == LittleEndian(w % 0x100, w / 0x100 % 0x100, w / 0x1_0000 % 0x100, w / 0x100_0000)
  {
    var q := w / 0x100;
    assert w / 0x1_0000 == q / 0x100 && w / 0x100_0000 == q / 0x100 / 0x100;
  }

  lemma DigitsUnique(b0: Byte, b1: Byte, b2: Byte, b3: Byte, c0: Byte, c1: Byte, c2: Byte, c3: Byte)
    requires LittleEndian(b0, b1, b2, b3) == LittleEndian(c0, c1, c2, c3)
    ensures b0 == c0 && b1 == c1 && b2 == c2 && b3 == c3
  {
    LowDigit(b0, b1 + 0x100 * (b2 + 0x100 * b3), c0, c1 + 0x100 * (c2 + 0x100 * c3));
    LowDigit(b1, b2 + 0x100 * b3, c1, c2 + 0x100 * c3);
    LowDigit(b2, b3, c2, c3);
  }

  lemma LowDigit(b: Byte, rest: nat, c: Byte, rest': nat)
    requires b + 0x100 * rest == c + 0x100 * rest'
    ensures b == c && rest == rest'
  {
  }

  /** Only one memory is `m` with that word replaced. */
  lemma WordReplacedUnique(m: seq<Byte>, r: seq<Byte>, r': seq<Byte>, a: nat, w: Word)
    requires a + 4 <= |m| && WordReplaced(m, r, a, w) && WordReplaced(m, r', a, w)
    ensures r == r'
  {
    hide LittleEndian;
    DigitsUnique(r[a], r[a + 1], r[a + 2], r[a + 3], r'[a], r'[a + 1], r'[a + 2], r'[a + 3]);
    forall k | 0 <= k < |m| ensures r[k] == r'[k] {
      assert a <= k < a + 4 ==> k == a || k == a + 1 || k == a + 2 || k == a + 3;
    }
  }

  /** A word read only depends on the four bytes it covers. */
  lemma WordsOutside(m: seq<Byte>, m': seq<Byte>, lo: int, hi: int)
    requires SameOutside(m, m', lo, hi)
    ensures forall a: nat {:trigger GetWord(m', a)} ::
              a + 4 <= |m| && (a + 4 <= lo || hi <= a) ==> GetWord(m', a) == GetWord(m, a)
  {
  }

  const PAGE_SIZE: nat := 4096
  const ENTRIES: nat := 1024

  /** One page as the 1024 aligned words the processor reads from it. */
  type Page = p: seq<Word> | |p| == ENTRIES witness seq(ENTRIES, _ => 0)

  function PageWord(m: seq<Byte>, frame: nat, i: nat): Word
    requires (frame + 1) * PAGE_SIZE <= |m| && i < ENTRIES
  {
    GetWord(m, frame * PAGE_SIZE + 4 * i)
  }

  /** `r` is memory `m` cut into pages of words.  The trigger keeps the byte
      arithmetic out of proofs that only follow words. */
  ghost predicate CutIntoPages(m: seq<Byte>, r: seq<Page>) {
    && |r| == |m| / PAGE_SIZE
    && forall f: nat, i: nat {:trigger PageWord(m, f, i)} ::
         f < |r| && i < ENTRIES ==> r[f][i] == PageWord(m, f, i)
  }

  function CutPage(m: seq<Byte>, frame: nat): Page
    requires (frame + 1) * PAGE_SIZE <= |m|
  {
    seq(ENTRIES, i requires 0 <= i < ENTRIES => PageWord(m, frame, i))
  }

  /** Memory as a sequence of pages. */
  ghost function Pages(m: seq<Byte>): (r: seq<Page>)
    ensures CutIntoPages(m, r)
  {
    assert CutIntoPages(m, seq(|m| / PAGE_SIZE, f requires 0 <= f < |m| / PAGE_SIZE => CutPage(m, f)));
    var r :| CutIntoPages(m, r);
    r
  }

  lemma PageWordPut(m: seq<Byte>, frame: nat, i: nat, w: Word, f: nat, j: nat)
    requires frame < |m| / PAGE_SIZE && i < ENTRIES && f < |m| / PAGE_SIZE && j < ENTRIES
    ensures PageWord(PutWord(m, frame * PAGE_SIZE + 4 * i, w), f, j)
            == if f == frame && j == i then w else PageWord(m, f, j)
  {
    hide GetWord, PutWord;
    var a, b := frame * PAGE_SIZE + 4 * i, f * PAGE_SIZE + 4 * j;
    EntriesApart(frame, i, f, j);
    WordsOutside(m, PutWord(m, a, w), a, a + 4);
    assert a == b || b + 4 <= a || a + 4 <= b;
  }

  /** Different entries are different words. */
  lemma EntriesApart(frame: nat, i: nat, f: nat, j: nat)
    requires i < ENTRIES && j < ENTRIES
    ensures
      var a, b := frame * PAGE_SIZE + 4 * i, f * PAGE_SIZE + 4 * j;
      (a == b <==> f == frame && j == i) && (a == b || b + 4 <= a || a + 4 <= b)
  {
    var n, m := frame * ENTRIES + i, f * ENTRIES + j;
    assert frame * PAGE_SIZE + 4 * i == 4 * n && f * PAGE_SIZE + 4 * j == 4 * m;
  }

  lemma PagesPut(m: seq<Byte>, frame: nat, i: nat, w: Word)
    requires frame < |m| / PAGE_SIZE && i < ENTRIES
    ensures Pages(PutWord(m, frame * PAGE_SIZE + 4 * i, w))
            == Pages(m)[frame := Pages(m)[frame][i := w]]
  {
    hide PageWord, PutWord;
    var m' := PutWord(m, frame * PAGE_SIZE + 4 * i, w);
    forall f: nat | f < |m| / PAGE_SIZE
      ensures Pages(m')[f] == if f == frame then Pages(m)[f][i := w] else Pages(m)[f]
    {
      forall j: nat | j < ENTRIES
        ensures Pages(m')[f][j] == if f == frame && j == i then w else Pages(m)[f][j]
      {
        PageWordPut(m, frame, i, w, f, j);
      }
    }
  }

  lemma PagesSame(m: seq<Byte>, m': seq<Byte>, frame: nat)
    requires |m'| == |m| && frame < |m| / PAGE_SIZE
    requires forall a :: frame * PAGE_SIZE <= a < (frame + 1) * PAGE_SIZE ==> m'[a] == m[a]
    ensures Pages(m')[frame] == Pages(m)[frame]
  {
    forall j: nat | j < ENTRIES ensures Pages(m')[frame][j] == Pages(m)[frame][j] {
      assert PageWord(m', frame, j) == PageWord(m, frame, j);
    }
  }

  method StoreWord(mem: array<Byte>, a: nat, w: Word)
    requires a + 4 <= mem.Length
    modifies mem
    ensures mem[..] == PutWord(old(mem[..]), a, w)
  {
    mem[a] := w % 0x100;
    mem[a + 1] := w / 0x100 % 0x100;
    mem[a + 2] := w / 0x1_0000 % 0x100;
    mem[a + 3] := w / 0x100_0000;
    WordDigits(w);
    WordReplacedUnique(old(mem[..]), mem[..], PutWord(old(mem[..]), a, w), a, w);
  }

  /** Two memories that agree on every byte outside the given frames. */
  ghost predicate SameElsewhere(m: seq<Byte>, m': seq<Byte>, frames: set<nat>) {
    |m'| == |m| && forall a :: 0 <= a < |m| && a / PAGE_SIZE !in frames ==> m'[a] == m[a]
  }

  lemma SameElsewhereTrans(m: seq<Byte>, m1: seq<Byte>, m2: seq<Byte>, f: set<nat>, f1: set<nat>, f2: set<nat>)
    requires SameElsewhere(m, m1, f) && SameElsewhere(m1, m2, f1) && f <= f2 && f1 <= f2
    ensures SameElsewhere(m, m2, f2)
  {
  }

  lemma PagesElsewhere(m: seq<Byte>, m': seq<Byte>, frames: set<nat>)
    requires SameElsewhere(m, m', frames)
    ensures forall f: nat :: f < |m| / PAGE_SIZE && f !in frames ==> Pages(m')[f] == Pages(m)[f]
  {
    forall f: nat | f < |m| / PAGE_SIZE && f !in frames ensures Pages(m')[f] == Pages(m)[f] {
      PagesSame(m, m', f);
    }
  }

  /** Write entry `i` of the table in a frame. */
  method StoreEntry(mem: array<Byte>, frame: nat, i: nat, w: Word)
    requires frame < mem.Length / PAGE_SIZE && i < ENTRIES
    modifies mem
    ensures mem[..] == PutWord(old(mem[..]), frame * PAGE_SIZE + 4 * i, w)
  {
    StoreWord(mem, frame * PAGE_SIZE + 4 * i, w);
  }

  method LoadEntry(mem: array<Byte>, frame: nat, i: nat) returns (w: Word)
    requires frame < mem.Length / PAGE_SIZE && i < ENTRIES
    ensures w == Pages(mem[..])[frame][i]
  {
    w := LoadWord(mem, frame * PAGE_SIZE + 4 * i);
    assert w == PageWord(mem[..], frame, i);
  }

  method LoadWord(mem: array<Byte>, a: nat) returns (w: Word)
    requires a + 4 <= mem.Length
    ensures w == GetWord(mem[..], a)
  {
    w := LittleEndian(mem[a], mem[a + 1], mem[a + 2], mem[a + 3]);
  }

  /** `data` written at `at`. */
  function Blit(m: seq<Byte>, at: nat, data: seq<Byte>): (r: seq<Byte>)
    requires at + |data| <= |m|
    ensures SameOutside(m, r, at, at + |data|)
    ensures forall k :: 0 <= k < |data| ==> r[at + k] == data[k]
  {
    m[..at] + data + m[at + |data|..]
  }

  lemma BlitNothing(m: seq<Byte>, at: nat)
    requires at <= |m|
    ensures Blit(m, at, []) == m
  {
  }

  lemma BlitTwice(m: seq<Byte>, at: nat, a: seq<Byte>, b: seq<Byte>)
    requires at + |a| + |b| <= |m|
    ensures Blit(Blit(m, at, a), at + |a|, b) == Blit(m, at, a + b)
  {
  }

  lemma BlitByte(m: seq<Byte>, at: nat, b: Byte)
    requires at < |m|
    ensures m[at := b] == Blit(m, at, [b])
  {
  }

  /** memset */
  method Fill(mem: array<Byte>, at: nat, value: Byte, num: nat)
    requires at + num <= mem.Length
    modifies mem
    ensures SameOutside(old(mem[..]), mem[..], at, at + num)
    ensures forall k :: at <= k < at + num ==> mem[k] == value
  {
    for i := 0 to num
      invariant SameOutside(old(mem[..]), mem[..], at, at + num)
      invariant forall k :: at <= k < at + i ==> mem[k] == value
    {
      mem[at + i] := value;
    }
  }

  /** `data` from elsewhere copied into an array. */
  method Transfer(dst: array<Byte>, at: nat, data: seq<Byte>)
    requires at + |data| <= dst.Length
    modifies dst
    ensures dst[..] == Blit(old(dst[..]), at, data)
  {
    for i := 0 to |data|
      invariant SameOutside(old(dst[..]), dst[..], at, at + |data|)
      invariant forall k :: 0 <= k < i ==> dst[at + k] == data[k]
    {
      dst[at + i] := data[i];
    }
    ghost var r := Blit(old(dst[..]), at, data);
    forall k | 0 <= k < dst.Length ensures dst[k] == r[k] {
      if at <= k < at + |data| { assert dst[at + (k - at)] == data[k - at]; }
    }
  }

  lemma SliceOfSlice(s: seq<Byte>, lo: nat, hi: nat, from: nat, n: nat)
    requires lo + from + n <= hi <= |s|
    ensures s[lo..hi][from..from + n] == s[lo + from..lo + from + n]
  {
    var part, whole := s[lo..hi][from..from + n], s[lo + from..lo + from + n];
    forall k | 0 <= k < n ensures part[k] == whole[k] {
      assert part[k] == s[lo..hi][from + k];
    }
    assert part == whole;
  }
}
