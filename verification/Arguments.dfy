/** process_add_arguments of src/task/process.c: the argument block is written
    to physical memory and read back by the process through its page table. */
module Arguments {
  import opened CString
  import opened Memory
  import opened HeapTable
  import opened MachineState
  import opened PageWalk
  import opened PagingSpec
  import opened LoaderSpec
  import opened Loader
  import opened Status

  const STACK_SIZE: nat := 0x4000

  // ------------------------------------------------------------- the writes

  /** Memory, and the addresses written so far. */
  datatype Logged = Logged(ram: seq<Byte>, log: set<nat>)

  /** A 32-bit address. */
  function At(a: int): Word { a % SPACE }

  /** The user address of a byte of the stack block, in 32 bits. */
  function StackVa(stack: nat, a: int): Word { (a - stack + STACK_END) % SPACE }

  /** A word stored at an address that may wrap around. */
  ghost function WrapPut(m: seq<Byte>, a: int, w: Word): (r: seq<Byte>)
    requires |m| == SPACE
    ensures |r| == SPACE
  {
    if At(a) + 4 <= SPACE then PutWord(m, At(a), w)
    else
      m[At(a) := w % 0x100][At(a + 1) := w / 0x100 % 0x100]
       [At(a + 2) := w / 0x1_0000 % 0x100][At(a + 3) := w / 0x100_0000]
  }

  /** Address `a` is one of the four of the word at `c`. */
  predicate InCell(c: int, a: nat) { a == At(c) || a == At(c + 1) || a == At(c + 2) || a == At(c + 3) }

  ghost function Store(l: Logged, a: int, w: Word): (r: Logged)
    requires |l.ram| == SPACE
    ensures |r.ram| == SPACE
  {
    Logged(WrapPut(l.ram, a, w), l.log + {At(a), At(a + 1), At(a + 2), At(a + 3)})
  }

  ghost function CopyIn(l: Logged, dest: Word, src: Word, n: Word): (r: Logged)
    requires |l.ram| == SPACE
    ensures |r.ram| == SPACE
  {
    Logged(Copied(l.ram, dest, src, n), l.log + CopyCells(dest, n))
  }

  /** The addresses of `n` bytes from `dest`. */
  ghost function CopyCells(dest: Word, n: Word): set<nat> { set k | dest <= k < dest + n :: At(k) }

  /** The pointer loop from argument `i` of `n`, whose string is at `cur`.  A
      string that reaches the end of the address space ends there. */
  ghost function PutPointers(l: Logged, stack: nat, ptrs: int, cur: Word, i: nat, n: nat): (r: Logged)
    requires |l.ram| == SPACE && i < n
    ensures |r.ram| == SPACE
    decreases n - i
  {
    var l1 := Store(l, ptrs + 4 * i, StackVa(stack, cur));
    if i + 1 == n then l1
    else PutPointers(l1, stack, ptrs, At(cur + StrLen(l1.ram, cur) + 1), i + 1, n)
  }

  /** The pointers the loop writes: it counts with a signed bound, after the first. */
  function Cells(argc: Word): nat { if 1 <= argc < 0x8000_0000 then argc else 1 }

  /** The size guard, in 32 bits. */
  predicate Passes(argc: Word, len: Word) { (4 * argc + len) % SPACE <= STACK_SIZE }

  datatype Pushed = Pushed(l: Logged, esp: Word, status: Status)

  /** process_add_arguments on the stack block at `stack`, with `len` bytes of
      arguments at `src`; `unset` stands for the pointer the code leaves
      uninitialised when there are no arguments. */
  ghost function AddArguments(m: seq<Byte>, stack: nat, argc: Word, len: Word, src: Word, unset: Word): Pushed
    requires |m| == SPACE
  {
    var l := Logged(m, {});
    if !Passes(argc, len) then Pushed(l, STACK_START, NotEnoughMem)
    else
      var buf := stack + STACK_SIZE - if argc == 0 then 0 else len;
      var ptrs := buf - 4 * argc;
      var l1 := if argc == 0 then l
                else PutPointers(CopyIn(l, At(buf), src, len), stack, ptrs, At(buf), 0, Cells(argc));
      var l2 := Store(l1, ptrs - 4, if argc == 0 then unset else StackVa(stack, ptrs));
      Pushed(Store(l2, ptrs - 8, argc), StackVa(stack, ptrs - 8), Ok)
  }

  // ----------------------------------------------------------- where they land

  /** Bytes outside the log are as they were. */
  ghost predicate Framed(m: seq<Byte>, l: Logged) {
    |l.ram| == |m| == SPACE && forall a: nat :: a < SPACE && a !in l.log ==> l.ram[a] == m[a]
  }

  lemma StoreFramed(m: seq<Byte>, l: Logged, a: int, w: Word)
    requires Framed(m, l)
    ensures Framed(m, Store(l, a, w))
    ensures forall x: nat :: x in Store(l, a, w).log <==> x in l.log || InCell(a, x)
  {
    var r := Store(l, a, w);
    forall x: nat | x < SPACE && x !in r.log ensures r.ram[x] == m[x] {
      if At(a) + 4 <= SPACE {
        AtSteps(a);
        assert x < At(a) || At(a) + 4 <= x;
      }
    }
  }

  lemma AtSteps(a: int)
    requires At(a) + 4 <= SPACE
    ensures At(a + 1) == At(a) + 1 && At(a + 2) == At(a) + 2 && At(a + 3) == At(a) + 3
  {
  }

  lemma {:induction false} CopiedFrame(m: seq<Byte>, dest: nat, src: nat, n: nat, a: nat)
    requires |m| == SPACE && a < SPACE && forall k :: dest <= k < dest + n ==> At(k) != a
    ensures Copied(m, dest, src, n)[a] == m[a]
    decreases n
  {
    if n > 0 {
      assert At(dest) != a;
      CopiedFrame(m[dest % SPACE := m[src % SPACE]], dest + 1, src + 1, n - 1, a);
    }
  }

  lemma CopyFramed(m: seq<Byte>, dest: Word, src: Word, n: Word)
    requires |m| == SPACE
    ensures Framed(m, CopyIn(Logged(m, {}), dest, src, n))
  {
    hide Copied;
    var r := CopyIn(Logged(m, {}), dest, src, n);
    forall a: nat | a < SPACE && a !in r.log ensures r.ram[a] == m[a] {
      assert forall k :: dest <= k < dest + n ==> At(k) in CopyCells(dest, n);
      CopiedFrame(m, dest, src, n, a);
    }
  }

  /** Cell `j` of the pointer array at `ptrs` holds the address. */
  predicate InPointer(ptrs: int, j: nat, a: nat) { InCell(ptrs + 4 * j, a) }

  ghost predicate InArray(ptrs: int, i: nat, n: nat, a: nat) {
    exists j: nat :: i <= j < n && InPointer(ptrs, j, a)
  }

  lemma InArrayTurn(ptrs: int, i: nat, n: nat, a: nat)
    requires i < n
    ensures InArray(ptrs, i, n, a) <==> InPointer(ptrs, i, a) || InArray(ptrs, i + 1, n, a)
  {
  }

  lemma NoArray(ptrs: int, n: nat, a: nat)
    ensures !InArray(ptrs, n, n, a)
  {
  }

  /** The loop writes the cells of the pointer array and nothing else. */
  lemma {:induction false} PointersLog(m: seq<Byte>, l: Logged, stack: nat, ptrs: int, cur: Word, i: nat, n: nat)
    requires |l.ram| == SPACE && Framed(m, l) && i < n
    ensures
      var r := PutPointers(l, stack, ptrs, cur, i, n);
      && Framed(m, r)
      && (forall a: nat :: a in r.log <==> a in l.log || InArray(ptrs, i, n, a))
    decreases n - i
  {
    hide Framed, StackVa, StrLen, Store, InCell, InArray;
    StoreFramed(m, l, ptrs + 4 * i, StackVa(stack, cur));
    var l1 := Store(l, ptrs + 4 * i, StackVa(stack, cur));
    forall a: nat
      ensures InArray(ptrs, i, n, a) <==> InPointer(ptrs, i, a) || InArray(ptrs, i + 1, n, a)
      ensures !InArray(ptrs, n, n, a)
    {
      InArrayTurn(ptrs, i, n, a);
      NoArray(ptrs, n, a);
    }
    if i + 1 < n {
      PointersLog(m, l1, stack, ptrs, At(cur + StrLen(l1.ram, cur) + 1), i + 1, n);
    }
  }

  /** What a call that passes the guard writes. */
  ghost predicate StackWritten(stack: nat, argc: Word, len: Word, a: nat) {
    var buf := stack + STACK_SIZE - if argc == 0 then 0 else len;
    var ptrs := buf - 4 * argc;
    || (argc != 0 && a in CopyCells(At(buf), len))
    || (argc != 0 && InArray(ptrs, 0, Cells(argc), a))
    || InCell(ptrs - 4, a) || InCell(ptrs - 8, a)
  }

  lemma LogIs(m: seq<Byte>, stack: nat, argc: Word, len: Word, src: Word, unset: Word)
    requires |m| == SPACE && Passes(argc, len)
    ensures
      var r := AddArguments(m, stack, argc, len, src, unset);
      r.status == Ok && Framed(m, r.l) && forall a: nat :: a in r.l.log <==> StackWritten(stack, argc, len, a)
  {
    hide Framed, StackVa, Store, PutPointers, InCell, CopyCells, Copied, Passes, InArray, Cells;
    assert Cells(argc) > 0 by { CellsPositive(argc); }
    var l := Logged(m, {});
    var buf := stack + STACK_SIZE - if argc == 0 then 0 else len;
    var ptrs := buf - 4 * argc;
    NothingWritten(m);
    var l1 := l;
    if argc != 0 {
      CopyFramed(m, At(buf), src, len);
      assert CopyIn(l, At(buf), src, len).log == CopyCells(At(buf), len);
      PointersLog(m, CopyIn(l, At(buf), src, len), stack, ptrs, At(buf), 0, Cells(argc));
      l1 := PutPointers(CopyIn(l, At(buf), src, len), stack, ptrs, At(buf), 0, Cells(argc));
    }
    var argv := if argc == 0 then unset else StackVa(stack, ptrs);
    StoreFramed(m, l1, ptrs - 4, argv);
    StoreFramed(m, Store(l1, ptrs - 4, argv), ptrs - 8, argc);
  }

  lemma CellsPositive(argc: Word)
    ensures Cells(argc) > 0
  {
  }

  lemma NothingWritten(m: seq<Byte>)
    requires |m| == SPACE
    ensures Framed(m, Logged(m, {}))
  {
  }

  /** When every write stays in the block, of calls that pass the guard. */
  predicate StaysInside(argc: Word, len: Word) {
    argc == 0
    || if argc < 0x8000_0000 then 4 * argc + len + 8 <= STACK_SIZE
       else len <= STACK_SIZE && 4 <= (4 * argc + len) % SPACE <= STACK_SIZE - 8
  }

  ghost predicate InBlock(stack: nat, a: nat) { stack <= a < stack + STACK_SIZE }

  /** Where the pointer array starts, in 32 bits. */
  lemma PointersStart(stack: nat, argc: Word, len: Word, d: int)
    requires KHEAP_ADDR <= stack && stack + STACK_SIZE <= KHEAP_SAFE_BOUNDARY
    requires Passes(argc, len) && -8 <= d <= STACK_SIZE + 4
    ensures At(stack + STACK_SIZE - len - 4 * argc + d) == stack + STACK_SIZE - (4 * argc + len) % SPACE + d
  {
    var s := 4 * argc + len;
    var q, r := s / SPACE, s % SPACE;
    assert stack + STACK_SIZE - len - 4 * argc + d == stack + STACK_SIZE - r + d - q * SPACE;
  }

  lemma CoveredInside(stack: nat, len: Word, a: nat)
    requires stack + STACK_SIZE <= KHEAP_SAFE_BOUNDARY && len <= STACK_SIZE
    requires a in CopyCells(At(stack + STACK_SIZE - len), len)
    ensures InBlock(stack, a)
  {
    hide At;
    var buf := stack + STACK_SIZE - len;
    AtIs(buf);
    var k :| At(buf) <= k < At(buf) + len && At(k) == a;
    AtIs(k);
  }

  lemma AtIs(a: int)
    requires 0 <= a < SPACE
    ensures At(a) == a
  {
  }

  lemma CoveredOutside(stack: nat, len: Word)
    requires KHEAP_ADDR <= stack && stack + STACK_SIZE <= KHEAP_SAFE_BOUNDARY && len > STACK_SIZE
    ensures stack - 1 in CopyCells(At(stack + STACK_SIZE - len), len)
  {
    var buf := stack + STACK_SIZE - len;
    var k := At(buf) + (len - STACK_SIZE - 1);
    assert At(buf) == buf || At(buf) == buf + SPACE;
    assert At(k) == stack - 1;
  }

  /** The calls that stay inside do. */
  lemma WritesInside(stack: nat, argc: Word, len: Word, a: nat)
    requires KHEAP_ADDR <= stack && stack + STACK_SIZE <= KHEAP_SAFE_BOUNDARY && Passes(argc, len)
    requires StaysInside(argc, len) && StackWritten(stack, argc, len, a)
    ensures InBlock(stack, a)
  {
    hide At, CopyCells, InArray;
    var buf := stack + STACK_SIZE - if argc == 0 then 0 else len;
    var ptrs := buf - 4 * argc;
    assert argc != 0 ==> len <= STACK_SIZE;
    if argc != 0 && a in CopyCells(At(buf), len) {
      CoveredInside(stack, len, a);
    } else if argc != 0 && InArray(ptrs, 0, Cells(argc), a) {
      var j := PointerOf(ptrs, Cells(argc), a);
      CellStarts(stack, argc, len, 4 * j);
    } else {
      TopCells(stack, argc, len, a);
    }
  }

  lemma PointerOf(ptrs: int, n: nat, a: nat) returns (j: nat)
    requires InArray(ptrs, 0, n, a)
    ensures j < n && InCell(ptrs + 4 * j, a)
  {
    j :| j < n && InPointer(ptrs, j, a);
  }

  lemma TopCells(stack: nat, argc: Word, len: Word, a: nat)
    requires KHEAP_ADDR <= stack && stack + STACK_SIZE <= KHEAP_SAFE_BOUNDARY && Passes(argc, len)
    requires StaysInside(argc, len)
    requires
      var ptrs := stack + STACK_SIZE - (if argc == 0 then 0 else len) - 4 * argc;
      InCell(ptrs - 4, a) || InCell(ptrs - 8, a)
    ensures InBlock(stack, a)
  {
    hide At;
    var len' := if argc == 0 then 0 else len;
    CellStarts(stack, argc, len', -4);
    CellStarts(stack, argc, len', -8);
  }

  lemma CellStarts(stack: nat, argc: Word, len: Word, d: int)
    requires KHEAP_ADDR <= stack && stack + STACK_SIZE <= KHEAP_SAFE_BOUNDARY
    requires Passes(argc, len) && -8 <= d <= STACK_SIZE
    ensures
      var c, x := stack + STACK_SIZE - len - 4 * argc + d, stack + STACK_SIZE - (4 * argc + len) % SPACE + d;
      At(c) == x && At(c + 1) == x + 1 && At(c + 2) == x + 2 && At(c + 3) == x + 3
  {
    PointersStart(stack, argc, len, d);
    PointersStart(stack, argc, len, d + 1);
    PointersStart(stack, argc, len, d + 2);
    PointersStart(stack, argc, len, d + 3);
  }

  /** The others write an address outside the block. */
  lemma WritesOutside(stack: nat, argc: Word, len: Word) returns (a: nat)
    requires KHEAP_ADDR <= stack && stack + STACK_SIZE <= KHEAP_SAFE_BOUNDARY && Passes(argc, len)
    requires !StaysInside(argc, len)
    ensures StackWritten(stack, argc, len, a) && !InBlock(stack, a)
  {
    hide At, CopyCells, InArray;
    var r := (4 * argc + len) % SPACE;
    var ptrs := stack + STACK_SIZE - len - 4 * argc;
    if len > STACK_SIZE {
      a := stack - 1;
      CoveredOutside(stack, len);
    } else if r + 8 > STACK_SIZE {
      a := stack + STACK_SIZE - r - 8;
      CellStarts(stack, argc, len, -8);
    } else {
      var j := if argc < 0x8000_0000 then (r + 3) / 4 else 0;
      a := if argc < 0x8000_0000 then stack + STACK_SIZE - r + 4 * j else stack + STACK_SIZE;
      CellStarts(stack, argc, len, 4 * j);
      if argc < 0x8000_0000 { ManyCells(argc, len); }
      InArrayAt(ptrs, Cells(argc), j, a);
    }
  }

  /** A positive count that passes only by wrapping around is a large one. */
  lemma ManyCells(argc: Word, len: Word)
    requires Passes(argc, len) && len <= STACK_SIZE && argc < 0x8000_0000
    requires (4 * argc + len) % SPACE + 8 <= STACK_SIZE < 4 * argc + len + 8
    ensures Cells(argc) > STACK_SIZE
  {
  }

  lemma InArrayAt(ptrs: int, n: nat, j: nat, a: nat)
    requires j < n && InCell(ptrs + 4 * j, a)
    ensures InArray(ptrs, 0, n, a)
  {
    assert InPointer(ptrs, j, a);
  }

  /** Of the calls that pass the 32-bit size guard, exactly those of StaysInside
      write only inside the stack block; for a positive count that is when the 8
      bytes the guard leaves out fit as well, without wraparound. */
  lemma WritesInsideBlock(m: seq<Byte>, stack: nat, argc: Word, len: Word, src: Word, unset: Word)
    requires |m| == SPACE && KHEAP_ADDR <= stack && stack + STACK_SIZE <= KHEAP_SAFE_BOUNDARY && Passes(argc, len)
    ensures
      var r := AddArguments(m, stack, argc, len, src, unset);
      && r.status == Ok && Framed(m, r.l)
      && ((forall a: nat :: a in r.l.log ==> InBlock(stack, a)) <==> StaysInside(argc, len))
  {
    hide AddArguments, StackWritten, Framed, StaysInside, Passes, InBlock;
    LogIs(m, stack, argc, len, src, unset);
    var r := AddArguments(m, stack, argc, len, src, unset);
    if StaysInside(argc, len) {
      forall a: nat | a in r.l.log ensures InBlock(stack, a) {
        WritesInside(stack, argc, len, a);
      }
    } else {
      var a := WritesOutside(stack, argc, len);
      assert a in r.l.log;
    }
  }

  /** 2^30 + 1 arguments in 8 bytes pass the guard, and the loop writes past the
      top of the block; so do minus three arguments in 12 bytes.  Minus three in
      20 bytes pass it and stay inside. */
  lemma GuardWraps(m: seq<Byte>, stack: nat, src: Word, unset: Word)
    requires |m| == SPACE && KHEAP_ADDR <= stack && stack + STACK_SIZE <= KHEAP_SAFE_BOUNDARY
    ensures
      var r := AddArguments(m, stack, 0x4000_0001, 8, src, unset);
      r.status == Ok && exists a: nat :: a in r.l.log && !InBlock(stack, a)
    ensures
      var r := AddArguments(m, stack, 0xffff_fffd, 12, src, unset);
      r.status == Ok && exists a: nat :: a in r.l.log && !InBlock(stack, a)
    ensures
      var r := AddArguments(m, stack, 0xffff_fffd, 20, src, unset);
      r.status == Ok && forall a: nat :: a in r.l.log ==> InBlock(stack, a)
  {
    hide AddArguments, Framed, InBlock;
    WritesInsideBlock(m, stack, 0x4000_0001, 8, src, unset);
    WritesInsideBlock(m, stack, 0xffff_fffd, 12, src, unset);
    WritesInsideBlock(m, stack, 0xffff_fffd, 20, src, unset);
  }

  // ----------------------------------------------------------- what they hold

  /** Cell `j` of the pointer array holds the user address of string `j`. */
  ghost predicate PointerAt(m: seq<Byte>, stack: nat, ptrs: nat, buf: nat, strings: seq<seq<Byte>>, j: nat)
    requires j < |strings| && ptrs + 4 * |strings| <= |m|
  {
    GetWord(m, ptrs + 4 * j) == StackVa(stack, buf + Start(strings, j))
  }

  lemma PointerKept(m: seq<Byte>, m': seq<Byte>, lo: nat, hi: nat, stack: nat, ptrs: nat, buf: nat,
                    strings: seq<seq<Byte>>, j: nat)
    requires j < |strings| && ptrs + 4 * |strings| <= |m| && SameOutside(m, m', lo, hi)
    requires ptrs + 4 * j + 4 <= lo || hi <= ptrs + 4 * j
    requires PointerAt(m, stack, ptrs, buf, strings, j)
    ensures PointerAt(m', stack, ptrs, buf, strings, j)
  {
    WordsOutside(m, m', lo, hi);
  }

  lemma StoreInRange(l: Logged, a: int, w: Word)
    requires |l.ram| == SPACE && 0 <= a <= SPACE - 4
    ensures Store(l, a, w).ram == PutWord(l.ram, a, w)
  {
    hide PutWord, At;
    AtIs(a);
  }

  /** The loop stores, for each argument, the user address of its string. */
  lemma {:induction false} PointersMeaning(l: Logged, stack: nat, ptrs: nat, buf: nat, strings: seq<seq<Byte>>, i: nat)
    requires |l.ram| == SPACE && i < |strings| && StringsAt(l.ram, buf, strings)
    requires ptrs + 4 * |strings| <= buf
    ensures buf + Start(strings, i) < SPACE
    ensures
      var r := PutPointers(l, stack, ptrs, buf + Start(strings, i), i, |strings|).ram;
      && SameOutside(l.ram, r, ptrs + 4 * i, ptrs + 4 * |strings|)
      && (forall j: nat :: i <= j < |strings| ==> PointerAt(r, stack, ptrs, buf, strings, j))
    decreases |strings| - i
  {
    hide GetWord, StackVa, StrLen, Store, At;
    var n, cur := |strings|, buf + Start(strings, i);
    assert StringAt(l.ram, buf, strings, i);
    var l1 := Store(l, ptrs + 4 * i, StackVa(stack, cur));
    StoreInRange(l, ptrs + 4 * i, StackVa(stack, cur));
    assert PointerAt(l1.ram, stack, ptrs, buf, strings, i);
    if i + 1 < n {
      StringsKept(l.ram, l1.ram, ptrs + 4 * i, ptrs + 4 * i + 4, buf, strings);
      NextString(l1.ram, buf, strings, i);
      PointersMeaning(l1, stack, ptrs, buf, strings, i + 1);
      var r := PutPointers(l1, stack, ptrs, buf + Start(strings, i + 1), i + 1, n).ram;
      assert PutPointers(l, stack, ptrs, cur, i, n).ram == r;
      PointerKept(l1.ram, r, ptrs + 4 * (i + 1), ptrs + 4 * n, stack, ptrs, buf, strings, i);
    }
  }

  lemma NextString(m: seq<Byte>, buf: nat, strings: seq<seq<Byte>>, i: nat)
    requires |m| == SPACE && i + 1 < |strings| && StringsAt(m, buf, strings)
    ensures
      var cur := buf + Start(strings, i);
      cur < SPACE && At(cur + StrLen(m, cur) + 1) == buf + Start(strings, i + 1) < SPACE
  {
    assert StringAt(m, buf, strings, i) && StringAt(m, buf, strings, i + 1);
    StrLenMeaning(m, buf + Start(strings, i), strings[i]);
  }

  /** The size guard, for every count and length: what it refuses, and that a refused
      call writes nothing and leaves the stack pointer at the top. */
  lemma GuardExact(m: seq<Byte>, stack: nat, argc: Word, len: Word, src: Word, unset: Word)
    requires |m| == SPACE
    ensures
      var r, asked := AddArguments(m, stack, argc, len, src, unset), (4 * argc + len) % 0x1_0000_0000;
      && (r.status == NotEnoughMem <==> asked > 0x4000) && (r.status == Ok <==> asked <= 0x4000)
      && (asked > 0x4000 ==> r.l == Logged(m, {}) && r.esp == 0x83f_f000)
      && (asked <= 0x4000 ==>
            r.esp == (0x83f_f000 - (if argc == 0 then 0 else len) - 4 * argc - 8) % 0x1_0000_0000)
  {
    hide PutPointers, Store, CopyIn;
  }

  /** A call that fits without wraparound: argc lands at the lowest address
      written, which the stack pointer names. */
  lemma ArgcAtLowest(m: seq<Byte>, stack: nat, argc: Word, len: Word, src: Word, unset: Word)
    requires |m| == SPACE && KHEAP_ADDR <= stack && stack + STACK_SIZE <= KHEAP_SAFE_BOUNDARY
    requires 4 * argc + len <= STACK_SIZE
    ensures
      var r := AddArguments(m, stack, argc, len, src, unset);
      var low := stack + STACK_SIZE - (if argc == 0 then 0 else len) - 4 * argc - 8;
      r.status == Ok && r.esp == StackVa(stack, low) && GetWord(r.l.ram, low) == argc
  {
    hide GetWord, StackVa, PutPointers, Store, Copied, CopyCells;
    var buf := stack + STACK_SIZE - if argc == 0 then 0 else len;
    var ptrs := buf - 4 * argc;
    var l := Logged(m, {});
    CellsPositive(argc);
    var l1 := if argc == 0 then l
              else PutPointers(CopyIn(l, At(buf), src, len), stack, ptrs, At(buf), 0, Cells(argc));
    StoreInRange(Store(l1, ptrs - 4, if argc == 0 then unset else StackVa(stack, ptrs)), ptrs - 8, argc);
  }

  /** Without arguments argv is whatever its variable held, and argc is zero. */
  lemma NoArguments(m: seq<Byte>, stack: nat, len: Word, src: Word, unset: Word)
    requires |m| == SPACE && KHEAP_ADDR <= stack && stack + STACK_SIZE <= KHEAP_SAFE_BOUNDARY && len <= STACK_SIZE
    ensures
      var r := AddArguments(m, stack, 0, len, src, unset);
      && r.status == Ok && r.esp == 0x83f_eff8
      && GetWord(r.l.ram, stack + 0x3ff8) == 0 && GetWord(r.l.ram, stack + 0x3ffc) == unset
      && SameOutside(m, r.l.ram, stack + 0x3ff8, stack + 0x4000)
  {
    hide GetWord, StackVa, Store;
    var l, top := Logged(m, {}), stack + STACK_SIZE;
    StoreInRange(l, top - 4, unset);
    var l2 := Store(l, top - 4, unset);
    StoreInRange(l2, top - 8, 0);
    WordsOutside(l2.ram, Store(l2, top - 8, 0).ram, top - 8, top - 4);
    GuardExact(m, stack, 0, len, src, unset);
  }

  /** One argument of 16380 bytes passes the guard, and argc lands 8 bytes
      below the block. */
  lemma GuardLeavesOutEightBytes(m: seq<Byte>, stack: nat, src: Word, unset: Word)
    requires |m| == SPACE && KHEAP_ADDR <= stack && stack + STACK_SIZE <= KHEAP_SAFE_BOUNDARY
    ensures
      var r := AddArguments(m, stack, 1, STACK_SIZE - 4, src, unset);
      r.status == Ok && GetWord(r.l.ram, stack - 8) == 1
  {
    hide AddArguments, GetWord;
    ArgcAtLowest(m, stack, 1, STACK_SIZE - 4, src, unset);
  }

  // ------------------------------------------------------------- round trip

  /** The word a process reads at a virtual address. */
  ghost predicate UserWordIs(s: Machine, dir: nat, va: Word, w: Word)
    requires dir < PAGES
  {
    && va + 3 < SPACE
    && UserByte(s, dir, va).Some? && UserByte(s, dir, va + 1).Some?
    && UserByte(s, dir, va + 2).Some? && UserByte(s, dir, va + 3).Some?
    && w == LittleEndian(UserByte(s, dir, va).value, UserByte(s, dir, va + 1).value,
                         UserByte(s, dir, va + 2).value, UserByte(s, dir, va + 3).value)
  }

  /** The C string a process reads at a virtual address. */
  ghost predicate UserStringIs(s: Machine, dir: nat, va: Word, str: seq<Byte>)
    requires dir < PAGES
  {
    && NoNul(str) && va + |str| < SPACE && UserByte(s, dir, va + |str|) == Some(0)
    && (forall k :: 0 <= k < |str| ==> UserByte(s, dir, va + k) == Some(str[k]))
  }

  lemma StackByte(s: Machine, dir: nat, stack: Word, va: Word)
    requires StackMapped(s, dir, stack) && STACK_END <= va < STACK_START && stack + STACK_SIZE <= SPACE
    ensures UserByte(s, dir, va) == Some(s.ram[stack + (va - STACK_END)])
  {
  }

  lemma StackWord(s: Machine, dir: nat, stack: Word, va: Word)
    requires StackMapped(s, dir, stack) && STACK_END <= va && va + 3 < STACK_START && stack + STACK_SIZE <= SPACE
    ensures UserWordIs(s, dir, va, GetWord(s.ram, stack + (va - STACK_END)))
  {
    hide Translate, UserByte;
    StackByte(s, dir, stack, va);
    StackByte(s, dir, stack, va + 1);
    StackByte(s, dir, stack, va + 2);
    StackByte(s, dir, stack, va + 3);
  }

  lemma StackString(s: Machine, dir: nat, stack: Word, va: Word, str: seq<Byte>)
    requires StackMapped(s, dir, stack) && STACK_END <= va && va + |str| < STACK_START && stack + STACK_SIZE <= SPACE
    requires NoNul(str) && HasString(s.ram, stack + (va - STACK_END), str)
    ensures UserStringIs(s, dir, va, str)
  {
    hide UserByte;
    StackByte(s, dir, stack, va + |str|);
    forall k | 0 <= k < |str| ensures UserByte(s, dir, va + k) == Some(str[k]) {
      StackByte(s, dir, stack, va + k);
      assert s.ram[stack + (va - STACK_END) + k] == str[k];
    }
  }

  lemma VaOfStack(stack: Word, a: nat)
    requires stack <= a < stack + STACK_SIZE
    ensures StackVa(stack, a) == STACK_END + (a - stack)
  {
  }

  lemma BlitString(m: seq<Byte>, at: nat, args: seq<Byte>, a: nat, str: seq<Byte>)
    requires at + |args| <= |m| && HasString(args, a, str)
    ensures HasString(Blit(m, at, args), at + a, str)
  {
    hide Blit, SameOutside;
    var r := Blit(m, at, args);
    BlitSize(m, at, args);
    assert r[at + (a + |str|)] == args[a + |str|];
    forall k | 0 <= k < |str| ensures r[at + a + k] == str[k] {
      assert r[at + (a + k)] == args[a + k] == str[k];
    }
  }

  lemma BlitSize(m: seq<Byte>, at: nat, data: seq<Byte>)
    requires at + |data| <= |m|
    ensures |Blit(m, at, data)| == |m|
  {
  }

  lemma BlitStrings(m: seq<Byte>, at: nat, args: seq<Byte>, strings: seq<seq<Byte>>)
    requires at + |args| <= |m| && StringsAt(args, 0, strings)
    ensures StringsAt(Blit(m, at, args), at, strings)
  {
    hide Blit, HasString, SameOutside;
    forall i: nat | i < |strings| ensures StringAt(Blit(m, at, args), at, strings, i) {
      assert StringAt(args, 0, strings, i);
      BlitString(m, at, args, Start(strings, i), strings[i]);
    }
  }

  /** memcpy from outside the block is the bytes written in place. */
  lemma CopiedIsBlit(m: seq<Byte>, stack: nat, src: Word, args: seq<Byte>)
    requires |m| == SPACE && stack + STACK_SIZE <= KHEAP_SAFE_BOUNDARY && |args| <= STACK_SIZE
    requires src + |args| <= SPACE && args == m[src..src + |args|]
    requires src + |args| <= stack || stack + STACK_SIZE <= src
    ensures
      var buf := stack + STACK_SIZE - |args|;
      At(buf) == buf && Copied(m, buf, src, |args|) == Blit(m, buf, args)
  {
    hide Copied, Blit, SameOutside;
    var buf := stack + STACK_SIZE - |args|;
    CopiedMeaning(m, buf, src, |args|);
    BlitIs(m, Copied(m, buf, src, |args|), buf, args, src);
  }

  lemma BlitAt(m: seq<Byte>, at: nat, data: seq<Byte>, k: nat)
    requires at <= k < at + |data| <= |m|
    ensures Blit(m, at, data)[k] == data[k - at]
  {
  }

  lemma BlitIs(m: seq<Byte>, r: seq<Byte>, at: nat, data: seq<Byte>, src: nat)
    requires at + |data| <= |m| && SameOutside(m, r, at, at + |data|)
    requires src + |data| <= |m| && data == m[src..src + |data|]
    requires forall k :: at <= k < at + |data| ==> r[k] == m[src + k - at]
    ensures r == Blit(m, at, data)
  {
    hide Blit;
    var b := Blit(m, at, data);
    forall k | 0 <= k < |m| ensures r[k] == b[k] {
      if at <= k < at + |data| {
        BlitAt(m, at, data, k);
        assert data[k - at] == m[src + k - at];
      }
    }
    assert r == b;
  }

  /** Strings and pointer array where main expects them. */
  ghost predicate BlockHolds(m: seq<Byte>, stack: nat, ptrs: nat, buf: nat, strings: seq<seq<Byte>>) {
    && 4 <= ptrs && ptrs + 4 * |strings| <= buf <= |m| && StringsAt(m, buf, strings)
    && (forall j: nat :: j < |strings| ==> PointerAt(m, stack, ptrs, buf, strings, j))
    && GetWord(m, ptrs - 4) == StackVa(stack, ptrs)
  }

  /** The finished block, in physical memory. */
  lemma BlockInRam(m: seq<Byte>, stack: nat, src: Word, args: seq<Byte>, strings: seq<seq<Byte>>, unset: Word,
                   buf: nat, ptrs: nat)
    requires |m| == SPACE && KHEAP_ADDR <= stack && stack + STACK_SIZE <= KHEAP_SAFE_BOUNDARY
    requires 1 <= |strings| && StringsAt(args, 0, strings) && 4 * |strings| + |args| + 8 <= STACK_SIZE
    requires src + |args| <= SPACE && args == m[src..src + |args|]
    requires src + |args| <= stack || stack + STACK_SIZE <= src
    requires buf == stack + STACK_SIZE - |args| && ptrs == buf - 4 * |strings|
    ensures BlockHolds(AddArguments(m, stack, |strings|, |args|, src, unset).l.ram, stack, ptrs, buf, strings)
  {
    hide GetWord, StackVa, StringsAt, PutPointers, Store, Copied, CopyCells, Blit, At;
    var argc := |strings|;
    CopiedIsBlit(m, stack, src, args);
    var l0 := CopyIn(Logged(m, {}), At(buf), src, |args|);
    BlitStrings(m, buf, args, strings);
    PointersMeaning(l0, stack, ptrs, buf, strings, 0);
    var l1 := PutPointers(l0, stack, ptrs, At(buf), 0, argc);
    StringsKept(l0.ram, l1.ram, ptrs, ptrs + 4 * argc, buf, strings);
    var l2 := Store(l1, ptrs - 4, StackVa(stack, ptrs));
    StoreInRange(l1, ptrs - 4, StackVa(stack, ptrs));
    StoreInRange(l2, ptrs - 8, argc);
    TopWords(l1.ram, stack, ptrs, buf, strings, argc);
    assert AddArguments(m, stack, |strings|, |args|, src, unset).l == Store(l2, ptrs - 8, argc);
  }

  /** argv and argc below the pointer array leave array and strings alone. */
  lemma TopWords(m1: seq<Byte>, stack: nat, ptrs: nat, buf: nat, strings: seq<seq<Byte>>, argc: Word)
    requires 8 <= ptrs && ptrs + 4 * |strings| <= buf <= |m1| && StringsAt(m1, buf, strings)
    requires forall j: nat :: j < |strings| ==> PointerAt(m1, stack, ptrs, buf, strings, j)
    ensures BlockHolds(PutWord(PutWord(m1, ptrs - 4, StackVa(stack, ptrs)), ptrs - 8, argc), stack, ptrs, buf, strings)
  {
    hide GetWord, StackVa, StringsAt, PointerAt;
    var m2 := PutWord(m1, ptrs - 4, StackVa(stack, ptrs));
    var m3 := PutWord(m2, ptrs - 8, argc);
    assert SameOutside(m1, m3, ptrs - 8, ptrs);
    StringsKept(m1, m3, ptrs - 8, ptrs, buf, strings);
    forall j: nat | j < |strings| ensures PointerAt(m3, stack, ptrs, buf, strings, j) {
      PointerKept(m1, m3, ptrs - 8, ptrs, stack, ptrs, buf, strings, j);
    }
    WordsOutside(m2, m3, ptrs - 8, ptrs - 4);
  }

  /** Argument `i` as the process decodes it from the pointer array at `argv`: a
      string on the stack. */
  ghost predicate ArgumentIs(s: Machine, dir: nat, argv: Word, i: nat, str: seq<Byte>)
    requires dir < PAGES
  {
    argv + 4 * i < SPACE && CellNames(s, dir, argv + 4 * i, str)
  }

  ghost predicate CellNames(s: Machine, dir: nat, cell: Word, str: seq<Byte>)
    requires dir < PAGES
  {
    exists p: Word :: PointsTo(s, dir, cell, p, str)
  }

  ghost predicate PointsTo(s: Machine, dir: nat, cell: Word, p: Word, str: seq<Byte>)
    requires dir < PAGES
  {
    STACK_END <= p && p + |str| < STACK_START && UserWordIs(s, dir, cell, p) && UserStringIs(s, dir, p, str)
  }

  lemma ArgumentRead(s: Machine, dir: nat, stack: Word, ptrs: nat, buf: nat, strings: seq<seq<Byte>>, j: nat)
    requires dir < PAGES && StackMapped(s, dir, stack) && stack + STACK_SIZE <= SPACE && j < |strings|
    requires stack <= ptrs && ptrs + 4 * |strings| <= buf
    requires buf + Start(strings, j) + |strings[j]| < stack + STACK_SIZE
    requires StringsAt(s.ram, buf, strings) && PointerAt(s.ram, stack, ptrs, buf, strings, j)
    ensures ArgumentIs(s, dir, STACK_END + (ptrs - stack), j, strings[j])
  {
    hide GetWord, UserWordIs, UserStringIs, StackMapped, Start, HasString;
    assert StringAt(s.ram, buf, strings, j);
    var va := STACK_END + (ptrs - stack) + 4 * j;
    var p := StackVa(stack, buf + Start(strings, j));
    VaOfStack(stack, buf + Start(strings, j));
    StackWord(s, dir, stack, va);
    StackString(s, dir, stack, p, strings[j]);
    assert PointsTo(s, dir, va, p, strings[j]);
  }

  lemma {:induction false} StringEnds(args: seq<Byte>, strings: seq<seq<Byte>>, j: nat)
    requires j < |strings| && StringsAt(args, 0, strings)
    ensures Start(strings, j) + |strings[j]| < |args|
  {
    assert StringAt(args, 0, strings, j);
  }

  /** What main finds through the page table at the stack pointer: argc, argv
      right above it, and the strings. */
  ghost predicate MainArguments(s: Machine, dir: nat, esp: Word, strings: seq<seq<Byte>>)
    requires dir < PAGES
  {
    && STACK_END <= esp && esp + 8 + 4 * |strings| <= STACK_START
    && UserWordIs(s, dir, esp, |strings|) && UserWordIs(s, dir, esp + 4, esp + 8)
    && forall i: nat :: i < |strings| ==> ArgumentIs(s, dir, esp + 8, i, strings[i])
  }

  /** A finished block, read through the page table. */
  lemma BlockRead(s: Machine, dir: nat, stack: Word, ptrs: nat, buf: nat, args: seq<Byte>, strings: seq<seq<Byte>>)
    requires dir < PAGES && StackMapped(s, dir, stack) && stack + STACK_SIZE <= SPACE
    requires stack + 8 <= ptrs && buf == stack + STACK_SIZE - |args| && 1 <= |strings| && StringsAt(args, 0, strings)
    requires BlockHolds(s.ram, stack, ptrs, buf, strings) && GetWord(s.ram, ptrs - 8) == |strings|
    ensures MainArguments(s, dir, STACK_END + (ptrs - 8 - stack), strings)
  {
    hide UserWordIs, ArgumentIs, StackMapped, GetWord, Start, StringsAt, PointerAt;
    var esp := STACK_END + (ptrs - 8 - stack);
    VaOfStack(stack, ptrs);
    StackWord(s, dir, stack, esp);
    StackWord(s, dir, stack, esp + 4);
    forall i: nat | i < |strings| ensures ArgumentIs(s, dir, esp + 8, i, strings[i]) {
      StringEnds(args, strings, i);
      ArgumentRead(s, dir, stack, ptrs, buf, strings, i);
    }
  }

  /** Only the stack block changes. */
  lemma BlockFrame(m: seq<Byte>, stack: nat, argc: Word, len: Word, src: Word, unset: Word)
    requires |m| == SPACE && KHEAP_ADDR <= stack && stack + STACK_SIZE <= KHEAP_SAFE_BOUNDARY
    requires Passes(argc, len) && StaysInside(argc, len)
    ensures SameOutside(m, AddArguments(m, stack, argc, len, src, unset).l.ram, stack, stack + STACK_SIZE)
  {
    hide AddArguments, StaysInside, Passes;
    WritesInsideBlock(m, stack, argc, len, src, unset);
  }

  /** Argument layout round trip.  With at least one argument, and the strings
      of the arguments consecutive in the `args` at `src`, decoding argc and argv
      from the final esp through the page table yields exactly those strings in
      order; nothing outside the stack block changes, and no page moves. */
  lemma ArgumentsRoundTrip(s: Machine, runs: Runs, dir: nat, tabs: Tables, stack: Word, src: Word,
                           args: seq<Byte>, strings: seq<seq<Byte>>, unset: Word)
    requires Tidy(s, runs, dir, tabs) && StackMapped(s, dir, stack)
    requires stack == AddrOf(BlockOf(stack)) && DataRun(runs, dir, tabs, BlockOf(stack))
    requires stack + STACK_SIZE <= AddrOf(BlockOf(stack) + runs[BlockOf(stack)]) <= KHEAP_SAFE_BOUNDARY
    requires 1 <= |strings| && StringsAt(args, 0, strings) && 4 * |strings| + |args| + 8 <= STACK_SIZE
    requires src + |args| <= SPACE && args == s.ram[src..src + |args|]
    requires src + |args| <= stack || stack + STACK_SIZE <= src
    ensures
      var r := AddArguments(s.ram, stack, |strings|, |args|, src, unset);
      r.status == Ok && SameOutside(s.ram, r.l.ram, stack, stack + STACK_SIZE)
      && var s' := s.(ram := r.l.ram);
      && Tidy(s', runs, dir, tabs) && StackMapped(s', dir, stack) && MainArguments(s', dir, r.esp, strings)
      && LeafKept(View(s), View(s'), dir, 0, 0) && View(s')[dir] == View(s)[dir]
  {
    hide Tidy, AddArguments, StackMapped, MainArguments, BlockHolds, GetWord, StringsAt, Leaf, DataRun;
    var argc, len := |strings|, |args|;
    var r := AddArguments(s.ram, stack, argc, len, src, unset);
    var buf := stack + STACK_SIZE - len;
    var ptrs := buf - 4 * argc;
    ArgcAtLowest(s.ram, stack, argc, len, src, unset);
    BlockFrame(s.ram, stack, argc, len, src, unset);
    BlockInRam(s.ram, stack, src, args, strings, unset, buf, ptrs);
    var s' := s.(ram := r.l.ram);
    DataWriteKeepsTables(s, s', runs, dir, tabs, BlockOf(stack));
    StackStillMapped(s, s', dir, stack);
    VaOfStack(stack, ptrs - 8);
    BlockRead(s', dir, stack, ptrs, buf, args, strings);
  }

  lemma StackStillMapped(s: Machine, s': Machine, dir: nat, stack: Word)
    requires StackMapped(s, dir, stack) && LeafKept(View(s), View(s'), dir, 0, 0)
    ensures StackMapped(s', dir, stack)
  {
    hide Leaf;
    forall va: Word | STACK_END <= va < STACK_START
      ensures Translate(View(s'), dir, va) == Some(stack + (va - STACK_END))
    {
      assert Translate(View(s), dir, va) == Some(stack + (va - STACK_END));
    }
  }

  // --------------------------------------------------------------- in place

  /** A word stored at an address that may wrap around. */
  method StoreAt(mem: array<Byte>, a: int, w: Word)
    requires mem.Length == SPACE
    modifies mem
    ensures mem[..] == WrapPut(old(mem[..]), a, w)
  {
    if At(a) + 4 <= SPACE {
      StoreWord(mem, At(a), w);
    } else {
      mem[At(a)] := w % 0x100;
      mem[At(a + 1)] := w / 0x100 % 0x100;
      mem[At(a + 2)] := w / 0x1_0000 % 0x100;
      mem[At(a + 3)] := w / 0x100_0000;
    }
  }

  /** What is left of the pointer loop once pointer `i` is written. */
  ghost function PointersAfter(l: Logged, stack: nat, ptrs: int, cur: Word, i: nat, n: nat): Logged
    requires |l.ram| == SPACE && i < n
  {
    if i + 1 == n then l
    else PutPointers(l, stack, ptrs, At(cur + StrLen(l.ram, cur) + 1), i + 1, n)
  }

  lemma PointerTurn(l: Logged, stack: nat, ptrs: int, cur: Word, i: nat, n: nat)
    requires |l.ram| == SPACE && i < n
    ensures PutPointers(l, stack, ptrs, cur, i, n)
            == PointersAfter(Store(l, ptrs + 4 * i, StackVa(stack, cur)), stack, ptrs, cur, i, n)
  {
    hide StackVa, StrLen, Store, At;
  }

  /** The pointer loop. */
  method SetPointers(mem: array<Byte>, stack: nat, ptrs: int, buf: Word, n: nat, ghost l0: Logged)
    returns (ghost l: Logged)
    requires mem.Length == SPACE && 1 <= n && l0.ram == mem[..]
    modifies mem
    ensures l == PutPointers(l0, stack, ptrs, buf, 0, n) && mem[..] == l.ram
  {
    hide StackVa, StrLen, PutPointers, WrapPut, At;
    var cur: Word, i: nat := buf, 0;
    PointerTurn(l0, stack, ptrs, cur, i, n);
    StoreAt(mem, ptrs, StackVa(stack, cur));
    l := Store(l0, ptrs, StackVa(stack, cur));
    while i + 1 < n
      invariant i < n && l.ram == mem[..]
      invariant PutPointers(l0, stack, ptrs, buf, 0, n) == PointersAfter(l, stack, ptrs, cur, i, n)
    {
      var len := Strlen(mem, cur);
      cur := At(cur + len + 1);
      i := i + 1;
      PointerTurn(l, stack, ptrs, cur, i, n);
      StoreAt(mem, ptrs + 4 * i, StackVa(stack, cur));
      l := Store(l, ptrs + 4 * i, StackVa(stack, cur));
    }
  }

  /** process_add_arguments; `l` is what it writes. */
  method ProcessAddArguments(mem: array<Byte>, stack: nat, argc: Word, len: Word, src: Word, unset: Word)
    returns (esp: Word, status: Status, ghost l: Logged)
    requires mem.Length == SPACE
    modifies mem
    ensures Pushed(l, esp, status) == AddArguments(old(mem[..]), stack, argc, len, src, unset)
    ensures mem[..] == l.ram
  {
    hide PutPointers, StackVa, Copied, WrapPut, CopyCells, At;
    l := Logged(mem[..], {});
    if (4 * argc + len) % SPACE > STACK_SIZE { return STACK_START, NotEnoughMem, l; }
    var sp: int := stack + STACK_SIZE;
    var argv := unset;
    if argc != 0 {
      sp := sp - len;
      Memcpy(mem, At(sp), src, len);
      l := CopyIn(l, At(sp), src, len);
      l := SetPointers(mem, stack, sp - 4 * argc, At(sp), if argc < 0x8000_0000 then argc else 1, l);
      sp := sp - 4 * argc;
      argv := StackVa(stack, sp);
    }
    StoreAt(mem, sp - 4, argv);
    l := Store(l, sp - 4, argv);
    StoreAt(mem, sp - 8, argc);
    l := Store(l, sp - 8, argc);
    esp, status := StackVa(stack, sp - 8), Ok;
  }
}
