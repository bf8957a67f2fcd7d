/** malloc of programs/stdlib/src/stdlib.c: a heap that grows down from a fixed
    top and asks the kernel for pages as it needs them. */
module UserHeap {
  import opened Memory
  import opened MachineState
  import PagingSpec

  const HEAP_TOP: nat := 0xc000_0000
  const HEADER: nat := 8
  const HEAP_INFO_MAGIC: Word := 198913

  /** heap_end and heap_curr. */
  datatype State = State(end: Word, curr: Word)

  /** A pair of addresses, the second one past the end. */
  datatype Span = Span(lo: nat, hi: nat)

  /** What a call does: the new state, the result (0 for null), and the region
      it mapped, if any. */
  datatype Call = Call(s: State, ptr: Word, mapped: seq<Span>)

  function Sub(a: Word, b: Word): Word { if b <= a then a - b else a - b + SPACE }

  /** The call asks for memory, down to NewEnd. */
  predicate Grows(s: State, size: Word) { Sub(s.curr, (size + HEADER) % SPACE) < s.end }

  function NewEnd(s: State, size: Word): Word { PagingSpec.DownAlign(Sub(s.end, (size + HEADER) % SPACE)) }

  /** malloc, in 32-bit arithmetic; `mmapOk` is the answer of the system call. */
  function Malloc(s: State, size: Word, mmapOk: bool): Call {
    var grow, newEnd := Grows(s, size), NewEnd(s, size);
    if grow && !mmapOk then Call(s, 0, [])
    else
      var curr := Sub(s.curr, (size + HEADER) % SPACE);
      Call(State(if grow then newEnd else s.end, curr), (curr + HEADER) % SPACE,
           if grow then [Span(newEnd, s.end)] else [])
  }

  predicate Inv(s: State) {
    s.end % PAGE_SIZE == 0 && s.end <= s.curr <= HEAP_TOP
  }

  /** No address of the call wraps around. */
  predicate NoWrap(s: State, size: Word) {
    size + HEADER <= s.curr - s.end || size + HEADER <= s.end
  }

  /** A block with its header: between the new end and the old current pointer. */
  predicate BlockOk(s: State, c: Call, size: Word) {
    c.ptr == c.s.curr + HEADER && c.s.end <= c.s.curr && c.ptr + size <= s.curr
  }

  /** A call that returns a block keeps the invariant and puts the block inside
      the heap below the earlier ones exactly when no address wraps around. */
  lemma MallocExact(s: State, size: Word, mmapOk: bool)
    requires Inv(s)
    ensures
      var c := Malloc(s, size, mmapOk);
      c.ptr != 0 || c.s != s ==> (Inv(c.s) && BlockOk(s, c, size) <==> NoWrap(s, size))
  {
  }

  /** A failed mmap changes nothing, and a call fails in no other way. */
  lemma MallocFails(s: State, size: Word, mmapOk: bool)
    requires Inv(s) && NoWrap(s, size)
    ensures
      var c := Malloc(s, size, mmapOk);
      && (c.ptr == 0 <==> !mmapOk && size + HEADER > s.curr - s.end)
      && (c.ptr == 0 ==> c == Call(s, 0, []))
  {
  }

  /** A request that wraps around gets a block above the heap. */
  lemma HugeRequestWraps()
    ensures
      var c := Malloc(State(HEAP_TOP, HEAP_TOP), 0xffff_fff8, true);
      c.ptr == HEAP_TOP + HEADER && c.s == State(HEAP_TOP, HEAP_TOP) && c.mapped == []
  {
  }

  /** What malloc does with any state and any request, all addresses modulo 2^32:
      where the block is, when more memory is asked for, and for which pages. */
  lemma MallocLayout(s: State, size: Word, mmapOk: bool)
    ensures
      var c, curr, want := Malloc(s, size, mmapOk), (s.curr - size - 8) % 0x1_0000_0000,
        (s.end - size - 8) % 0x1_0000_0000;
      if curr < s.end && !mmapOk then c == Call(s, 0, [])
      else
        && c.s.curr == curr && c.ptr == (s.curr - size) % 0x1_0000_0000
        && (curr >= s.end ==> c.s.end == s.end && c.mapped == [])
        && (curr < s.end ==>
              && c.s.end % 4096 == 0 && c.s.end <= want < c.s.end + 4096 && c.mapped == [Span(c.s.end, s.end)])
  {
    SubWraps(s.curr, size);
    SubWraps(s.end, size);
  }

  lemma SubWraps(a: Word, size: Word)
    ensures
      var d := Sub(a, (size + HEADER) % SPACE);
      d == (a - size - 8) % 0x1_0000_0000 && (d + HEADER) % SPACE == (a - size) % 0x1_0000_0000
  {
    WrapsAt(a - size - 8);
    WrapsAt(a - size);
  }

  lemma WrapsAt(x: int)
    requires -0x2_0000_0000 <= x < 0x1_0000_0000
    ensures x % 0x1_0000_0000 ==
            if x >= 0 then x else if x >= -0x1_0000_0000 then x + 0x1_0000_0000 else x + 0x2_0000_0000
  {
  }

  // ------------------------------------------------------------------- runs

  datatype Request = Request(size: Word, mmapOk: bool)

  /** The state, the blocks returned with their headers, and the regions mapped. */
  datatype Heap = Heap(s: State, blocks: seq<Span>, mapped: seq<Span>)

  const START: Heap := Heap(State(HEAP_TOP, HEAP_TOP), [], [])

  function Step(h: Heap, r: Request): Heap {
    var c := Malloc(h.s, r.size, r.mmapOk);
    var block := if c.ptr == 0 then [] else [Span(c.s.curr, c.ptr + r.size)];
    Heap(c.s, h.blocks + block, h.mapped + c.mapped)
  }

  function Run(rs: seq<Request>): Heap {
    if rs == [] then START else Step(Run(rs[..|rs| - 1]), rs[|rs| - 1])
  }

  /** No call of the run wraps around. */
  predicate RunNoWrap(rs: seq<Request>) {
    rs != [] ==> RunNoWrap(rs[..|rs| - 1]) && NoWrap(Run(rs[..|rs| - 1]).s, rs[|rs| - 1].size)
  }

  predicate Within(sp: Span, a: int) { sp.lo <= a < sp.hi }

  /** Some region mapped so far holds the address. */
  ghost predicate Mapped(spans: seq<Span>, a: int) {
    exists i :: 0 <= i < |spans| && Within(spans[i], a)
  }

  /** Blocks from the top down, each below the ones before it. */
  predicate Stacked(blocks: seq<Span>, floor: nat) {
    && (forall i :: 0 <= i < |blocks| ==> floor <= blocks[i].lo < blocks[i].hi <= HEAP_TOP)
    && (forall i, j :: 0 <= i < j < |blocks| ==> blocks[j].hi <= blocks[i].lo)
  }

  /** The regions mapped are together exactly the heap. */
  ghost predicate MappedExactly(spans: seq<Span>, lo: nat) {
    forall a :: Mapped(spans, a) <==> lo <= a < HEAP_TOP
  }

  lemma MapMore(spans: seq<Span>, lo: nat, lo': nat)
    requires MappedExactly(spans, lo) && lo' <= lo <= HEAP_TOP
    ensures MappedExactly(spans + [Span(lo', lo)], lo')
  {
    var all := spans + [Span(lo', lo)];
    forall a ensures Mapped(all, a) <==> lo' <= a < HEAP_TOP {
      assert Within(all[|spans|], a) <==> lo' <= a < lo;
      if Mapped(spans, a) {
        var i :| 0 <= i < |spans| && Within(spans[i], a);
        assert Within(all[i], a);
      }
      assert Mapped(spans, a) <==> lo <= a < HEAP_TOP;
      if Mapped(all, a) && !(lo' <= a < lo) {
        var i :| 0 <= i < |all| && Within(all[i], a);
        assert Within(spans[i], a);
      }
    }
  }

  /** What a call maps: nothing, or the pages between the new end and the old. */
  lemma MallocMaps(s: State, size: Word, mmapOk: bool)
    requires Inv(s) && NoWrap(s, size)
    ensures
      var c := Malloc(s, size, mmapOk);
      && c.s.end <= s.end && c.s.curr <= s.curr
      && c.mapped == if c.s.end == s.end then [] else [Span(c.s.end, s.end)]
  {
  }

  ghost predicate HeapOk(h: Heap) {
    Inv(h.s) && Stacked(h.blocks, h.s.curr) && MappedExactly(h.mapped, h.s.end)
  }

  lemma StepKeeps(h: Heap, r: Request)
    requires HeapOk(h) && NoWrap(h.s, r.size)
    ensures HeapOk(Step(h, r))
  {
    hide Malloc, MappedExactly;
    MallocExact(h.s, r.size, r.mmapOk);
    MallocFails(h.s, r.size, r.mmapOk);
    MallocMaps(h.s, r.size, r.mmapOk);
    var c := Malloc(h.s, r.size, r.mmapOk);
    if c.s.end != h.s.end { MapMore(h.mapped, h.s.end, c.s.end); }
    assert h.mapped + [] == h.mapped;
  }

  lemma StartOk()
    ensures HeapOk(START)
  {
  }

  /** Over every run without wraparound: the end stays page aligned and below the
      current pointer, the blocks with their headers are pairwise disjoint, and
      the successful mmaps are together exactly the heap they lie in. */
  lemma {:induction false} HeapRuns(rs: seq<Request>)
    requires RunNoWrap(rs)
    ensures
      var h := Run(rs);
      && Inv(h.s) && Stacked(h.blocks, h.s.curr) && MappedExactly(h.mapped, h.s.end)
    decreases |rs|
  {
    hide Step, Inv, Stacked, MappedExactly;
    StartOk();
    if rs != [] {
      HeapRuns(rs[..|rs| - 1]);
      StepKeeps(Run(rs[..|rs| - 1]), rs[|rs| - 1]);
    }
  }

  /** Every byte of every block is in some region that was mapped. */
  lemma BlocksMapped(rs: seq<Request>, i: nat, a: nat)
    requires RunNoWrap(rs) && i < |Run(rs).blocks| && Within(Run(rs).blocks[i], a)
    ensures Mapped(Run(rs).mapped, a)
    ensures forall j: nat :: j < |Run(rs).blocks| && j != i ==> !Within(Run(rs).blocks[j], a)
  {
    hide Run;
    HeapRuns(rs);
  }

  // ---------------------------------------------------------------- in place

  class Allocator {
    var heapEnd: Word
    var heapCurr: Word
    const mem: array<Byte>

    constructor (m: array<Byte>)
      ensures heapEnd == HEAP_TOP && heapCurr == HEAP_TOP && mem == m
    {
      heapEnd, heapCurr, mem := HEAP_TOP, HEAP_TOP, m;
    }

    ghost function S(): State
      reads this
    {
      State(heapEnd, heapCurr)
    }

    /** malloc, unless the header would cross the end of the address space; it
        writes nothing but the header of the block it returns. */
    method Alloc(size: Word, mmapOk: bool) returns (ptr: Word)
      requires mem.Length == SPACE
      requires (Grows(S(), size) && !mmapOk) || Malloc(S(), size, mmapOk).s.curr <= SPACE - HEADER
      modifies this, mem
      ensures Malloc(old(S()), size, mmapOk).s == S() && ptr == Malloc(old(S()), size, mmapOk).ptr
      ensures old(Grows(S(), size)) && !mmapOk ==> mem[..] == old(mem[..])
      ensures mmapOk || !old(Grows(S(), size)) ==>
        && heapCurr + HEADER <= SPACE && SameOutside(old(mem[..]), mem[..], heapCurr, heapCurr + HEADER)
        && GetWord(mem[..], heapCurr) == size && GetWord(mem[..], heapCurr + 4) == HEAP_INFO_MAGIC
    {
      hide GetWord;
      var allocSize := (size + HEADER) % SPACE;
      if Sub(heapCurr, allocSize) < heapEnd {
        var newEnd := PagingSpec.DownAlign(Sub(heapEnd, allocSize));
        if !mmapOk {
          return 0;
        }
        heapEnd := newEnd;
      }
      heapCurr := Sub(heapCurr, allocSize);
      StoreWord(mem, heapCurr, size);
      ghost var m := mem[..];
      StoreWord(mem, heapCurr + 4, HEAP_INFO_MAGIC);
      WordsOutside(m, mem[..], heapCurr + 4, heapCurr + 8);
      ptr := (heapCurr + HEADER) % SPACE;
    }
  }
}
