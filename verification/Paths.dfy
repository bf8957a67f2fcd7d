/** parse_path and free_path of src/fs/utils.c: a copy of the text cut in place,
    and a linked list of parts, all taken from the kernel heap. */
module Paths {
  import opened Memory
  import opened HeapTable
  import opened MachineState
  import opened KernelHeap
  import opened CString
  import opened PathText

  /** struct path_part: the heap block it was given, the address of its name in
      the copy, and the next part. */
  class PathPart {
    const block: nat
    const name: nat
    var next: PathPart?

    constructor (b: nat, n: nat)
      ensures block == b && name == n && next == null
    {
      block, name, next := b, n, null;
    }
  }

  /** struct path_t */
  class Path {
    const block: nat
    const driveNo: int
    const root: PathPart

    constructor (b: nat, d: int, r: PathPart)
      ensures block == b && driveNo == d && root == r
    {
      block, driveNo, root := b, d, r;
    }
  }

  // ------------------------------------------------------------ heap blocks

  /** `held` is `runs` and, apart from it, one block for each of `blocks`. */
  ghost predicate Holds(held: Runs, runs: Runs, blocks: set<nat>) {
    blocks !! runs.Keys && held == runs + map b | b in blocks :: 1
  }

  lemma HoldsMore(held: Runs, runs: Runs, blocks: set<nat>, b: nat)
    requires Holds(held, runs, blocks) && b !in held
    ensures Holds(held[b := 1], runs, blocks + {b}) && b !in blocks
  {
  }

  lemma HoldsKeys(held: Runs, runs: Runs, blocks: set<nat>)
    requires Holds(held, runs, blocks)
    ensures blocks <= held.Keys
  {
  }

  lemma HoldsLess(held: Runs, runs: Runs, blocks: set<nat>, b: nat)
    requires Holds(held, runs, blocks) && b in blocks
    ensures b in held && Holds(held - {b}, runs, blocks - {b})
  {
  }

  /** Memory is the same outside the given heap blocks. */
  ghost predicate KeptBut(m: seq<Byte>, m': seq<Byte>, blocks: set<nat>) {
    |m'| == |m| && forall a: nat :: a < |m| && BlockOf(a) !in blocks ==> m'[a] == m[a]
  }

  /** A write inside block `b`. */
  lemma KeptMore(m: seq<Byte>, m1: seq<Byte>, m2: seq<Byte>, blocks: set<nat>, b: nat, lo: nat, hi: nat)
    requires KeptBut(m, m1, blocks) && SameOutside(m1, m2, lo, hi)
    requires AddrOf(b) <= lo && hi <= AddrOf(b) + PAGE_SIZE
    ensures KeptBut(m, m2, blocks + {b})
  {
    forall a: nat | a < |m| && BlockOf(a) !in blocks + {b} ensures m2[a] == m[a] {
      if lo <= a < hi { BlockOfInside(b, a - AddrOf(b)); }
    }
  }

  lemma KeptTwice(m: seq<Byte>, m1: seq<Byte>, m2: seq<Byte>, some: set<nat>, blocks: set<nat>)
    requires KeptBut(m, m1, some) && KeptBut(m1, m2, blocks) && some <= blocks
    ensures KeptBut(m, m2, blocks)
  {
  }

  lemma KeptAll(m: seq<Byte>, blocks: set<nat>)
    ensures KeptBut(m, m, blocks)
  {
  }

  /** kzalloc of at most a block, when one is free. */
  method Take(heap: KHeap, size: nat, ghost runs: Runs) returns (ptr: nat, b: nat)
    requires heap.Valid() && Represents(heap.entries[..], runs) && 1 <= size <= PAGE_SIZE
    requires FreeBelow(heap.entries[..], heap.entries.Length) > 0
    modifies heap.entries, heap.mem
    ensures b < heap.entries.Length && ptr == AddrOf(b) && b !in runs && BlockOf(ptr) == b
    ensures Represents(heap.entries[..], runs[b := 1])
    ensures FreeBelow(heap.entries[..], heap.entries.Length)
            == old(FreeBelow(heap.entries[..], heap.entries.Length)) - 1
    ensures SameOutside(old(heap.mem[..]), heap.mem[..], ptr, ptr + PAGE_SIZE)
  {
    hide Represents, FreeBelow, FitExists, Marked, Freed;
    FreeBlockExists(heap.entries[..], heap.entries.Length);
    assert NumBlocks(size) == 1;
    ghost var _ := KmallocMeaning(heap.State(), runs, size);
    ptr := heap.Zalloc(size);
    b := BlockOf(ptr);
    TakenBlock(old(heap.State()), runs, size, b);
  }

  // ----------------------------------------------------------------- parsing

  ghost function BlocksOf(nodes: seq<PathPart>): set<nat> {
    set i | 0 <= i < |nodes| :: nodes[i].block
  }

  /** A linked list of parts, each in its own block. */
  ghost predicate ListOf(nodes: seq<PathPart>)
    reads nodes
  {
    && |nodes| >= 1
    && (forall i, j :: 0 <= i < j < |nodes| ==> nodes[i].block != nodes[j].block)
    && forall i :: 0 <= i < |nodes| ==> nodes[i].next == if i + 1 < |nodes| then nodes[i + 1] else null
  }

  /** Node `i` names part `i` of the text at `a`. */
  ghost predicate Names(nodes: seq<PathPart>, a: nat, parts: seq<seq<Byte>>) {
    |nodes| == |parts| && forall i :: 0 <= i < |nodes| ==> nodes[i].name == a + Start(parts, i)
  }

  lemma NamesStep(nodes: seq<PathPart>, a: nat, t: seq<Byte>, i: nat, node: PathPart)
    requires i < |t| && Names(nodes, a, Split(t[..i]))
    ensures t[i] != SLASH ==> Names(nodes, a, Split(t[..i + 1]))
    ensures t[i] == SLASH && node.name == a + i + 1 ==> Names(nodes + [node], a, Split(t[..i + 1]))
  {
    hide Split;
    var s := t[..i];
    assert t[..i + 1] == s + [t[i]];
    SplitAppend(s, t[i]);
    var parts, q := Split(s), Split(t[..i + 1]);
    PartPlace(s, |parts| - 1);
    forall j: nat | j < |parts| ensures Start(q, j) == Start(parts, j) {
      SameStart(q, parts, j);
    }
    assert t[i] == SLASH ==> Start(q, |parts|) == Start(parts, |parts| - 1) + |parts[|parts| - 1]| + 1;
  }

  /** Another slash means another part of the whole. */
  lemma MoreParts(nodes: seq<PathPart>, a: nat, t: seq<Byte>, i: nat)
    requires i < |t| && Names(nodes, a, Split(t[..i])) && t[i] == SLASH
    ensures |nodes| < |Split(t)|
  {
    hide Split;
    assert t[..i + 1] == t[..i] + [SLASH];
    SplitAppend(t[..i], SLASH);
    SplitGrows(t, i + 1);
  }

  lemma FirstName(root: PathPart, a: nat, t: seq<Byte>)
    requires root.name == a
    ensures Names([root], a, Split(t[..0])) && BlocksOf([root]) == {root.block}
  {
    assert t[..0] == [];
    assert [root][0].block in BlocksOf([root]);
  }

  lemma ListGrows(nodes: seq<PathPart>, node: PathPart)
    ensures BlocksOf(nodes + [node]) == BlocksOf(nodes) + {node.block}
  {
    var all := nodes + [node];
    forall b | b in BlocksOf(nodes) + {node.block} ensures b in BlocksOf(all) {
      if b == node.block {
        assert all[|nodes|].block == b;
      } else {
        var i :| 0 <= i < |nodes| && nodes[i].block == b;
        assert all[i].block == b;
      }
    }
  }

  /** The next part: a block for it, its name after the slash, its link. */
  method AddPart(heap: KHeap, last: PathPart, name: nat, ghost nodes: seq<PathPart>, ghost held: Runs)
    returns (part: PathPart)
    requires heap.Valid() && Represents(heap.entries[..], held)
    requires FreeBelow(heap.entries[..], heap.entries.Length) > 0
    requires ListOf(nodes) && last == nodes[|nodes| - 1] && BlocksOf(nodes) <= held.Keys
    modifies heap.entries, heap.mem, last
    ensures fresh(part) && part.name == name && part.block !in held && part.block < heap.entries.Length
    ensures ListOf(nodes + [part])
    ensures Represents(heap.entries[..], held[part.block := 1])
    ensures FreeBelow(heap.entries[..], heap.entries.Length)
            == old(FreeBelow(heap.entries[..], heap.entries.Length)) - 1
    ensures SameOutside(old(heap.mem[..]), heap.mem[..], AddrOf(part.block), AddrOf(part.block) + PAGE_SIZE)
  {
    hide Represents, FreeBelow, SameOutside;
    var ptr, b := Take(heap, 8, held);
    part := new PathPart(b, name);
    last.next := part;
    assert forall i :: 0 <= i < |nodes| ==> nodes[i].block in BlocksOf(nodes);
  }

  /** The loop of parse_path over the body of the copy at `a`, in block `copy`. */
  method CutParts(heap: KHeap, a: nat, ghost copy: nat, len: nat, ghost t: seq<Byte>, root: PathPart,
                  ghost runs: Runs, ghost blocks: set<nat>, ghost held0: Runs)
    returns (ghost nodes: seq<PathPart>, ghost held: Runs)
    requires heap.Valid() && Represents(heap.entries[..], held0) && Holds(held0, runs, blocks + {root.block})
    requires root.block !in blocks && copy in blocks && root.next == null && root.name == a
    requires |t| == len && AddrOf(copy) <= a && a + len < AddrOf(copy) + PAGE_SIZE
    requires copy < heap.entries.Length && NulledTo(heap.mem[..], a, t, 0)
    requires FreeBelow(heap.entries[..], heap.entries.Length) >= |Split(t)| - 1
    modifies heap.entries, heap.mem, root
    ensures ListOf(nodes) && nodes[0] == root && Names(nodes, a, Split(t)) && fresh(set x | x in nodes && x != root)
    ensures Nulled(heap.mem[..], a, t)
    ensures Represents(heap.entries[..], held) && Holds(held, runs, blocks + BlocksOf(nodes))
    ensures blocks !! BlocksOf(nodes) && KeptBut(old(heap.mem[..]), heap.mem[..], blocks + BlocksOf(nodes))
  {
    hide Represents, FreeBelow, SameOutside, Split, NulledTo, Holds, Names, Nulled, KeptBut;
    KeptAll(heap.mem[..], blocks + BlocksOf([root]));
    nodes, held := [root], held0;
    var last := root;
    ghost var free := FreeBelow(heap.entries[..], heap.entries.Length);
    FirstName(root, a, t);
    var i: nat := 0;
    while i < len
      invariant i <= len
      invariant ListOf(nodes) && nodes[0] == root && last == nodes[|nodes| - 1]
      invariant fresh(set x | x in nodes && x != root)
      invariant Names(nodes, a, Split(t[..i])) && NulledTo(heap.mem[..], a, t, i)
      invariant Represents(heap.entries[..], held) && Holds(held, runs, blocks + BlocksOf(nodes))
      invariant blocks !! BlocksOf(nodes) && KeptBut(old(heap.mem[..]), heap.mem[..], blocks + BlocksOf(nodes))
      invariant FreeBelow(heap.entries[..], heap.entries.Length) == free - (|nodes| - 1)
    {
      NulledStep(heap.mem[..], a, t, i);
      if heap.mem[a + i] == SLASH {
        ghost var m1 := heap.mem[..];
        heap.mem[a + i] := 0;
        ghost var m := heap.mem[..];
        CutKept(old(heap.mem[..]), m1, m, blocks + BlocksOf(nodes), copy, a + i);
        MoreParts(nodes, a, t, i);
        HoldsKeys(held, runs, blocks + BlocksOf(nodes));
        var part := AddPart(heap, last, a + i + 1, nodes, held);
        NulledKept(m, heap.mem[..], a, t, i + 1, AddrOf(part.block), AddrOf(part.block) + PAGE_SIZE);
        KeptMore(old(heap.mem[..]), m, heap.mem[..], blocks + BlocksOf(nodes), part.block, AddrOf(part.block),
                 AddrOf(part.block) + PAGE_SIZE);
        NamesStep(nodes, a, t, i, part);
        HoldsMore(held, runs, blocks + BlocksOf(nodes), part.block);
        ListGrows(nodes, part);
        held := held[part.block := 1];
        nodes := nodes + [part];
        last := part;
        assert blocks + BlocksOf(nodes) == blocks + BlocksOf(nodes[..|nodes| - 1]) + {part.block};
      } else {
        NamesStep(nodes, a, t, i, root);
      }
      i := i + 1;
    }
    assert t[..i] == t;
    NulledEnds(heap.mem[..], a, t);
  }

  /** A NUL written into block `b`, one of the given. */
  lemma CutKept(m: seq<Byte>, m1: seq<Byte>, m2: seq<Byte>, blocks: set<nat>, b: nat, at: nat)
    requires KeptBut(m, m1, blocks) && at < |m1| && m2 == m1[at := 0] && b in blocks
    requires AddrOf(b) <= at < AddrOf(b) + PAGE_SIZE
    ensures KeptBut(m, m2, blocks)
  {
    hide KeptBut;
    assert blocks + {b} == blocks;
    KeptMore(m, m1, m2, blocks, b, at, at + 1);
  }

  /** strnlen with FS_MAX_PATH_LEN. */
  method Strnlen(str: seq<Byte>) returns (len: nat)
    ensures len == PathLen(str)
  {
    len := 0;
    while len < |str| && len < MAX_PATH
      invariant len <= PathLen(str)
    {
      len := len + 1;
    }
  }

  /** What a parsed path holds: a list of parts whose names are the parts of the
      text, in the block of the copy, and one heap block for each piece. */
  ghost predicate Parsed(heap: KHeap, path: Path, parts: seq<seq<Byte>>, copy: nat, nodes: seq<PathPart>, runs: Runs,
                         held: Runs)
    reads heap.entries, heap.mem, nodes
  {
    && ListOf(nodes) && nodes[0] == path.root
    && Names(nodes, AddrOf(copy) + 3, parts) && StringsAt(heap.mem[..], AddrOf(copy) + 3, parts)
    && Represents(heap.entries[..], held) && Holds(held, runs, {copy, path.block} + BlocksOf(nodes))
    && copy != path.block && {copy, path.block} !! BlocksOf(nodes)
  }

  /** The copy of the text: memcpy and the final NUL. */
  method CopyText(heap: KHeap, at: nat, str: seq<Byte>, len: nat)
    requires heap.Valid() && len <= |str| && 3 <= len && at + len < heap.mem.Length
    modifies heap.mem
    ensures NulledTo(heap.mem[..], at + 3, str[3..len], 0)
    ensures SameOutside(old(heap.mem[..]), heap.mem[..], at, at + len + 1)
  {
    for i := 0 to len
      invariant forall k :: 0 <= k < i ==> heap.mem[at + k] == str[k]
      invariant forall k :: 0 <= k < heap.mem.Length && !(at <= k < at + i) ==> heap.mem[k] == old(heap.mem[k])
    {
      heap.mem[at + i] := str[i];
    }
    heap.mem[at + len] := 0;
    ghost var t := str[3..len];
    forall k | 0 <= k < |t| ensures heap.mem[at + 3 + k] == t[k] {
      assert heap.mem[at + (3 + k)] == str[3 + k];
    }
  }

  /** A block for the copy, and the copy in it. */
  method TakeCopy(heap: KHeap, str: seq<Byte>, len: nat, ghost runs: Runs) returns (ptr: nat, b: nat)
    requires heap.Valid() && Represents(heap.entries[..], runs) && 3 <= len <= |str| && len < PAGE_SIZE
    requires FreeBelow(heap.entries[..], heap.entries.Length) > 0
    modifies heap.entries, heap.mem
    ensures b < heap.entries.Length && ptr == AddrOf(b) && b !in runs
    ensures Represents(heap.entries[..], runs[b := 1])
    ensures FreeBelow(heap.entries[..], heap.entries.Length)
            == old(FreeBelow(heap.entries[..], heap.entries.Length)) - 1
    ensures NulledTo(heap.mem[..], ptr + 3, str[3..len], 0) && KeptBut(old(heap.mem[..]), heap.mem[..], {b})
  {
    hide Represents, FreeBelow, SameOutside, NulledTo, KeptBut;
    KeptAll(heap.mem[..], {});
    ptr, b := Take(heap, len + 1, runs);
    ghost var m := heap.mem[..];
    KeptMore(old(heap.mem[..]), old(heap.mem[..]), m, {}, b, ptr, ptr + PAGE_SIZE);
    CopyText(heap, ptr, str, len);
    KeptMore(old(heap.mem[..]), m, heap.mem[..], {} + {b}, b, ptr, ptr + len + 1);
    assert {} + {b} + {b} == {b};
  }

  /** The copy of the text, the path and its first part. */
  method StartPath(heap: KHeap, str: seq<Byte>, len: nat, ghost t: seq<Byte>, ghost runs: Runs)
    returns (ptr: nat, path: Path, ghost copy: nat, ghost held: Runs)
    requires heap.Valid() && Represents(heap.entries[..], runs)
    requires 3 <= len <= |str| && len < PAGE_SIZE && t == str[3..len] && ZERO <= str[0] <= NINE
    requires FreeBelow(heap.entries[..], heap.entries.Length) >= 3
    modifies heap.entries, heap.mem
    ensures fresh(path) && fresh(path.root) && path.driveNo == str[0] - ZERO
    ensures path.root.next == null && path.root.name == ptr + 3 && ptr == AddrOf(copy) && copy < heap.entries.Length
    ensures copy != path.block && path.root.block !in {copy, path.block}
    ensures Represents(heap.entries[..], held) && Holds(held, runs, {copy, path.block} + {path.root.block})
    ensures FreeBelow(heap.entries[..], heap.entries.Length)
            == old(FreeBelow(heap.entries[..], heap.entries.Length)) - 3
    ensures NulledTo(heap.mem[..], ptr + 3, t, 0)
    ensures KeptBut(old(heap.mem[..]), heap.mem[..], {copy, path.block} + {path.root.block})
  {
    hide Represents, FreeBelow, SameOutside, NulledTo, Holds, KeptBut;
    ghost var m0 := heap.mem[..];
    var copyBlock;
    ptr, copyBlock := TakeCopy(heap, str, len, runs);
    ghost var m := heap.mem[..];
    var pathPtr, pathBlock := Take(heap, 8, runs[copyBlock := 1]);
    NulledKept(m, heap.mem[..], ptr + 3, t, 0, pathPtr, pathPtr + PAGE_SIZE);
    KeptMore(m0, m, heap.mem[..], {copyBlock}, pathBlock, pathPtr, pathPtr + PAGE_SIZE);
    assert {copyBlock} + {pathBlock} == {copyBlock, pathBlock};
    m := heap.mem[..];
    ghost var two := runs[copyBlock := 1][pathBlock := 1];
    var rootPtr, rootBlock := Take(heap, 8, two);
    NulledKept(m, heap.mem[..], ptr + 3, t, 0, rootPtr, rootPtr + PAGE_SIZE);
    KeptMore(m0, m, heap.mem[..], {copyBlock, pathBlock}, rootBlock, rootPtr, rootPtr + PAGE_SIZE);
    var root := new PathPart(rootBlock, ptr + 3);
    path := new Path(pathBlock, str[0] - ZERO, root);
    ThreeBlocks(runs, copyBlock, pathBlock, rootBlock);
    copy, held := copyBlock, two[rootBlock := 1];
  }

  /** parse_path: null exactly for an invalid path; otherwise the parts are the
      split of the accepted text. */
  method ParsePath(heap: KHeap, str: seq<Byte>, ghost runs: Runs)
    returns (path: Path?, ghost copy: nat, ghost nodes: seq<PathPart>, ghost held: Runs)
    requires heap.Valid() && Represents(heap.entries[..], runs) && NoNul(str)
    requires PathValid(str) ==>
               FreeBelow(heap.entries[..], heap.entries.Length) >= |Split(PathBody(str))| + 2
    modifies heap.entries, heap.mem
    ensures path == null <==> !PathValid(str)
    ensures path == null ==> heap.State() == old(heap.State())
    ensures path != null ==>
      && fresh(path) && path.driveNo == str[0] - 0x30
      && Parsed(heap, path, Split(PathBody(str)), copy, nodes, runs, held)
      && KeptBut(old(heap.mem[..]), heap.mem[..], {copy, path.block} + BlocksOf(nodes))
  {
    hide Represents, FreeBelow, SameOutside, Split, NulledTo, Nulled, Holds, StringsAt, NoNul, Names, BlocksOf, KeptBut;
    copy, nodes, held := 0, [], runs;
    var len := Strnlen(str);
    if !(len >= 3 && ZERO <= str[0] <= NINE && str[1] == COLON && str[2] == SLASH) {
      return null, copy, nodes, held;
    }
    ghost var t := PathBody(str);
    var ptr;
    ptr, path, copy, held := StartPath(heap, str, len, t, runs);
    ghost var m := heap.mem[..];
    nodes, held := CutParts(heap, ptr + 3, copy, len - 3, t, path.root, runs, {copy, path.block}, held);
    FirstIn(nodes);
    KeptTwice(old(heap.mem[..]), m, heap.mem[..], {copy, path.block} + {path.root.block},
              {copy, path.block} + BlocksOf(nodes));
    BodyNoNul(str);
    NulledStrings(heap.mem[..], ptr + 3, t);
  }

  lemma FirstIn(nodes: seq<PathPart>)
    requires |nodes| >= 1
    ensures nodes[0].block in BlocksOf(nodes)
  {
  }

  lemma ThreeBlocks(runs: Runs, a: nat, b: nat, c: nat)
    requires a !in runs && b !in runs[a := 1] && c !in runs[a := 1][b := 1]
    ensures Holds(runs[a := 1][b := 1][c := 1], runs, {a, b} + {c})
  {
    hide Holds;
    EmptyHolds(runs);
    HoldsMore(runs, runs, {}, a);
    HoldsMore(runs[a := 1], runs, {} + {a}, b);
    HoldsMore(runs[a := 1][b := 1], runs, {} + {a} + {b}, c);
    assert {} + {a} + {b} + {c} == {a, b} + {c};
  }

  lemma EmptyHolds(runs: Runs)
    ensures Holds(runs, runs, {})
  {
  }

  lemma BodyNoNul(str: seq<Byte>)
    requires PathValid(str) && NoNul(str)
    ensures NoNul(PathBody(str))
  {
  }

  // ----------------------------------------------------------------- release

  /** kfree of an address anywhere in the block `b`. */
  method GiveBack(heap: KHeap, ptr: nat, ghost b: nat, ghost held: Runs, ghost runs: Runs, ghost blocks: set<nat>)
    requires heap.Valid() && Represents(heap.entries[..], held) && Holds(held, runs, blocks) && b in blocks
    requires AddrOf(b) <= ptr < AddrOf(b) + PAGE_SIZE
    modifies heap.entries
    ensures Represents(heap.entries[..], held - {b}) && Holds(held - {b}, runs, blocks - {b})
  {
    hide Represents, Holds;
    HoldsLess(held, runs, blocks, b);
    BlockOfInside(b, ptr - AddrOf(b));
    KfreeMeaning(heap.State(), held, ptr);
    heap.Free(ptr);
  }

  /** free_path: the heap table is again exactly the table before the parse. */
  method FreePath(heap: KHeap, path: Path, ghost parts: seq<seq<Byte>>, ghost copy: nat, ghost nodes: seq<PathPart>,
                  ghost runs: Runs, ghost held: Runs, ghost before: Table)
    requires heap.Valid() && Parsed(heap, path, parts, copy, nodes, runs, held)
    requires Represents(before, runs) && |before| == heap.entries.Length
    modifies heap.entries
    ensures heap.entries[..] == before
  {
    hide Represents, Holds, StringsAt, Start, BlocksOf;
    ghost var now, blocks := held, {copy, path.block} + BlocksOf(nodes);
    assert path.root.name == AddrOf(copy) + 3 + Start(parts, 0);
    FirstStart(parts);
    GiveBack(heap, path.root.name, copy, now, runs, blocks);
    now, blocks := now - {copy}, blocks - {copy};
    var part: PathPart? := path.root;
    ghost var i := 0;
    FirstBlocks(nodes, copy, path.block);
    while part != null
      invariant 0 <= i <= |nodes| && part == if i < |nodes| then nodes[i] else null
      invariant Represents(heap.entries[..], now) && Holds(now, runs, blocks)
      invariant blocks == {path.block} + BlocksOf(nodes[i..])
      decreases |nodes| - i
    {
      RestBlocks(nodes, i, path.block);
      var next := part.next;
      GiveBack(heap, AddrOf(part.block), part.block, now, runs, blocks);
      now, blocks := now - {part.block}, blocks - {part.block};
      part := next;
      i := i + 1;
    }
    GiveBack(heap, AddrOf(path.block), path.block, now, runs, blocks);
    LastBlock(nodes, path.block);
    HoldsNothing(now - {path.block}, runs);
    TableUnique(heap.entries[..], before, runs);
  }

  lemma FirstStart(parts: seq<seq<Byte>>)
    ensures Start(parts, 0) == 0
  {
  }

  lemma HoldsNothing(held: Runs, runs: Runs)
    requires Holds(held, runs, {})
    ensures held == runs
  {
  }

  /** The blocks still held: without the copy, */
  lemma FirstBlocks(nodes: seq<PathPart>, copy: nat, path: nat)
    requires copy != path && copy !in BlocksOf(nodes)
    ensures {copy, path} + BlocksOf(nodes) - {copy} == {path} + BlocksOf(nodes[0..])
  {
    assert nodes[0..] == nodes;
  }

  /** without one more part, */
  lemma RestBlocks(nodes: seq<PathPart>, i: nat, path: nat)
    requires ListOf(nodes) && i < |nodes| && path !in BlocksOf(nodes)
    ensures nodes[i].next == if i + 1 < |nodes| then nodes[i + 1] else null
    ensures nodes[i].block in BlocksOf(nodes[i..])
    ensures {path} + BlocksOf(nodes[i..]) - {nodes[i].block} == {path} + BlocksOf(nodes[i + 1..])
  {
    var rest, next := nodes[i..], nodes[i + 1..];
    assert rest == [nodes[i]] + next;
    forall b | b in BlocksOf(next) ensures b in BlocksOf(rest) {
      var j :| 0 <= j < |next| && next[j].block == b;
      assert rest[j + 1].block == b;
    }
    assert rest[0].block in BlocksOf(rest) && nodes[i].block in BlocksOf(nodes);
  }

  /** and none at the end. */
  lemma LastBlock(nodes: seq<PathPart>, path: nat)
    ensures {path} + BlocksOf(nodes[|nodes|..]) - {path} == {}
  {
  }
}
