/** Two-level page tables held in heap blocks, as the hardware walks them, and
    the flat map from page to entry that they stand for.  Memory is seen here as
    aligned 32-bit words: the tables hold nothing else. */
module PageWalk {
  import opened Memory

  const PAGES: nat := 0x10_0000

  const PRESENT: Byte := 1
  const WRITE_ALLOW: Byte := 2
  const USER_ALLOW: Byte := 4

  datatype Option<T> = None | Some(value: T)

  predicate Present(w: Word) { w % 2 == 1 }

  predicate Writable(w: Word) { w / 2 % 2 == 1 }

  predicate UserAccess(w: Word) { w / 4 % 2 == 1 }

  /** `w & PAGE_FRAME_LOC_MASK`, as a frame number. */
  function Frame(w: Word): nat { w / PAGE_SIZE }

  /** `(pfn * PAGE_SIZE) | flags`, in 32 bits. */
  function Pte(pfn: nat, flags: Byte): Word { pfn % PAGES * PAGE_SIZE + flags }

  lemma BitZero(pfn: nat, flags: nat)
    ensures (pfn * 4096 + flags) % 2 == flags % 2
  {
    Parity(pfn * 2048, flags);
  }

  lemma BitOne(pfn: nat, flags: nat)
    ensures (pfn * 4096 + flags) / 2 % 2 == flags / 2 % 2
  {
    Halved(pfn * 4096 + flags, pfn * 2048 + flags / 2, flags % 2);
    Parity(pfn * 1024, flags / 2);
  }

  lemma BitTwo(pfn: nat, flags: nat)
    ensures (pfn * 4096 + flags) / 4 % 2 == flags / 4 % 2
  {
    Quartered(pfn * 4096 + flags, pfn * 1024 + flags / 4, flags % 4);
    Parity(pfn * 512, flags / 4);
  }

  lemma Halved(a: nat, q: nat, r: nat)
    requires a == 2 * q + r && r < 2
    ensures a / 2 == q
  {
  }

  lemma Quartered(a: nat, q: nat, r: nat)
    requires a == 4 * q + r && r < 4
    ensures a / 4 == q
  {
  }

  lemma Parity(a: nat, b: nat)
    ensures (2 * a + b) % 2 == b % 2
  {
  }

  lemma PteParts(pfn: nat, flags: Byte)
    requires pfn < PAGES
    ensures Frame(Pte(pfn, flags)) == pfn
    ensures Present(Pte(pfn, flags)) == Present(flags)
    ensures Writable(Pte(pfn, flags)) == Writable(flags)
    ensures UserAccess(Pte(pfn, flags)) == UserAccess(flags)
  {
    assert Pte(pfn, flags) == pfn * 4096 + flags;
    BitZero(pfn, flags);
    BitOne(pfn, flags);
    BitTwo(pfn, flags);
  }

  /** `flags | PAGE_WRITE_ALLOW` */
  function OrWrite(flags: Byte): Byte {
    if Writable(flags) then flags else flags + 2
  }

  // ----------------------------------------------------------------- walking

  ghost function BlankPage(): Page { seq(ENTRIES, _ => 0) }

  /** The physical address space as 2^20 pages. */
  type Ram = w: seq<Page> | |w| == PAGES ghost witness seq<Page>(PAGES, _ => BlankPage())

  /** Directory slot of a page, and its place in the table of that slot. */
  function Slot(vpn: nat): nat { vpn / ENTRIES }

  function Index(vpn: nat): nat { vpn % ENTRIES }

  /** The second-level entry the hardware finds for a page. */
  function Leaf(w: Ram, dir: nat, vpn: nat): Option<Word>
    requires dir < PAGES && vpn < PAGES
  {
    var d := w[dir][Slot(vpn)];
    if !Present(d) then None
    else
      var p := w[Frame(d)][Index(vpn)];
      if Present(p) then Some(p) else None
  }

  /** The flat page map a pair of levels stands for. */
  ghost function Flat(w: Ram, dir: nat): map<nat, Word>
    requires dir < PAGES
  {
    map vpn: nat | vpn < PAGES && Leaf(w, dir, vpn).Some? :: Leaf(w, dir, vpn).value
  }

  /** Rights of a page: the AND of both levels (section 4.6 of the Intel SDM,
      volume 3A). */
  datatype Rights = Rights(present: bool, write: bool, user: bool)

  function EffectiveRights(w: Ram, dir: nat, vpn: nat): Rights
    requires dir < PAGES && vpn < PAGES
  {
    var d := w[dir][Slot(vpn)];
    match Leaf(w, dir, vpn)
    case None => Rights(false, false, false)
    case Some(p) => Rights(true, Writable(d) && Writable(p), UserAccess(d) && UserAccess(p))
  }

  // -------------------------------------------------------------- well-formed

  /** The frame of the second-level table of each present directory slot. */
  type Tables = map<nat, nat>

  predicate Unshared(tabs: Tables, i: nat, j: nat) {
    i in tabs && j in tabs && i != j ==> tabs[i] != tabs[j]
  }

  /** Slot `i` of the directory is present exactly when it has a table, which
      no other slot shares and which is not the directory. */
  ghost predicate Shape(w: Ram, dir: nat, tabs: Tables) {
    && dir < PAGES
    && (forall i :: i in tabs ==> i < ENTRIES && tabs[i] < PAGES && tabs[i] != dir)
    && (forall i, j :: Unshared(tabs, i, j))
    && (forall i: nat :: i < ENTRIES ==> (i in tabs <==> Present(w[dir][i])))
    && (forall i: nat :: i in tabs ==> Frame(w[dir][i]) == tabs[i])
  }

  ghost predicate Full(tabs: Tables) { forall i: nat :: i < ENTRIES ==> i in tabs }

  ghost function Frames(dir: nat, tabs: Tables): set<nat> { {dir} + tabs.Values }

  /** In a well-formed table a page is found through the table of its slot. */
  lemma LeafIs(w: Ram, dir: nat, tabs: Tables, vpn: nat)
    requires Shape(w, dir, tabs) && vpn < PAGES
    ensures Slot(vpn) !in tabs ==> Leaf(w, dir, vpn) == None
    ensures Slot(vpn) in tabs ==>
              var p := w[tabs[Slot(vpn)]][Index(vpn)];
              Leaf(w, dir, vpn) == if Present(p) then Some(p) else None
  {
    assert Slot(vpn) < ENTRIES;
  }

  // ------------------------------------------------- the ways tables change

  /** Memory changes away from the tables move no page. */
  lemma UntouchedTables(w: Ram, w': Ram, dir: nat, tabs: Tables)
    requires Shape(w, dir, tabs)
    requires forall f: nat :: f < PAGES && f in Frames(dir, tabs) ==> w'[f] == w[f]
    ensures Shape(w', dir, tabs)
    ensures w'[dir] == w[dir]
    ensures forall v: nat :: v < PAGES ==> Leaf(w', dir, v) == Leaf(w, dir, v)
  {
    forall v: nat | v < PAGES ensures Leaf(w', dir, v) == Leaf(w, dir, v) {
      LeafIs(w, dir, tabs, v);
      LeafIs(w', dir, tabs, v);
      if Slot(v) in tabs {
        assert tabs[Slot(v)] in Frames(dir, tabs);
      }
    }
  }

  /** Writing one second-level entry changes that page and no other. */
  lemma SetLeaf(w: Ram, dir: nat, tabs: Tables, vpn: nat, p: Word)
    requires Shape(w, dir, tabs) && vpn < PAGES && Slot(vpn) in tabs
    ensures
      var w' := w[tabs[Slot(vpn)] := w[tabs[Slot(vpn)]][Index(vpn) := p]];
      && Shape(w', dir, tabs)
      && w'[dir] == w[dir]
      && (forall v: nat :: v < PAGES ==>
            Leaf(w', dir, v) ==
            if v != vpn then Leaf(w, dir, v) else if Present(p) then Some(p) else None)
  {
    var d := Slot(vpn);
    var w' := w[tabs[d] := w[tabs[d]][Index(vpn) := p]];
    forall v: nat | v < PAGES
      ensures Leaf(w', dir, v) ==
        if v != vpn then Leaf(w, dir, v) else if Present(p) then Some(p) else None
    {
      LeafIs(w, dir, tabs, v);
      LeafIs(w', dir, tabs, v);
      assert Unshared(tabs, Slot(v), d);
    }
  }

  /** Writing a directory entry with new flags moves no page. */
  lemma SetDir(w: Ram, dir: nat, tabs: Tables, d: nat, flags: Byte)
    requires Shape(w, dir, tabs) && d in tabs && Present(flags)
    ensures
      var w' := w[dir := w[dir][d := Pte(tabs[d], flags)]];
      && Shape(w', dir, tabs)
      && w'[dir] == w[dir][d := Pte(tabs[d], flags)]
      && (forall v: nat :: v < PAGES ==> Leaf(w', dir, v) == Leaf(w, dir, v))
  {
    var w' := w[dir := w[dir][d := Pte(tabs[d], flags)]];
    PteParts(tabs[d], flags);
    forall v: nat | v < PAGES ensures Leaf(w', dir, v) == Leaf(w, dir, v) {
      LeafIs(w, dir, tabs, v);
      LeafIs(w', dir, tabs, v);
    }
  }

  /** Hooking a new table into an absent slot: the pages of that slot are the
      ones the table holds, and no other page moves. */
  lemma AddTable(w: Ram, w1: Ram, dir: nat, tabs: Tables, d: nat, tab: nat, flags: Byte)
    requires Shape(w, dir, tabs) && d < ENTRIES && d !in tabs && Present(flags)
    requires tab !in Frames(dir, tabs) && tab < PAGES
    requires forall f: nat :: f < PAGES && f != tab ==> w1[f] == w[f]
    ensures
      var w' := w1[dir := w1[dir][d := Pte(tab, flags)]];
      && Shape(w', dir, tabs[d := tab])
      && w'[dir] == w[dir][d := Pte(tab, flags)]
      && (forall v: nat :: v < PAGES ==>
            Leaf(w', dir, v) ==
            if Slot(v) != d then Leaf(w, dir, v)
            else var p := w1[tab][Index(v)]; if Present(p) then Some(p) else None)
  {
    var w' := w1[dir := w1[dir][d := Pte(tab, flags)]];
    var tabs' := tabs[d := tab];
    assert d in tabs' && tabs'[d] == tab;
    assert forall i :: i in tabs ==> tabs[i] in Frames(dir, tabs);
    PteParts(tab, flags);
    assert w'[dir] == w[dir][d := Pte(tab, flags)];
    forall i, j ensures Unshared(tabs', i, j) { assert Unshared(tabs, i, j); }
    assert Shape(w', dir, tabs');
    forall v: nat | v < PAGES
      ensures Leaf(w', dir, v) ==
        if Slot(v) != d then Leaf(w, dir, v)
        else var p := w1[tab][Index(v)]; if Present(p) then Some(p) else None
    {
      LeafIs(w, dir, tabs, v);
      LeafIs(w', dir, tabs', v);
      if Slot(v) != d && Slot(v) in tabs {
        assert w'[tabs[Slot(v)]] == w[tabs[Slot(v)]];
      }
    }
  }

  /** One call of paging_new_vpn_to_pfn: the page gets its entry, no other page
      moves, and the flags of the slot are overwritten. */
  ghost predicate PageMapped(w: Ram, w': Ram, dir: nat, tabs: Tables, vpn: nat, pfn: nat, flags: Byte) {
    && Shape(w', dir, tabs) && vpn < PAGES && Slot(vpn) in tabs
    && w'[dir] == w[dir][Slot(vpn) := Pte(tabs[Slot(vpn)], flags)]
    && (forall v: nat :: v < PAGES ==>
          Leaf(w', dir, v) == if v == vpn then Some(Pte(pfn, flags)) else Leaf(w, dir, v))
  }

  lemma MapInPresentSlot(w: Ram, dir: nat, tabs: Tables, vpn: nat, pfn: nat, flags: Byte)
    requires Shape(w, dir, tabs) && vpn < PAGES && Slot(vpn) in tabs && Present(flags)
    ensures
      var tab := tabs[Slot(vpn)];
      var w1 := w[tab := w[tab][Index(vpn) := Pte(pfn, flags)]];
      PageMapped(w, w1[dir := w1[dir][Slot(vpn) := Pte(tab, flags)]], dir, tabs, vpn, pfn, flags)
  {
    var tab := tabs[Slot(vpn)];
    SetLeaf(w, dir, tabs, vpn, Pte(pfn, flags));
    SetDir(w[tab := w[tab][Index(vpn) := Pte(pfn, flags)]], dir, tabs, Slot(vpn), flags);
    PteParts(pfn % PAGES, flags);
  }

  lemma MapInAbsentSlot(w: Ram, w0: Ram, dir: nat, tabs: Tables, tab: nat, vpn: nat, pfn: nat, flags: Byte)
    requires Shape(w, dir, tabs) && vpn < PAGES && Slot(vpn) !in tabs && Present(flags)
    requires tab !in Frames(dir, tabs) && tab < PAGES
    requires forall f: nat :: f < PAGES && f != tab ==> w0[f] == w[f]
    requires forall i :: 0 <= i < ENTRIES ==> w0[tab][i] == 0
    ensures
      var w1 := w0[tab := w0[tab][Index(vpn) := Pte(pfn, flags)]];
      PageMapped(w, w1[dir := w1[dir][Slot(vpn) := Pte(tab, flags)]], dir, tabs[Slot(vpn) := tab], vpn, pfn, flags)
  {
    var w1 := w0[tab := w0[tab][Index(vpn) := Pte(pfn, flags)]];
    AddTable(w, w1, dir, tabs, Slot(vpn), tab, flags);
    PteParts(pfn % PAGES, flags);
    var w' := w1[dir := w1[dir][Slot(vpn) := Pte(tab, flags)]];
    forall v: nat | v < PAGES
      ensures Leaf(w', dir, v) == if v == vpn then Some(Pte(pfn, flags)) else Leaf(w, dir, v)
    {
      LeafIs(w, dir, tabs, v);
    }
  }

  // ----------------------------------------------------- regions of pages

  predicate SlotTouched(k: nat, lo: nat, n: nat) {
    n > 0 && Slot(lo) <= k <= Slot(lo + n - 1)
  }

  /** Pages `lo .. lo + n` got consecutive frames from `pfn`, every slot they
      lie in got the flags of the call, and nothing else changed. */
  ghost predicate RegionMapped(w: Ram, w': Ram, dir: nat, tabs: Tables, lo: nat, n: nat, pfn: nat, flags: Byte) {
    && Shape(w', dir, tabs) && lo + n <= PAGES
    && (forall v: nat :: v < PAGES ==>
          Leaf(w', dir, v) == if lo <= v < lo + n then Some(Pte(pfn + v - lo, flags)) else Leaf(w, dir, v))
    && (forall k: nat :: k < ENTRIES && SlotTouched(k, lo, n) ==> k in tabs && w'[dir][k] == Pte(tabs[k], flags))
    && (forall k: nat :: k < ENTRIES && !SlotTouched(k, lo, n) ==> w'[dir][k] == w[dir][k])
  }

  lemma RegionStep(w: Ram, w1: Ram, w2: Ram, dir: nat, tabs: Tables, tabs2: Tables,
                   lo: nat, n: nat, pfn: nat, flags: Byte)
    requires PageMapped(w, w1, dir, tabs, lo, pfn, flags)
    requires RegionMapped(w1, w2, dir, tabs2, lo + 1, n, pfn + 1, flags)
    requires forall k :: k in tabs ==> k in tabs2 && tabs2[k] == tabs[k]
    ensures RegionMapped(w, w2, dir, tabs2, lo, n + 1, pfn, flags)
  {
    var lo1, n1 := lo + 1, n + 1;
    assert forall k: nat :: SlotTouched(k, lo, n1) <==> SlotTouched(k, lo1, n) || k == Slot(lo);
  }

  predicate InRange(v: nat, lo: nat, n: nat) { lo <= v < lo + n }

  ghost function Range(lo: nat, n: nat): set<nat> {
    set v: nat | v < PAGES && InRange(v, lo, n)
  }

  ghost function Region(lo: nat, n: nat, pfn: nat, flags: Byte): map<nat, Word> {
    map v: nat | v < PAGES && InRange(v, lo, n) :: Pte(pfn + v - lo, flags)
  }

  /** The flat map after a mapping call is the old one updated pointwise. */
  lemma RegionFlat(w: Ram, w': Ram, dir: nat, tabs: Tables, lo: nat, n: nat, pfn: nat, flags: Byte)
    requires RegionMapped(w, w', dir, tabs, lo, n, pfn, flags)
    ensures Flat(w', dir) == Flat(w, dir) + Region(lo, n, pfn, flags)
  {
  }

  /** Pages `lo .. lo + n` are gone and nothing else changed. */
  ghost predicate RegionFreed(w: Ram, w': Ram, dir: nat, tabs: Tables, lo: nat, n: nat) {
    && Shape(w', dir, tabs) && lo + n <= PAGES
    && w'[dir] == w[dir]
    && (forall v: nat :: v < PAGES ==>
          Leaf(w', dir, v) == if lo <= v < lo + n then None else Leaf(w, dir, v))
  }

  lemma FreedStep(w: Ram, w1: Ram, w2: Ram, dir: nat, tabs: Tables, lo: nat, n: nat)
    requires RegionFreed(w, w1, dir, tabs, lo, 1) && RegionFreed(w1, w2, dir, tabs, lo + 1, n)
    ensures RegionFreed(w, w2, dir, tabs, lo, n + 1)
  {
  }

  lemma FreedFlat(w: Ram, w': Ram, dir: nat, tabs: Tables, lo: nat, n: nat)
    requires RegionFreed(w, w', dir, tabs, lo, n)
    ensures Flat(w', dir) == Flat(w, dir) - Range(lo, n)
  {
  }

  // ------------------------------------------------------------------ rights

  /** After a mapping call the rights of every page in a touched slot are the
      AND of its own entry and the flags of the call; rights in other slots
      are as before. */
  lemma RightsAfterMapping(w: Ram, w': Ram, dir: nat, tabs: Tables, lo: nat, n: nat, pfn: nat, flags: Byte, v: nat)
    requires RegionMapped(w, w', dir, tabs, lo, n, pfn, flags) && v < PAGES
    ensures SlotTouched(Slot(v), lo, n) && Leaf(w', dir, v).Some? ==>
              var p := Leaf(w', dir, v).value;
              EffectiveRights(w', dir, v)
              == Rights(true, Writable(p) && Writable(flags), UserAccess(p) && UserAccess(flags))
    ensures !SlotTouched(Slot(v), lo, n) ==> EffectiveRights(w', dir, v) == EffectiveRights(w, dir, v)
    ensures lo <= v < lo + n ==> EffectiveRights(w', dir, v) == Rights(true, Writable(flags), UserAccess(flags))
  {
    hide Leaf, Pte, Shape, Writable, UserAccess, Present, Slot;
    SlotAfter(w, w', dir, tabs, lo, n, pfn, flags, v);
    if lo <= v < lo + n {
      PteWraps(pfn + v - lo, flags);
    }
  }

  /** The directory entry of the slot of a page after a mapping call. */
  lemma SlotAfter(w: Ram, w': Ram, dir: nat, tabs: Tables, lo: nat, n: nat, pfn: nat, flags: Byte, v: nat)
    requires RegionMapped(w, w', dir, tabs, lo, n, pfn, flags) && v < PAGES
    ensures Slot(v) < ENTRIES && (lo <= v < lo + n ==> SlotTouched(Slot(v), lo, n))
    ensures SlotTouched(Slot(v), lo, n) ==>
              var d := w'[dir][Slot(v)];
              Writable(d) == Writable(flags) && UserAccess(d) == UserAccess(flags)
    ensures !SlotTouched(Slot(v), lo, n) ==> w'[dir][Slot(v)] == w[dir][Slot(v)] && Leaf(w', dir, v) == Leaf(w, dir, v)
  {
    hide Leaf, Pte, Writable, UserAccess, Present;
    var k := Slot(v);
    assert k < ENTRIES;
    if SlotTouched(k, lo, n) {
      PteParts(tabs[k], flags);
    }
  }

  /** The flags of an entry, whatever the frame. */
  lemma PteWraps(pfn: nat, flags: Byte)
    ensures Writable(Pte(pfn, flags)) == Writable(flags) && UserAccess(Pte(pfn, flags)) == UserAccess(flags)
  {
    hide Writable, UserAccess;
    PteParts(pfn % PAGES, flags);
  }

  /** A page outside the region keeps its rights exactly when its slot is not
      touched, or the call's flags and the old directory flags grant the same
      of what its own entry grants. */
  lemma NeighbourRights(w: Ram, w': Ram, dir: nat, tabs: Tables, lo: nat, n: nat, pfn: nat, flags: Byte, v: nat)
    requires RegionMapped(w, w', dir, tabs, lo, n, pfn, flags) && v < PAGES && !(lo <= v < lo + n)
    ensures EffectiveRights(w', dir, v) == EffectiveRights(w, dir, v) <==>
            || !SlotTouched(Slot(v), lo, n)
            || Leaf(w, dir, v).None?
            || var d, p := w[dir][Slot(v)], Leaf(w, dir, v).value;
               && (Writable(p) ==> Writable(d) == Writable(flags))
               && (UserAccess(p) ==> UserAccess(d) == UserAccess(flags))
  {
    RightsAfterMapping(w, w', dir, tabs, lo, n, pfn, flags, v);
  }

  /** So one read-only mapping takes the write right from every page that
      shares a 4 MiB slot with it. */
  lemma ReadOnlyMappingRevokesWrite(w: Ram, w': Ram, dir: nat, tabs: Tables, lo: nat, n: nat, pfn: nat, flags: Byte,
                                    v: nat)
    requires RegionMapped(w, w', dir, tabs, lo, n, pfn, flags) && v < PAGES && !(lo <= v < lo + n)
    requires SlotTouched(Slot(v), lo, n) && !Writable(flags)
    ensures !EffectiveRights(w', dir, v).write
  {
    RightsAfterMapping(w, w', dir, tabs, lo, n, pfn, flags, v);
  }
}
