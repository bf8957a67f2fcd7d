/** The block table of the kernel heap (src/memory/heap/kheap.c) as a value:
    what a table means, what the two scans compute, and what every run of
    allocations and frees keeps. */
module HeapTable {

  const FREE: bv8 := 0x00
  const TAKEN: bv8 := 0x01
  const IS_FIRST: bv8 := 0x40
  const HAS_NEXT: bv8 := 0x80

  type Table = seq<bv8>

  /** Start block of each live allocation, with its number of blocks. */
  type Runs = map<nat, nat>

  predicate IsFree(e: bv8) { e & 0x0f == FREE }

  predicate HasNext(e: bv8) { e & HAS_NEXT != 0 }

  predicate IsFirst(e: bv8) { e & IS_FIRST != 0 }

  /** The entry written for a taken block. */
  function Mark(first: bool, more: bool): bv8 {
    TAKEN | (if first then IS_FIRST else 0) | (if more then HAS_NEXT else 0)
  }

  lemma MarkBits(first: bool, more: bool)
    ensures var e := Mark(first, more); !IsFree(e) && IsFirst(e) == first && HasNext(e) == more
    ensures IsFree(FREE) && !IsFirst(FREE) && !HasNext(FREE)
  {
  }

  // ---------------------------------------------------------------- meaning

  predicate InRun(runs: Runs, s: nat, k: int) {
    s in runs && s <= k < s + runs[s]
  }

  ghost predicate Covered(runs: Runs, k: int) {
    exists s :: InRun(runs, s, k)
  }

  predicate Apart(runs: Runs, s: nat, s': nat) {
    s in runs && s' in runs && s < s' ==> s + runs[s] <= s'
  }

  ghost predicate Disjoint(runs: Runs) {
    forall s, s' :: Apart(runs, s, s')
  }

  /** The table `t` spells out exactly the allocations `runs`. */
  ghost predicate Represents(t: Table, runs: Runs) {
    && (forall s :: s in runs ==> 1 <= runs[s] && s + runs[s] <= |t|)
    && Disjoint(runs)
    && (forall s, k {:trigger InRun(runs, s, k)} ::
          InRun(runs, s, k) ==> t[k] == Mark(k == s, k + 1 < s + runs[s]))
    && (forall k {:trigger Covered(runs, k)} :: 0 <= k < |t| && !Covered(runs, k) ==> t[k] == FREE)
  }

  lemma FreeIffUncovered(t: Table, runs: Runs, k: nat)
    requires Represents(t, runs) && k < |t|
    ensures IsFree(t[k]) <==> !Covered(runs, k)
    ensures IsFree(t[k]) ==> t[k] == FREE
    ensures IsFirst(t[k]) <==> k in runs
  {
    if s :| InRun(runs, s, k) {
      MarkBits(k == s, k + 1 < s + runs[s]);
    }
    assert k in runs ==> InRun(runs, k, k);
  }

  /** A table has at most one meaning. */
  lemma MeaningUnique(t: Table, runs: Runs, runs': Runs)
    requires Represents(t, runs) && Represents(t, runs')
    ensures runs == runs'
  {
    forall s: nat
      ensures s in runs <==> s in runs'
      ensures s in runs ==> runs[s] == runs'[s]
    {
      if s in runs { RunsAgree(t, runs, runs', s); }
      if s in runs' { RunsAgree(t, runs', runs, s); }
    }
  }

  lemma RunsAgree(t: Table, runs: Runs, runs': Runs, s: nat)
    requires Represents(t, runs) && Represents(t, runs') && s in runs
    ensures s in runs' && runs'[s] == runs[s]
  {
    assert InRun(runs, s, s);
    FreeIffUncovered(t, runs, s);
    FreeIffUncovered(t, runs', s);
    LengthOfRun(t, runs, s);
    LengthOfRun(t, runs', s);
  }

  /** A meaning has exactly one table. */
  lemma TableUnique(t: Table, t': Table, runs: Runs)
    requires Represents(t, runs) && Represents(t', runs) && |t| == |t'|
    ensures t == t'
  {
    forall k | 0 <= k < |t| ensures t[k] == t'[k] {
      if s :| InRun(runs, s, k) {
        assert t[k] == Mark(k == s, k + 1 < s + runs[s]) == t'[k];
      } else {
        assert !Covered(runs, k);
      }
    }
  }

  // ------------------------------------------------------------ operations

  /** Number of entries that kfree clears when it starts at entry `i`. */
  function RunLength(t: Table, i: nat): (n: nat)
    requires i < |t|
    ensures 1 <= n && i + n <= |t|
    decreases |t| - i
  {
    if HasNext(t[i]) && i + 1 < |t| then 1 + RunLength(t, i + 1) else 1
  }

  lemma {:induction false} LengthFrom(t: Table, runs: Runs, s: nat, k: nat)
    requires Represents(t, runs) && InRun(runs, s, k)
    ensures RunLength(t, k) == s + runs[s] - k
    decreases s + runs[s] - k
  {
    MarkBits(k == s, k + 1 < s + runs[s]);
    if k + 1 < s + runs[s] {
      LengthFrom(t, runs, s, k + 1);
    }
  }

  lemma LengthOfRun(t: Table, runs: Runs, s: nat)
    requires Represents(t, runs) && s in runs
    ensures RunLength(t, s) == runs[s]
  {
    assert InRun(runs, s, s);
    LengthFrom(t, runs, s, s);
  }

  function Marked(t: Table, s: nat, n: nat): (r: Table)
    requires s + n <= |t|
    ensures |r| == |t|
  {
    seq(|t|, k requires 0 <= k < |t| =>
      if s <= k < s + n then Mark(k == s, k + 1 < s + n) else t[k])
  }

  function Cleared(t: Table, s: nat, n: nat): (r: Table)
    requires s + n <= |t|
    ensures |r| == |t|
  {
    seq(|t|, k requires 0 <= k < |t| => if s <= k < s + n then FREE else t[k])
  }

  /** The table after kfree of a pointer into block `i`. */
  function Freed(t: Table, i: nat): (r: Table)
    ensures |r| == |t|
  {
    if i < |t| then Cleared(t, i, RunLength(t, i)) else t
  }

  /** kfree from entry `i`: it clears up to the first entry without the bit 0x80, and
      nothing else, whatever the table holds. */
  lemma FreedExact(t: Table, i: nat)
    ensures forall k :: 0 <= k < |t| ==>
              Freed(t, i)[k] == if i <= k && (forall j :: i <= j < k ==> t[j] & 0x80 != 0) then 0 else t[k]
  {
    if i < |t| {
      RunLengthExact(t, i);
    }
  }

  lemma {:induction false} RunLengthExact(t: Table, i: nat)
    requires i < |t|
    ensures forall j :: i <= j < i + RunLength(t, i) - 1 ==> t[j] & 0x80 != 0
    ensures i + RunLength(t, i) < |t| ==> t[i + RunLength(t, i) - 1] & 0x80 == 0
    decreases |t| - i
  {
    if HasNext(t[i]) && i + 1 < |t| {
      RunLengthExact(t, i + 1);
    }
  }

  predicate FreeRun(t: Table, s: nat, n: nat) {
    s + n <= |t| && forall k :: s <= k < s + n ==> IsFree(t[k])
  }

  lemma MarkedRepresents(t: Table, runs: Runs, s: nat, n: nat)
    requires Represents(t, runs) && 1 <= n && FreeRun(t, s, n)
    ensures s !in runs
    ensures Represents(Marked(t, s, n), runs[s := n])
  {
    var r, runs' := Marked(t, s, n), runs[s := n];
    forall k | s <= k < s + n ensures !Covered(runs, k) {
      FreeIffUncovered(t, runs, k);
    }
    assert s in runs ==> InRun(runs, s, s);
    forall q: nat | q in runs ensures q + runs[q] <= s || s + n <= q {
      assert InRun(runs, q, q);
      assert q <= s < q + runs[q] ==> InRun(runs, q, s);
    }
    assert Disjoint(runs') by {
      forall q, q' ensures Apart(runs', q, q') { assert Apart(runs, q, q'); }
    }
    forall q, k | InRun(runs', q, k) ensures r[k] == Mark(k == q, k + 1 < q + runs'[q]) {
      if q != s { assert InRun(runs, q, k); }
    }
    forall k | 0 <= k < |t| && !Covered(runs', k) ensures r[k] == FREE {
      if s <= k < s + n { assert InRun(runs', s, k); }
      if q :| InRun(runs, q, k) { assert InRun(runs', q, k); } else { assert !Covered(runs, k); }
    }
  }

  lemma FreedRepresents(t: Table, runs: Runs, s: nat)
    requires Represents(t, runs) && s in runs
    ensures Represents(Freed(t, s), runs - {s})
  {
    LengthOfRun(t, runs, s);
    var r, runs' := Freed(t, s), runs - {s};
    assert Disjoint(runs') by {
      forall q, q' ensures Apart(runs', q, q') { assert Apart(runs, q, q'); }
    }
    forall q, k | InRun(runs', q, k) ensures r[k] == Mark(k == q, k + 1 < q + runs'[q]) {
      assert InRun(runs, q, k) && Apart(runs, q, s) && Apart(runs, s, q);
    }
    forall k | 0 <= k < |t| && !Covered(runs', k) ensures r[k] == FREE {
      if q :| InRun(runs, q, k) {
        if q != s { assert InRun(runs', q, k); }
      } else {
        assert !Covered(runs, k);
      }
    }
  }

  /** kfree undoes the kmalloc before it, byte for byte. */
  lemma FreeUndoesAlloc(t: Table, runs: Runs, s: nat, n: nat)
    requires Represents(t, runs) && 1 <= n && FreeRun(t, s, n)
    ensures Freed(Marked(t, s, n), s) == t
  {
    MarkedRepresents(t, runs, s, n);
    FreedRepresents(Marked(t, s, n), runs[s := n], s);
    assert runs[s := n] - {s} == runs;
    TableUnique(Freed(Marked(t, s, n), s), t, runs);
  }

  // ------------------------------------------------------------------ scan

  datatype ScanResult = Found(at: nat) | NotFound | Overrun

  /** The inner loop of kmalloc from entry `j`: how far the free entries reach. */
  function Probe(t: Table, i: nat, n: nat, j: nat): ScanResult
    requires i <= j <= |t|
    decreases |t| - j
  {
    if j >= i + n then Found(i)
    else if j == |t| then Overrun
    else if !IsFree(t[j]) then NotFound
    else Probe(t, i, n, j + 1)
  }

  /** The outer loop of kmalloc from entry `i`, for a request of `n` blocks. */
  function Scan(t: Table, n: nat, i: nat): ScanResult
    requires i <= |t|
    decreases |t| - i
  {
    if i == |t| then NotFound
    else if !IsFree(t[i]) then Scan(t, n, i + 1)
    else if Probe(t, i, n, i).NotFound? then Scan(t, n, i + 1)
    else Probe(t, i, n, i)
  }

  /** Blocks marked for a request of `n`: a request of zero still takes one. */
  function Need(n: nat): nat { if n == 0 then 1 else n }

  predicate LowestFit(t: Table, n: nat, i: nat) {
    FreeRun(t, i, n) && forall i' :: 0 <= i' < i ==> !FreeRun(t, i', n)
  }

  ghost predicate FitExists(t: Table, n: nat) {
    exists i :: FreeRun(t, i, n)
  }

  /** When the scan for `n` blocks never reads past the end of the table. */
  ghost predicate ScanSafe(t: Table, n: nat) {
    n <= 1 || FitExists(t, n) || t == [] || !IsFree(t[|t| - 1])
  }

  lemma {:induction false} ProbeMeaning(t: Table, i: nat, n: nat, j: nat)
    requires i <= j <= |t| && j <= i + n && forall k :: i <= k < j ==> IsFree(t[k])
    ensures Probe(t, i, n, j) == Found(i) <==> FreeRun(t, i, n)
    ensures Probe(t, i, n, j) == Overrun
            <==> i + n > |t| && forall k :: i <= k < |t| ==> IsFree(t[k])
    ensures Probe(t, i, n, j).Found? ==> Probe(t, i, n, j).at == i
    decreases |t| - j
  {
    if j < i + n && j < |t| && IsFree(t[j]) {
      ProbeMeaning(t, i, n, j + 1);
    }
  }

  /** The scan from `i` finds the lowest fit at or above `i`, and leaves the
      table exactly when there is none and the last entry is free. */
  lemma {:induction false} ScanFrom(t: Table, n: nat, i: nat)
    requires i <= |t|
    requires forall i' :: 0 <= i' < i ==> !FreeRun(t, i', Need(n))
    ensures forall s :: Scan(t, n, i) == Found(s) <==> LowestFit(t, Need(n), s)
    ensures Scan(t, n, i).Overrun? ==>
              n > 1 && !FitExists(t, n) && t != [] && IsFree(t[|t| - 1])
    ensures n > 1 && !FitExists(t, n) && i < |t| && IsFree(t[|t| - 1]) ==>
              Scan(t, n, i).Overrun?
    decreases |t| - i
  {
    if i < |t| {
      ProbeMeaning(t, i, n, i);
      if !IsFree(t[i]) || Probe(t, i, n, i).NotFound? {
        ScanFrom(t, n, i + 1);
      } else if Probe(t, i, n, i).Overrun? {
        assert Probe(t, i, 1, i + 1).Found?;
        assert n > 1;
        assert forall s: nat :: FreeRun(t, s, Need(n)) ==> s < i;
      } else {
        assert FreeRun(t, i, Need(n));
      }
    }
  }

  /** First fit: which block a request gets, and exactly when the scan of a
      request stays inside the table. */
  lemma ScanMeaning(t: Table, n: nat)
    ensures forall s :: Scan(t, n, 0) == Found(s) <==> LowestFit(t, Need(n), s)
    ensures Scan(t, n, 0).NotFound? ==> !FitExists(t, Need(n))
    ensures Scan(t, n, 0).Overrun? <==> !ScanSafe(t, n)
  {
    ScanFrom(t, n, 0);
    if s :| FreeRun(t, s, Need(n)) {
      LowestExists(t, Need(n), s);
    }
  }

  lemma {:induction false} LowestExists(t: Table, n: nat, s: nat)
    requires FreeRun(t, s, n)
    ensures exists i :: LowestFit(t, n, i)
  {
    if s' :| 0 <= s' < s && FreeRun(t, s', n) {
      LowestExists(t, n, s');
    } else {
      assert LowestFit(t, n, s);
    }
  }

  /** A one-block request is served exactly when some block is free. */
  lemma OneBlockRequest(t: Table, n: nat)
    requires n <= 1
    ensures Scan(t, n, 0).Found? <==> exists k :: 0 <= k < |t| && IsFree(t[k])
    ensures !Scan(t, n, 0).Overrun?
  {
    ScanMeaning(t, n);
    if k :| 0 <= k < |t| && IsFree(t[k]) {
      assert FreeRun(t, k, 1);
    }
    if Scan(t, n, 0).Found? {
      var s := Scan(t, n, 0).at;
      assert LowestFit(t, 1, s);
      assert IsFree(t[s]);
    }
  }

  // --------------------------------------------- which tables have a meaning

  /** A condition on neighbouring entries only. */
  predicate EntryFits(t: Table, k: nat)
    requires k < |t|
  {
    && (t[k] == FREE || t[k] == Mark(IsFirst(t[k]), HasNext(t[k])))
    && (HasNext(t[k]) ==> k + 1 < |t| && !IsFree(t[k + 1]) && !IsFirst(t[k + 1]))
    && (!IsFree(t[k]) && !IsFirst(t[k]) ==> 0 < k && HasNext(t[k - 1]))
  }

  predicate WellFormed(t: Table) {
    forall k :: 0 <= k < |t| ==> EntryFits(t, k)
  }

  function Starts(t: Table): Runs {
    map s: nat | s < |t| && IsFirst(t[s]) :: RunLength(t, s)
  }

  /** Entries after the first of a run are continuations, and the last ends it. */
  lemma {:induction false} RunShape(t: Table, s: nat, k: nat)
    requires WellFormed(t) && s < |t| && !IsFree(t[s]) && s <= k < s + RunLength(t, s)
    ensures !IsFree(t[k]) && (s < k ==> !IsFirst(t[k]))
    ensures HasNext(t[k]) <==> k + 1 < s + RunLength(t, s)
    decreases k - s
  {
    assert EntryFits(t, s);
    if s < k {
      RunShape(t, s + 1, k);
    }
  }

  lemma {:induction false} StartOf(t: Table, k: nat) returns (s: nat)
    requires WellFormed(t) && k < |t| && !IsFree(t[k])
    ensures s <= k < s + RunLength(t, s) && IsFirst(t[s]) && !IsFree(t[s])
    decreases k
  {
    if IsFirst(t[k]) {
      s := k;
    } else {
      assert EntryFits(t, k) && EntryFits(t, k - 1);
      MarkBits(IsFirst(t[k - 1]), HasNext(t[k - 1]));
      s := StartOf(t, k - 1);
      RunShape(t, s, k - 1);
    }
  }

  lemma WellFormedRepresents(t: Table)
    requires WellFormed(t)
    ensures Represents(t, Starts(t))
  {
    var runs := Starts(t);
    assert forall k :: 0 <= k < |t| && EntryFits(t, k) && IsFirst(t[k]) ==> !IsFree(t[k]);
    forall s, s' ensures Apart(runs, s, s') {
      if s in runs && s' in runs && s < s' < s + runs[s] { RunShape(t, s, s'); }
    }
    forall s, k | InRun(runs, s, k) ensures t[k] == Mark(k == s, k + 1 < s + runs[s]) {
      RunShape(t, s, k);
      assert EntryFits(t, k);
    }
    forall k | 0 <= k < |t| && !Covered(runs, k) ensures t[k] == FREE {
      assert EntryFits(t, k);
      if !IsFree(t[k]) {
        var s := StartOf(t, k);
        assert InRun(runs, s, k);
      }
    }
  }

  lemma RepresentsWellFormed(t: Table, runs: Runs)
    requires Represents(t, runs)
    ensures WellFormed(t)
  {
    forall k: nat | k < |t|
      ensures EntryFits(t, k)
    {
      FreeIffUncovered(t, runs, k);
      if s: nat :| InRun(runs, s, k) {
        MarkBits(k == s, k + 1 < s + runs[s]);
        if k + 1 < s + runs[s] {
          assert InRun(runs, s, k + 1);
          MarkBits(false, k + 2 < s + runs[s]);
        }
        if s < k {
          assert InRun(runs, s, k - 1);
          MarkBits(k - 1 == s, true);
        }
      }
    }
  }

  /** The table parses, and in one way only, exactly when neighbouring entries agree. */
  lemma ParsesIffWellFormed(t: Table)
    ensures WellFormed(t) <==> exists runs :: Represents(t, runs)
    ensures forall runs :: Represents(t, runs) ==> runs == Starts(t)
  {
    if WellFormed(t) { WellFormedRepresents(t); }
    forall runs | Represents(t, runs) ensures WellFormed(t) && runs == Starts(t) {
      RepresentsWellFormed(t, runs);
      WellFormedRepresents(t);
      MeaningUnique(t, runs, Starts(t));
    }
  }

  // ----------------------------------------------------------- conservation

  /** Blocks held by the runs that start below `n`. */
  function AllocatedBelow(runs: Runs, n: nat): nat {
    if n == 0 then 0
    else AllocatedBelow(runs, n - 1) + (if n - 1 in runs then runs[n - 1] else 0)
  }

  /** Free entries below `n`: what kheap_num_free_blocks counts. */
  function FreeBelow(t: Table, n: nat): nat
    requires n <= |t|
  {
    if n == 0 then 0 else FreeBelow(t, n - 1) + (if IsFree(t[n - 1]) then 1 else 0)
  }

  lemma {:induction false} BelowInRun(t: Table, runs: Runs, s: nat, n: nat)
    requires Represents(t, runs) && s in runs && s < n <= s + runs[s]
    ensures AllocatedBelow(runs, n) == AllocatedBelow(runs, s) + runs[s]
    ensures FreeBelow(t, n) == FreeBelow(t, s)
  {
    assert InRun(runs, s, n - 1);
    MarkBits(n - 1 == s, n < s + runs[s]);
    assert n - 1 in runs ==> Apart(runs, s, n - 1);
    if s < n - 1 {
      BelowInRun(t, runs, s, n - 1);
    }
  }

  lemma {:induction false} ConservedBelow(t: Table, runs: Runs, n: nat)
    requires Represents(t, runs) && n <= |t|
    requires forall s :: s in runs && s < n ==> s + runs[s] <= n
    ensures AllocatedBelow(runs, n) + FreeBelow(t, n) == n
  {
    if n > 0 {
      var k := n - 1;
      FreeIffUncovered(t, runs, k);
      if s: nat :| InRun(runs, s, k) {
        BelowInRun(t, runs, s, n);
        assert forall s': nat :: s' in runs && s' < s ==> Apart(runs, s', s);
        ConservedBelow(t, runs, s);
      } else {
        assert forall s: nat :: s in runs && s < n ==> !InRun(runs, s, k);
        ConservedBelow(t, runs, k);
      }
    }
  }

  /** No block is ever lost: allocated and free blocks total the table. */
  lemma BlocksConserved(t: Table, runs: Runs)
    requires Represents(t, runs)
    ensures AllocatedBelow(runs, |t|) + FreeBelow(t, |t|) == |t|
  {
    ConservedBelow(t, runs, |t|);
  }

  lemma {:induction false} FreeBlockExists(t: Table, n: nat)
    requires n <= |t| && FreeBelow(t, n) > 0
    ensures FitExists(t, 1)
    decreases n
  {
    if IsFree(t[n - 1]) {
      assert FreeRun(t, n - 1, 1);
    } else {
      FreeBlockExists(t, n - 1);
    }
  }

  /** Some block is free exactly when the count is not zero. */
  lemma FreeCount(t: Table)
    ensures FitExists(t, 1) <==> FreeBelow(t, |t|) > 0
  {
    if FreeBelow(t, |t|) > 0 {
      FreeBlockExists(t, |t|);
    } else if s: nat :| FreeRun(t, s, 1) {
      assert IsFree(t[s]);
      NoneFree(t, |t|, s);
    }
  }

  lemma {:induction false} NoneFree(t: Table, n: nat, k: nat)
    requires k < n <= |t| && FreeBelow(t, n) == 0
    ensures !IsFree(t[k])
    decreases n
  {
    if k < n - 1 { NoneFree(t, n - 1, k); }
  }

  lemma {:induction false} OneFewer(t: Table, b: nat, n: nat)
    requires b < |t| && IsFree(t[b]) && n <= |t|
    ensures FreeBelow(Marked(t, b, 1), n) == FreeBelow(t, n) - if b < n then 1 else 0
  {
    MarkBits(true, false);
    if n > 0 { OneFewer(t, b, n - 1); }
  }

  // -------------------------------------------------------------- whole runs

  datatype HeapOp = Alloc(blocks: nat) | Free(start: nat)

  /** The call is one the kernel may make: its scan stays in the table, or it
      frees a live allocation. */
  ghost predicate Allowed(t: Table, runs: Runs, op: HeapOp) {
    match op
    case Alloc(n) => ScanSafe(t, n)
    case Free(s) => s in runs
  }

  function StepTable(t: Table, op: HeapOp): (t': Table)
    ensures |t'| == |t|
  {
    match op
    case Alloc(n) =>
      ScanMeaning(t, n);
      if Scan(t, n, 0).Found? then Marked(t, Scan(t, n, 0).at, Need(n)) else t
    case Free(s) => Freed(t, s)
  }

  /** The abstract allocator: any lowest fit, or nothing when there is no fit. */
  ghost predicate StepRuns(t: Table, runs: Runs, op: HeapOp, runs': Runs) {
    match op
    case Alloc(n) =>
      if FitExists(t, Need(n)) then
        exists s: nat :: LowestFit(t, Need(n), s) && s !in runs && runs' == runs[s := Need(n)]
      else
        runs' == runs
    case Free(s) => runs' == runs - {s}
  }

  lemma StepRefines(t: Table, runs: Runs, op: HeapOp) returns (runs': Runs)
    requires Represents(t, runs) && Allowed(t, runs, op)
    ensures Represents(StepTable(t, op), runs') && StepRuns(t, runs, op, runs')
  {
    match op
    case Alloc(n) =>
      ScanMeaning(t, n);
      if Scan(t, n, 0).Found? {
        var s := Scan(t, n, 0).at;
        MarkedRepresents(t, runs, s, Need(n));
        runs' := runs[s := Need(n)];
        assert LowestFit(t, Need(n), s);
      } else {
        runs' := runs;
      }
    case Free(s) =>
      FreedRepresents(t, runs, s);
      runs' := runs - {s};
  }

  /** A run of the heap: the table before each call and after the last. */
  ghost predicate HeapRun(tables: seq<Table>, ops: seq<HeapOp>) {
    && |tables| == |ops| + 1
    && (forall i :: 0 <= i < |ops| ==>
          Allowed(tables[i], Starts(tables[i]), ops[i]) && tables[i + 1] == StepTable(tables[i], ops[i]))
  }

  /** Over every run of fitting kmalloc calls and kfree calls of live pointers
      the table keeps one meaning that follows the abstract allocator, and the
      blocks always total the table. */
  lemma {:induction false} HeapRefinement(tables: seq<Table>, ops: seq<HeapOp>, i: nat)
    requires HeapRun(tables, ops) && i < |tables|
    requires Represents(tables[0], map[])
    ensures |tables[i]| == |tables[0]|
    ensures Represents(tables[i], Starts(tables[i]))
    ensures 0 < i ==> StepRuns(tables[i - 1], Starts(tables[i - 1]), ops[i - 1], Starts(tables[i]))
    ensures AllocatedBelow(Starts(tables[i]), |tables[i]|) + FreeBelow(tables[i], |tables[i]|)
            == |tables[i]|
  {
    if i == 0 {
      ParsesIffWellFormed(tables[0]);
    } else {
      HeapRefinement(tables, ops, i - 1);
      var runs := StepRefines(tables[i - 1], Starts(tables[i - 1]), ops[i - 1]);
      ParsesIffWellFormed(tables[i]);
    }
    BlocksConserved(tables[i], Starts(tables[i]));
  }
}
