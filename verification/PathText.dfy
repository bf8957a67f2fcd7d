/** The text side of path splitting, src/fs/utils.c. */
module PathText {
  import opened Memory
  import opened CString

  const SLASH: Byte := 0x2f
  const COLON: Byte := 0x3a
  const ZERO: Byte := 0x30
  const NINE: Byte := 0x39

  /** FS_MAX_PATH_LEN of src/config.h. */
  const MAX_PATH: nat := 108

  /** strnlen of a string, cut at the longest path. */
  function PathLen(str: seq<Byte>): nat { if |str| < MAX_PATH then |str| else MAX_PATH }

  /** is_path_valid */
  predicate PathValid(str: seq<Byte>) {
    PathLen(str) >= 3 && ZERO <= str[0] <= NINE && str[1] == COLON && str[2] == SLASH
  }

  /** What is split: the accepted path after its prefix. */
  function PathBody(str: seq<Byte>): seq<Byte>
    requires PathValid(str)
  {
    str[3..PathLen(str)]
  }

  /** The parts between slashes, as the loop makes them from left to right. */
  function Split(t: seq<Byte>): (parts: seq<seq<Byte>>)
    ensures |parts| >= 1
  {
    if t == [] then [[]]
    else
      var parts, c, n := Split(t[..|t| - 1]), t[|t| - 1], |Split(t[..|t| - 1])| - 1;
      if c == SLASH then parts + [[]] else parts[..n] + [parts[n] + [c]]
  }

  function Join(parts: seq<seq<Byte>>): seq<Byte>
    requires |parts| >= 1
  {
    if |parts| == 1 then parts[0]
    else Join(parts[..|parts| - 1]) + [SLASH] + parts[|parts| - 1]
  }

  predicate NoSlash(parts: seq<seq<Byte>>) {
    forall i :: 0 <= i < |parts| ==> SLASH !in parts[i]
  }

  /** A path is a digit, a colon and a slash, and what follows; of its first 108 bytes
      the parts are what lies between the slashes. */
  lemma PathExact(str: seq<Byte>)
    ensures PathValid(str) <==> |str| >= 3 && 0x30 <= str[0] <= 0x39 && str[1] == 0x3a && str[2] == 0x2f
    ensures PathValid(str) ==>
              var parts, cut := Split(PathBody(str)), if |str| < 108 then |str| else 108;
              && str[..3] + Join(parts) == str[..cut]
              && forall i, k :: 0 <= i < |parts| && 0 <= k < |parts[i]| ==> parts[i][k] != 0x2f
  {
    hide Join, Split;
    if PathValid(str) {
      SplitRoundTrip(PathBody(str));
      assert forall i, k :: 0 <= i < |Split(PathBody(str))| && 0 <= k < |Split(PathBody(str))[i]| ==>
          Split(PathBody(str))[i][k] in Split(PathBody(str))[i];
    }
  }

  lemma JoinTurn(parts: seq<seq<Byte>>)
    requires |parts| >= 1
    ensures
      var n := |parts| - 1;
      Join(parts) == if n == 0 then parts[0] else Join(parts[..n]) + [SLASH] + parts[n]
  {
  }

  lemma JoinLast(parts: seq<seq<Byte>>, c: Byte)
    requires |parts| >= 1
    ensures
      var n := |parts| - 1;
      Join(parts[..n] + [parts[n] + [c]]) == Join(parts) + [c]
  {
    hide Join;
    var n := |parts| - 1;
    var q := parts[..n] + [parts[n] + [c]];
    assert q[..n] == parts[..n] && q[n] == parts[n] + [c];
    JoinTurn(parts);
    JoinTurn(q);
  }

  /** One turn of the splitting loop. */
  lemma SplitAppend(s: seq<Byte>, c: Byte)
    ensures
      var parts, n := Split(s), |Split(s)| - 1;
      Split(s + [c]) == if c == SLASH then parts + [[]] else parts[..n] + [parts[n] + [c]]
  {
    assert (s + [c])[..|s|] == s;
  }

  /** Joining the parts with slashes gives the text back, and no part holds one. */
  lemma {:induction false} SplitRoundTrip(t: seq<Byte>)
    ensures Join(Split(t)) == t && NoSlash(Split(t))
    decreases |t|, 0
  {
    hide Join;
    JoinTurn([[]]);
    if t != [] {
      RoundTripStep(t[..|t| - 1], t[|t| - 1]);
      assert t == t[..|t| - 1] + [t[|t| - 1]];
    }
  }

  lemma {:induction false} RoundTripStep(s: seq<Byte>, c: Byte)
    ensures Join(Split(s + [c])) == s + [c] && NoSlash(Split(s + [c]))
    decreases |s|, 1
  {
    hide Split, Join;
    SplitRoundTrip(s);
    SplitAppend(s, c);
    var parts, q := Split(s), Split(s + [c]);
    JoinLast(parts, c);
    JoinTurn(q);
    assert c == SLASH ==> q[..|parts|] == parts;
  }

  /** The parts are the only slash-free pieces that join to the text. */
  lemma {:induction false} SplitUnique(parts: seq<seq<Byte>>)
    requires |parts| >= 1 && NoSlash(parts)
    ensures Split(Join(parts)) == parts
    decreases |parts|, |parts[|parts| - 1]|
  {
    hide Split, Join;
    var n := |parts| - 1;
    var last := parts[n];
    JoinTurn(parts);
    if last != [] {
      var q, c := parts[..n] + [last[..|last| - 1]], last[|last| - 1];
      assert q[n] + [c] == last && q[..n] == parts[..n];
      UniqueStep(parts, q, c);
    } else if n > 0 {
      var q := parts[..n];
      SplitUnique(q);
      SplitAppend(Join(q), SLASH);
      assert Join(q) + [SLASH] + [] == Join(q) + [SLASH];
      assert parts == q + [[]];
    } else {
      SplitNothing();
      assert parts == [[]];
    }
  }

  lemma SplitNothing()
    ensures Split([]) == [[]]
  {
  }

  lemma {:induction false} UniqueStep(parts: seq<seq<Byte>>, q: seq<seq<Byte>>, c: Byte)
    requires |q| == |parts| >= 1 && NoSlash(parts)
    requires parts == q[..|q| - 1] + [q[|q| - 1] + [c]]
    ensures Split(Join(parts)) == parts
    decreases |parts|, |parts[|parts| - 1]|, 0
  {
    hide Split, Join;
    assert c in parts[|parts| - 1];
    forall i | 0 <= i < |q| ensures SLASH !in q[i] {
      assert forall x :: x in q[i] ==> x in parts[i];
    }
    SplitUnique(q);
    JoinLast(q, c);
    SplitAppend(Join(q), c);
  }

  /** Part `i` stands in the text from its start to a slash or to the end. */
  predicate PlacedAt(t: seq<Byte>, parts: seq<seq<Byte>>, i: nat)
    requires i < |parts|
  {
    var at, end := Start(parts, i), Start(parts, i) + |parts[i]|;
    && end <= |t| && parts[i] == t[at..end]
    && (i + 1 < |parts| ==> end < |t| && t[end] == SLASH)
    && (i + 1 == |parts| ==> end == |t|)
  }

  lemma {:induction false} PartPlace(t: seq<Byte>, i: nat)
    requires i < |Split(t)|
    ensures PlacedAt(t, Split(t), i)
    decreases |t|, 0
  {
    if t != [] {
      assert t == t[..|t| - 1] + [t[|t| - 1]];
      PlaceStep(t[..|t| - 1], t[|t| - 1], t, i);
    }
  }

  lemma {:induction false} PlaceStep(s: seq<Byte>, c: Byte, t: seq<Byte>, i: nat)
    requires t == s + [c] && i < |Split(t)|
    ensures PlacedAt(t, Split(t), i)
    decreases |s|, 1
  {
    hide Split, PlacedAt;
    SplitAppend(s, c);
    var q := Split(s);
    var j := if i < |q| then i else |q| - 1;
    PartPlace(s, j);
    if c == SLASH {
      PlaceSlash(s, q, i);
    } else {
      PlaceLetter(s, q, c, i);
    }
  }

  /** A slash starts a part and ends the one before it. */
  lemma PlaceSlash(s: seq<Byte>, q: seq<seq<Byte>>, i: nat)
    requires |q| >= 1 && i <= |q| && PlacedAt(s, q, if i < |q| then i else |q| - 1)
    ensures PlacedAt(s + [SLASH], q + [[]], i)
  {
    var t, parts := s + [SLASH], q + [[]];
    var j := if i < |q| then i else |q| - 1;
    SameStart(parts, q, j);
    var at, end := Start(q, j), Start(q, j) + |q[j]|;
    assert t[at..end] == s[at..end];
    if i == |q| { assert Start(parts, i) == Start(parts, j) + |parts[j]| + 1; }
  }

  /** Any other byte lengthens the last part. */
  lemma PlaceLetter(s: seq<Byte>, q: seq<seq<Byte>>, c: Byte, i: nat)
    requires i < |q| && PlacedAt(s, q, i)
    ensures PlacedAt(s + [c], q[..|q| - 1] + [q[|q| - 1] + [c]], i)
  {
    hide Start;
    var t, parts := s + [c], q[..|q| - 1] + [q[|q| - 1] + [c]];
    SameStart(parts, q, i);
    var at, end := Start(q, i), Start(q, i) + |q[i]|;
    if i + 1 < |q| {
      assert t[at..end] == s[at..end];
    } else {
      assert t[at..end + 1] == s[at..end] + [c];
    }
  }

  /** Starts depend only on the parts before. */
  lemma {:induction false} SameStart(parts: seq<seq<Byte>>, q: seq<seq<Byte>>, i: nat)
    requires i <= |parts| && i <= |q| && forall j :: 0 <= j < i ==> parts[j] == q[j]
    ensures Start(parts, i) == Start(q, i)
  {
    if i > 0 { SameStart(parts, q, i - 1); }
  }

  /** The text with its slashes turned into NULs. */
  predicate Nulled(m: seq<Byte>, a: nat, t: seq<Byte>) {
    && a + |t| < |m| && m[a + |t|] == 0
    && forall k :: 0 <= k < |t| ==> m[a + k] == if t[k] == SLASH then 0 else t[k]
  }

  /** In memory the nulled text is the parts as consecutive strings. */
  lemma NulledStrings(m: seq<Byte>, a: nat, t: seq<Byte>)
    requires NoNul(t) && Nulled(m, a, t)
    ensures StringsAt(m, a, Split(t))
  {
    hide Split;
    SplitRoundTrip(t);
    var parts := Split(t);
    forall i: nat | i < |parts| ensures StringAt(m, a, parts, i) {
      PartPlace(t, i);
      var at := Start(parts, i);
      forall k | 0 <= k < |parts[i]| ensures parts[i][k] != 0 && m[a + at + k] == parts[i][k] {
        assert parts[i][k] == t[at + k] && parts[i][k] in parts[i];
        assert m[a + (at + k)] == if t[at + k] == SLASH then 0 else t[at + k];
      }
      assert m[a + (at + |parts[i]|)] == 0;
    }
  }

  /** The same, up to byte `i`. */
  predicate NulledTo(m: seq<Byte>, a: nat, t: seq<Byte>, i: nat) {
    && a + |t| < |m| && m[a + |t|] == 0
    && forall k :: 0 <= k < |t| ==> m[a + k] == if k < i && t[k] == SLASH then 0 else t[k]
  }

  lemma NulledKept(m: seq<Byte>, m': seq<Byte>, a: nat, t: seq<Byte>, i: nat, lo: nat, hi: nat)
    requires NulledTo(m, a, t, i) && SameOutside(m, m', lo, hi) && (a + |t| < lo || hi <= a)
    ensures NulledTo(m', a, t, i)
  {
    forall k | 0 <= k < |t| ensures m'[a + k] == if k < i && t[k] == SLASH then 0 else t[k] {
      assert m[a + k] == m'[a + k];
    }
  }

  lemma NulledStep(m: seq<Byte>, a: nat, t: seq<Byte>, i: nat)
    requires NulledTo(m, a, t, i) && i < |t|
    ensures m[a + i] == t[i]
    ensures NulledTo(if t[i] == SLASH then m[a + i := 0] else m, a, t, i + 1)
  {
  }

  lemma NulledEnds(m: seq<Byte>, a: nat, t: seq<Byte>)
    ensures NulledTo(m, a, t, |t|) <==> Nulled(m, a, t)
  {
  }

  lemma {:induction false} SplitGrows(t: seq<Byte>, i: nat)
    requires i <= |t|
    ensures |Split(t[..i])| <= |Split(t)|
    decreases |t|
  {
    if i == |t| {
      assert t[..i] == t;
    } else {
      var s := t[..|t| - 1];
      assert s[..i] == t[..i];
      SplitGrows(s, i);
    }
  }
}
