/** The tokeniser of programs/stdlib/src/stdlib.c, in place on a buffer. */
module Strtok {
  import opened Memory
  import opened CString

  // ------------------------------------------------------------------ pieces

  datatype Piece = Piece(start: nat, end: nat)

  /** The first position from `i` that is not a delimiter. */
  function Skip(t: seq<Byte>, d: seq<Byte>, i: nat): (r: nat)
    requires i <= |t|
    ensures i <= r <= |t| && (r < |t| ==> t[r] !in d)
    ensures forall k :: i <= k < r ==> t[k] in d
    decreases |t| - i
  {
    if i < |t| && t[i] in d then Skip(t, d, i + 1) else i
  }

  /** The first position from `i` that is a delimiter or the end. */
  function TokenEnd(t: seq<Byte>, d: seq<Byte>, i: nat): (r: nat)
    requires i <= |t|
    ensures i <= r <= |t| && (r < |t| ==> t[r] in d)
    ensures forall k :: i <= k < r ==> t[k] !in d
    decreases |t| - i
  {
    if i < |t| && t[i] !in d then TokenEnd(t, d, i + 1) else i
  }

  /** Where the search goes on after a token that ends at `e`. */
  function After(t: seq<Byte>, e: nat): nat { if e < |t| then e + 1 else e }

  /** The pieces that calls of strtok from position `i` find. */
  function Pieces(t: seq<Byte>, d: seq<Byte>, i: nat): seq<Piece>
    requires i <= |t|
    decreases |t| - i
  {
    var s := Skip(t, d, i);
    if s == |t| then []
    else
      var e := TokenEnd(t, d, s);
      [Piece(s, e)] + Pieces(t, d, After(t, e))
  }

  /** A non-empty stretch without delimiters that cannot be made longer. */
  predicate Maximal(t: seq<Byte>, d: seq<Byte>, p: Piece) {
    && p.start < p.end <= |t|
    && (forall k :: p.start <= k < p.end ==> t[k] !in d)
    && (p.start == 0 || t[p.start - 1] in d)
    && (p.end == |t| || t[p.end] in d)
  }

  /** The pieces are exactly the maximal stretches. */
  lemma {:induction false} PiecesExact(t: seq<Byte>, d: seq<Byte>, i: nat, p: Piece)
    requires i <= |t| && (i == 0 || i == |t| || t[i - 1] in d)
    ensures p in Pieces(t, d, i) <==> Maximal(t, d, p) && i <= p.start
    decreases |t| - i
  {
    var s := Skip(t, d, i);
    if s < |t| {
      var e := TokenEnd(t, d, s);
      var rest := Pieces(t, d, After(t, e));
      PiecesExact(t, d, After(t, e), p);
      assert Maximal(t, d, Piece(s, e));
      assert p in Pieces(t, d, i) <==> p == Piece(s, e) || p in rest;
      if Maximal(t, d, p) && i <= p.start < After(t, e) {
        MaximalFrom(t, d, i, p);
      }
    } else {
      assert i <= p.start < |t| ==> t[p.start] in d;
    }
  }

  /** A maximal stretch that starts before the first piece is over is that piece. */
  lemma MaximalFrom(t: seq<Byte>, d: seq<Byte>, i: nat, p: Piece)
    requires i <= |t| && Skip(t, d, i) < |t| && Maximal(t, d, p)
    requires i <= p.start < After(t, TokenEnd(t, d, Skip(t, d, i)))
    ensures p == Piece(Skip(t, d, i), TokenEnd(t, d, Skip(t, d, i)))
  {
    var s := Skip(t, d, i);
    var e := TokenEnd(t, d, s);
    assert t[p.start] !in d;
  }

  /** They come in order, with a delimiter in between. */
  lemma {:induction false} PiecesOrdered(t: seq<Byte>, d: seq<Byte>, i: nat, j: nat, k: nat)
    requires i <= |t| && (i == 0 || i == |t| || t[i - 1] in d) && j < k < |Pieces(t, d, i)|
    ensures Pieces(t, d, i)[j].end < Pieces(t, d, i)[k].start
    decreases |t| - i
  {
    var e := TokenEnd(t, d, Skip(t, d, i));
    var rest := Pieces(t, d, After(t, e));
    if j > 0 {
      PiecesOrdered(t, d, After(t, e), j - 1, k - 1);
    } else {
      PiecesExact(t, d, After(t, e), rest[k - 1]);
    }
  }

  // ----------------------------------------------------------- the cut buffer

  /** The buffer after the tokens `ps` of the string at `a` have been returned. */
  function Cut(m: seq<Byte>, a: nat, ps: seq<Piece>): (r: seq<Byte>)
    ensures |r| == |m|
  {
    if ps == [] then m
    else
      var r, x := Cut(m, a, ps[..|ps| - 1]), a + ps[|ps| - 1].end;
      if x < |m| then r[x := 0] else r
  }

  /** Only the bytes that end a token change, and they become NUL. */
  lemma {:induction false} CutBytes(m: seq<Byte>, a: nat, ps: seq<Piece>, x: nat)
    requires x < |m|
    ensures Cut(m, a, ps)[x] == if exists p :: p in ps && x == a + p.end then 0 else m[x]
    decreases |ps|
  {
    if ps != [] {
      var front, last := ps[..|ps| - 1], ps[|ps| - 1];
      assert forall p :: p in ps <==> p in front || p == last;
      CutBytes(m, a, front, x);
    }
  }

  lemma PieceInside(t: seq<Byte>, d: seq<Byte>, p: Piece)
    requires p in Pieces(t, d, 0)
    ensures Maximal(t, d, p)
  {
    PiecesExact(t, d, 0, p);
  }

  /** Once the string is cut, each token is a string of its own, and the only
      bytes that changed are delimiters. */
  lemma TokensInPlace(m: seq<Byte>, a: nat, t: seq<Byte>, d: seq<Byte>, p: Piece)
    requires NoNul(t) && HasString(m, a, t) && p in Pieces(t, d, 0)
    ensures p.start < p.end <= |t| && HasString(Cut(m, a, Pieces(t, d, 0)), a + p.start, t[p.start..p.end])
  {
    hide Pieces, Cut;
    var ps := Pieces(t, d, 0);
    forall q | q in ps ensures Maximal(t, d, q) {
      PieceInside(t, d, q);
    }
    var r := Cut(m, a, ps);
    forall k | 0 <= k < p.end - p.start ensures r[a + p.start + k] == t[p.start..p.end][k] {
      var x := a + p.start + k;
      CutBytes(m, a, ps, x);
      assert t[p.start + k] !in d;
      assert m[a + (p.start + k)] == t[p.start + k];
    }
    CutBytes(m, a, ps, a + p.end);
  }

  // ------------------------------------------------------------------ strtok

  /** The null pointer. */
  const NULL: int := -1

  class Tokenizer {
    var sp: int

    constructor ()
      ensures sp == NULL
    {
      sp := NULL;
    }

    /** The inner loop of strtok: the index of a delimiter, or their number. */
    static method Match(d: seq<Byte>, c: Byte) returns (i: nat)
      ensures i <= |d| && (i < |d| <==> c in d)
    {
      i := 0;
      while i < |d|
        invariant i <= |d| && c !in d[..i]
      {
        if c == d[i] { return; }
        i := i + 1;
      }
      assert d[..i] == d;
    }

    /** One call of strtok.  The saved pointer, or `str` when none is saved,
        stands at position `i` of a string `t` that starts at `a`. */
    method Next(buf: array<Byte>, str: int, d: seq<Byte>, ghost a: nat, ghost t: seq<Byte>, ghost i: nat)
      returns (token: int)
      requires NULL <= str && NULL <= sp && NoNul(d) && NoNul(t) && i <= |t|
      requires sp != NULL || str != NULL ==>
                 (if sp != NULL then sp else str) == a + i && Tail(buf[..], a, t, i)
      modifies this, buf
      ensures
        var s := Skip(t, d, i);
        if (str == NULL && old(sp) == NULL) || s == |t| then token == NULL && sp == NULL && buf[..] == old(buf[..])
        else
          var e := TokenEnd(t, d, s);
          && token == a + s && sp == a + After(t, e)
          && a + e < buf.Length && buf[..] == old(buf[..])[a + e := 0]
    {
      if str == NULL && sp == NULL {
        return NULL;
      }
      if str != NULL && sp == NULL {
        sp := str;
      }
      var start := sp;
      ghost var k := i;
      while true
        invariant start == a + k && i <= k <= |t| && Skip(t, d, k) == Skip(t, d, i)
        invariant sp == a + i && buf[..] == old(buf[..])
        decreases |t| - k
      {
        ByteOf(buf[..], a, t, i, k);
        var j := Match(d, buf[start]);
        if j == |d| {
          sp := start;
          break;
        }
        start := start + 1;
        k := k + 1;
      }
      if buf[sp] == 0 {
        sp := NULL;
        return NULL;
      }
      FindEnd(buf, d, a, t, k);
      token := start;
    }

    /** The second loop of strtok: from `sp` to the end of the token. */
    method FindEnd(buf: array<Byte>, d: seq<Byte>, ghost a: nat, ghost t: seq<Byte>, ghost s: nat)
      requires NoNul(d) && NoNul(t) && Tail(buf[..], a, t, s) && s < |t| && sp == a + s
      modifies this, buf
      ensures
        var e := TokenEnd(t, d, s);
        sp == a + After(t, e) && a + e < buf.Length && buf[..] == old(buf[..])[a + e := 0]
    {
      ghost var k := s;
      ByteOf(buf[..], a, t, s, k);
      while buf[sp] != 0
        invariant s <= k <= |t| && sp == a + k && TokenEnd(t, d, k) == TokenEnd(t, d, s)
        invariant buf[..] == old(buf[..])
        decreases |t| - k
      {
        ByteOf(buf[..], a, t, s, k);
        var i := Match(d, buf[sp]);
        if i < |d| {
          buf[sp] := 0;
        }
        sp := sp + 1;
        if i < |d| { return; }
        k := k + 1;
        ByteOf(buf[..], a, t, s, k);
      }
      ByteOf(buf[..], a, t, s, k);
    }

    /** Calls until strtok returns null: the tokens are the pieces, in order,
        the saved pointer is null again, and the buffer is cut after each. */
    method All(buf: array<Byte>, str: nat, d: seq<Byte>, ghost t: seq<Byte>) returns (tokens: seq<int>)
      requires sp == NULL && NoNul(d) && NoNul(t) && HasString(buf[..], str, t)
      modifies this, buf
      ensures sp == NULL && |tokens| == |Pieces(t, d, 0)|
      ensures forall k :: 0 <= k < |tokens| ==> tokens[k] == str + Pieces(t, d, 0)[k].start
      ensures buf[..] == Cut(old(buf[..]), str, Pieces(t, d, 0))
    {
      hide Pieces, Cut, HasString, Tail, Skip, TokenEnd;
      ghost var m, ps, done := buf[..], Pieces(t, d, 0), [];
      ghost var i: nat := 0;
      WholeString(m, str, t);
      assert [] + ps == ps;
      tokens := [];
      var arg: int := str;
      while true
        invariant i <= |t| && ps == done + Pieces(t, d, i) && |tokens| == |done|
        invariant forall k :: 0 <= k < |tokens| ==> tokens[k] == str + done[k].start
        invariant buf[..] == Cut(m, str, done) && Tail(buf[..], str, t, i)
        invariant (arg == str && sp == NULL && i == 0) || (arg == NULL && sp == str + i)
        decreases |ps| - |tokens|
      {
        Turn(m, str, t, d, done, i, buf[..]);
        var p := Next(buf, arg, d, str, t, i);
        if p == NULL {
          assert done + [] == done;
          return;
        }
        ghost var e := TokenEnd(t, d, Skip(t, d, i));
        ghost var piece := Piece(Skip(t, d, i), e);
        i := After(t, e);
        assert done + ([piece] + Pieces(t, d, i)) == (done + [piece]) + Pieces(t, d, i);
        done := done + [piece];
        tokens := tokens + [p];
        arg := NULL;
      }
    }
  }

  lemma WholeString(m: seq<Byte>, a: nat, t: seq<Byte>)
    requires HasString(m, a, t)
    ensures Tail(m, a, t, 0) && Cut(m, a, []) == m
  {
  }

  /** From position `i`, with the pieces `done` cut: there is no other piece, or
      cutting it leaves the string after it as it was. */
  lemma Turn(m: seq<Byte>, a: nat, t: seq<Byte>, d: seq<Byte>, done: seq<Piece>, i: nat, now: seq<Byte>)
    requires i <= |t| && now == Cut(m, a, done) && Tail(now, a, t, i)
    ensures Skip(t, d, i) == |t| ==> Pieces(t, d, i) == []
    ensures Skip(t, d, i) < |t| ==>
      var s := Skip(t, d, i);
      var e := TokenEnd(t, d, s);
      && Pieces(t, d, i) == [Piece(s, e)] + Pieces(t, d, After(t, e))
      && a + e < |now| && now[a + e := 0] == Cut(m, a, done + [Piece(s, e)])
      && Tail(now[a + e := 0], a, t, After(t, e))
  {
    hide Cut, Tail, Pieces;
    PiecesTurn(t, d, i);
    TailInside(now, a, t, i);
    if Skip(t, d, i) < |t| {
      var s := Skip(t, d, i);
      var e := TokenEnd(t, d, s);
      CutAppend(m, a, done, Piece(s, e));
      TailAfter(now, a, t, i, e);
    }
  }

  lemma TailInside(m: seq<Byte>, a: nat, t: seq<Byte>, i: nat)
    requires Tail(m, a, t, i)
    ensures a + |t| < |m|
  {
  }

  lemma PiecesTurn(t: seq<Byte>, d: seq<Byte>, i: nat)
    requires i <= |t|
    ensures Skip(t, d, i) == |t| ==> Pieces(t, d, i) == []
    ensures Skip(t, d, i) < |t| ==>
      var s := Skip(t, d, i);
      var e := TokenEnd(t, d, s);
      s <= e <= |t| && Pieces(t, d, i) == [Piece(s, e)] + Pieces(t, d, After(t, e))
  {
  }

  lemma CutAppend(m: seq<Byte>, a: nat, done: seq<Piece>, p: Piece)
    requires a + p.end < |m|
    ensures Cut(m, a, done + [p]) == Cut(m, a, done)[a + p.end := 0]
  {
    assert (done + [p])[..|done|] == done;
  }

  lemma TailAfter(m: seq<Byte>, a: nat, t: seq<Byte>, i: nat, e: nat)
    requires Tail(m, a, t, i) && i <= e <= |t|
    ensures Tail(m[a + e := 0], a, t, After(t, e))
  {
  }

  /** The bytes of the string from position `i` on. */
  predicate Tail(m: seq<Byte>, a: nat, t: seq<Byte>, i: nat) {
    a + |t| < |m| && m[a + |t|] == 0 && forall k :: i <= k < |t| ==> m[a + k] == t[k]
  }

  lemma ByteOf(m: seq<Byte>, a: nat, t: seq<Byte>, i: nat, k: nat)
    requires Tail(m, a, t, i) && NoNul(t) && i <= k <= |t|
    ensures a + k < |m| && m[a + k] == if k < |t| then t[k] else 0
    ensures m[a + k] == 0 <==> k == |t|
  {
  }
}
