/** itoa and atoi of programs/stdlib/src/stdlib.c, on 32-bit integers. */
module Numbers {
  import opened Memory

  const INT_MIN: int := -0x8000_0000
  const INT_MAX: int := 0x7fff_ffff
  const MAX_DIGITS: nat := 13
  const MINUS: Byte := 0x2d
  const ZERO: Byte := 0x30

  type Int = x: int | INT_MIN <= x <= INT_MAX

  /** The value a 32-bit register keeps. */
  function Wrap(x: int): Int {
    (x - INT_MIN) % 0x1_0000_0000 + INT_MIN
  }

  /** A char is signed. */
  function Char(b: Byte): int { if b < 0x80 then b else b - 0x100 }

  // -------------------------------------------------------------------- text

  /** The decimal digits of a number; none for zero. */
  function Digits(n: nat): (s: seq<Byte>)
    ensures n > 0 ==> |s| > 0
    ensures forall k :: 0 <= k < |s| ==> ZERO <= s[k] <= ZERO + 9
  {
    if n == 0 then [] else Digits(n / 10) + [ZERO + n % 10]
  }

  /** The text itoa writes.  Negating INT_MIN gives INT_MIN again, whose digit
      loop does not run. */
  function Text(x: Int): seq<Byte> {
    var sign := if x < 0 then [MINUS] else [];
    var v := if x < 0 then Wrap(0 - x) else x;
    sign + if v > 0 then Digits(v) else [ZERO]
  }

  /** What the digit loop of atoi computes, each step in 32 bits. */
  function Fold(s: seq<Byte>): Int {
    if s == [] then 0
    else Wrap(Wrap(Fold(s[..|s| - 1]) * 10) + Char(s[|s| - 1]) - ZERO)
  }

  /** atoi of a string. */
  function Parse(s: seq<Byte>): Int {
    var neg := |s| > 0 && s[0] == MINUS;
    var body := if neg then s[1..] else s;
    var n := Fold(if |body| > MAX_DIGITS then body[..MAX_DIGITS] else body);
    if neg then Wrap(0 - n) else n
  }

  // -------------------------------------------------------------- round trip

  /** No step on the digits of a 32-bit number overflows. */
  ghost predicate Overflows(s: seq<Byte>) {
    exists k :: 0 <= k < |s| && StepOverflows(s, k)
  }

  predicate StepOverflows(s: seq<Byte>, k: nat)
    requires k < |s|
  {
    var n := Fold(s[..k]);
    !(INT_MIN <= n * 10 <= INT_MAX && INT_MIN <= n * 10 + Char(s[k]) - ZERO <= INT_MAX)
  }

  lemma WrapNothing(x: int)
    requires INT_MIN <= x <= INT_MAX
    ensures Wrap(x) == x
  {
  }

  lemma FoldAppend(s: seq<Byte>, c: Byte)
    ensures Fold(s + [c]) == Wrap(Wrap(Fold(s) * 10) + Char(c) - ZERO)
  {
    assert (s + [c])[..|s|] == s;
  }

  lemma {:induction false} FoldDigits(n: nat)
    requires n <= INT_MAX
    ensures Fold(Digits(n)) == n && !Overflows(Digits(n))
  {
    hide Fold, Overflows;
    if n > 0 {
      FoldDigits(n / 10);
      FoldAppend(Digits(n / 10), ZERO + n % 10);
      WrapNothing(n / 10 * 10);
      WrapNothing(n);
      OverflowAppend(Digits(n / 10), ZERO + n % 10);
    } else {
      NoDigits();
    }
  }

  lemma NoDigits()
    ensures Fold([]) == 0 && !Overflows([]) && Digits(0) == [] == Reverse([])
  {
  }

  lemma OverflowAppend(s: seq<Byte>, c: Byte)
    requires !Overflows(s)
    requires INT_MIN <= Fold(s) * 10 <= INT_MAX && INT_MIN <= Fold(s) * 10 + Char(c) - ZERO <= INT_MAX
    ensures !Overflows(s + [c])
  {
    hide Fold;
    var s' := s + [c];
    forall k | 0 <= k < |s'| ensures !StepOverflows(s', k) {
      assert s'[..k] == s[..k];
      assert k < |s| ==> !StepOverflows(s, k);
      assert s[..|s|] == s;
    }
  }

  function Pow10(k: nat): nat { if k == 0 then 1 else 10 * Pow10(k - 1) }

  lemma {:induction false} DigitCount(n: nat, k: nat)
    requires n < Pow10(k)
    ensures |Digits(n)| <= k
    decreases k
  {
    if n > 0 { DigitCount(n / 10, k - 1); }
  }

  /** The text with its NUL takes at most 12 bytes. */
  lemma TextFits(x: Int)
    ensures 1 <= |Text(x)| <= 11
  {
    assert Pow10(5) == 100000;
    assert Pow10(10) == 10 * (10 * (10 * (10 * (10 * Pow10(5)))));
    var v := if x < 0 then Wrap(0 - x) else x;
    if v > 0 { DigitCount(v, 10); }
  }

  /** Reading back the text of a number gives the number, for every number but
      INT_MIN, whose text reads as zero. */
  lemma NumberRoundTrip(x: Int)
    ensures Parse(Text(x)) == x <==> x != INT_MIN
    ensures x == INT_MIN ==> Text(x) == [MINUS, ZERO] && Parse(Text(x)) == 0
  {
    hide Digits;
    TextFits(x);
    FoldZero();
    var s := Text(x);
    if x < 0 {
      var v := Wrap(0 - x);
      assert s[1..] == if v > 0 then Digits(v) else [ZERO];
      if x != INT_MIN {
        WrapNothing(0 - x);
        FoldDigits(0 - x);
        WrapNothing(x);
      }
    } else if x > 0 {
      FoldDigits(x);
      assert s == Digits(x) && ZERO <= s[0];
    } else {
      assert s == [ZERO];
    }
  }

  lemma FoldZero()
    ensures Fold([ZERO]) == 0
  {
    assert [ZERO][..0] == [];
  }

  // ------------------------------------------------------------ in decimal

  /** The number that the characters stand for in base ten, each as its distance
      from '0', with no bound. */
  function Decimal(s: seq<Byte>): int {
    if s == [] then 0 else (Char(s[0]) - 48) * Pow10(|s| - 1) + Decimal(s[1..])
  }

  lemma {:induction false} DecimalAppend(s: seq<Byte>, c: Byte)
    ensures Decimal(s + [c]) == 10 * Decimal(s) + (Char(c) - 48)
    decreases |s|
  {
    hide Decimal, Pow10;
    var t := s + [c];
    DecimalTurn(s);
    DecimalTurn(t);
    DecimalTurn(t[1..]);
    if s != [] {
      DecimalAppend(s[1..], c);
      assert t[1..] == s[1..] + [c];
      Shift(Char(s[0]) - 48, Pow10(|s| - 1));
    }
  }

  lemma DecimalTurn(s: seq<Byte>)
    ensures Decimal(s) == if s == [] then 0 else (Char(s[0]) - 48) * Pow10(|s| - 1) + Decimal(s[1..])
    ensures Pow10(|s|) == if s == [] then 1 else 10 * Pow10(|s| - 1)
  {
  }

  lemma Shift(a: int, p: int)
    ensures a * (10 * p) == 10 * (a * p)
  {
  }

  lemma WrapOnce(x: int, d: int)
    ensures Wrap(Wrap(Wrap(x) * 10) + d) == Wrap(10 * x + d)
  {
    var k := (x - INT_MIN) / 0x1_0000_0000;
    assert Wrap(x) == x - k * 0x1_0000_0000;
    WrapShifted(10 * x, k * 10);
    var j := (10 * x - INT_MIN) / 0x1_0000_0000;
    assert Wrap(10 * x) == 10 * x - j * 0x1_0000_0000;
    WrapShifted(10 * x + d, j);
  }

  lemma WrapShifted(x: int, k: int)
    ensures Wrap(x - k * 0x1_0000_0000) == Wrap(x)
  {
  }

  /** Whatever the characters, the loop of atoi computes their decimal number modulo
      2^32. */
  lemma {:induction false} FoldIsDecimal(s: seq<Byte>)
    ensures Fold(s) == Wrap(Decimal(s))
    decreases |s|
  {
    hide Wrap, Decimal, Fold;
    if s != [] {
      var s', c := s[..|s| - 1], s[|s| - 1];
      assert s == s' + [c];
      FoldIsDecimal(s');
      FoldAppend(s', c);
      DecimalAppend(s', c);
      WrapOnce(Decimal(s'), Char(c) - 48);
    } else {
      DecimalNothing();
    }
  }

  lemma DecimalNothing()
    ensures Decimal([]) == 0 && Fold([]) == 0 && Wrap(0) == 0
  {
  }

  /** atoi of any string: the decimal number of the first 13 characters after a minus
      sign, if there is one, modulo 2^32. */
  lemma ParseExact(s: seq<Byte>)
    ensures
      var neg := |s| > 0 && s[0] == 0x2d;
      var body := if neg then s[1..] else s;
      var n := Decimal(if |body| > 13 then body[..13] else body);
      (Parse(s) - if neg then -n else n) % 0x1_0000_0000 == 0
  {
    hide Decimal, Fold, Wrap;
    var body := if |s| > 0 && s[0] == MINUS then s[1..] else s;
    var cut := if |body| > 13 then body[..13] else body;
    FoldIsDecimal(cut);
    WrapModulo(Decimal(cut));
  }

  lemma WrapModulo(x: int)
    ensures (Wrap(x) - x) % 0x1_0000_0000 == 0 && (Wrap(0 - Wrap(x)) + x) % 0x1_0000_0000 == 0
  {
  }

  lemma {:induction false} DigitsDecimal(n: nat)
    ensures Decimal(Digits(n)) == n
    ensures n > 0 ==> Digits(n)[0] != 0x30
  {
    hide Decimal;
    DecimalNothing();
    if n > 0 {
      DigitsDecimal(n / 10);
      DecimalAppend(Digits(n / 10), ZERO + n % 10);
    }
  }

  /** The text of a number: a minus sign if it is negative, and its decimal digits,
      with no leading zero. */
  lemma TextExact(x: Int)
    requires x != INT_MIN
    ensures
      var digits := if x < 0 then Text(x)[1..] else Text(x);
      && Text(x) == (if x < 0 then [0x2d] else []) + digits
      && Decimal(digits) == (if x < 0 then -x else x)
      && |digits| >= 1 && (digits[0] == 0x30 ==> x == 0 && digits == [0x30])
      && forall k :: 0 <= k < |digits| ==> 0x30 <= digits[k] <= 0x39
  {
    hide Digits, Decimal;
    var v := if x < 0 then -x else x;
    DigitsDecimal(v);
    DecimalAppend([], ZERO);
    DecimalNothing();
    assert [] + [ZERO] == [ZERO];
    WrapNothing(v);
    var digits := if x < 0 then Text(x)[1..] else Text(x);
    assert digits == if v > 0 then Digits(v) else [ZERO];
  }

  // -------------------------------------------------------------- the loops

  function Reverse(s: seq<Byte>): (r: seq<Byte>)
    ensures |r| == |s|
  {
    if s == [] then [] else [s[|s| - 1]] + Reverse(s[..|s| - 1])
  }

  lemma {:induction false} ReverseAt(s: seq<Byte>, k: nat)
    requires k < |s|
    ensures Reverse(s)[k] == s[|s| - 1 - k]
    decreases |s|
  {
    if k > 0 { ReverseAt(s[..|s| - 1], k - 1); }
  }

  /** The first loop of itoa. */
  method CountDigits(value: Int) returns (n: nat)
    ensures value > 0 ==> n == |Digits(value)|
    ensures value <= 0 ==> n == 0
  {
    var cx := value;
    n := 0;
    while cx > 0
      invariant value > 0 ==> 0 <= cx && |Digits(value)| == n + |Digits(cx)|
      invariant value <= 0 ==> n == 0 && cx == value
    {
      n := n + 1;
      cx := cx / 10;
    }
  }

  lemma Peel(v: nat, s: seq<Byte>)
    ensures v > 0 ==> |Digits(v)| == |Digits(v / 10)| + 1
    ensures v > 0 ==> Digits(v) + Reverse(s) == Digits(v / 10) + Reverse(s + [ZERO + v % 10])
  {
    hide Digits;
    DigitsTurn(v);
    var c := ZERO + v % 10;
    assert (s + [c])[..|s|] == s;
    assert Reverse(s + [c]) == [c] + Reverse(s);
    assert Digits(v / 10) + [c] + Reverse(s) == Digits(v / 10) + ([c] + Reverse(s));
  }

  lemma DigitsTurn(v: nat)
    ensures v > 0 ==> Digits(v) == Digits(v / 10) + [ZERO + v % 10]
  {
  }

  /** The second loop: the digits of `value`, last one first. */
  method PeelDigits(value: Int, n: nat) returns (buf: array<Byte>)
    requires value > 0 && n == |Digits(value)| <= MAX_DIGITS
    ensures fresh(buf) && buf.Length == MAX_DIGITS && Reverse(buf[..n]) == Digits(value)
  {
    hide Digits, Reverse;
    buf := new Byte[MAX_DIGITS](_ => 0);
    var v: int := value;
    NoDigits();
    for i := 0 to n
      invariant 0 <= v && n == i + |Digits(v)|
      invariant Digits(value) == Digits(v) + Reverse(buf[..i])
    {
      NoDigits();
      Peel(v, buf[..i]);
      buf[i] := ZERO + v % 10;
      assert buf[..i + 1] == buf[..i] + [ZERO + v % 10];
      v := v / 10;
    }
  }

  /** The third loop: the digits in order. */
  method PutReversed(buffer: array<Byte>, at: nat, digits: array<Byte>, n: nat)
    requires at + n <= buffer.Length && n <= digits.Length && digits != buffer
    modifies buffer
    ensures buffer[..] == Blit(old(buffer[..]), at, Reverse(digits[..n]))
  {
    hide Blit, Reverse;
    var i, idx := n - 1, at;
    ghost var text := Reverse(digits[..n]);
    BlitNothing(buffer[..], at);
    assert text[..0] == [];
    while i >= 0
      invariant -1 <= i < n && idx == at + n - 1 - i
      invariant buffer[..] == Blit(old(buffer[..]), at, text[..n - 1 - i])
    {
      ReverseAt(digits[..n], n - 1 - i);
      BlitByte(buffer[..], idx, digits[i]);
      BlitTwice(old(buffer[..]), at, text[..n - 1 - i], [digits[i]]);
      assert text[..n - i] == text[..n - 1 - i] + [digits[i]];
      buffer[idx] := digits[i];
      idx := idx + 1;
      i := i - 1;
    }
    assert text[..n] == text;
  }

  /** itoa: the text of the number and a NUL. */
  method Itoa(value: Int, buffer: array<Byte>)
    requires |Text(value)| < buffer.Length
    modifies buffer
    ensures buffer[..] == Blit(old(buffer[..]), 0, Text(value) + [0])
  {
    hide Blit, Digits, Reverse;
    TextFits(value);
    ghost var m, sign := buffer[..], [];
    var idx := 0;
    var v: int := value;
    BlitNothing(m, 0);
    if v < 0 {
      sign := [MINUS];
      BlitByte(m, 0, MINUS);
      buffer[idx] := MINUS;
      idx := idx + 1;
      v := Wrap(0 - v);
    }
    var n := CountDigits(v);
    if n == 0 {
      buffer[idx] := ZERO;
      idx := idx + 1;
      buffer[idx] := 0;
      Signed(m, sign, [ZERO]);
      return;
    }
    var digits := PeelDigits(v, n);
    PutReversed(buffer, idx, digits, n);
    buffer[idx + n] := 0;
    Signed(m, sign, Digits(v));
  }

  /** A sign, digits and a NUL written one after the other. */
  lemma Signed(m: seq<Byte>, sign: seq<Byte>, digits: seq<Byte>)
    requires |sign| + |digits| < |m|
    ensures Blit(Blit(m, 0, sign), |sign|, digits)[|sign| + |digits| := 0] == Blit(m, 0, sign + digits + [0])
    ensures |digits| == 1 ==>
              Blit(Blit(m, 0, sign), |sign|, digits) == Blit(m, 0, sign)[|sign| := digits[0]]
  {
    hide Blit;
    BlitTwice(m, 0, sign, digits);
    BlitTwice(m, 0, sign + digits, [0]);
    BlitByte(Blit(m, 0, sign + digits), |sign + digits|, 0);
    if |digits| == 1 {
      BlitByte(Blit(m, 0, sign), |sign|, digits[0]);
      assert digits == [digits[0]];
    }
  }

  /** The digit loop of atoi on the string `body` at `at`. */
  method ReadDigits(buffer: array<Byte>, at: nat, ghost body: seq<Byte>) returns (res: Int)
    requires at + |body| < buffer.Length && body == buffer[at..at + |body|] && buffer[at + |body|] == 0
    requires forall k :: 0 <= k < |body| ==> body[k] != 0
    ensures res == Fold(if |body| > MAX_DIGITS then body[..MAX_DIGITS] else body)
  {
    hide Fold, Wrap;
    NoDigits();
    res := 0;
    var idx := 0;
    assert body[..0] == [];
    while buffer[at + idx] != 0 && idx < MAX_DIGITS
      invariant 0 <= idx <= |body| && idx <= MAX_DIGITS && res == Fold(body[..idx])
      decreases |body| - idx
    {
      assert body[..idx + 1] == body[..idx] + [body[idx]];
      FoldAppend(body[..idx], body[idx]);
      var tens := Wrap(res * 10);
      res := Wrap(tens + Char(buffer[at + idx]) - ZERO);
      idx := idx + 1;
    }
    assert body[..|body|] == body;
  }

  /** atoi of the string `s` that starts the buffer. */
  method Atoi(buffer: array<Byte>, ghost s: seq<Byte>) returns (r: Int)
    requires |s| < buffer.Length && s == buffer[..|s|] && buffer[|s|] == 0
    requires forall k :: 0 <= k < |s| ==> s[k] != 0
    ensures r == Parse(s)
  {
    hide Fold;
    var sign, at := 1, 0;
    if buffer[0] == MINUS {
      sign := -1;
      at := 1;
    }
    var res: int := ReadDigits(buffer, at, s[at..]);
    assert s[0..] == s;
    WrapNothing(res);
    r := Wrap(res * sign);
  }
}
