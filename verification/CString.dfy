/** NUL-terminated strings in memory. */
module CString {
  import opened Memory

  /** strlen */
  function StrLen(m: seq<Byte>, a: nat): nat
    requires a <= |m|
    decreases |m| - a
  {
    if a == |m| || m[a] == 0 then 0 else 1 + StrLen(m, a + 1)
  }

  predicate NoNul(str: seq<Byte>) { forall k :: 0 <= k < |str| ==> str[k] != 0 }

  /** A NUL-terminated string at `a`. */
  predicate HasString(m: seq<Byte>, a: nat, str: seq<Byte>) {
    && a + |str| < |m| && m[a + |str|] == 0
    && (forall k :: 0 <= k < |str| ==> m[a + k] == str[k])
  }

  /** Where string `i` of a block of consecutive strings starts. */
  function Start(strings: seq<seq<Byte>>, i: nat): nat
    requires i <= |strings|
  {
    if i == 0 then 0 else Start(strings, i - 1) + |strings[i - 1]| + 1
  }

  /** The strings stand one after the other from `a`. */
  predicate StringsAt(m: seq<Byte>, a: nat, strings: seq<seq<Byte>>) {
    forall i: nat :: i < |strings| ==> StringAt(m, a, strings, i)
  }

  predicate StringAt(m: seq<Byte>, a: nat, strings: seq<seq<Byte>>, i: nat)
    requires i < |strings|
  {
    NoNul(strings[i]) && HasString(m, a + Start(strings, i), strings[i])
  }

  lemma {:induction false} StrLenMeaning(m: seq<Byte>, a: nat, str: seq<Byte>)
    requires NoNul(str) && HasString(m, a, str)
    ensures StrLen(m, a) == |str|
    decreases |str|
  {
    if str != [] {
      assert m[a + 0] == str[0];
      var rest := str[1..];
      forall k | 0 <= k < |rest| ensures m[a + 1 + k] == rest[k] {
        assert m[a + (k + 1)] == str[k + 1];
      }
      StrLenMeaning(m, a + 1, rest);
    }
  }

  lemma StringKept(m: seq<Byte>, m': seq<Byte>, lo: nat, hi: nat, a: nat, str: seq<Byte>)
    requires HasString(m, a, str) && SameOutside(m, m', lo, hi) && hi <= a
    ensures HasString(m', a, str)
  {
    forall k | 0 <= k < |str| ensures m'[a + k] == str[k] {
      assert m[a + k] == str[k];
    }
  }

  lemma StringsKept(m: seq<Byte>, m': seq<Byte>, lo: nat, hi: nat, a: nat, strings: seq<seq<Byte>>)
    requires StringsAt(m, a, strings) && SameOutside(m, m', lo, hi) && hi <= a
    ensures StringsAt(m', a, strings)
  {
    forall i: nat | i < |strings| ensures StringAt(m', a, strings, i) {
      assert StringAt(m, a, strings, i);
      StringKept(m, m', lo, hi, a + Start(strings, i), strings[i]);
    }
  }

  method Strlen(mem: array<Byte>, a: nat) returns (n: nat)
    requires a <= mem.Length
    ensures n == StrLen(mem[..], a)
  {
    n := 0;
    while a + n < mem.Length && mem[a + n] != 0
      invariant a + n <= mem.Length && StrLen(mem[..], a) == n + StrLen(mem[..], a + n)
    {
      n := n + 1;
    }
  }
}
