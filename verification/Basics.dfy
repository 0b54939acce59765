/** What several modules share: optional values, machine constants, digits, finite sets. */
module Basics {

  datatype Option<T> = None | Some(value: T)

  const TWO32: int := 0x1_0000_0000
  const TWO64: int := 0x1_0000_0000_0000_0000
  const NUL: char := '\0'

  predicate IsXDigit(c: char) {
    '0' <= c <= '9' || 'A' <= c <= 'F' || 'a' <= c <= 'f'
  }

  /** `ch < 'A' ? ch - '0' : (ch & 0xF) + 9` on hexadecimal digits. */
  function DigitValue(c: char): (d: nat)
    requires IsXDigit(c)
    ensures d < 16
  {
    if c < 'A' then c as int - '0' as int else c as int % 16 + 9
  }

  predicate AllHex(s: string) {
    forall k :: 0 <= k < |s| ==> IsXDigit(s[k])
  }

  /** The number a digit string denotes, most significant digit first. */
  function Value(s: string, base: nat): nat
    requires AllHex(s)
  {
    if s == [] then 0 else Value(s[..|s| - 1], base) * base + DigitValue(s[|s| - 1])
  }

  /** A first digit that is not zero makes the number positive. */
  lemma {:induction false} LeadPositive(s: string, base: nat)
    requires AllHex(s) && base >= 1 && s != [] && s[0] != '0'
    ensures Value(s, base) >= 1
  {
    if |s| > 1 {
      LeadPositive(s[..|s| - 1], base);
      assert Value(s[..|s| - 1], base) * base >= 1;
    }
  }

  function Concat(pieces: seq<string>): string {
    if pieces == [] then [] else pieces[0] + Concat(pieces[1..])
  }

  lemma {:induction false} SubsetSize<T>(a: set<T>, b: set<T>)
    requires a <= b
    ensures |a| <= |b|
    ensures |a| == |b| ==> a == b
  {
    if a != {} {
      var x :| x in a;
      SubsetSize(a - {x}, b - {x});
    }
  }

  lemma SplitSize<T>(a: set<T>, b: set<T>)
    ensures |a - b| == |a| - |a * b|
    ensures |a + b| == |a| + |b - a|
  {
    assert a + b == a + (b - a);
  }
}
