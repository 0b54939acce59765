/**
 `itoa_r` and `GetHex`: numbers to digits in a caller's buffer, and back.
 `Value` is the meaning of a digit string; both routines are proved against it.
 */
module HexNumbers {
  import opened Basics

  const TWO63: int := 0x8000_0000_0000_0000

  function DigitChar(d: nat): char
    requires d < 16
  {
    "0123456789abcdef"[d]
  }

  lemma DigitRoundTrip(d: nat)
    requires d < 16
    ensures IsXDigit(DigitChar(d)) && DigitValue(DigitChar(d)) == d
  {
  }

  lemma ZeroChar(d: nat)
    requires d < 16
    ensures DigitChar(d) == '0' <==> d == 0
  {
  }

  // ----- the digits itoa_r produces

  lemma DivMod(j: nat, base: nat)
    requires base >= 2
    ensures j / base * base + j % base == j
    ensures 0 <= j / base <= j && (j > 0 ==> j / base < j)
  {}

  function Less(pad: nat): nat {
    if pad > 0 then pad - 1 else 0
  }

  /** The digits of `j`, at least `pad` of them. */
  function Digits(j: nat, base: nat, pad: nat): (s: string)
    requires 2 <= base <= 16
    ensures |s| >= 1
    decreases j, pad
  {
    DivMod(j, base);
    (if j / base > 0 || pad > 1 then Digits(j / base, base, Less(pad)) else []) + [DigitChar(j % base)]
  }

  /** The same, least significant digit first, as the loop writes them. */
  function Emitted(j: nat, base: nat, pad: nat): (s: string)
    requires 2 <= base <= 16
    ensures |s| >= 1
    decreases j, pad
  {
    DivMod(j, base);
    [DigitChar(j % base)] + (if j / base > 0 || pad > 1 then Emitted(j / base, base, Less(pad)) else [])
  }

  function Reverse(s: string): string {
    if s == [] then [] else Reverse(s[1..]) + [s[0]]
  }

  lemma {:induction false} ReverseIs(s: string, r: string)
    requires |r| == |s| && forall k :: 0 <= k < |s| ==> r[k] == s[|s| - 1 - k]
    ensures r == Reverse(s)
  {
    if s != [] {
      var n := |s| - 1;
      ReverseIs(s[1..], r[..n]);
      assert r == r[..n] + [r[n]];
    }
  }

  lemma {:induction false} EmittedReversed(j: nat, base: nat, pad: nat)
    requires 2 <= base <= 16
    ensures Reverse(Emitted(j, base, pad)) == Digits(j, base, pad)
    ensures |Emitted(j, base, pad)| == |Digits(j, base, pad)|
    decreases j, pad
  {
    DivMod(j, base);
    var e := Emitted(j, base, pad);
    if j / base > 0 || pad > 1 {
      assert e[1..] == Emitted(j / base, base, Less(pad));
      EmittedReversed(j / base, base, Less(pad));
    } else {
      assert e[1..] == [];
    }
  }

  lemma ValueSnoc(s: string, c: char, base: nat, j: nat)
    requires AllHex(s) && IsXDigit(c) && Value(s, base) * base + DigitValue(c) == j
    ensures AllHex(s + [c]) && Value(s + [c], base) == j
  {}

  /** Digits below the base, none in upper case, that denote `j`; zeros in front only to fill `pad`. */
  ghost predicate Numeral(t: string, j: nat, base: nat, pad: nat) {
    && AllHex(t) && Value(t, base) == j
    && (forall k :: 0 <= k < |t| ==> DigitValue(t[k]) < base && !('A' <= t[k] <= 'F'))
    && |t| >= 1 && |t| >= pad && (|t| > 1 && |t| > pad ==> t[0] != '0')
  }

  lemma NumeralIs(t: string, j: nat, base: nat, pad: nat)
    requires AllHex(t) && Value(t, base) == j
    requires forall c :: c in t ==> IsXDigit(c) && DigitValue(c) < base && !('A' <= c <= 'F')
    requires |t| >= 1 && |t| >= pad && (|t| > 1 && |t| > pad ==> t[0] != '0')
    ensures Numeral(t, j, base, pad)
  {}

  /** The digits denote the number, as many as the padding asks for, or more without leading zeros. */
  lemma DigitsMeaning(j: nat, base: nat, pad: nat)
    requires 2 <= base <= 16
    ensures Numeral(Digits(j, base, pad), j, base, pad)
  {
    DigitsValue(j, base, pad);
    DigitsBelow(j, base, pad);
    DigitsLead(j, base, pad);
    NumeralIs(Digits(j, base, pad), j, base, pad);
  }

  lemma {:induction false} DigitsValue(j: nat, base: nat, pad: nat)
    requires 2 <= base <= 16
    ensures AllHex(Digits(j, base, pad)) && Value(Digits(j, base, pad), base) == j
    decreases j, pad
  {
    var rest, c := j / base, DigitChar(j % base);
    var pad' := Less(pad);
    DigitRoundTrip(j % base);
    DivMod(j, base);
    if rest > 0 || pad > 1 {
      DigitsValue(rest, base, pad');
      ValueSnoc(Digits(rest, base, pad'), c, base, j);
    } else {
      ValueSnoc([], c, base, j);
    }
  }

  lemma {:induction false} DigitsBelow(j: nat, base: nat, pad: nat)
    requires 2 <= base <= 16
    ensures forall c :: c in Digits(j, base, pad) ==> IsXDigit(c) && DigitValue(c) < base && !('A' <= c <= 'F')
    decreases j, pad
  {
    DigitRoundTrip(j % base);
    DivMod(j, base);
    if j / base > 0 || pad > 1 {
      DigitsBelow(j / base, base, Less(pad));
    }
  }

  lemma {:induction false} ZeroDigits(base: nat, pad: nat)
    requires 2 <= base <= 16
    ensures |Digits(0, base, pad)| == if pad > 1 then pad else 1
    decreases pad
  {
    DivMod(0, base);
    if pad > 1 {
      ZeroDigits(base, pad - 1);
    }
  }

  lemma {:induction false} DigitsLead(j: nat, base: nat, pad: nat)
    requires 2 <= base <= 16
    ensures var s := Digits(j, base, pad);
            && |s| >= 1 && |s| >= pad
            && ((|s| > 1 || j > 0) && |s| > pad ==> s[0] != '0')
    decreases j, pad
  {
    var rest, pad' := j / base, Less(pad);
    DivMod(j, base);
    ZeroChar(j % base);
    if rest > 0 {
      DigitsLead(rest, base, pad');
    } else {
      ZeroDigits(base, pad');
    }
    if j == 0 {
      ZeroDigits(base, pad);
    }
  }

  /** A digit string is determined by its length and value. */
  lemma {:induction false} ValueInjective(s: string, t: string, base: nat)
    requires 2 <= base <= 16 && |s| == |t| && AllHex(s) && AllHex(t) && Value(s, base) == Value(t, base)
    requires forall k :: 0 <= k < |s| ==> DigitValue(s[k]) < base && DigitValue(t[k]) < base
    ensures forall k :: 0 <= k < |s| ==> DigitValue(s[k]) == DigitValue(t[k])
  {
    if s != [] {
      var n := |s| - 1;
      var x, y, d, e := Value(s[..n], base), Value(t[..n], base), DigitValue(s[n]), DigitValue(t[n]);
      assert x == y && d == e by { SplitUnique(x, y, d, e, base); }
      ValueInjective(s[..n], t[..n], base);
      forall k | 0 <= k < |s| ensures DigitValue(s[k]) == DigitValue(t[k]) {
        if k < n { assert s[..n][k] == s[k] && t[..n][k] == t[k]; }
      }
    }
  }

  lemma SplitUnique(x: nat, y: nat, d: nat, e: nat, base: nat)
    requires d < base && e < base && x * base + d == y * base + e
    ensures x == y && d == e
  {
    if x != y {
      var lo, hi := if x < y then x else y, if x < y then y else x;
      Gap(lo, hi, base);
    }
  }

  lemma {:induction false} Gap(lo: nat, hi: nat, base: nat)
    requires lo < hi
    ensures lo * base + base <= hi * base
  {
    assert (hi - 1) * base + base == hi * base;
    if lo + 1 < hi {
      Gap(lo, hi - 1, base);
    }
  }

  lemma LowerCase(c: char)
    requires IsXDigit(c) && !('A' <= c <= 'F')
    ensures DigitChar(DigitValue(c)) == c
  {}

  lemma {:induction false} NumeralUnique(t: string, j: nat, base: nat, pad: nat)
    requires 2 <= base <= 16 && Numeral(t, j, base, pad)
    ensures t == Digits(j, base, pad)
    decreases |t|
  {
    var n := |t| - 1;
    var front, d := t[..n], DigitValue(t[n]);
    DivMod(j, base);
    SplitUnique(Value(front, base), j / base, d, j % base, base);
    LowerCase(t[n]);
    assert t == front + [t[n]];
    if front != [] {
      if j / base == 0 && pad <= 1 {
        LeadPositive(front, base);
      }
      NumeralUnique(front, j / base, base, Less(pad));
    }
  }

  /** A text is what the loop leaves if and only if it is the numeral. */
  lemma DigitsExact(j: nat, base: nat, pad: nat, t: string)
    requires 2 <= base <= 16
    ensures t == Digits(j, base, pad) <==> Numeral(t, j, base, pad)
  {
    DigitsMeaning(j, base, pad);
    if Numeral(t, j, base, pad) {
      NumeralUnique(t, j, base, pad);
    }
  }

  // ----- itoa_r

  /** In base 10 a minus sign and the numeral of the negation; otherwise the numeral modulo 2^64. */
  ghost predicate Denotes(t: string, i: int, base: int, padding: nat)
    requires 2 <= base && -TWO63 <= i
  {
    if i < 0 && base == 10 then t != [] && t[0] == '-' && Numeral(t[1..], -i, base, padding)
    else Numeral(t, if i < 0 then i + TWO64 else i, base, padding)
  }

  lemma {:induction false} OneNumeral(t: string, u: string, j: nat, base: nat, pad: nat)
    requires 2 <= base <= 16 && Numeral(t, j, base, pad) && Numeral(u, j, base, pad)
    ensures t == u
  {
    NumeralUnique(t, j, base, pad);
    NumeralUnique(u, j, base, pad);
  }

  /** There is one such text. */
  lemma {:induction false} DenotesUnique(t: string, u: string, i: int, base: int, padding: nat)
    requires -TWO63 <= i && 2 <= base <= 16 && Denotes(t, i, base, padding) && Denotes(u, i, base, padding)
    ensures t == u
  {
    if i < 0 && base == 10 {
      OneNumeral(t[1..], u[1..], -i, base, padding);
      assert t == [t[0]] + t[1..] && u == [u[0]] + u[1..];
    } else {
      OneNumeral(t, u, if i < 0 then i + TWO64 else i, base, padding);
    }
  }

  /** Swap ends until they meet. */
  method ReverseRange(buf: array<char>, lo: nat, hi: nat)
    requires lo <= hi <= buf.Length
    modifies buf
    ensures forall k :: lo <= k < hi ==> buf[k] == old(buf[lo + hi - 1 - k])
    ensures forall k :: 0 <= k < lo || hi <= k < buf.Length ==> buf[k] == old(buf[k])
  {
    var start, ptr := lo, hi - 1;
    while ptr > start
      invariant lo <= start <= hi && start + ptr == lo + hi - 1
      invariant forall k :: 0 <= k < lo || hi <= k < buf.Length ==> buf[k] == old(buf[k])
      invariant forall k :: lo <= k < start || ptr < k < hi ==> buf[k] == old(buf[lo + hi - 1 - k])
      invariant forall k :: start <= k <= ptr ==> buf[k] == old(buf[k])
    {
      var ch := buf[ptr];
      buf[ptr] := buf[start];
      buf[start] := ch;
      start, ptr := start + 1, ptr - 1;
    }
  }

  lemma Shift(done: string, todo: string)
    requires todo != []
    ensures (done + [todo[0]]) + todo[1..] == done + todo
  {}

  lemma EmittedTail(j: nat, base: nat, pad: nat)
    requires 2 <= base <= 16
    ensures Emitted(j, base, pad)[0] == DigitChar(j % base)
    ensures Emitted(j, base, pad)[1..] ==
      if j / base > 0 || Less(pad) > 0 then Emitted(j / base, base, Less(pad)) else []
  {
  }

  /** The digit written next, and what is left of the number; `rest` digits follow. */
  method NextDigit(j: nat, base: nat, ghost pad: nat) returns (c: char, rest: nat)
    requires 2 <= base <= 16
    ensures c == Emitted(j, base, pad)[0]
    ensures Emitted(j, base, pad)[1..] == if rest > 0 || Less(pad) > 0 then Emitted(rest, base, Less(pad)) else []
    ensures rest <= j && (j > 0 ==> rest < j)
  {
    DivMod(j, base);
    EmittedTail(j, base, pad);
    c := DigitChar(j % base);
    rest := j / base;
  }

  /** The digit loop; it gives up when the next digit and the terminator no longer fit. */
  method EmitDigits(j0: nat, buf: array<char>, start: nat, sz: nat, base: nat, padding: nat)
    returns (ok: bool, ptr: nat)
    requires 2 <= base <= 16 && start < sz <= buf.Length
    modifies buf
    ensures forall k :: 0 <= k < start || sz <= k < buf.Length ==> buf[k] == old(buf[k])
    ensures ok <==> start + |Emitted(j0, base, padding)| < sz
    ensures ok ==> ptr == start + |Emitted(j0, base, padding)| && buf[start..ptr] == Emitted(j0, base, padding)
  {
    var j: nat, pad: nat, going := j0, padding, true;
    ptr := start;
    ghost var left := Emitted(j0, base, padding);
    ghost var done: string := [];
    while going
      invariant start <= ptr < sz
      invariant forall k :: 0 <= k < start || sz <= k < buf.Length ==> buf[k] == old(buf[k])
      invariant buf[start..ptr] == done && done + left == Emitted(j0, base, padding)
      invariant left == if going then Emitted(j, base, pad) else []
      decreases going, j, pad
    {
      if ptr + 2 > sz {
        return false, ptr;
      }
      Shift(done, left);
      var c, rest := NextDigit(j, base, pad);
      buf[ptr] := c;
      ptr := ptr + 1;
      done, left := done + [left[0]], left[1..];
      j := rest;
      if pad > 0 {
        pad := pad - 1;
      }
      going := j > 0 || pad > 0;
    }
    return true, ptr;
  }

  lemma SplitAt(s: string, i: nat, j: nat)
    requires i <= j <= |s|
    ensures s[..j] == s[..i] + s[i..j]
  {}

  /** `t` is the text the number asks for, whether or not it fits. */
  method ItoaR(i: int, buf: array<char>, sz: nat, base: int, padding: nat) returns (ok: bool, ghost t: string)
    requires sz <= buf.Length && -TWO63 <= i < TWO63
    requires !(i == -TWO63 && base == 10)
    modifies buf
    ensures forall k :: sz <= k < buf.Length ==> buf[k] == old(buf[k])
    ensures 2 <= base <= 16 && sz > 0 ==> Denotes(t, i, base, padding)
    ensures ok <==> 2 <= base <= 16 && |t| + 1 <= sz
    ensures ok ==> buf[..|t|] == t && buf[|t|] == NUL
    ensures !ok && sz > 0 ==> buf[0] == NUL
  {
    t := [];
    if 1 > sz { return false, t; }
    if base < 2 || base > 16 {
      buf[0] := NUL;
      return false, t;
    }
    var start := 0;
    var j := if i >= 0 then i else i + TWO64;
    ghost var sign: string := [];
    if i < 0 && base == 10 {
      j := -i;
      if 2 > sz {
        buf[0] := NUL;
        t := Negative(-i, padding);
        return false, t;
      }
      buf[0] := '-';
      start := 1;
      sign := "-";
    }
    ghost var d;
    ok, d := Convert(j, buf, start, sz, base, padding);
    t := sign + d;
    Signed(sign, d);
    if !ok {
      buf[0] := NUL;
    } else {
      Joined(buf[..], sign, d);
    }
  }

  lemma Negative(j: nat, padding: nat) returns (t: string)
    ensures |t| >= 2 && t[0] == '-' && Numeral(t[1..], j, 10, padding)
  {
    t := "-" + Digits(j, 10, padding);
    assert t[1..] == Digits(j, 10, padding);
    DigitsMeaning(j, 10, padding);
  }

  lemma Signed(sign: string, d: string)
    ensures sign == [] ==> sign + d == d
    ensures sign == "-" ==> (sign + d)[0] == '-' && (sign + d)[1..] == d
  {}

  lemma Joined(b: string, sign: string, d: string)
    requires |sign| + |d| <= |b| && b[..|sign|] == sign && b[|sign|..|sign| + |d|] == d
    ensures b[..|sign + d|] == sign + d
  {
    SplitAt(b, |sign|, |sign| + |d|);
  }

  /** Digits, terminator and reversal, after the sign; `d` is the numeral. */
  method Convert(j: nat, buf: array<char>, start: nat, sz: nat, base: nat, padding: nat)
    returns (ok: bool, ghost d: string)
    requires 2 <= base <= 16 && start < sz <= buf.Length
    modifies buf
    ensures Numeral(d, j, base, padding)
    ensures forall k :: sz <= k < buf.Length ==> buf[k] == old(buf[k])
    ensures ok <==> start + |d| < sz
    ensures forall k :: 0 <= k < start ==> buf[k] == old(buf[k])
    ensures ok ==> buf[start..start + |d|] == d && buf[start + |d|] == NUL
  {
    d := Digits(j, base, padding);
    DigitsMeaning(j, base, padding);
    EmittedReversed(j, base, padding);
    var ptr;
    ok, ptr := EmitDigits(j, buf, start, sz, base, padding);
    if !ok {
      return false, d;
    }
    ghost var e := buf[start..ptr];
    buf[ptr] := NUL;
    ReverseDigits(buf, start, ptr, e);
  }

  method ReverseDigits(buf: array<char>, lo: nat, hi: nat, ghost e: string)
    requires lo <= hi <= buf.Length && buf[lo..hi] == e
    modifies buf
    ensures buf[lo..hi] == Reverse(e)
    ensures forall k :: 0 <= k < lo || hi <= k < buf.Length ==> buf[k] == old(buf[k])
  {
    assert forall k :: 0 <= k < |e| ==> buf[lo + k] == e[k];
    ReverseRange(buf, lo, hi);
    ReverseIs(e, buf[lo..hi]);
  }

  // ----- GetHex

  /** The longest prefix of hexadecimal digits. */
  function HexPrefix(s: string): (h: string)
    ensures h <= s && AllHex(h)
    ensures |h| < |s| ==> !IsXDigit(s[|h|])
  {
    if s == [] || !IsXDigit(s[0]) then [] else [s[0]] + HexPrefix(s[1..])
  }

  lemma {:induction false} HexPrefixIs(s: string, n: nat)
    requires n <= |s| && AllHex(s[..n]) && (n < |s| ==> !IsXDigit(s[n]))
    ensures HexPrefix(s) == s[..n]
  {}

  lemma ModUnique(x: nat, q: nat, r: nat)
    requires r < TWO64 && x == q * TWO64 + r
    ensures x % TWO64 == r
  {}

  /** Shifting the truncated value is truncating the shifted value. */
  lemma ShiftIn(v: nat, d: nat)
    requires d < 16
    ensures (v % TWO64 * 16) % TWO64 + d == (v * 16 + d) % TWO64
  {
    var q, r := v / TWO64, v % TWO64;
    var q' := r * 16 / TWO64;
    var k := r - q' * (TWO64 / 16);
    assert r * 16 == q' * TWO64 + k * 16 && 0 <= k < TWO64 / 16;
    ModUnique(r * 16, q', k * 16);
    ModUnique(v * 16 + d, q * 16 + q', k * 16 + d);
  }

  /** The 64-bit number at the start of a text. */
  function HexValue(text: string): nat {
    Value(HexPrefix(text), 16) % TWO64
  }

  method GetHex(text: string) returns (p: nat, hex: nat)
    ensures p == |HexPrefix(text)|
    ensures hex == HexValue(text)
  {
    hex := 0;
    p := 0;
    while p < |text| && IsXDigit(text[p])
      invariant p <= |text| && AllHex(text[..p])
      invariant hex == Value(text[..p], 16) % TWO64
    {
      var d := DigitValue(text[p]);
      ghost var v := Value(text[..p], 16);
      ShiftIn(v, d);
      assert text[..p + 1] == text[..p] + [text[p]];
      ValueSnoc(text[..p], text[p], 16, v * 16 + d);
      hex := hex * 16 % TWO64 + d;
      p := p + 1;
    }
    HexPrefixIs(text, p);
  }

  // ----- the round trip

  lemma {:induction false} HexLength(j: nat, n: nat)
    requires n >= 1 && j < Pow16(n)
    ensures |Digits(j, 16, 0)| <= n
  {
    DivMod(j, 16);
    if j / 16 > 0 {
      HexLength(j / 16, n - 1);
    }
  }

  function Pow16(n: nat): nat {
    if n == 0 then 1 else 16 * Pow16(n - 1)
  }

  lemma SixteenDigits()
    ensures Pow16(16) == TWO64
  {
    assert Pow16(4) == 0x1_0000;
    assert Pow16(8) == 0x1_0000_0000;
    assert Pow16(12) == 0x1_0000_0000_0000;
  }

  lemma HexFits(v: nat)
    requires v < TWO64
    ensures |Digits(v, 16, 0)| <= 16
  {
    SixteenDigits();
    HexLength(v, 16);
  }

  lemma DigitsThenTail(v: nat, tail: string)
    requires tail != [] ==> !IsXDigit(tail[0])
    ensures HexPrefix(Digits(v, 16, 0) + tail) == Digits(v, 16, 0)
  {
    var s := Digits(v, 16, 0);
    DigitsBelow(v, 16, 0);
    assert (s + tail)[..|s|] == s;
    HexPrefixIs(s + tail, |s|);
  }

  /** `GetHex` reads back every 64-bit number that `itoa_r` wrote; 16 digits always do. */
  lemma HexRoundTrip(v: nat, tail: string)
    requires v < TWO64 && (tail != [] ==> !IsXDigit(tail[0]))
    ensures |Digits(v, 16, 0)| <= 16 && HexValue(Digits(v, 16, 0) + tail) == v
  {
    HexFits(v);
    DigitsValue(v, 16, 0);
    DigitsThenTail(v, tail);
    ModUnique(v, 0, v);
  }

  // ----- SafeAppendHexNumber

  /** The C string at the start of a buffer: everything before the first NUL. */
  function CString(s: string): (c: string)
    ensures c <= s && NUL !in c
    ensures NUL in s ==> |c| < |s| && s[|c|] == NUL
  {
    if s == [] || s[0] == NUL then [] else [s[0]] + CString(s[1..])
  }

  lemma {:induction false} CStringIs(s: string, c: string)
    requires |c| < |s| && c == s[..|c|] && NUL !in c && s[|c|] == NUL
    ensures CString(s) == c
  {}

  method StrLen(dest: array<char>) returns (len: nat)
    requires NUL in dest[..]
    ensures len < dest.Length && dest[..len] == CString(dest[..])
  {
    len := 0;
    while dest[len] != NUL
      invariant len <= |CString(dest[..])| < dest.Length
      decreases dest.Length - len
    {
      assert CString(dest[..])[..] == dest[..|CString(dest[..])|];
      len := len + 1;
    }
  }

  /** `strncpy`: what fits of the source, then NULs to the end. */
  method StrNCpy(source: string, dest: array<char>, at: nat)
    requires at <= dest.Length
    modifies dest
    ensures forall i :: 0 <= i < at ==> dest[i] == old(dest[i])
    ensures forall i :: at <= i < dest.Length ==> dest[i] == if i - at < |source| then source[i - at] else NUL
  {
    for k := at to dest.Length
      invariant forall i :: 0 <= i < at ==> dest[i] == old(dest[i])
      invariant forall i :: at <= i < k ==> dest[i] == if i - at < |source| then source[i - at] else NUL
    {
      dest[k] := if k - at < |source| then source[k - at] else NUL;
    }
  }

  /** Copies the source behind the string in `dest` and puts a NUL in the last byte. */
  method SafeAppendString(source: string, dest: array<char>)
    requires NUL in dest[..] && NUL !in source
    modifies dest
    ensures var all := old(CString(dest[..])) + source;
            && NUL in dest[..]
            && CString(dest[..]) == if |all| < dest.Length then all else all[..dest.Length - 1]
    ensures forall i :: |CString(dest[..])| <= i < dest.Length ==> dest[i] == NUL
  {
    var len := StrLen(dest);
    ghost var all := dest[..len] + source;
    StrNCpy(source, dest, len);
    dest[dest.Length - 1] := NUL;
    ghost var kept := if |all| < dest.Length then all else all[..dest.Length - 1];
    assert dest[..][..|kept|] == kept;
    CStringIs(dest[..], kept);
  }

  /** In base 16 a 64-bit value is written as it is, whatever its sign as an `intptr_t`. */
  lemma HexText(value: nat, i: int, t: string)
    requires value < TWO64 && i == if value < TWO63 then value else value - TWO64
    requires Denotes(t, i, 16, 0)
    ensures t == Digits(value, 16, 0) && |t| <= 16 && NUL !in t
  {
    NumeralUnique(t, value, 16, 0);
    HexFits(value);
    DigitsBelow(value, 16, 0);
    assert !IsXDigit(NUL);
  }

  /** Appends `value` in hexadecimal; the conversion never runs out of its 17 bytes. */
  method SafeAppendHexNumber(value: nat, dest: array<char>)
    requires value < TWO64 && NUL in dest[..]
    modifies dest
    ensures var all := old(CString(dest[..])) + Digits(value, 16, 0);
            && NUL in dest[..]
            && CString(dest[..]) == if |all| < dest.Length then all else all[..dest.Length - 1]
  {
    var text := ConvertHex(value);
    SafeAppendString(text, dest);
  }

  method ConvertHex(value: nat) returns (text: string)
    requires value < TWO64
    ensures text == Digits(value, 16, 0) && NUL !in text
  {
    var i := if value < TWO63 then value else value - TWO64;
    var buf := new char[17](_ => NUL);
    var ok;
    ghost var t;
    ok, t := ItoaR(i, buf, 17, 16, 0);
    HexText(value, i, t);
    assert ok && buf[..][..|t|] == t;
    CStringIs(buf[..], t);
    text := CString(buf[..]);
  }
}
