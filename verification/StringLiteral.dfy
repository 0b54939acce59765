/**
 The string-literal printer of googletest, for narrow characters, and the C++
 rules by which its output reads back: escape sequences (section 2.14.3 of ISO
 C++11) and adjacent string literals (sections 2.2 and 2.14.5).
 */
module StringLiteral {
  import opened Basics

  /** A narrow character as an `unsigned char`. */
  type Byte = b: int | 0 <= b < 256 witness 0

  datatype CharFormat = AsIs | HexEscape | SpecialEscape

  predicate IsPrintable(b: Byte) {
    0x20 <= b <= 0x7E
  }

  predicate IsOctal(c: char) {
    '0' <= c <= '7'
  }

  function HexDigit(d: nat): char
    requires d < 16
  {
    "0123456789ABCDEF"[d]
  }

  /** `FormatHexInt` of a byte. */
  function FormatHex(b: Byte): string {
    if b < 16 then [HexDigit(b)] else [HexDigit(b / 16), HexDigit(b % 16)]
  }

  function CharLiteralText(b: Byte): string {
    if b == 0 then "\\0"
    else if b == 39 then "\\'"
    else if b == 92 then "\\\\"
    else if b == 7 then "\\a"
    else if b == 8 then "\\b"
    else if b == 12 then "\\f"
    else if b == 10 then "\\n"
    else if b == 13 then "\\r"
    else if b == 9 then "\\t"
    else if b == 11 then "\\v"
    else if IsPrintable(b) then [b as char]
    else "\\x" + FormatHex(b)
  }

  function CharLiteralFormat(b: Byte): CharFormat {
    if b in {0, 39, 92, 7, 8, 12, 10, 13, 9, 11} then SpecialEscape
    else if IsPrintable(b) then AsIs
    else HexEscape
  }

  /** Inside a string literal the single quote stands for itself and the double quote does not. */
  function LiteralText(b: Byte): string {
    if b == 39 then "'" else if b == 34 then "\\\"" else CharLiteralText(b)
  }

  function LiteralFormat(b: Byte): CharFormat {
    if b == 39 then AsIs else if b == 34 then SpecialEscape else CharLiteralFormat(b)
  }

  /** The text between the first and the last quote. */
  function Body(s: seq<Byte>, previousHex: bool): string {
    if s == [] then "" else
    (if previousHex && IsXDigit(s[0] as char) then "\" \"" else "")
    + LiteralText(s[0]) + Body(s[1..], LiteralFormat(s[0]).HexEscape?)
  }

  function Printed(s: seq<Byte>): string {
    "\"" + Body(s, false) + "\""
  }

  // ----- reading C++ string literals

  /** The longest run of hexadecimal digits. */
  function HexRun(t: string): (n: nat)
    ensures n <= |t| && (forall i :: 0 <= i < n ==> IsXDigit(t[i])) && (n < |t| ==> !IsXDigit(t[n]))
  {
    if t == [] || !IsXDigit(t[0]) then 0 else 1 + HexRun(t[1..])
  }

  /** At most three octal digits. */
  function OctalRun(t: string): (n: nat)
    ensures n <= |t| && n <= 3 && forall i :: 0 <= i < n ==> IsOctal(t[i])
  {
    if |t| == 0 || !IsOctal(t[0]) then 0
    else if |t| == 1 || !IsOctal(t[1]) then 1
    else if |t| == 2 || !IsOctal(t[2]) then 2
    else 3
  }

  function SimpleEscape(c: char): Option<Byte> {
    match c
    case '\'' => Some(39) case '\"' => Some(34) case '?' => Some(63) case '\\' => Some(92)
    case 'a' => Some(7) case 'b' => Some(8) case 'f' => Some(12) case 'n' => Some(10)
    case 'r' => Some(13) case 't' => Some(9) case 'v' => Some(11)
    case _ => None
  }

  function Cons(v: nat, rest: Option<seq<Byte>>): Option<seq<Byte>> {
    if v < 256 && rest.Some? then Some([v] + rest.value) else None
  }

  /** After a complete literal: white space, another literal, or the end. */
  function Outside(t: string): Option<seq<Byte>>
    decreases |t|
  {
    if t == [] then Some([])
    else if t[0] == ' ' then Outside(t[1..])
    else if t[0] == '\"' then Inside(t[1..])
    else None
  }

  /** After an opening quote. */
  function Inside(t: string): Option<seq<Byte>>
    decreases |t|
  {
    if t == [] || t[0] == '\n' then None
    else if t[0] == '\"' then Outside(t[1..])
    else if t[0] == '\\' then Escape(t[1..])
    else Cons(t[0] as int, Inside(t[1..]))
  }

  /** After a backslash. */
  function Escape(t: string): Option<seq<Byte>>
    decreases |t|
  {
    if t == [] then None
    else if IsOctal(t[0]) then Cons(Value(t[..OctalRun(t)], 8), Inside(t[OctalRun(t)..]))
    else if t[0] == 'x' then
      var n := HexRun(t[1..]);
      if n == 0 then None else Cons(Value(t[1..][..n], 16), Inside(t[1..][n..]))
    else if SimpleEscape(t[0]).Some? then Cons(SimpleEscape(t[0]).value, Inside(t[1..]))
    else None
  }

  // ----- what the printed text reads back as

  predicate OctalByte(b: Byte) {
    48 <= b <= 55
  }

  /** A NUL swallows up to two octal digits that follow it. */
  function Meaning(s: seq<Byte>): seq<Byte> {
    if s == [] then []
    else if s[0] == 0 && |s| >= 2 && OctalByte(s[1]) then
      if |s| >= 3 && OctalByte(s[2]) then [(s[1] - 48) * 8 + (s[2] - 48)] + Meaning(s[3..])
      else [s[1] - 48] + Meaning(s[2..])
    else [s[0]] + Meaning(s[1..])
  }

  predicate NulThenOctal(s: seq<Byte>, i: int) {
    0 <= i < |s| - 1 && s[i] == 0 && OctalByte(s[i + 1])
  }

  /** What follows a piece of body, up to the end of the text. */
  function Rest(s: seq<Byte>, previousHex: bool): string {
    Body(s, previousHex) + "\""
  }

  lemma Glue(l: string, b: string)
    ensures ("" + l + b) + "\"" == l + (b + "\"")
  {}

  lemma RestCons(s: seq<Byte>, previousHex: bool)
    requires s != [] && !(previousHex && IsXDigit(s[0] as char))
    ensures Rest(s, previousHex) == LiteralText(s[0]) + Rest(s[1..], LiteralFormat(s[0]).HexEscape?)
  {
    var l, b := LiteralText(s[0]), Body(s[1..], LiteralFormat(s[0]).HexEscape?);
    assert Body(s, previousHex) == "" + l + b;
    Glue(l, b);
  }

  /** A hexadecimal escape is never followed by a hexadecimal digit. */
  lemma HexEnds(s: seq<Byte>)
    ensures !IsXDigit(Rest(s, true)[0])
  {}

  /** The first character after a plain one is an octal digit only if the next byte is. */
  lemma OctalStarts(s: seq<Byte>)
    ensures IsOctal(Rest(s, false)[0]) <==> s != [] && OctalByte(s[0])
  {}

  // ----- one character at a time

  lemma ReadAsIs(b: Byte, r: string)
    requires IsPrintable(b) && b != 34 && b != 92
    ensures Inside([b as char] + r) == Cons(b, Inside(r))
  {}

  lemma ReadSimple(c: char, r: string)
    requires SimpleEscape(c).Some?
    ensures Inside("\\" + ([c] + r)) == Cons(SimpleEscape(c).value, Inside(r))
  {
    var t := [c] + r;
    assert ("\\" + t)[1..] == t && t[1..] == r;
  }

  /** A NUL and the octal digits printed after it form one escape. */
  lemma ReadOctal(ds: string, r: string)
    requires 1 <= |ds| <= 3 && r != [] && (|ds| < 3 ==> !IsOctal(r[0]))
    requires forall i :: 0 <= i < |ds| ==> IsOctal(ds[i]) && IsXDigit(ds[i])
    ensures Inside("\\" + (ds + r)) == Cons(Value(ds, 8), Inside(r))
  {}

  lemma {:induction false} HexRunIs(h: string, r: string)
    requires r != [] && !IsXDigit(r[0]) && forall i :: 0 <= i < |h| ==> IsXDigit(h[i])
    ensures HexRun(h + r) == |h|
  {
    if h != [] {
      assert (h + r)[1..] == h[1..] + r;
      HexRunIs(h[1..], r);
    } else {
      assert h + r == r;
    }
  }

  lemma ReadHex(h: string, r: string)
    requires h != [] && r != [] && !IsXDigit(r[0]) && forall i :: 0 <= i < |h| ==> IsXDigit(h[i])
    ensures Inside("\\" + ("x" + (h + r))) == Cons(Value(h, 16), Inside(r))
  {
    var t := h + r;
    HexRunIs(h, r);
    assert ("x" + t)[1..] == t && ("\\" + ("x" + t))[1..] == "x" + t;
    assert t[..|h|] == h && t[|h|..] == r;
  }

  lemma HexDigitValue(d: nat)
    requires d < 16
    ensures IsXDigit(HexDigit(d)) && DigitValue(HexDigit(d)) == d
  {}

  lemma FormatHexReads(b: Byte)
    ensures var h := FormatHex(b);
            h != [] && (forall i :: 0 <= i < |h| ==> IsXDigit(h[i])) && Value(h, 16) == b
  {
    var h := FormatHex(b);
    if b < 16 {
      HexDigitValue(b);
      assert h[..0] == [];
    } else {
      HexDigitValue(b / 16);
      HexDigitValue(b % 16);
      var first := h[..1];
      assert first == [HexDigit(b / 16)] && first[..0] == [];
      assert Value(first, 16) == b / 16;
    }
  }

  // ----- which spelling is printed

  /** The bytes printed by number. */
  predicate ByNumber(b: Byte) {
    1 <= b <= 6 || 14 <= b <= 31 || 127 <= b
  }

  /**
   NUL is `\0`; printable bytes but the double quote and the backslash stand for
   themselves; these two and the other control characters with an escape of their
   own use it; the rest is the upper-case hexadecimal number without leading zero.
   */
  ghost predicate Spelling(b: Byte, t: string) {
    if b == 0 then t == ['\\', '0']
    else if 0x20 <= b <= 0x7E && b != 34 && b != 92 then t == [b as char]
    else if ByNumber(b) then |t| >= 3 && t[0] == '\\' && t[1] == 'x' && UpperNumeral(t[2..], b)
    else |t| == 2 && t[0] == '\\' && SimpleEscape(t[1]) == Some(b)
  }

  ghost predicate UpperNumeral(h: string, b: nat) {
    AllHex(h) && Value(h, 16) == b && h != [] && h[0] != '0' && forall i :: 0 <= i < |h| ==> !('a' <= h[i] <= 'f')
  }

  lemma UpperCase(c: char)
    requires IsXDigit(c) && !('a' <= c <= 'f')
    ensures HexDigit(DigitValue(c)) == c
  {}

  lemma DivideBySixteen(v: nat, d: nat)
    requires d < 16
    ensures (v * 16 + d) / 16 == v && (v * 16 + d) % 16 == d
  {}

  lemma {:induction false} FrontHex(h: string)
    requires h != [] && AllHex(h)
    ensures AllHex(h[..|h| - 1]) && h == h[..|h| - 1] + [h[|h| - 1]]
    ensures Value(h, 16) == Value(h[..|h| - 1], 16) * 16 + DigitValue(h[|h| - 1])
  {}

  /** The last digit, and the numeral before it. */
  lemma {:induction false} UpperSplit(h: string, b: nat)
    requires UpperNumeral(h, b)
    ensures var front := h[..|h| - 1];
            && h == front + [HexDigit(b % 16)] && AllHex(front) && Value(front, 16) == b / 16
            && (front != [] ==> UpperNumeral(front, b / 16) && b / 16 >= 1)
  {
    var front, c := h[..|h| - 1], h[|h| - 1];
    FrontHex(h);
    UpperCase(c);
    DivideBySixteen(Value(front, 16), DigitValue(c));
    if front != [] {
      LeadPositive(front, 16);
    }
  }

  lemma UpperUnique(h: string, b: Byte)
    requires UpperNumeral(h, b)
    ensures h == FormatHex(b)
  {
    var front := h[..|h| - 1];
    UpperSplit(h, b);
    if front != [] {
      UpperSplit(front, b / 16);
    }
  }

  lemma FormatHexUpper(b: Byte)
    requires b >= 1
    ensures UpperNumeral(FormatHex(b), b)
  {
    FormatHexReads(b);
    HexDigitValue(b % 16);
    HexDigitValue(b / 16);
  }

  /** A text is the one printed for a byte if and only if it is the byte's spelling. */
  lemma SpellingExact(b: Byte, t: string)
    ensures t == LiteralText(b) <==> Spelling(b, t)
  {
    if ByNumber(b) {
      var u := "\\x" + FormatHex(b);
      assert LiteralText(b) == u && u[2..] == FormatHex(b);
      FormatHexUpper(b);
      if Spelling(b, t) {
        UpperUnique(t[2..], b);
        assert t == [t[0], t[1]] + t[2..];
      }
    } else if b == 34 || b == 92 || 7 <= b <= 13 {
      SimpleUnique(b, t);
    }
  }

  lemma SimpleUnique(b: Byte, t: string)
    requires b == 34 || b == 92 || 7 <= b <= 13
    ensures t == LiteralText(b) <==> |t| == 2 && t[0] == '\\' && SimpleEscape(t[1]) == Some(b)
  {
    var c := SimpleText(b);
    if |t| == 2 { assert t == [t[0]] + [t[1]]; }
  }

  /** Where a byte printed by number meets one that could continue it, the literal is broken. */
  predicate Breaks(s: seq<Byte>, i: nat)
    requires i < |s|
  {
    i > 0 && ByNumber(s[i - 1]) && IsXDigit(s[i] as char)
  }

  /** One spelling for each byte, after a break where one is due and nowhere else. */
  ghost predicate Layout(s: seq<Byte>, pieces: seq<string>) {
    |pieces| == |s| && forall i :: 0 <= i < |s| ==> PieceOk(s, i, pieces[i])
  }

  ghost predicate PieceOk(s: seq<Byte>, i: nat, piece: string)
    requires i < |s|
  {
    if Breaks(s, i) then |piece| >= 3 && piece[..3] == "\" \"" && Spelling(s[i], piece[3..]) else Spelling(s[i], piece)
  }

  function Piece(s: seq<Byte>, i: nat): string
    requires i < |s|
  {
    (if Breaks(s, i) then "\" \"" else "") + LiteralText(s[i])
  }

  lemma PieceSpelt(s: seq<Byte>, i: nat)
    requires i < |s|
    ensures PieceOk(s, i, Piece(s, i))
  {
    SpellingExact(s[i], LiteralText(s[i]));
    if Breaks(s, i) {
      assert Piece(s, i)[..3] == "\" \"" && Piece(s, i)[3..] == LiteralText(s[i]);
    } else {
      assert Piece(s, i) == LiteralText(s[i]);
    }
  }

  function Pieces(s: seq<Byte>): seq<string> {
    seq(|s|, i requires 0 <= i < |s| => Piece(s, i))
  }

  lemma {:induction false} BodyPieces(s: seq<Byte>, i: nat)
    requires i <= |s|
    ensures Body(s[i..], i > 0 && ByNumber(s[i - 1])) == Concat(Pieces(s)[i..])
    decreases |s| - i
  {
    if i < |s| {
      BodyPieces(s, i + 1);
      var rest := Pieces(s)[i..];
      assert rest[0] == Piece(s, i) && rest[1..] == Pieces(s)[i + 1..];
      assert s[i..][0] == s[i] && s[i..][1..] == s[i + 1..];
      assert LiteralFormat(s[i]).HexEscape? <==> ByNumber(s[i]);
    }
  }

  lemma PrintedLayout(s: seq<Byte>) returns (pieces: seq<string>)
    ensures Layout(s, pieces) && Printed(s) == "\"" + Concat(pieces) + "\""
  {
    pieces := Pieces(s);
    forall i | 0 <= i < |s| ensures PieceOk(s, i, pieces[i]) { PieceSpelt(s, i); }
    BodyPieces(s, 0);
    assert s[0..] == s && pieces[0..] == pieces;
  }

  lemma Regroup(a: string, b: string, c: string, d: string)
    ensures a + (b + c + d) == (a + b + c) + d
    ensures b == "" ==> a + b == a
  {}

  method PrintCharsAsStringTo(s: seq<Byte>) returns (os: string)
    ensures os == Printed(s)
    ensures exists pieces :: Layout(s, pieces) && os == "\"" + Concat(pieces) + "\""
  {
    ghost var pieces := PrintedLayout(s);
    os := "\"";
    var previousHex := false;
    for i := 0 to |s|
      invariant os + Body(s[i..], previousHex) == "\"" + Body(s, false)
    {
      var cur := s[i];
      assert s[i..][1..] == s[i + 1..];
      Regroup(os, if previousHex && IsXDigit(cur as char) then "\" \"" else "", LiteralText(cur),
              Body(s[i + 1..], LiteralFormat(cur).HexEscape?));
      if previousHex && IsXDigit(cur as char) {
        os := os + "\" \"";
      }
      os := os + LiteralText(cur);
      previousHex := LiteralFormat(cur).HexEscape?;
    }
    os := os + "\"";
  }

  // ----- reading what was printed

  lemma SimpleText(b: Byte) returns (c: char)
    requires LiteralFormat(b).SpecialEscape? && b != 0
    ensures LiteralText(b) == "\\" + [c] && SimpleEscape(c) == Some(b)
  {
    c := LiteralText(b)[1];
  }

  lemma HexText(h: string, r: string)
    ensures ("\\x" + h) + r == "\\" + ("x" + (h + r))
  {}

  /** A byte reads back as itself when what follows cannot extend its escape. */
  lemma ReadByte(b: Byte, r: string)
    requires r != []
    requires LiteralFormat(b).HexEscape? ==> !IsXDigit(r[0])
    requires b == 0 ==> !IsOctal(r[0])
    ensures Inside(LiteralText(b) + r) == Cons(b, Inside(r))
  {
    if b == 0 {
      assert LiteralText(b) + r == "\\" + ("0" + r);
      ReadOctal("0", r);
      assert "0"[..0] == [];
    } else if LiteralFormat(b).SpecialEscape? {
      var c := SimpleText(b);
      assert LiteralText(b) + r == "\\" + ([c] + r);
      ReadSimple(c, r);
    } else if LiteralFormat(b).HexEscape? {
      var h := FormatHex(b);
      HexText(h, r);
      FormatHexReads(b);
      ReadHex(h, r);
    } else {
      assert LiteralText(b) == [b as char];
      ReadAsIs(b, r);
    }
  }

  lemma ReadSplit(t: string)
    ensures Inside("\" \"" + t) == Inside(t)
  {
    var u := "\" \"" + t;
    var v, w := " \"" + t, "\"" + t;
    assert u[1..] == v && v[1..] == w && w[1..] == t;
    assert Inside(u) == Outside(v);
    assert Outside(v) == Outside(w);
  }

  // ----- the whole text

  lemma DigitText(s: seq<Byte>)
    requires s != [] && OctalByte(s[0])
    ensures Rest(s, false) == [s[0] as char] + Rest(s[1..], false)
  {}

  lemma NulText(s: seq<Byte>)
    requires s != [] && s[0] == 0
    ensures Rest(s, false) == "\\" + ("0" + Rest(s[1..], false))
  {}

  /** A NUL before octal digits swallows one of them. */
  lemma NulReadsOne(s: seq<Byte>)
    requires |s| >= 2 && s[0] == 0 && OctalByte(s[1]) && !(|s| >= 3 && OctalByte(s[2]))
    ensures Inside(Rest(s, false)) == Cons(s[1] - 48, Inside(Rest(s[2..], false)))
  {
    var d, r := s[1] as char, Rest(s[2..], false);
    NulText(s);
    DigitText(s[1..]);
    assert s[1..][1..] == s[2..];
    OctalStarts(s[2..]);
    assert "0" + ([d] + r) == ['0', d] + r;
    ReadOctal(['0', d], r);
    OctalTwo(d);
  }

  lemma TwoDigitText(s: seq<Byte>)
    requires |s| >= 3 && s[0] == 0 && OctalByte(s[1]) && OctalByte(s[2])
    ensures Rest(s, false) == "\\" + (['0', s[1] as char, s[2] as char] + Rest(s[3..], false))
  {
    var d, e, r := s[1] as char, s[2] as char, Rest(s[3..], false);
    NulText(s);
    DigitText(s[1..]);
    DigitText(s[2..]);
    assert s[1..][1..] == s[2..] && s[2..][1..] == s[3..];
    ThreeThen(d, e, r);
  }

  lemma ThreeThen(d: char, e: char, r: string)
    ensures "0" + ([d] + ([e] + r)) == ['0', d, e] + r
  {}

  /** A NUL before octal digits swallows two of them. */
  lemma NulReadsTwo(s: seq<Byte>)
    requires |s| >= 3 && s[0] == 0 && OctalByte(s[1]) && OctalByte(s[2])
    ensures Inside(Rest(s, false)) == Cons((s[1] - 48) * 8 + (s[2] - 48), Inside(Rest(s[3..], false)))
  {
    var d, e, r := s[1] as char, s[2] as char, Rest(s[3..], false);
    TwoDigitText(s);
    ReadOctal(['0', d, e], r);
    OctalThree(d, e);
  }

  lemma OctalTwo(d: char)
    requires IsOctal(d)
    ensures Value(['0', d], 8) == d as int - 48
  {
    assert ['0', d][..1] == ['0'] && ['0'][..0] == [];
  }

  lemma OctalThree(d: char, e: char)
    requires IsOctal(d) && IsOctal(e)
    ensures Value(['0', d, e], 8) == (d as int - 48) * 8 + (e as int - 48)
  {
    OctalTwo(d);
    assert ['0', d, e][..2] == ['0', d];
  }

  /** The printed body reads back as its meaning, whatever escape came before it. */
  lemma {:induction false} BodyReads(s: seq<Byte>, previousHex: bool)
    ensures Inside(Rest(s, previousHex)) == Some(Meaning(s))
    decreases |s|, previousHex
  {
    if s == [] {
      assert Rest(s, previousHex) == "\"";
    } else if previousHex && IsXDigit(s[0] as char) {
      BodyReads(s, false);
      assert Rest(s, true) == "\" \"" + Rest(s, false);
      ReadSplit(Rest(s, false));
    } else if |s| >= 2 && s[0] == 0 && OctalByte(s[1]) {
      assert Rest(s, previousHex) == Rest(s, false);
      if |s| >= 3 && OctalByte(s[2]) {
        BodyReads(s[3..], false);
        NulReadsTwo(s);
      } else {
        BodyReads(s[2..], false);
        NulReadsOne(s);
      }
    } else {
      var hex := LiteralFormat(s[0]).HexEscape?;
      RestCons(s, previousHex);
      BodyReads(s[1..], hex);
      HexEnds(s[1..]);
      OctalStarts(s[1..]);
      ReadByte(s[0], Rest(s[1..], hex));
    }
  }

  /** Every printed string is well formed, and reads back as its meaning. */
  lemma PrintedReads(s: seq<Byte>)
    ensures Outside(Printed(s)) == Some(Meaning(s))
  {
    BodyReads(s, false);
    assert Printed(s)[1..] == Rest(s, false);
  }

  lemma {:induction false} MeaningLength(s: seq<Byte>)
    ensures |Meaning(s)| <= |s|
    ensures (exists i :: NulThenOctal(s, i)) ==> |Meaning(s)| < |s|
    ensures !(exists i :: NulThenOctal(s, i)) ==> Meaning(s) == s
  {
    if s != [] {
      if NulThenOctal(s, 0) {
        MeaningLength(s[2..]);
        if |s| >= 3 { MeaningLength(s[3..]); }
      } else {
        MeaningLength(s[1..]);
        forall i | NulThenOctal(s, i) ensures NulThenOctal(s[1..], i - 1) {}
        forall i | NulThenOctal(s[1..], i) ensures NulThenOctal(s, i + 1) {}
      }
    }
  }

  /** The round trip holds if and only if no NUL is followed by an octal digit. */
  lemma RoundTripExact(s: seq<Byte>)
    ensures Outside(Printed(s)) == Some(s) <==> !(exists i :: NulThenOctal(s, i))
  {
    PrintedReads(s);
    MeaningLength(s);
  }
}
