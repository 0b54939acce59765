/**
 `LineReader`: lines from a file through a fixed buffer that is refilled in chunks.
 The reader is proved against `Lines`, which knows nothing of chunks.
 */
module LineReader {
  import opened Basics

  const LF: char := '\n'

  // ----- what the reader should yield

  /** Position of the first line feed, or the length when there is none. */
  function FirstLF(u: string): (k: nat)
    ensures k <= |u| && LF !in u[..k] && (k < |u| ==> u[k] == LF)
  {
    if u == [] || u[0] == LF then 0 else 1 + FirstLF(u[1..])
  }

  /** A terminated line that fits, line feed included, in `n` characters. */
  predicate HasLine(u: string, n: nat) {
    FirstLF(u) < |u| && FirstLF(u) + 1 <= n
  }

  /** The terminated lines of `u` in order, up to the first that does not fit. */
  function Lines(u: string, n: nat): seq<string> {
    if HasLine(u, n) then [u[..FirstLF(u)]] + Lines(u[FirstLF(u) + 1..], n) else []
  }

  function Join(lines: seq<string>): string {
    if lines == [] then [] else lines[0] + [LF] + Join(lines[1..])
  }

  /** Terminated lines that fit, then text from which no further line fits. */
  ghost predicate Divides(u: string, n: nat, lines: seq<string>, rest: string) {
    && u == Join(lines) + rest
    && (forall i :: 0 <= i < |lines| ==> LF !in lines[i] && |lines[i]| < n)
    && !HasLine(rest, n)
  }

  lemma FirstLFIs(u: string, k: nat)
    requires k <= |u| && LF !in u[..k] && (k < |u| ==> u[k] == LF)
    ensures FirstLF(u) == k
  {}

  lemma Recut(u: string, k: nat)
    requires k < |u|
    ensures u == u[..k] + ([u[k]] + u[k + 1..])
  {}

  lemma JoinCons(line: string, lines: seq<string>, rest: string)
    ensures Join([line] + lines) + rest == line + ([LF] + (Join(lines) + rest))
  {}

  lemma HeadLine(line: string, tail: string)
    requires LF !in line
    ensures var u := line + ([LF] + tail);
            FirstLF(u) == |line| < |u| && u[..|line|] == line && u[|line| + 1..] == tail
  {
    var u := line + ([LF] + tail);
    assert u[..|line|] == line && u[|line|] == LF;
    FirstLFIs(u, |line|);
  }

  lemma {:induction false} LinesDivide(u: string, n: nat) returns (rest: string)
    ensures Divides(u, n, Lines(u, n), rest)
  {
    if HasLine(u, n) {
      var k := FirstLF(u);
      rest := LinesDivide(u[k + 1..], n);
      JoinCons(u[..k], Lines(u[k + 1..], n), rest);
      Recut(u, k);
    } else {
      rest := u;
    }
  }

  /** `Lines` is the one way to divide the text. */
  lemma {:induction false} LinesUnique(u: string, n: nat, lines: seq<string>, rest: string)
    requires Divides(u, n, lines, rest)
    ensures lines == Lines(u, n)
  {
    if lines == [] {
      assert u == rest;
    } else {
      var tail := Join(lines[1..]) + rest;
      assert lines == [lines[0]] + lines[1..];
      JoinCons(lines[0], lines[1..], rest);
      HeadLine(lines[0], tail);
      LinesUnique(tail, n, lines[1..], rest);
    }
  }

  /** The text divides into exactly the lines of `Lines`. */
  lemma LinesMeaning(u: string, n: nat, lines: seq<string>)
    ensures (exists rest :: Divides(u, n, lines, rest)) <==> lines == Lines(u, n)
  {
    if lines == Lines(u, n) {
      var rest := LinesDivide(u, n);
    }
    forall rest | Divides(u, n, lines, rest) ensures lines == Lines(u, n) {
      LinesUnique(u, n, lines, rest);
    }
  }

  /** A window on the start of a text has the text's first line feed, if any. */
  lemma WindowFirst(u: string, w: nat)
    requires w <= |u|
    ensures FirstLF(u[..w]) < w <==> FirstLF(u) < w
    ensures FirstLF(u) < w ==> FirstLF(u[..w]) == FirstLF(u)
  {
    var f := FirstLF(u[..w]);
    assert forall i :: 0 <= i < w ==> u[..w][i] == u[i];
    if f < w {
      assert u[..w][..f] == u[..f];
      FirstLFIs(u, f);
    } else {
      assert u[..w][..f] == u[..w];
    }
  }

  // ----- the reader

  class Reader {
    const file: string        // what the descriptor yields
    var pos: nat              // how much of it has been read
    const buf: array<char>
    var bol: nat
    var eol: int              // -1 for NULL
    var eod: nat

    ghost predicate Valid()
      reads this, buf
    {
      && pos <= |file| && eod <= buf.Length && buf.Length > 0
      && (eod > 0 ==> 0 <= eol < eod)
    }

    /** The text not yet yielded. */
    ghost function Unread(): string
      requires Valid()
      reads this, buf
    {
      if eod == 0 then file[pos..] else buf[eol + 1..eod] + file[pos..]
    }

    constructor (file: string, bufLen: nat)
      requires bufLen > 0
      ensures Valid() && Unread() == file && buf.Length == bufLen && fresh(buf)
    {
      this.file := file;
      pos := 0;
      buf := new char[bufLen];
      bol, eol, eod := 0, 0, 0;
    }

    /** `read`: some of the rest of the file, nothing only at its end, or -1. */
    method Read(at: nat, count: nat) returns (len: int)
      requires pos <= |file| && at + count <= buf.Length
      modifies this`pos, buf
      ensures -1 <= len <= count && pos == old(pos) + (if len < 0 then 0 else len) <= |file|
      ensures len == 0 ==> count == 0 || pos == |file|
      ensures forall i :: at <= i < at + len ==> buf[i] == file[old(pos) + i - at]
      ensures forall i :: 0 <= i < buf.Length && !(at <= i < at + len) ==> buf[i] == old(buf[i])
    {
      var most := if count < |file| - pos then count else |file| - pos;
      len :| -1 <= len <= most && (most > 0 ==> len != 0);
      forall i | 0 <= i < len {
        buf[at + i] := file[pos + i];
      }
      if len > 0 {
        pos := pos + len;
      }
    }

    /** Reads until `count` bytes have come or the file ends; -1 on an error. */
    method ReadPersistent(at: nat, count: nat) returns (numBytes: int)
      requires pos <= |file| && at + count <= buf.Length
      modifies this`pos, buf
      ensures -1 <= numBytes <= count && pos <= |file|
      ensures numBytes >= 0 ==> pos == old(pos) + numBytes && buf[at..at + numBytes] == file[old(pos)..pos]
      ensures numBytes >= 0 ==> numBytes == count || pos == |file|
      ensures forall i :: 0 <= i < at ==> buf[i] == old(buf[i])
      ensures numBytes == 0 ==> forall i :: 0 <= i < buf.Length ==> buf[i] == old(buf[i])
    {
      numBytes := 0;
      while numBytes < count
        invariant 0 <= numBytes <= count && pos == old(pos) + numBytes <= |file|
        invariant forall i :: at <= i < at + numBytes ==> buf[i] == file[old(pos) + i - at]
        invariant forall i :: 0 <= i < buf.Length && !(at <= i < at + numBytes) ==> buf[i] == old(buf[i])
      {
        var len := Read(at + numBytes, count - numBytes);
        if len < 0 {
          return -1;
        }
        if len == 0 {
          break;
        }
        numBytes := numBytes + len;
      }
    }

    /** `memchr` from `bol` to the end of the data. */
    method FindLineFeed() returns (at: int)
      requires bol <= eod <= buf.Length
      ensures var k := FirstLF(buf[bol..eod]); at == if k < eod - bol then bol + k else -1
    {
      var i := bol;
      while i < eod && buf[i] != LF
        invariant bol <= i <= eod && LF !in buf[bol..i]
      {
        i := i + 1;
      }
      assert buf[bol..eod][..i - bol] == buf[bol..i];
      FirstLFIs(buf[bol..eod], i - bol);
      return if i < eod then i else -1;
    }

    /** Moves the unfinished line to the front and reads on behind it. */
    method Refill() returns (numBytes: int)
      requires pos <= |file| && bol <= eod <= buf.Length
      modifies this`pos, this`bol, this`eod, buf
      ensures pos <= |file| && eod <= buf.Length
      ensures if numBytes > 0 then bol == 0 else bol == old(bol) && eod == old(eod)
      ensures numBytes > 0 ==> buf[..eod] + file[pos..] == old(buf[bol..eod] + file[pos..])
      ensures numBytes > 0 ==> eod > 0 && (eod == buf.Length || pos == |file|)
      ensures numBytes == 0 ==> old(pos) == pos && (pos == |file| || old(eod - bol) == buf.Length)
      ensures numBytes == 0 && old(LF !in buf[bol..eod]) ==> LF !in buf[bol..eod]
    {
      var kept := eod - bol;
      ghost var line := buf[bol..eod];
      forall i | 0 <= i < kept {
        buf[i] := buf[bol + i];
      }
      assert buf[..kept] == line && forall i :: kept <= i < eod ==> buf[i] == old(buf[i]);
      numBytes := ReadPersistent(kept, buf.Length - kept);
      if numBytes > 0 {
        eod := kept + numBytes;
        bol := 0;
        assert buf[..kept] == line;
        assert buf[..eod] == buf[..kept] + buf[kept..eod];
        assert file[old(pos)..] == file[old(pos)..pos] + file[pos..];
      }
    }

    /** The line to yield next starts at `bol`, and the buffer holds it if it fits at all. */
    ghost predicate InView(u: string)
      reads this, buf
    {
      && pos <= |file| && bol <= eod <= buf.Length && 0 < eod
      && buf[bol..eod] + file[pos..] == u
      && (FirstLF(buf[bol..eod]) < eod - bol || eod - bol == buf.Length || pos == |file|)
    }

    /** First call: fill the buffer. */
    method Fill(ghost u: string) returns (more: bool, failed: bool)
      requires Valid() && eod == 0 && u == Unread()
      modifies this`pos, this`bol, this`eod, buf
      ensures more ==> InView(u) && !failed
      ensures !more && !failed ==> u == []
      ensures !more ==> Valid() && (!failed ==> LF !in Unread())
    {
      var numBytes := ReadPersistent(0, buf.Length);
      if numBytes <= 0 {
        return false, numBytes < 0;
      }
      eod := numBytes;
      bol := 0;
      assert u == u[..numBytes] + u[numBytes..];
      return true, false;
    }

    /** Later calls: step over the last line, refill if need be. */
    method Advance(ghost u: string) returns (more: bool, failed: bool)
      requires Valid() && eod > 0 && u == Unread()
      modifies this`pos, this`bol, this`eod, buf
      ensures more ==> InView(u) && !failed
      ensures !more && !failed ==> LF !in u
      ensures !more ==> Valid() && (!failed ==> LF !in Unread())
    {
      bol := eol + 1;
      var found := FindLineFeed();
      if found >= 0 {
        return true, false;
      }
      ghost var line := buf[bol..eod];
      var numBytes := Refill();
      if numBytes <= 0 {
        if numBytes == 0 { DropEmpty(line, file[pos..]); }
        return false, numBytes < 0;
      }
      assert buf[bol..eod] == buf[..eod];
      return true, false;
    }

    /**
     `failed` says whether a read error ended it.  A reader that has met the end of
     the file or an error may be asked again; one that holds no line feed has NULL in
     `eol`, from which the program's next call would start.
     */
    method ReadLine() returns (ok: bool, failed: bool)
      requires Valid()
      modifies this, buf
      ensures ok ==> HasLine(old(Unread()), buf.Length) && !failed
      ensures !ok && !failed ==> !HasLine(old(Unread()), buf.Length)
      ensures Valid() || (!ok && !failed && eol == -1)
      ensures !ok && !failed && eol >= 0 ==> LF !in Unread()
      ensures ok ==> Valid() && 0 <= bol <= eol < buf.Length && buf[eol] == NUL
      ensures ok ==> var u := old(Unread()); buf[bol..eol] == u[..FirstLF(u)] && Unread() == u[FirstLF(u) + 1..]
    {
      ghost var u := Unread();
      var more;
      if eod == 0 {
        more, failed := Fill(u);
      } else {
        more, failed := Advance(u);
      }
      if !more {
        return false, failed;
      }
      ok := TakeLine(u);
      return ok, false;
    }

    /** Ends the line in view at its line feed, if the buffer holds one. */
    method TakeLine(ghost u: string) returns (ok: bool)
      requires InView(u)
      modifies this`eol, buf
      ensures ok <==> HasLine(u, buf.Length)
      ensures if ok then Valid() && bol <= eol < buf.Length && buf[eol] == NUL else eol == -1
      ensures ok ==> buf[bol..eol] == u[..FirstLF(u)] && Unread() == u[FirstLF(u) + 1..]
    {
      eol := FindLineFeed();
      ghost var window, tail := buf[bol..eod], file[pos..];
      if eol < 0 {
        NoLineInView(window, tail, buf.Length);
        return false;
      }
      CutLine(window, tail);
      Terminate();
      return true;
    }

    /** Replaces the line feed by a NUL. */
    method Terminate()
      requires bol <= eol < eod <= buf.Length
      modifies buf
      ensures buf[eol] == NUL && buf[bol..eol] == old(buf[bol..eod])[..eol - bol]
      ensures buf[eol + 1..eod] == old(buf[bol..eod])[eol - bol + 1..]
    {
      buf[eol] := NUL;
    }
  }

  lemma CutLine(window: string, tail: string)
    requires FirstLF(window) < |window|
    ensures var k := FirstLF(window);
            && FirstLF(window + tail) == k && (window + tail)[..k] == window[..k]
            && (window + tail)[k + 1..] == window[k + 1..] + tail
  {
    var k := FirstLF(window);
    CutAt(window, tail, k);
    FirstLFIs(window + tail, k);
  }

  lemma NoLineInView(window: string, tail: string, n: nat)
    requires FirstLF(window) == |window| && (|window| == n || tail == [])
    ensures !HasLine(window + tail, n)
  {
    assert (window + tail)[..|window|] == window;
    WindowFirst(window + tail, |window|);
  }

  lemma DropEmpty(a: string, b: string)
    requires b == []
    ensures a + b == a
  {}

  lemma CutAt(window: string, tail: string, k: nat)
    requires k < |window|
    ensures (window + tail)[..k] == window[..k]
    ensures (window + tail)[k + 1..] == window[k + 1..] + tail
    ensures (window + tail)[k] == window[k]
  {}

  lemma CollectLine(u: string, n: nat, lines: seq<string>, all: seq<string>)
    requires HasLine(u, n) && lines + Lines(u, n) == all
    ensures (lines + [u[..FirstLF(u)]]) + Lines(u[FirstLF(u) + 1..], n) == all
  {
    Regroup(lines, u[..FirstLF(u)], Lines(u[FirstLF(u) + 1..], n));
  }

  lemma Regroup(a: seq<string>, b: string, c: seq<string>)
    ensures (a + [b]) + c == a + ([b] + c)
  {}

  /** Reads a whole file: the lines yielded before the first false, which a read error may bring early. */
  method ReadLines(file: string, bufLen: nat) returns (lines: seq<string>, failed: bool)
    requires bufLen > 0
    ensures lines <= Lines(file, bufLen)
    ensures !failed ==> lines == Lines(file, bufLen)
  {
    var reader := new Reader(file, bufLen);
    lines := [];
    ghost var u := file;
    while true
      invariant reader.Valid() && reader.buf.Length == bufLen && reader.Unread() == u
      invariant fresh(reader) && fresh(reader.buf)
      invariant lines + Lines(u, bufLen) == Lines(file, bufLen)
      decreases |u|
    {
      var ok;
      ok, failed := reader.ReadLine();
      if !ok {
        return;
      }
      CollectLine(u, bufLen, lines, Lines(file, bufLen));
      lines := lines + [reader.buf[reader.bol..reader.eol]];
      u := u[FirstLF(u) + 1..];
    }
  }
}
