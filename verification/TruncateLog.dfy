/** `TruncateLogFile`: keep the end of a log file by copying it down over the start, block by block. */
module TruncateLog {

  const COPY_BLOCK_SIZE: nat := 8192

  function Overwritten(data: string, offset: nat, piece: string): string
    requires offset + |piece| <= |data|
  {
    data[..offset] + piece + data[offset + |piece|..]
  }

  class LogFile {
    var data: string

    constructor (data: string)
      ensures this.data == data
    {
      this.data := data;
    }

    /** Some bytes from `offset` on: none only at the end of the file or on failure. */
    method Pread(count: nat, offset: nat) returns (ok: bool, block: string)
      requires count > 0
      ensures !ok ==> block == []
      ensures |block| <= count
      ensures block != [] ==> offset + |block| <= |data| && block == data[offset..offset + |block|]
      ensures ok && block == [] ==> offset >= |data|
    {
      ok :| ok || !ok;
      if !ok || offset >= |data| {
        return ok, [];
      }
      var n :| 1 <= n <= count && offset + n <= |data|;
      block := data[offset..offset + n];
    }

    /** `pwrite`: some prefix of `block`, or -1 on failure. */
    method Pwrite(block: string, offset: nat) returns (written: int)
      requires offset + |block| <= |data|
      modifies this
      ensures -1 <= written <= |block|
      ensures data == if written < 0 then old(data) else Overwritten(old(data), offset, block[..written])
    {
      written :| -1 <= written <= |block|;
      if written >= 0 {
        data := Overwritten(data, offset, block[..written]);
      }
    }

    /** `ftruncate`, which may fail. */
    method Ftruncate(size: nat) returns (ok: bool)
      requires size <= |data|
      modifies this
      ensures data == if ok then old(data)[..size] else old(data)
    {
      ok :| ok || !ok;
      if ok {
        data := data[..size];
      }
    }
  }

  /** The last `keep` bytes. */
  function Last(s: string, keep: int): string
    requires keep < |s|
  {
    if keep <= 0 then [] else s[|s| - keep..]
  }

  /** The rounds of the loop, the latest outermost: a block read, and how much of it was written. */
  datatype Copies = Start | Then(before: Copies, block: string, written: nat)

  predicate Fits(c: Copies) {
    c.Then? ==> Fits(c.before) && c.written <= |c.block|
  }

  predicate Short(c: Copies) {
    c.Then? && (Short(c.before) || c.written != |c.block|)
  }

  /** All that was read. */
  function Blocks(c: Copies): string {
    if c.Start? then [] else Blocks(c.before) + c.block
  }

  /** All that was written: of each block the part the system accepted. */
  function Kept(c: Copies): string
    requires Fits(c)
  {
    if c.Start? then [] else Kept(c.before) + c.block[..c.written]
  }

  lemma {:induction false} KeptShorter(c: Copies)
    requires Fits(c)
    ensures |Kept(c)| <= |Blocks(c)|
  {
    if c.Then? {
      KeptShorter(c.before);
    }
  }

  /** Without a short write the two are the same. */
  lemma {:induction false} KeptWhole(c: Copies)
    requires Fits(c) && !Short(c)
    ensures Kept(c) == Blocks(c)
  {
    if c.Then? {
      KeptWhole(c.before);
    }
  }

  /** What went wrong, as the log would tell. */
  datatype Trouble = Trouble(readError: bool, writeError: bool, shortWrite: bool, truncateError: bool)

  const NO_TROUBLE := Trouble(false, false, false, false)

  /** The blocks read are a prefix of the last `keep` bytes. */
  ghost predicate Tiles(was: string, keep: int, c: Copies) {
    keep < |was| && Fits(c) && Blocks(c) <= Last(was, keep)
  }

  /** The front of the file replaced by what was written. */
  function Front(was: string, kept: string): string
    requires |kept| <= |was|
  {
    kept + was[|kept|..]
  }

  /** The loop has read as far as `r`. */
  ghost predicate ReadTo(was: string, keep: int, c: Copies, r: int) {
    && Tiles(was, keep, c) && r == |was| - keep + |Blocks(c)|
    && |Kept(c)| <= r && |Kept(c)| <= |was|
  }

  lemma PrefixMore(was: string, keep: int, done: string, block: string)
    requires 0 < keep < |was| && done <= Last(was, keep)
    requires var r := |was| - keep + |done|; r + |block| <= |was| && block == was[r..r + |block|]
    ensures done + block <= Last(was, keep)
  {
    var last := Last(was, keep);
    assert last[..|done| + |block|] == last[..|done|] + last[|done|..|done| + |block|];
  }

  /** Writing lags behind reading, so what is read has not been overwritten. */
  lemma ReadAhead(was: string, kept: string, r: nat, n: nat)
    requires |kept| <= r && r + n <= |was|
    ensures Front(was, kept)[r..r + n] == was[r..r + n]
  {}

  lemma WriteBehind(was: string, kept: string, piece: string)
    requires |kept| + |piece| <= |was|
    ensures Overwritten(Front(was, kept), |kept|, piece) == Front(was, kept + piece)
  {}

  lemma ReadFurther(was: string, keep: int, c: Copies, r: nat, block: string, m: nat)
    requires ReadTo(was, keep, c, r) && block != [] && m <= |block|
    requires r + |block| <= |was| && block == was[r..r + |block|]
    ensures ReadTo(was, keep, Then(c, block, m), r + |block|)
  {
    PrefixMore(was, keep, Blocks(c), block);
  }

  /** A block was read at `r` and its first `m` bytes are written after what was kept so far. */
  lemma CopyBlock(was: string, keep: int, c: Copies, r: nat, block: string, m: nat)
    requires ReadTo(was, keep, c, r) && block != [] && m <= |block|
    requires r + |block| <= |was| && block == Front(was, Kept(c))[r..r + |block|]
    ensures ReadTo(was, keep, Then(c, block, m), r + |block|)
    ensures Overwritten(Front(was, Kept(c)), |Kept(c)|, block[..m]) == Front(was, Kept(Then(c, block, m)))
  {
    ReadAhead(was, Kept(c), r, |block|);
    ReadFurther(was, keep, c, r, block, m);
    WriteBehind(was, Kept(c), block[..m]);
  }

  /** At the end of the file nothing of the last `keep` bytes is missing. */
  lemma AllRead(was: string, keep: int, c: Copies)
    requires Tiles(was, keep, c) && |was| - keep + |Blocks(c)| >= |was|
    ensures Blocks(c) == Last(was, keep)
  {}

  /**
   A file above both limits is left with what was written of the blocks that make
   up its last `keep` bytes, or a prefix of them after a read or write error; if
   the file cannot be cut, the rest of it follows unchanged.  Without trouble it is
   left with its last `keep` bytes.  Any other file is left alone.
   */
  method TruncateLogFile(file: LogFile, limit: int, keep: int) returns (t: Trouble, ghost c: Copies)
    modifies file
    ensures |old(file.data)| <= limit || |old(file.data)| <= keep ==> t == NO_TROUBLE && file.data == old(file.data)
    ensures |old(file.data)| > limit && |old(file.data)| > keep ==>
      var was, last := old(file.data), Last(old(file.data), keep);
      && Tiles(was, keep, c) && (!t.readError && !t.writeError ==> Blocks(c) == last)
      && t.shortWrite == Short(c) && |Kept(c)| <= |last| && (!t.shortWrite ==> Kept(c) == Blocks(c))
      && file.data == (if t.truncateError then Front(was, Kept(c)) else Kept(c))
      && (t == NO_TROUBLE ==> file.data == last)
  {
    c := Start;
    if |file.data| <= limit || |file.data| <= keep {
      return NO_TROUBLE, c;
    }
    var size;
    t, size, c := CopyDown(file, keep);
    KeptShorter(c);
    if !Short(c) {
      KeptWhole(c);
    }
    var ok := file.Ftruncate(size);
    t := t.(truncateError := !ok);
  }

  /** The copy loop; `size` is how far it got. */
  method CopyDown(file: LogFile, keep: int) returns (t: Trouble, size: nat, ghost c: Copies)
    requires keep < |file.data|
    modifies file
    ensures Tiles(old(file.data), keep, c) && t.shortWrite == Short(c) && !t.truncateError
    ensures size == |Kept(c)| <= |old(file.data)| && file.data == Front(old(file.data), Kept(c))
    ensures !t.readError && !t.writeError ==> Blocks(c) == Last(old(file.data), keep)
  {
    ghost var was := file.data;
    var readOffset: nat, writeOffset: nat := |file.data| - keep, 0;
    t, c := NO_TROUBLE, Start;
    while true
      invariant ReadTo(was, keep, c, readOffset) && writeOffset == |Kept(c)|
      invariant file.data == Front(was, Kept(c))
      invariant t == NO_TROUBLE.(shortWrite := Short(c))
      decreases |was| - readOffset
    {
      var ok, block := file.Pread(COPY_BLOCK_SIZE, readOffset);
      if block == [] {
        if ok { AllRead(was, keep, c); }
        return t.(readError := !ok), writeOffset, c;
      }
      var bytesOut := file.Pwrite(block, writeOffset);
      if bytesOut == -1 {
        return t.(writeError := true), writeOffset, c;
      }
      CopyBlock(was, keep, c, readOffset, block, bytesOut);
      c := Then(c, block, bytesOut);
      t := t.(shortWrite := t.shortWrite || bytesOut != |block|);
      readOffset, writeOffset := readOffset + |block|, writeOffset + bytesOut;
    }
  }
}
