/** The scanner's cursor arithmetic as the machine does it: `position`,
    `block_count` and the size are 64-bit unsigned integers (`size_t`,
    `unsigned long long`), so every sum and product is taken modulo 2^64.
    The main model (module TarScanner) computes with unbounded integers;
    this module shows where the two part ways: a size field large enough
    makes the cursor wrap around to the start of the archive, and the scan
    then never ends. */
module SizeT {
  import opened LibC
  import opened TarHeader
  import opened TarScanner

  /** Reduction of an unsigned 64-bit result. */
  function Wrap(x: nat): (r: nat)
    ensures r < Two64
    ensures x < Two64 ==> r == x
  {
    if x < Two64 then x else x % Two64
  }

  /** `(fileSize + BLOCK_SIZE - 1) / BLOCK_SIZE` in `unsigned long long`. */
  function BodyBlocks64(size: nat): (n: nat)
    ensures size + 511 < Two64 ==> n == BodyBlocks(size)
  {
    Wrap(size + 511) / 512
  }

  /** The block count of a header as the machine computes it: the sum of
      the declared size and the walk's total wraps, and so does the sum of
      the two block counts of a directory. */
  function BlockCount64(h: Header, probe: Probe): (c: Option<nat>)
    ensures c.None? <==> BlockCount(h, probe).None?
  {
    if Classify(h.typeFlag) == Directory then
      match probe(h.name)
      case None => None
      case Some(extra) => Some(Wrap(BodyBlocks64(h.size) + BodyBlocks64(Wrap(h.size + extra))))
    else
      Some(BodyBlocks64(h.size))
  }

  /** `position += BLOCK_SIZE; ... position += block_count * (BLOCK_SIZE + 1)`
      in `size_t`. */
  function Advance64(position: nat, n: nat): (p: nat)
    ensures p < Two64
  {
    Wrap(Wrap(position + 512) + Wrap(n * 513))
  }

  /** One turn of the loop as written, from cursor `position`: the next
      cursor, or None when this turn ends the scan (end of data, a short
      read, a block without the magic, a failed directory walk). */
  function Next64(archive: seq<byte>, probe: Probe, position: nat): (next: Option<nat>)
    ensures next.Some? ==> position + BlockSize <= |archive|
  {
    if position + BlockSize > |archive| then None
    else
      var block := archive[position..position + BlockSize];
      if !HasUstarMagic(block) then None
      else
        var h := DecodeHeader(block);
        match BlockCount64(h, probe)
        case None => None
        case Some(n) => Some(Advance64(position, n))
  }

  /** The loop as written, as a map from a cursor to the next. */
  function Cursor64(archive: seq<byte>, probe: Probe): nat -> Option<nat>
  {
    (p: nat) => Next64(archive, probe, p)
  }

  /** The cursor after `k` turns of a loop whose turn is `next`, starting
      from 0, or None when the loop ended before; it can only have ended
      after a turn. */
  function Iterate(next: nat -> Option<nat>, k: nat): (r: Option<nat>)
    ensures r.None? ==> k > 0
  {
    if k == 0 then Some(0)
    else
      match Iterate(next, k - 1)
      case None => None
      case Some(p) => next(p)
  }

  // ---------------------------------------------------------------------
  // Where no sum reaches 2^64, the machine agrees with the main model.

  /** A header whose sizes stay below 2^64 - 511 gets the same block count
      from the machine as from the unbounded model. */
  lemma BlockCountAgrees(h: Header, probe: Probe)
    requires h.size + 511 < Two64
    requires Classify(h.typeFlag) == Directory && probe(h.name).Some? ==>
      h.size + probe(h.name).value + 511 < Two64 && BlockCount(h, probe).value < Two64
    ensures BlockCount64(h, probe) == BlockCount(h, probe)
  {
    assert BodyBlocks64(h.size) == BodyBlocks(h.size);
    if Classify(h.typeFlag) == Directory && probe(h.name).Some? {
      var extra := probe(h.name).value;
      assert Wrap(h.size + extra) == h.size + extra;
      assert BodyBlocks64(h.size + extra) == BodyBlocks(h.size + extra);
    }
  }

  /** Without wrap-around, one turn as written moves the cursor exactly as
      the main model's step does. */
  lemma NextAgrees(archive: seq<byte>, probe: Probe, position: nat, h: Header, n: nat)
    requires StepAt(archive, probe, position) == Accept(h, Some(n))
    requires BlockCount64(h, probe) == Some(n) && position + Stride(n) < Two64
    ensures Next64(archive, probe, position) == Some(position + Stride(n))
  {
    StepAtCases(archive, probe, position);
  }

  // ---------------------------------------------------------------------
  // An archive on which the cursor wraps.

  function Zeros(k: nat): (z: seq<byte>)
    ensures |z| == k && forall i :: 0 <= i < k ==> z[i] == 0
  {
    seq(k, _ => 0)
  }

  /** The name field of the crafted headers: "a" and NUL padding, up to the
      size field. */
  const NamePart: seq<byte> := ['a' as byte] + Zeros(123)

  /** Everything after the size text: padding, the regular-file flag at
      offset 156, padding, the magic at offset 257, padding. */
  const TailPart: seq<byte> := Zeros(8) + [RegType] + Zeros(100) + Magic + Zeros(250)

  lemma PartsLaidOut()
    ensures |NamePart| == SizeOffset && NamePart[0] == 'a' as byte && NamePart[1] == 0
    ensures |TailPart| == 364 && TailPart[8] == RegType
    ensures forall k :: 0 <= k < 5 ==> TailPart[109 + k] == Magic[k]
  {
  }

  /** A ustar header block for a regular file named "a" whose size field,
      starting at offset 124, holds `n` as 23 octal digits and a NUL (the
      text runs on past the 12 bytes of the size field, which `strtoull`
      does not care about). */
  function SizedHeader(n: nat): (b: seq<byte>)
    ensures |b| == BlockSize
  {
    PartsLaidOut();
    NamePart + (OctalDigits(n, 23) + [0] + TailPart)
  }

  /** The block decodes to the name "a", the size `n` and a regular-file
      flag, and carries the magic. */
  lemma SizedHeaderDecodes(n: nat)
    requires n < Pow(8, 22) && n <= ULLongMax
    ensures HasUstarMagic(SizedHeader(n))
    ensures DecodeHeader(SizedHeader(n)) == Header(['a' as byte], n, RegType)
  {
    PartsLaidOut();
    var b := SizedHeader(n);
    var text := OctalDigits(n, 23) + [0] + TailPart;
    assert b[SizeOffset..] == text;
    OctalFieldRoundTrip(n, 23, TailPart);
    assert b[0] == 'a' as byte && b[1] == 0;
    assert NulFrom(b, 1) == 1;
    assert CString(b) == ['a' as byte];
    assert b[TypeFlagOffset] == text[32] == TailPart[8];
    forall k | 0 <= k < 5
      ensures b[MagicOffset + k] == Magic[k]
    {
      assert b[MagicOffset + k] == text[133 + k] == TailPart[109 + k];
    }
  }

  /** The size that wraps the cursor: its block count times 513, plus the
      two header blocks, is exactly 2^64. */
  const WrapSize: nat := 18410785508263723008

  /** The block count of WrapSize. */
  const WrapBlocks: nat := 35958565445827584

  lemma WrapSizeArithmetic()
    ensures WrapSize < Pow(8, 22) && WrapSize <= ULLongMax
    ensures BodyBlocks(WrapSize) == BodyBlocks64(WrapSize) == WrapBlocks
    ensures Advance64(512, WrapBlocks) == 0
    ensures 512 + Stride(WrapBlocks) == Two64
  {
    assert Pow(8, 11) == 8589934592;
    assert Pow(8, 22) == 73786976294838206464;
  }

  /** Two headers: an empty file "a", then a file "a" of size WrapSize. */
  function WrapArchive(): (a: seq<byte>)
    ensures |a| == 2 * BlockSize
    ensures a[0..BlockSize] == SizedHeader(0)
    ensures a[BlockSize..2 * BlockSize] == SizedHeader(WrapSize)
  {
    SizedHeader(0) + SizedHeader(WrapSize)
  }

  /** What the two headers of WrapArchive decode to. */
  lemma WrapArchiveHeaders()
    ensures HasUstarMagic(SizedHeader(0)) && HasUstarMagic(SizedHeader(WrapSize))
    ensures DecodeHeader(SizedHeader(0)) == Header(['a' as byte], 0, RegType)
    ensures DecodeHeader(SizedHeader(WrapSize)) == Header(['a' as byte], WrapSize, RegType)
  {
    WrapSizeArithmetic();
    SizedHeaderDecodes(0);
    SizedHeaderDecodes(WrapSize);
  }

  /** A turn as written on a block that carries the magic and decodes to
      `h` with block count `n`. */
  lemma NextOnHeader(archive: seq<byte>, probe: Probe, position: nat, h: Header, n: nat)
    requires position + BlockSize <= |archive|
    requires HasUstarMagic(archive[position..position + BlockSize])
    requires DecodeHeader(archive[position..position + BlockSize]) == h && BlockCount64(h, probe) == Some(n)
    ensures Next64(archive, probe, position) == Some(Advance64(position, n))
  {
  }

  /** The main model's step on the same kind of block. */
  lemma StepOnHeader(archive: seq<byte>, probe: Probe, position: nat, h: Header)
    requires position + BlockSize <= |archive|
    requires HasUstarMagic(archive[position..position + BlockSize])
    requires DecodeHeader(archive[position..position + BlockSize]) == h
    ensures Steps(archive, probe)(position) == Accept(h, BlockCount(h, probe))
  {
  }

  /** As written, the second header sends the cursor back to 0: the loop
      reads the two headers again and again, listing "a" twice per round,
      and never ends. */
  lemma WrapArchiveNeverEnds(probe: Probe, k: nat)
    ensures Iterate(Cursor64(WrapArchive(), probe), k) == Some(if k % 2 == 0 then 0 else 512)
  {
    var a := WrapArchive();
    WrapArchiveHeaders();
    WrapSizeArithmetic();
    NextOnHeader(a, probe, 0, Header(['a' as byte], 0, RegType), 0);
    NextOnHeader(a, probe, BlockSize, Header(['a' as byte], WrapSize, RegType), WrapBlocks);
    assert Advance64(0, 0) == 512;
    var next := Cursor64(a, probe);
    assert next(0) == Next64(a, probe, 0) == Some(512);
    assert next(512) == Next64(a, probe, 512) == Some(0);
    IterateAlternates(next, k);
  }

  /** A loop whose turn sends 0 to 512 and 512 back to 0 alternates
      between them forever. */
  lemma {:induction false} IterateAlternates(next: nat -> Option<nat>, k: nat)
    requires next(0) == Some(512) && next(512) == Some(0)
    ensures Iterate(next, k) == Some(if k % 2 == 0 then 0 else 512)
  {
    if k > 0 {
      IterateAlternates(next, k - 1);
    }
  }

  /** With the cursor unbounded, the same archive is scanned once: both
      headers are listed and the scan ends at the end of data, the cursor
      far past the archive. */
  lemma WrapArchiveScanEnds(probe: Probe)
    ensures var t := Scan(WrapArchive(), probe);
      && t.visits == [Visit(0, Header(['a' as byte], 0, RegType), Some(0)),
                      Visit(BlockSize, Header(['a' as byte], WrapSize, RegType), Some(WrapBlocks))]
      && FileNames(t.visits) == [['a' as byte], ['a' as byte]]
      && t.stop == EndOfData && t.cursor == Two64
  {
    var a := WrapArchive();
    WrapArchiveHeaders();
    WrapSizeArithmetic();
    var h0 := Header(['a' as byte], 0, RegType);
    var h1 := Header(['a' as byte], WrapSize, RegType);
    StepOnHeader(a, probe, 0, h0);
    StepOnHeader(a, probe, BlockSize, h1);
    assert Stride(0) == BlockSize && |a| == 2 * BlockSize;
    WalkTwoThenEnd(Steps(a, probe), |a|, h0, 0, h1, WrapBlocks);
    assert Scan(a, probe) == Walk(Steps(a, probe), |a|, 0);
    FileNamesOfTwo(Visit(0, h0, Some(0)), Visit(512, h1, Some(WrapBlocks)));
  }

  /** Two accepted headers of regular files list both names, in order. */
  lemma FileNamesOfTwo(v0: Visit, v1: Visit)
    requires Classify(v0.header.typeFlag) == FileLike && Classify(v1.header.typeFlag) == FileLike
    ensures FileNames([v0, v1]) == [v0.header.name, v1.header.name]
  {
    assert [v0, v1][..1] == [v0];
    assert [v0][..0] == [];
    assert FileNames([v0]) == [] + [v0.header.name];
    assert FileNames([v0, v1]) == [v0.header.name] + [v1.header.name];
  }

  /** A walk that accepts a header at 0 and one at the next stride, and
      then lands at or past the end, records exactly those two. */
  lemma WalkTwoThenEnd(step: nat -> Step, end: nat, h0: Header, n0: nat, h1: Header, n1: nat)
    requires Stride(n0) < end <= Stride(n0) + Stride(n1)
    requires step(0) == Accept(h0, Some(n0)) && step(Stride(n0)) == Accept(h1, Some(n1))
    ensures Walk(step, end, 0) ==
      Trace([Visit(0, h0, Some(n0)), Visit(Stride(n0), h1, Some(n1))], EndOfData, Stride(n0) + Stride(n1))
  {
    assert Walk(step, end, Stride(n0)) == Trace([Visit(Stride(n0), h1, Some(n1))], EndOfData, Stride(n0) + Stride(n1));
  }
}
