/** The archive scanner, `parseTarFile`: it checks that the archive is a
    whole number of 512-byte blocks, then walks it header by header, files
    each entry's name into the file catalog or the directory catalog by its
    type flag, and moves its cursor past the entry's body.

    The cursor arithmetic is the source's own: each header moves the cursor
    by 512 bytes plus 513 bytes per body block, and a directory's block
    count adds the blocks of its declared size to the blocks of its declared
    size plus the total size of the files found under it on disk. */
module TarScanner {
  import opened LibC
  import opened TarHeader

  datatype Option<T> = None | Some(value: T)

  /** An entry path as the archive stores it (bytes, no NUL). */
  type Name = seq<byte>

  /** The directory walk of the scanner: the total size of the
      non-directory files under a path on the live filesystem, or None when
      the walk raises an error. */
  type Probe = Name -> Option<nat>

  /** Why scanning ended. */
  datatype Stop =
    | EndOfData   // the cursor reached the end of the archive
    | ShortBlock  // fewer than 512 bytes remain at the cursor
    | NotUstar    // the block at the cursor does not carry the ustar magic
    | WalkFailed  // the directory walk for the last header raised an error

  /** What the loop body makes of the block at the cursor: a short read, a
      block without the ustar magic, or a header accepted together with its
      block count (None when the directory walk raised an error). */
  datatype Step = ShortRead | BadMagic | Accept(header: Header, count: Option<nat>)

  /** A header the scanner accepted, the offset it was read at, and the
      block count computed for it. */
  datatype Visit = Visit(offset: nat, header: Header, count: Option<nat>)

  /** The headers accepted in order, why scanning ended, and where the
      cursor stood then. */
  datatype Trace = Trace(visits: seq<Visit>, stop: Stop, cursor: nat)

  /** The `block_count` the scanner computes for a header: the blocks of its
      declared size, and for a directory additionally the blocks of its
      declared size plus what the walk found on disk; None when that walk
      fails. */
  function BlockCount(h: Header, probe: Probe): (c: Option<nat>)
    ensures c.None? ==> Classify(h.typeFlag) == Directory && probe(h.name).None?
    ensures Classify(h.typeFlag) != Directory ==> c == Some(BodyBlocks(h.size))
  {
    if Classify(h.typeFlag) == Directory then
      match probe(h.name)
      case None => None
      case Some(extra) => Some(BodyBlocks(h.size) + BodyBlocks(h.size + extra))
    else
      Some(BodyBlocks(h.size))
  }

  /** How far the cursor moves past a header whose block count is `n`: the
      header block itself plus `n * (BLOCK_SIZE + 1)` bytes. */
  function Stride(n: nat): (s: nat)
    ensures s >= BlockSize
  {
    512 + n * 513
  }

  /** The loop body at cursor `position` (below the archive length): a
      read of fewer than 512 bytes ends the loop, as does a block whose
      magic is not "ustar"; otherwise the header is decoded and its block
      count computed. */
  function StepAt(archive: seq<byte>, probe: Probe, position: nat): (r: Step)
    ensures r == ShortRead <==> position + BlockSize > |archive|
  {
    if position + BlockSize > |archive| then ShortRead
    else
      var block := archive[position..position + BlockSize];
      if !HasUstarMagic(block) then BadMagic
      else
        var h := DecodeHeader(block);
        Accept(h, BlockCount(h, probe))
  }

  /** The loop driven by any step decision: while the cursor is below
      `end`, take the step there, record an accepted header, and move the
      cursor one stride on. The cursor never moves back. */
  function Walk(step: nat -> Step, end: nat, position: nat): (t: Trace)
    ensures t.cursor >= position
    decreases end - position
  {
    if position >= end then Trace([], EndOfData, position)
    else
      match step(position)
      case ShortRead => Trace([], ShortBlock, position)
      case BadMagic => Trace([], NotUstar, position)
      case Accept(h, None) => Trace([Visit(position, h, None)], WalkFailed, position + BlockSize)
      case Accept(h, Some(n)) =>
        var rest := Walk(step, end, position + Stride(n));
        Trace([Visit(position, h, Some(n))] + rest.visits, rest.stop, rest.cursor)
  }

  /** The step decision of the scanner on `archive`. */
  function Steps(archive: seq<byte>, probe: Probe): nat -> Step
  {
    (p: nat) => StepAt(archive, probe, p)
  }

  /** The headers the scanner reads from cursor `position` on. */
  function ScanFrom(archive: seq<byte>, probe: Probe, position: nat): (t: Trace)
    ensures t.cursor >= position
  {
    Walk(Steps(archive, probe), |archive|, position)
  }

  /** The scan of a whole archive. The empty archive is scanned without
      reading a block: nothing is listed. */
  function Scan(archive: seq<byte>, probe: Probe): (t: Trace)
    ensures archive == [] ==> t == Trace([], EndOfData, 0)
  {
    ScanFrom(archive, probe, 0)
  }

  /** What one header adds to the catalog of entries of `kind`: its name
      when the type flag files it there, nothing otherwise. */
  function Listed(h: Header, kind: EntryKind): (names: seq<Name>)
    ensures names == [h.name] <==> Classify(h.typeFlag) == kind
    ensures names == [] <==> Classify(h.typeFlag) != kind
  {
    if Classify(h.typeFlag) == kind then [h.name] else []
  }

  /** The file catalog a run of headers produces, in archive order: at
      most one name per header. */
  function FileNames(vs: seq<Visit>): (names: seq<Name>)
    ensures |names| <= |vs|
  {
    if vs == [] then []
    else
      var v := vs[|vs| - 1];
      FileNames(vs[..|vs| - 1]) + Listed(v.header, FileLike)
  }

  /** The directory catalog a run of headers produces, in archive order:
      at most one name per header. */
  function DirNames(vs: seq<Visit>): (names: seq<Name>)
    ensures |names| <= |vs|
  {
    if vs == [] then []
    else
      var v := vs[|vs| - 1];
      DirNames(vs[..|vs| - 1]) + Listed(v.header, Directory)
  }

  // ---------------------------------------------------------------------
  // The loop, for any step decision.

  /** Unless a directory walk failed, the loop ended because the cursor
      reached `end` or because the step at the cursor halted. */
  lemma {:induction false} WalkStop(step: nat -> Step, end: nat, position: nat)
    ensures var t := Walk(step, end, position);
      && (t.stop == EndOfData ==> t.cursor >= end)
      && (t.stop == ShortBlock ==> t.cursor < end && step(t.cursor) == ShortRead)
      && (t.stop == NotUstar ==> t.cursor < end && step(t.cursor) == BadMagic)
    decreases end - position
  {
    if position < end {
      match step(position)
      case ShortRead =>
      case BadMagic =>
      case Accept(_, None) =>
      case Accept(_, Some(n)) =>
        WalkStop(step, end, position + Stride(n));
    }
  }

  /** Every recorded header is what the step accepted at its offset, below
      `end`; the first was read at the start position; consecutive headers
      are one stride apart. */
  lemma {:induction false} WalkVisits(step: nat -> Step, end: nat, position: nat)
    ensures var t := Walk(step, end, position);
      && (t.visits != [] ==> t.visits[0].offset == position)
      && (forall i :: 0 <= i < |t.visits| ==>
            t.visits[i].offset < end && step(t.visits[i].offset) == Accept(t.visits[i].header, t.visits[i].count))
      && (forall i :: 0 <= i < |t.visits| - 1 ==>
            t.visits[i].count.Some? && t.visits[i + 1].offset == t.visits[i].offset + Stride(t.visits[i].count.value))
    decreases end - position
  {
    if position < end {
      match step(position)
      case ShortRead =>
      case BadMagic =>
      case Accept(h, None) =>
      case Accept(h, Some(n)) =>
        WalkVisits(step, end, position + Stride(n));
        var t := Walk(step, end, position);
        var rest := Walk(step, end, position + Stride(n));
        assert forall i :: 1 <= i < |t.visits| ==> t.visits[i] == rest.visits[i - 1];
    }
  }

  /** Where the loop leaves the cursor: at the start when nothing was
      accepted; 512 bytes past the last header when its directory walk
      failed; one stride past it otherwise. */
  lemma {:induction false} WalkCursor(step: nat -> Step, end: nat, position: nat)
    ensures var t := Walk(step, end, position);
      && (t.visits == [] ==> t.cursor == position && t.stop != WalkFailed)
      && (t.visits != [] ==>
            var last := t.visits[|t.visits| - 1];
            if t.stop == WalkFailed then last.count == None && t.cursor == last.offset + BlockSize
            else last.count.Some? && t.cursor == last.offset + Stride(last.count.value))
    decreases end - position
  {
    if position < end {
      match step(position)
      case ShortRead =>
      case BadMagic =>
      case Accept(h, None) =>
      case Accept(h, Some(n)) =>
        WalkCursor(step, end, position + Stride(n));
        var rest := Walk(step, end, position + Stride(n));
        assert rest.visits != [] ==>
          ([Visit(position, h, Some(n))] + rest.visits)[|rest.visits|] == rest.visits[|rest.visits| - 1];
    }
  }

  /** Every recorded header lies wholly before the cursor where the loop
      ended: nothing at or after the block that stopped it is recorded. */
  lemma {:induction false} WalkBeforeCursor(step: nat -> Step, end: nat, position: nat)
    ensures forall i :: 0 <= i < |Walk(step, end, position).visits| ==>
      Walk(step, end, position).visits[i].offset + BlockSize <= Walk(step, end, position).cursor
    decreases end - position
  {
    if position < end {
      match step(position)
      case ShortRead =>
      case BadMagic =>
      case Accept(h, None) =>
      case Accept(h, Some(n)) =>
        WalkBeforeCursor(step, end, position + Stride(n));
        var t := Walk(step, end, position);
        var rest := Walk(step, end, position + Stride(n));
        assert forall i :: 1 <= i < |t.visits| ==> t.visits[i] == rest.visits[i - 1];
    }
  }

  /** Blocks of body the headers in `vs` account for (a header whose walk
      failed accounts for none). */
  function BodyTotal(vs: seq<Visit>): nat
  {
    if vs == [] then 0
    else
      var v := vs[|vs| - 1];
      BodyTotal(vs[..|vs| - 1]) + match v.count { case None => 0 case Some(n) => n }
  }

  lemma {:induction false} BodyTotalCons(v: Visit, vs: seq<Visit>)
    ensures BodyTotal([v] + vs) == (match v.count { case None => 0 case Some(n) => n }) + BodyTotal(vs)
    decreases |vs|
  {
    if vs != [] {
      var init := vs[..|vs| - 1];
      assert ([v] + vs)[..|vs|] == [v] + init;
      BodyTotalCons(v, init);
    } else {
      assert [v][..0] == [];
    }
  }

  /** Where the loop ends: 512 bytes per header plus 513 bytes per body
      block. */
  lemma {:induction false} WalkDrift(step: nat -> Step, end: nat, position: nat)
    ensures var t := Walk(step, end, position);
      t.cursor == position + 512 * (|t.visits| + BodyTotal(t.visits)) + BodyTotal(t.visits)
    decreases end - position
  {
    if position < end {
      match step(position)
      case ShortRead =>
      case BadMagic =>
      case Accept(h, None) =>
        assert [Visit(position, h, None)][..0] == [];
        assert BodyTotal([Visit(position, h, None)]) == 0;
      case Accept(h, Some(n)) =>
        WalkDrift(step, end, position + Stride(n));
        var rest := Walk(step, end, position + Stride(n));
        var t := Walk(step, end, position);
        assert t == Trace([Visit(position, h, Some(n))] + rest.visits, rest.stop, rest.cursor);
        BodyTotalCons(Visit(position, h, Some(n)), rest.visits);
        assert BodyTotal(t.visits) == n + BodyTotal(rest.visits);
        assert |t.visits| == 1 + |rest.visits|;
    }
  }
  // ---------------------------------------------------------------------
  // The scanner on an archive.

  /** The loop body reads a short block exactly when fewer than 512 bytes
      remain, and rejects a whole block exactly when its magic is not
      "ustar"; an accepted header is the decoded block, with its block
      count. */
  lemma StepAtCases(archive: seq<byte>, probe: Probe, position: nat)
    ensures StepAt(archive, probe, position) == ShortRead <==> position + BlockSize > |archive|
    ensures StepAt(archive, probe, position) == BadMagic <==>
      position + BlockSize <= |archive| && !HasUstarMagic(archive[position..position + BlockSize])
    ensures StepAt(archive, probe, position).Accept? ==>
      && position + BlockSize <= |archive|
      && HasUstarMagic(archive[position..position + BlockSize])
      && StepAt(archive, probe, position).header == DecodeHeader(archive[position..position + BlockSize])
      && StepAt(archive, probe, position).count == BlockCount(StepAt(archive, probe, position).header, probe)
  {
  }

  /** Why scanning ended, read off the cursor: the end of the archive, fewer
      than 512 bytes left, a block without the ustar magic at the cursor (so
      that block and everything after it is left out), or a directory whose
      walk failed as the last accepted header. */
  lemma ScanStop(archive: seq<byte>, probe: Probe, position: nat)
    ensures var t := ScanFrom(archive, probe, position);
      && (t.stop == EndOfData ==> t.cursor >= |archive|)
      && (t.stop == ShortBlock ==> t.cursor < |archive| < t.cursor + BlockSize)
      && (t.stop == NotUstar ==>
            t.cursor + BlockSize <= |archive| && !HasUstarMagic(archive[t.cursor..t.cursor + BlockSize]))
      && (t.stop == WalkFailed ==>
            && t.visits != []
            && var last := t.visits[|t.visits| - 1];
            && t.cursor == last.offset + BlockSize
            && Classify(last.header.typeFlag) == Directory
            && probe(last.header.name) == None)
  {
    var step := Steps(archive, probe);
    var t := ScanFrom(archive, probe, position);
    WalkStop(step, |archive|, position);
    WalkVisits(step, |archive|, position);
    WalkCursor(step, |archive|, position);
    if t.stop == ShortBlock || t.stop == NotUstar {
      StepAtCases(archive, probe, t.cursor);
    } else if t.stop == WalkFailed {
      var last := t.visits[|t.visits| - 1];
      assert step(last.offset) == Accept(last.header, None);
      StepAtCases(archive, probe, last.offset);
    }
  }

  /** Every accepted header was read from a whole block inside the archive
      that carries the ustar magic, is that block decoded, and carries the
      block count the scanner computes for it; the first was read at the
      start position and consecutive headers are one stride apart. */
  lemma ScanChain(archive: seq<byte>, probe: Probe, position: nat)
    ensures var t := ScanFrom(archive, probe, position);
      && (t.visits != [] ==> t.visits[0].offset == position)
      && (forall i :: 0 <= i < |t.visits| ==>
            var o := t.visits[i].offset;
            && o + BlockSize <= |archive|
            && HasUstarMagic(archive[o..o + BlockSize])
            && t.visits[i].header == DecodeHeader(archive[o..o + BlockSize])
            && t.visits[i].count == BlockCount(t.visits[i].header, probe))
      && (forall i :: 0 <= i < |t.visits| - 1 ==>
            t.visits[i].count.Some? && t.visits[i + 1].offset == t.visits[i].offset + Stride(t.visits[i].count.value))
  {
    var step := Steps(archive, probe);
    var t := ScanFrom(archive, probe, position);
    WalkVisits(step, |archive|, position);
    forall i | 0 <= i < |t.visits|
      ensures var o := t.visits[i].offset;
        && o + BlockSize <= |archive|
        && HasUstarMagic(archive[o..o + BlockSize])
        && t.visits[i].header == DecodeHeader(archive[o..o + BlockSize])
        && t.visits[i].count == BlockCount(t.visits[i].header, probe)
    {
      assert step(t.visits[i].offset) == Accept(t.visits[i].header, t.visits[i].count);
      StepAtCases(archive, probe, t.visits[i].offset);
    }
  }

  /** Where scanning an archive ends: 512 bytes per header plus 513 bytes
      per body block. Every body block thus shifts the following headers one
      byte further from the 512-byte grid the archive is laid out on. */
  lemma CursorDrift(archive: seq<byte>, probe: Probe)
    ensures var t := Scan(archive, probe);
      t.cursor == 512 * (|t.visits| + BodyTotal(t.visits)) + BodyTotal(t.visits)
  {
    WalkDrift(Steps(archive, probe), |archive|, 0);
  }

  /** After a first entry with `n` body blocks the next header is read at
      512 + 513 * n, which is off the 512-byte grid unless n is a multiple
      of 512. */
  lemma SecondHeaderOffGrid(archive: seq<byte>, probe: Probe)
    requires |Scan(archive, probe).visits| >= 2
    ensures var vs := Scan(archive, probe).visits;
      && vs[0].count.Some?
      && vs[1].offset == Stride(vs[0].count.value)
      && vs[1].offset % 512 == vs[0].count.value % 512
  {
    WalkVisits(Steps(archive, probe), |archive|, 0);
    StrideOffGrid(Scan(archive, probe).visits[0].count.value);
  }

  /** 512 + 513 * n leaves the remainder n modulo 512. */
  lemma StrideOffGrid(n: nat)
    ensures Stride(n) % 512 == n % 512
  {
    assert Stride(n) == 512 * (n + 1) + n;
  }

  /** A block without the magic ends the scan, and neither it nor any
      later block contributes a header: every recorded header lies before
      the cursor, which stands at that block. */
  lemma NothingAfterStop(archive: seq<byte>, probe: Probe)
    ensures var t := Scan(archive, probe);
      forall i :: 0 <= i < |t.visits| ==> t.visits[i].offset + BlockSize <= t.cursor
  {
    WalkBeforeCursor(Steps(archive, probe), |archive|, 0);
    assert Scan(archive, probe) == Walk(Steps(archive, probe), |archive|, 0);
  }

  /** An archive whose first block does not carry the ustar magic lists
      nothing. */
  lemma NotUstarFirstBlock(archive: seq<byte>, probe: Probe)
    requires |archive| >= BlockSize && !HasUstarMagic(archive[..BlockSize])
    ensures Scan(archive, probe) == Trace([], NotUstar, 0)
  {
    assert archive[0..BlockSize] == archive[..BlockSize];
    StepAtCases(archive, probe, 0);
  }

  // ---------------------------------------------------------------------
  // Block counts and strides.

  /** A file-like or unlisted entry with no data takes only its header. */
  lemma ZeroSizeStride(h: Header, probe: Probe)
    requires Classify(h.typeFlag) != Directory && h.size == 0
    ensures BlockCount(h, probe) == Some(0) && Stride(0) == BlockSize
  {
  }

  /** For a directory whose walk found `extra` bytes, the block count is
      ceil(s/512) + ceil((s+extra)/512): at least the blocks of the walk's
      total, and with nothing on disk twice the blocks of the declared
      size. */
  lemma DirectoryBlockCount(h: Header, probe: Probe, extra: nat)
    requires Classify(h.typeFlag) == Directory && probe(h.name) == Some(extra)
    ensures BlockCount(h, probe) == Some(BodyBlocks(h.size) + BodyBlocks(h.size + extra))
    ensures BlockCount(h, probe).value >= BodyBlocks(extra)
    ensures h.size == 0 ==> BlockCount(h, probe) == Some(BodyBlocks(extra))
    ensures extra == 0 ==> BlockCount(h, probe) == Some(2 * BodyBlocks(h.size))
  {
    BodyBlocksMonotone(extra, h.size + extra);
  }

  /** A header with `n > 0` body blocks moves the cursor further than the
      512 bytes per block of a standard tar reader: 513 bytes per body block
      overshoot by `n` bytes. */
  lemma StrideAtLeastOneBlock(n: nat)
    ensures n > 0 ==> Stride(n) > 512 * (n + 1)
  {
  }
  // ---------------------------------------------------------------------
  // The catalogs.

  /** Each header adds at most one name to the two catalogs together. */
  lemma {:induction false} AtMostOneEntryPerHeader(vs: seq<Visit>)
    ensures |FileNames(vs)| + |DirNames(vs)| <= |vs|
    decreases |vs|
  {
    if vs != [] {
      AtMostOneEntryPerHeader(vs[..|vs| - 1]);
    }
  }

  /** A name is in the file catalog exactly when some accepted header with
      a file-like type flag carries it; likewise for directories. */
  lemma {:induction false} CatalogMembership(vs: seq<Visit>, name: Name)
    ensures name in FileNames(vs) <==>
      exists v <- vs :: Classify(v.header.typeFlag) == FileLike && v.header.name == name
    ensures name in DirNames(vs) <==>
      exists v <- vs :: Classify(v.header.typeFlag) == Directory && v.header.name == name
    decreases |vs|
  {
    if vs != [] {
      var init, v := vs[..|vs| - 1], vs[|vs| - 1];
      CatalogMembership(init, name);
      assert vs == init + [v];
    }
  }

  /** Appending a header to a run extends the catalogs by its entry only. */
  lemma CatalogsSnoc(vs: seq<Visit>, v: Visit)
    ensures FileNames(vs + [v]) == FileNames(vs) + Listed(v.header, FileLike)
    ensures DirNames(vs + [v]) == DirNames(vs) + Listed(v.header, Directory)
  {
    assert (vs + [v])[..|vs|] == vs;
  }

  /** The loop body on an archive of two blocks reads each block whole. */
  lemma TwoBlockSteps(header: seq<byte>, tail: seq<byte>, probe: Probe)
    requires |header| == BlockSize && |tail| == BlockSize
    ensures StepAt(header + tail, probe, 0) ==
      if HasUstarMagic(header) then Accept(DecodeHeader(header), BlockCount(DecodeHeader(header), probe)) else BadMagic
    ensures StepAt(header + tail, probe, BlockSize) ==
      if HasUstarMagic(tail) then Accept(DecodeHeader(tail), BlockCount(DecodeHeader(tail), probe)) else BadMagic
  {
    var a := header + tail;
    assert a[0..BlockSize] == header;
    assert a[BlockSize..2 * BlockSize] == tail;
  }

  /** An archive made of one ustar header for an empty regular file (size
      field "00000000000" and a NUL) followed by a block without the magic
      lists exactly that file, and the cursor stops 512 bytes in, at the
      second block. */
  lemma SingleEmptyFile(header: seq<byte>, tail: seq<byte>, probe: Probe)
    requires |header| == BlockSize && |tail| == BlockSize
    requires HasUstarMagic(header) && !HasUstarMagic(tail)
    requires header[TypeFlagOffset] == RegType
    requires header[SizeOffset..SizeOffset + SizeLength] == OctalDigits(0, 11) + [0]
    ensures var t := Scan(header + tail, probe);
      && t.stop == NotUstar && t.cursor == BlockSize
      && FileNames(t.visits) == [DecodeHeader(header).name]
      && DirNames(t.visits) == []
  {
    OctalSizeField(header, 0);
    var a := header + tail;
    TwoBlockSteps(header, tail, probe);
    var v := Visit(0, DecodeHeader(header), Some(0));
    var step := Steps(a, probe);
    assert step(0) == Accept(v.header, Some(0));
    assert step(BlockSize) == BadMagic;
    assert Walk(step, |a|, BlockSize) == Trace([], NotUstar, BlockSize);
    assert Stride(0) == BlockSize;
    assert Walk(step, |a|, 0) == Trace([v] + [], NotUstar, BlockSize);
    assert Scan(a, probe) == Trace([v], NotUstar, BlockSize);
    CatalogsSnoc([], v);
  }

  /** A ustar header followed by a block without the magic: the scan
      records that header alone, and ends on a failed walk exactly when its
      block count is missing. */
  lemma SingleHeaderScan(header: seq<byte>, tail: seq<byte>, probe: Probe)
    requires |header| == BlockSize && |tail| == BlockSize
    requires HasUstarMagic(header) && !HasUstarMagic(tail)
    ensures Scan(header + tail, probe).visits ==
      [Visit(0, DecodeHeader(header), BlockCount(DecodeHeader(header), probe))]
    ensures Scan(header + tail, probe).stop == WalkFailed <==>
      BlockCount(DecodeHeader(header), probe).None?
  {
    var a := header + tail;
    TwoBlockSteps(header, tail, probe);
    var h := DecodeHeader(header);
    var c := BlockCount(h, probe);
    var v := Visit(0, h, c);
    var step := Steps(a, probe);
    assert step(0) == Accept(h, c);
    match c {
      case None =>
        assert Walk(step, |a|, 0) == Trace([v], WalkFailed, BlockSize);
      case Some(n) =>
        var rest := Walk(step, |a|, Stride(n));
        if Stride(n) == BlockSize {
          assert step(BlockSize) == BadMagic;
          assert rest == Trace([], NotUstar, BlockSize);
        } else {
          assert rest == Trace([], EndOfData, Stride(n));
        }
        assert Walk(step, |a|, 0) == Trace([v] + rest.visits, rest.stop, rest.cursor);
    }
    assert Scan(a, probe) == Walk(step, |a|, 0);
  }

  /** An archive made of one ustar directory header followed by a block
      without the magic lists that directory and nothing else; when the walk
      fails, the directory is listed before the scan is cut short. */
  lemma SingleDirectory(header: seq<byte>, tail: seq<byte>, probe: Probe)
    requires |header| == BlockSize && |tail| == BlockSize
    requires HasUstarMagic(header) && !HasUstarMagic(tail)
    requires header[TypeFlagOffset] == DirType
    ensures var t := Scan(header + tail, probe);
      && FileNames(t.visits) == []
      && DirNames(t.visits) == [DecodeHeader(header).name]
      && (t.stop == WalkFailed <==> probe(DecodeHeader(header).name).None?)
  {
    SingleHeaderScan(header, tail, probe);
    var h := DecodeHeader(header);
    var v := Visit(0, h, BlockCount(h, probe));
    assert Classify(h.typeFlag) == Directory;
    CatalogsSnoc([], v);
  }

  /** An accepted header with a block count is the first visit of the
      walk, which goes on one stride later: a run of visits that ends with
      the walk from `position` ends, one header later, with the walk from
      `next`. */
  lemma WalkAccept(step: nat -> Step, end: nat, visited: seq<Visit>, all: seq<Visit>,
                   position: nat, h: Header, n: nat, next: nat)
    requires position < end && step(position) == Accept(h, Some(n)) && next == position + Stride(n)
    requires all == visited + Walk(step, end, position).visits
    ensures all == (visited + [Visit(position, h, Some(n))]) + Walk(step, end, next).visits
    ensures Walk(step, end, position).stop == Walk(step, end, next).stop
  {
    var rest := Walk(step, end, next).visits;
    assert visited + ([Visit(position, h, Some(n))] + rest) == (visited + [Visit(position, h, Some(n))]) + rest;
  }

  /** One turn of the loop on an archive, for the loop proof below: an
      accepted header is followed by the scan from one stride on, so the
      headers seen so far grow by one and the rest of the scan starts
      there. */
  lemma ScanFromAccept(archive: seq<byte>, probe: Probe, visited: seq<Visit>, position: nat, h: Header, n: nat, next: nat)
    requires next == position + Stride(n)
    requires position + BlockSize <= |archive|
    requires HasUstarMagic(archive[position..position + BlockSize])
    requires h == DecodeHeader(archive[position..position + BlockSize]) && BlockCount(h, probe) == Some(n)
    requires Scan(archive, probe).visits == visited + ScanFrom(archive, probe, position).visits
    requires Scan(archive, probe).stop == ScanFrom(archive, probe, position).stop
    ensures Scan(archive, probe).visits ==
      (visited + [Visit(position, h, Some(n))]) + ScanFrom(archive, probe, next).visits
    ensures Scan(archive, probe).stop == ScanFrom(archive, probe, next).stop
  {
    assert Steps(archive, probe)(position) == Accept(h, Some(n));
    WalkAccept(Steps(archive, probe), |archive|, visited, Scan(archive, probe).visits, position, h, n, next);
  }

  /** The loop turn that ends in a failed directory walk. */
  lemma ScanFromWalkFailed(archive: seq<byte>, probe: Probe, position: nat, h: Header)
    requires position + BlockSize <= |archive|
    requires HasUstarMagic(archive[position..position + BlockSize])
    requires h == DecodeHeader(archive[position..position + BlockSize]) && BlockCount(h, probe) == None
    ensures ScanFrom(archive, probe, position) == Trace([Visit(position, h, None)], WalkFailed, position + BlockSize)
  {
    assert Steps(archive, probe)(position) == Accept(h, None);
  }

  /** One loop turn on a block with the magic, whatever its block count:
      the headers seen so far grow by the decoded header, and either the
      scan ended there because its directory walk failed, or the rest of
      the scan starts one stride on. */
  lemma ScanFromHeader(archive: seq<byte>, probe: Probe, visited: seq<Visit>, position: nat,
                       h: Header, c: Option<nat>, seen: seq<Visit>, next: Option<nat>)
    requires position + BlockSize <= |archive|
    requires HasUstarMagic(archive[position..position + BlockSize])
    requires h == DecodeHeader(archive[position..position + BlockSize]) && c == BlockCount(h, probe)
    requires seen == visited + [Visit(position, h, c)]
    requires next == if c.None? then None else Some(position + Stride(c.value))
    requires Scan(archive, probe).visits == visited + ScanFrom(archive, probe, position).visits
    requires Scan(archive, probe).stop == ScanFrom(archive, probe, position).stop
    ensures next.None? ==> Scan(archive, probe).visits == seen && Scan(archive, probe).stop == WalkFailed
    ensures next.Some? ==>
      && next.value > position
      && Scan(archive, probe).visits == seen + ScanFrom(archive, probe, next.value).visits
      && Scan(archive, probe).stop == ScanFrom(archive, probe, next.value).stop
  {
    var rest := ScanFrom(archive, probe, position);
    match c {
      case None =>
        ScanFromWalkFailed(archive, probe, position, h);
        assert rest.visits == [Visit(position, h, None)] && rest.stop == WalkFailed;
      case Some(n) =>
        ScanFromAccept(archive, probe, visited, position, h, n, position + Stride(n));
        assert next == Some(position + Stride(n));
    }
  }

  /** The loop turns that end the scan without accepting a header. */
  lemma ScanFromHalts(archive: seq<byte>, probe: Probe, position: nat)
    requires position + BlockSize > |archive| ||
      !HasUstarMagic(archive[position..position + BlockSize])
    ensures ScanFrom(archive, probe, position).visits == []
    ensures ScanFrom(archive, probe, position).stop != WalkFailed
  {
    if position < |archive| {
      StepAtCases(archive, probe, position);
    }
  }

  // ---------------------------------------------------------------------
  // The scanner itself.

  /** What `parseTarFile` reports: false for an archive whose length is not
      a multiple of 512, true after a scan; a directory walk that raises an
      error escapes from it, ending the program. */
  datatype Outcome = Invalid | Done | Terminated

  /** The two catalogs the scanner fills (the globals `file_names` and
      `directories`). */
  class Listing {
    var fileNames: seq<Name>
    var directories: seq<Name>

    constructor ()
      ensures fileNames == [] && directories == []
    {
      fileNames := [];
      directories := [];
    }

    /** The switch on the type flag for one accepted header: a file-like
        entry is appended to the file catalog; a directory is appended to
        the directory catalog and then walked on disk, and its block count
        grows by the blocks of its declared size plus the walk's total; the
        result is the entry's block count, or None when the walk raised an
        error (after the directory was listed). */
    method FileEntry(header: Header, probe: Probe) returns (count: Option<nat>)
      modifies this
      ensures count == BlockCount(header, probe)
      ensures fileNames == old(fileNames) + Listed(header, FileLike)
      ensures directories == old(directories) + Listed(header, Directory)
    {
      var fileSize := header.size;
      var blockCount := BodyBlocks(fileSize);
      match Classify(header.typeFlag) {
        case FileLike =>
          fileNames := fileNames + [header.name];
        case Directory =>
          directories := directories + [header.name];
          var extra := probe(header.name);
          if extra.None? {
            return None;
          }
          fileSize := fileSize + extra.value;
          blockCount := blockCount + BodyBlocks(fileSize);
        case Ignored =>
      }
      return Some(blockCount);
    }

    /** One turn of the scanner's loop on a block that holds a ustar header:
        decode it, file the entry, and move past the header and its body
        blocks. `visited` are the headers accepted so far and `files0`,
        `dirs0` the catalogs before the scan. The result is the next
        position, or None when the directory walk raised an error; either
        way the catalogs hold exactly the names of the headers seen. */
    method ReadEntry(archive: seq<byte>, probe: Probe, position: nat, ghost visited: seq<Visit>,
                     ghost files0: seq<Name>, ghost dirs0: seq<Name>)
      returns (next: Option<nat>, ghost seen: seq<Visit>)
      modifies this
      requires position + BlockSize <= |archive|
      requires HasUstarMagic(archive[position..position + BlockSize])
      requires Scan(archive, probe).visits == visited + ScanFrom(archive, probe, position).visits
      requires Scan(archive, probe).stop == ScanFrom(archive, probe, position).stop
      requires fileNames == files0 + FileNames(visited) && directories == dirs0 + DirNames(visited)
      ensures fileNames == files0 + FileNames(seen) && directories == dirs0 + DirNames(seen)
      ensures next.None? ==> Scan(archive, probe).visits == seen && Scan(archive, probe).stop == WalkFailed
      ensures next.Some? ==>
        && next.value > position
        && Scan(archive, probe).visits == seen + ScanFrom(archive, probe, next.value).visits
        && Scan(archive, probe).stop == ScanFrom(archive, probe, next.value).stop
    {
      var block := archive[position..position + BlockSize];
      var header := DecodeHeader(block);
      var count := FileEntry(header, probe);
      var v := Visit(position, header, count);
      CatalogsSnoc(visited, v);
      seen := visited + [v];
      assert fileNames == files0 + FileNames(seen) by {
        assert files0 + FileNames(visited) + Listed(header, FileLike) == files0 + (FileNames(visited) + Listed(header, FileLike));
      }
      assert directories == dirs0 + DirNames(seen) by {
        assert dirs0 + DirNames(visited) + Listed(header, Directory) == dirs0 + (DirNames(visited) + Listed(header, Directory));
      }
      if count.None? {
        next := None;
      } else {
        // past the header block and 513 bytes per body block
        next := Some(position + Stride(count.value));
      }
      ScanFromHeader(archive, probe, visited, position, header, count, seen, next);
    }

    /** `parseTarFile` on an archive held in memory. */
    method ParseTarFile(archive: seq<byte>, probe: Probe) returns (outcome: Outcome)
      modifies this
      ensures outcome == Invalid <==> |archive| % BlockSize != 0
      ensures outcome == Invalid ==> fileNames == old(fileNames) && directories == old(directories)
      ensures outcome != Invalid ==>
        var t := Scan(archive, probe);
        && (outcome == Terminated <==> t.stop == WalkFailed)
        && fileNames == old(fileNames) + FileNames(t.visits)
        && directories == old(directories) + DirNames(t.visits)
    {
      if |archive| % BlockSize != 0 {
        return Invalid;
      }
      var position: nat := 0;
      ghost var visited: seq<Visit> := [];
      while true
        invariant Scan(archive, probe).visits == visited + ScanFrom(archive, probe, position).visits
        invariant Scan(archive, probe).stop == ScanFrom(archive, probe, position).stop
        invariant fileNames == old(fileNames) + FileNames(visited)
        invariant directories == old(directories) + DirNames(visited)
        decreases |archive| - position
      {
        if position >= |archive| || position + BlockSize > |archive|
           || !HasUstarMagic(archive[position..position + BlockSize]) {
          ScanFromHalts(archive, probe, position);
          break;
        }
        var next;
        next, visited := ReadEntry(archive, probe, position, visited, old(fileNames), old(directories));
        if next.None? {
          return Terminated;
        }
        position := next.value;
      }
      assert visited + [] == visited;
      return Done;
    }
  }
}
