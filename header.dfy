/** The 512-byte header block of a ustar archive ("ustar Interchange Format",
    pax utility, POSIX.1-2017) as `struct TarHeader` lays it out, and the
    fields the scanner decodes from it: the name, the size, the type flag and
    the format magic. */
module TarHeader {
  import opened LibC

  const BlockSize: nat := 512

  // Field offsets within a header block (struct TarHeader).
  const NameOffset: nat := 0
  const NameLength: nat := 100
  const SizeOffset: nat := 124
  const SizeLength: nat := 12
  const TypeFlagOffset: nat := 156
  const MagicOffset: nat := 257

  /** The five bytes compared against the magic field ("ustar"). */
  const Magic: seq<byte> := ['u' as byte, 's' as byte, 't' as byte, 'a' as byte, 'r' as byte]

  // Type flags.
  const RegType: byte := '0' as byte
  const ARegType: byte := 0
  const LnkType: byte := '1' as byte
  const SymType: byte := '2' as byte
  const ChrType: byte := '3' as byte
  const BlkType: byte := '4' as byte
  const DirType: byte := '5' as byte
  const FifoType: byte := '6' as byte
  const ContType: byte := '7' as byte

  /** The type flags the scanner lists as files. */
  const FileFlags: set<byte> := {RegType, ARegType, LnkType, SymType, ChrType, BlkType, FifoType}

  /** `strncmp(USTAR_id, "ustar", 5) == 0`: the five magic bytes are "ustar". */
  predicate HasUstarMagic(block: seq<byte>): (b: bool)
    requires |block| == BlockSize
    ensures b <==> block[MagicOffset..MagicOffset + 5] == Magic
  {
    && block[MagicOffset] == Magic[0]
    && block[MagicOffset + 1] == Magic[1]
    && block[MagicOffset + 2] == Magic[2]
    && block[MagicOffset + 3] == Magic[3]
    && block[MagicOffset + 4] == Magic[4]
  }

  /** What the scanner takes from one header block. */
  datatype Header = Header(name: seq<byte>, size: nat, typeFlag: byte)

  /** The fields of a header block: the name is the C string that starts at
      offset 0, the size is `strtoull` of the C string that starts at offset
      124, and the type flag is the byte at offset 156. */
  function DecodeHeader(block: seq<byte>): (h: Header)
    requires |block| == BlockSize
    ensures h.typeFlag == block[TypeFlagOffset]
    ensures |h.name| <= BlockSize
    ensures |h.name| == BlockSize || block[|h.name|] == 0
    ensures h.size <= ULLongMax
  {
    Header(CString(block), StrToULL(block[SizeOffset..]), block[TypeFlagOffset])
  }

  /** The decoded name is the block's bytes up to the first NUL. */
  lemma DecodedName(block: seq<byte>)
    requires |block| == BlockSize
    ensures var name := DecodeHeader(block).name;
      && 0 !in name
      && (forall k :: 0 <= k < |name| ==> name[k] == block[k])
  {
    CStringIsNulFreePrefix(block);
  }

  /** When the 100-byte name field holds a NUL, the name lies inside the
      field; without one, the C string runs on into the mode field. */
  lemma NameWithinField(block: seq<byte>)
    requires |block| == BlockSize
    ensures 0 in block[..NameLength] ==> |DecodeHeader(block).name| < NameLength
    ensures 0 !in block[..NameLength] ==> block[..NameLength] <= DecodeHeader(block).name
  {
    var name := DecodeHeader(block).name;
    DecodedName(block);
    assert forall j :: 0 <= j < |name| ==> block[j] != 0 by {
      forall j | 0 <= j < |name| ensures block[j] != 0 {
        assert block[j] == name[j];
      }
    }
    assert forall j :: 0 <= j < NameLength ==> (block[j] == 0 <==> block[..NameLength][j] == 0);
  }

  /** A size field written the ustar way, 11 zero-padded octal digits and a
      NUL, decodes to the size it encodes for every size below 1 GiB. */
  lemma OctalSizeField(block: seq<byte>, n: nat)
    requires |block| == BlockSize && n < Pow(8, 10)
    requires block[SizeOffset..SizeOffset + SizeLength] == OctalDigits(n, 11) + [0]
    ensures DecodeHeader(block).size == n
  {
    var rest := block[SizeOffset + SizeLength..];
    assert block[SizeOffset..] == OctalDigits(n, 11) + [0] + rest;
    OctalFieldRoundTrip(n, 11, rest);
  }

  /** The size text cannot run past the block: `strtoull` reads the size
      only once the magic test has passed, and the 'u' of "ustar" at offset
      257 is neither white space, nor a sign, nor a digit in base 8, 10 or
      16, so the digits converted end at offset 257 at the latest. */
  lemma SizeTextStopsAtMagic(block: seq<byte>)
    requires |block| == BlockSize && HasUstarMagic(block)
    ensures var s := block[SizeOffset..];
            var i := SpaceEnd(s, 0);
            var j := if i < |s| && (s[i] == '-' as int || s[i] == '+' as int) then i + 1 else i;
            var (base, k) := DetectBase(s, j);
            DigitEnd(s, k, base) <= MagicOffset - SizeOffset
  {
    var s := block[SizeOffset..];
    var m := MagicOffset - SizeOffset;
    assert s[m] == 'u' as int;
    var i := SpaceEnd(s, 0);
    SpaceEndSkipsSpace(s, 0);
    assert i <= m;
    var j := if i < |s| && (s[i] == '-' as int || s[i] == '+' as int) then i + 1 else i;
    assert j <= m;
    var (base, k) := DetectBase(s, j);
    assert k <= m;
    DigitEndSkipsDigits(s, k, base);
    assert DigitValue(s[m]) >= base;
  }

  /** How the scanner files an entry. */
  datatype EntryKind = FileLike | Directory | Ignored

  /** The type-flag dispatch: '0', NUL, '1', '2', '3', '4' and '6' are listed
      as files, '5' as a directory, every other flag (the contiguous-file
      flag '7' among them) is not listed. */
  function Classify(flag: byte): (k: EntryKind)
    ensures k == FileLike <==> flag in FileFlags
    ensures k == Directory <==> flag == DirType
    ensures flag == ContType ==> k == Ignored
  {
    if flag == RegType || flag == ARegType || flag == LnkType || flag == SymType
       || flag == ChrType || flag == BlkType then FileLike
    else if flag == DirType then Directory
    else if flag == FifoType then FileLike
    else Ignored
  }

  /** Number of 512-byte blocks that hold `size` bytes:
      `(size + BLOCK_SIZE - 1) / BLOCK_SIZE`, the least count whose blocks
      cover the size. (Arithmetic on block sizes is written with the
      literal 512 so that the solver sees linear terms.) */
  function BodyBlocks(size: nat): (n: nat)
    ensures n * 512 >= size
    ensures n > 0 ==> (n - 1) * 512 < size
  {
    (size + 511) / 512
  }

  lemma BodyBlocksExamples()
    ensures BodyBlocks(0) == 0 && BodyBlocks(1) == 1 && BodyBlocks(511) == 1
    ensures BodyBlocks(512) == 1 && BodyBlocks(513) == 2
  {
  }

  /** Rounding up is monotone. */
  lemma BodyBlocksMonotone(a: nat, b: nat)
    requires a <= b
    ensures BodyBlocks(a) <= BodyBlocks(b)
  {
  }
}
