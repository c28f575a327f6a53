/** `determinePermissions`: the ten-character mode string `ls -l` style
    listings print, built from a file's status (its type) and its
    permission bits (`std::filesystem::perms`). */
module Permissions {

  /** `std::filesystem::file_type`. */
  datatype FileType =
    | NoType | NotFound | Regular | Directory | Symlink
    | Block | Character | Fifo | Socket | Unknown

  /** `std::filesystem::perms`: a 16-bit mask (`perms::unknown` is 0xFFFF). */
  type Perms = bv16

  const OwnerRead: Perms := 0x100
  const OwnerWrite: Perms := 0x080
  const OwnerExec: Perms := 0x040
  const GroupRead: Perms := 0x020
  const GroupWrite: Perms := 0x010
  const GroupExec: Perms := 0x008
  const OthersRead: Perms := 0x004
  const OthersWrite: Perms := 0x002
  const OthersExec: Perms := 0x001

  /** The nine permission bits, in the order the mode string shows them:
      owner, group, others, each read, write, execute. */
  const PermBits: seq<Perms> :=
    [OwnerRead, OwnerWrite, OwnerExec, GroupRead, GroupWrite, GroupExec, OthersRead, OthersWrite, OthersExec]

  /** The letter a set bit shows at position `i` (0..8) of the permission
      part. */
  function Letter(i: nat): (c: char)
    requires i < 9
    ensures c in "rwx"
  {
    "rwx"[i % 3]
  }

  /** The type character: the status is tested for directory, block device,
      character device and symbolic link in that order, and anything else
      shows as '-'. */
  function TypeChar(s: FileType): (c: char)
    ensures c == 'd' <==> s == Directory
    ensures c == 'b' <==> s == Block
    ensures c == 'c' <==> s == Character
    ensures c == 'l' <==> s == Symlink
    ensures c == '-' <==> s !in {Directory, Block, Character, Symlink}
  {
    if s == Directory then 'd'
    else if s == Block then 'b'
    else if s == Character then 'c'
    else if s == Symlink then 'l'
    else '-'
  }

  /** One permission character: `letter` when `p` has the bit `mask`,
      '-' otherwise. */
  function BitChar(p: Perms, mask: Perms, letter: char): (c: char)
    ensures p & mask != 0 ==> c == letter
    ensures p & mask == 0 ==> c == '-'
  {
    if p & mask != 0 then letter else '-'
  }

  /** The mode string: the type character, then one character per
      permission bit. (The path argument of the original is never read.) */
  function DeterminePermissions(s: FileType, p: Perms): (r: string)
    ensures |r| == 10
    ensures r[0] == TypeChar(s)
  {
    [TypeChar(s),
     BitChar(p, OwnerRead, 'r'), BitChar(p, OwnerWrite, 'w'), BitChar(p, OwnerExec, 'x'),
     BitChar(p, GroupRead, 'r'), BitChar(p, GroupWrite, 'w'), BitChar(p, GroupExec, 'x'),
     BitChar(p, OthersRead, 'r'), BitChar(p, OthersWrite, 'w'), BitChar(p, OthersExec, 'x')]
  }

  /** Character 1 + i shows the i-th permission bit: its letter exactly
      when the bit is set, '-' exactly when it is clear. */
  lemma PermissionChars(s: FileType, p: Perms)
    ensures var r := DeterminePermissions(s, p);
      forall i :: 0 <= i < 9 ==>
        && (r[1 + i] == Letter(i) <==> p & PermBits[i] != 0)
        && (r[1 + i] == '-' <==> p & PermBits[i] == 0)
  {
    var r := DeterminePermissions(s, p);
    forall i | 0 <= i < 9
      ensures r[1 + i] == Letter(i) <==> p & PermBits[i] != 0
      ensures r[1 + i] == '-' <==> p & PermBits[i] == 0
    {
      PermissionChar(s, p, i);
      assert Letter(i) != '-';
    }
  }

  /** Character 1 + i of the mode string is the i-th bit's character. */
  lemma PermissionChar(s: FileType, p: Perms, i: nat)
    requires i < 9
    ensures DeterminePermissions(s, p)[1 + i] == BitChar(p, PermBits[i], Letter(i))
  {
    var r := DeterminePermissions(s, p);
    if i == 0 { assert PermBits[0] == OwnerRead && Letter(0) == 'r' && r[1 + i] == r[1]; }
    else if i == 1 { assert PermBits[1] == OwnerWrite && Letter(1) == 'w' && r[1 + i] == r[2]; }
    else if i == 2 { assert PermBits[2] == OwnerExec && Letter(2) == 'x' && r[1 + i] == r[3]; }
    else if i == 3 { assert PermBits[3] == GroupRead && Letter(3) == 'r' && r[1 + i] == r[4]; }
    else if i == 4 { assert PermBits[4] == GroupWrite && Letter(4) == 'w' && r[1 + i] == r[5]; }
    else if i == 5 { assert PermBits[5] == GroupExec && Letter(5) == 'x' && r[1 + i] == r[6]; }
    else if i == 6 { assert PermBits[6] == OthersRead && Letter(6) == 'r' && r[1 + i] == r[7]; }
    else if i == 7 { assert PermBits[7] == OthersWrite && Letter(7) == 'w' && r[1 + i] == r[8]; }
    else { assert PermBits[8] == OthersExec && Letter(8) == 'x' && r[1 + i] == r[9]; }
  }

  /** The permission bits a mode string shows: bit i is set when character
      1 + i is not '-'. */
  function ModeBits(r: string): (p: Perms)
    requires |r| == 10
    ensures p & 0xFE00 == 0
  {
    (if r[1] != '-' then OwnerRead else 0) | (if r[2] != '-' then OwnerWrite else 0)
    | (if r[3] != '-' then OwnerExec else 0) | (if r[4] != '-' then GroupRead else 0)
    | (if r[5] != '-' then GroupWrite else 0) | (if r[6] != '-' then GroupExec else 0)
    | (if r[7] != '-' then OthersRead else 0) | (if r[8] != '-' then OthersWrite else 0)
    | (if r[9] != '-' then OthersExec else 0)
  }

  /** Reading the permission bits back from the mode string gives exactly
      the nine permission bits of the input: the set-uid, set-gid and
      sticky bits (and any higher bit) are not shown. */
  lemma ModeBitsRoundTrip(s: FileType, p: Perms)
    ensures ModeBits(DeterminePermissions(s, p)) == p & 0x1FF
  {
  }

  /** A string `ls -l` could print: a type character and, per position,
      the position's letter or '-'. */
  predicate IsModeString(r: string) {
    && |r| == 10
    && r[0] in "dbcl-"
    && forall i :: 0 <= i < 9 ==> r[1 + i] == Letter(i) || r[1 + i] == '-'
  }

  /** A file type that shows as the type character `c`. */
  function TypeOf(c: char): (s: FileType)
    requires c in "dbcl-"
    ensures TypeChar(s) == c
  {
    if c == 'd' then Directory
    else if c == 'b' then Block
    else if c == 'c' then Character
    else if c == 'l' then Symlink
    else Regular
  }

  /** Every mode string is what DeterminePermissions prints for some
      status and bits; with the round trip above, mode strings and the
      nine permission bits (with a type) correspond one to one. */
  lemma ModeStringsAreOutputs(r: string)
    requires IsModeString(r)
    ensures DeterminePermissions(TypeOf(r[0]), ModeBits(r)) == r
  {
    var p := ModeBits(r);
    var q := DeterminePermissions(TypeOf(r[0]), p);
    forall j | 1 <= j < 10
      ensures q[j] == r[j]
    {
      PermissionChar(TypeOf(r[0]), p, j - 1);
      ModeBitsShows(r, j - 1);
      assert r[j] == Letter(j - 1) || r[j] == '-';
    }
    assert q[0] == r[0];
  }

  /** Bit i of ModeBits(r) is set exactly when character 1 + i is not '-'. */
  lemma ModeBitsShows(r: string, i: nat)
    requires |r| == 10 && i < 9
    ensures ModeBits(r) & PermBits[i] != 0 <==> r[1 + i] != '-'
  {
  }

  /** Every output is a mode string. */
  lemma OutputsAreModeStrings(s: FileType, p: Perms)
    ensures IsModeString(DeterminePermissions(s, p))
  {
    PermissionChars(s, p);
  }

  /** A regular file with mode 0700 lists as "-rwx------"; a directory
      with mode 0755 as "drwxr-xr-x". */
  lemma DeterminePermissionsExamples()
    ensures DeterminePermissions(Regular, 0x1C0) == "-rwx------"
    ensures DeterminePermissions(Directory, 0x1ED) == "drwxr-xr-x"
    ensures DeterminePermissions(Unknown, 0xFFFF) == "-rwxrwxrwx"
  {
  }
}
