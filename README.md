# tar_viewer scanner, modelled in Dafny

`tar_viewer` lists the entries of a ustar archive (the "ustar Interchange
Format" of the pax utility, POSIX.1-2017). Its core is `parseTarFile`, which
checks that the archive is a whole number of 512-byte blocks and then walks
it header by header. For each header it does four things:

- decodes the name, the size and the type flag at the fixed offsets of
  `struct TarHeader`;
- files the name into one of two catalogs, `file_names` or `directories`,
  by its type flag;
- computes a block count for the entry's body;
- moves its cursor past the body.

The second piece of the core is `determinePermissions`, which builds the
ten-character `ls -l` style mode string.

The model follows the code as written, not the ustar standard:

- the cursor advances by 513 bytes per body block;
- a directory's block count adds the blocks of its declared size to the
  blocks of its declared size plus the total size of the files under it on
  disk;
- flag '7' lists nothing;
- the name is the C string at offset 0;
- the size is `strtoull(…, NULL, 0)` with base detection, read from offset 124.

Modules, one per file:

- `LibC` (libc.dfy): the two C library behaviours the decoder relies on, a
  `char*` read up to its first NUL and `strtoull` in base 0, plus lemmas on
  how a zero-padded octal field reads back.
- `TarHeader` (header.dfy): the header layout, its decoding, the type-flag
  dispatch and the block count of a size.
- `TarScanner` (scanner.dfy): the scan as a specification function (`Scan`,
  defined by `Walk` over a step function) with its lemmas, and the class
  `Listing`. `Listing` holds the two catalogs as fields. Its method
  `ParseTarFile` is the source's loop, proved against `Scan`.
- `Permissions` (permissions.dfy): the mode string, its inverse and a round
  trip in both directions.
- `SizeT` (sizet.dfy): the cursor arithmetic in 64-bit `size_t`, where it
  agrees with the main model, and an archive on which it does not (see
  Findings).

The directory walk on the live filesystem (`recursive_directory_iterator`)
is the parameter `probe: Name -> Option<nat>`. `Some(d)` is the total size
`d` of the non-directory files below the name. `None` means the walk raised
an error. That error is never caught, so `parseTarFile` does not return; the
model reports this as the outcome `Terminated`, after the directory has been
listed.

## Model

| member | source | states |
|---|---|---|
| `LibC.NulFrom` | tar_viewer.cpp:136 | the index where a C string ends is at or after the start and is either the end of the buffer or a NUL |
| `LibC.NulFromIsFirst` | tar_viewer.cpp:136 | no NUL lies between the start and the index where the C string ends |
| `LibC.CString` | tar_viewer.cpp:136 | the string read from a `char*` is no longer than the buffer and ends at a NUL or at the end of the buffer |
| `LibC.CStringIsNulFreePrefix` | tar_viewer.cpp:136 | that string is a prefix of the buffer and contains no NUL |
| `LibC.SpaceEnd` | tar_viewer.cpp:126 | the white space that `strtoull` skips ends at the buffer end or at a byte that is not white space |
| `LibC.SpaceEndSkipsSpace` | tar_viewer.cpp:126 | `strtoull` skips exactly the leading white space (C locale `isspace`) |
| `LibC.DigitEnd` | tar_viewer.cpp:126 | the run of digits `strtoull` converts ends at the buffer end or at a byte that is not a digit in the base |
| `LibC.DigitEndSkipsDigits` | tar_viewer.cpp:126 | `strtoull` converts the longest run of characters that are digits in the detected base |
| `LibC.Value` | tar_viewer.cpp:126 | the positional value of a run of digits; a run whose leading digit is nonzero has a nonzero value |
| `LibC.DigitValue` | tar_viewer.cpp:126 | a character's digit value is below 10 exactly for '0'..'9', and at most 36 |
| `LibC.IsSpace` | tar_viewer.cpp:126 | the C-locale white space that `strtoull` skips is no digit in any base and no sign, so the skipped run, the sign and the digits never overlap |
| `LibC.DetectBase` | tar_viewer.cpp:126 | base 0 picks 16 exactly when the text starts "0x" or "0X", and then skips those two bytes; 8 exactly when it otherwise starts with '0'; 10 in every other case |
| `LibC.Magnitude` | tar_viewer.cpp:126 | the unbounded value `strtoull` converts after the sign: 0 when the text there does not start with a decimal digit, and nonzero when it starts with '1'..'9' or with "0x"/"0X" and a nonzero hex digit |
| `LibC.StrToULL` | tar_viewer.cpp:126 | the parsed size never exceeds ULLONG_MAX; its value for leading white space, each sign case (including a sign followed by white space or a second sign) and each base is stated by the lemmas below |
| `LibC.StrToULLLeadingSpace` | tar_viewer.cpp:126 | leading white space does not change the value read |
| `LibC.StrToULLSign` | tar_viewer.cpp:126 | unsigned text reads as its digits' value saturated at ULLONG_MAX; a '+' changes nothing; a '-' gives 0 for 0, ULLONG_MAX when the value saturates, and 2^64 minus the value otherwise |
| `LibC.StrToULLSignWithoutDigits` | tar_viewer.cpp:126 | a sign followed by white space or by a second sign ("- 5", "+-5") converts nothing and gives 0 |
| `LibC.StrToULLHex` | tar_viewer.cpp:126 | text starting "0x" or "0X" is read as the longest run of hex digits after it, saturated |
| `LibC.StrToULLExamples` | tar_viewer.cpp:126 | "0x1f" reads as 31, "-1" as ULLONG_MAX, " \t017" as 15, "+10" as 10, and "0b101" as 0 |
| `LibC.StrToULLOctal` | tar_viewer.cpp:126 | text starting with '0' but not "0x" is read as the longest run of octal digits, saturated |
| `LibC.StrToULLDecimal` | tar_viewer.cpp:126 | text starting with '1'..'9' is read as the longest run of decimal digits, saturated |
| `LibC.OctalDigitsValue` | tar_viewer.cpp:126 | w octal digits of a number below 8^w read back as that number |
| `LibC.LeadingOctalZero` | tar_viewer.cpp:126 | a number below 8^(w-1) written in w octal digits starts with '0' |
| `LibC.OctalFieldRoundTrip` | tar_viewer.cpp:126 | a zero-padded octal field followed by a NUL, as a ustar writer produces it, reads back when its first digit is '0' |
| `LibC.LeadingOctalDigit` | tar_viewer.cpp:126 | a number that needs all w octal digits starts with '1'..'7' |
| `LibC.DecimalReadExceedsOctal` | tar_viewer.cpp:126 | octal digits read in base 10 are worth at least as much as in base 8, and more when there are two or more and the first is not '0' |
| `LibC.OctalFieldMisread` | tar_viewer.cpp:126 | a field of two or more octal digits whose first digit is not '0' reads as more than its number, or as ULLONG_MAX |
| `LibC.OctalFieldReadsBack` | tar_viewer.cpp:126 | a field of two or more octal digits holding a number below ULLONG_MAX reads back exactly when its first digit is '0' |
| `LibC.PowerOfEightText` | tar_viewer.cpp:126 | 8^k in k+1 octal digits is "1" and k zeros, whose decimal value is 10^k |
| `LibC.PowerOfEightReadAsDecimal` | tar_viewer.cpp:126 | such a field is read by base detection as the decimal 10^k, not as 8^k |
| `LibC.GibOctalSizeReadAsDecimal` | tar_viewer.cpp:126 | the 11-digit size field of a 1 GiB (8^10 byte) file reads as 10^10 |
| `LibC.DigitEndStopsAtNul` | tar_viewer.cpp:126 | a run of digits followed by a NUL ends at the NUL |
| `TarHeader.HasUstarMagic` | tar_viewer.cpp:120 | the magic test holds exactly when the five bytes at offset 257 are "ustar" |
| `TarHeader.DecodeHeader` | tar_viewer.cpp:25-44 | the decoded type flag is the byte at offset 156; the name ends at a NUL or at the block end; the size is at most ULLONG_MAX |
| `TarHeader.DecodedName` | tar_viewer.cpp:136 | the decoded name is the block's bytes up to its first NUL |
| `TarHeader.NameWithinField` | tar_viewer.cpp:26 | with a NUL in the 100-byte name field the name stays inside it; without one the name runs on past the field |
| `TarHeader.OctalSizeField` | tar_viewer.cpp:30 | an 11-digit octal size field with a NUL decodes to its size for every size below 1 GiB |
| `TarHeader.SizeTextStopsAtMagic` | tar_viewer.cpp:120-126 | in a block that passed the magic test, the digits `strtoull` converts from offset 124 end at offset 257 at the latest, so the size text never runs past the block |
| `TarHeader.Classify` | tar_viewer.cpp:129-157 | flags '0', NUL, '1'-'4' and '6' are files, '5' alone is a directory, and every other flag, '7' included, is listed nowhere |
| `TarHeader.BodyBlocks` | tar_viewer.cpp:128 | the block count is the least n with n*512 >= size |
| `TarHeader.BodyBlocksExamples` | tar_viewer.cpp:128 | sizes 0, 1, 511, 512 and 513 give 0, 1, 1, 1 and 2 blocks |
| `TarHeader.BodyBlocksMonotone` | tar_viewer.cpp:128 | a larger size never gets fewer blocks |
| `TarScanner.BlockCount` | tar_viewer.cpp:128-151 | a non-directory gets the blocks of its size; only a directory whose walk fails gets no count |
| `TarScanner.Listed` | tar_viewer.cpp:129-157 | a header adds its name to a catalog exactly when its flag is filed there |
| `TarScanner.Stride` | tar_viewer.cpp:124-159 | a header moves the cursor by 512 + 513 * its block count, which is at least one block |
| `TarScanner.StepAt` | tar_viewer.cpp:115-128 | the loop body reads a short block exactly when fewer than 512 bytes remain; otherwise it rejects a block without the magic or decodes the header and computes its block count |
| `TarScanner.Walk` | tar_viewer.cpp:113-162 | the loop: while the cursor is below the end, an accepted header is recorded and the cursor moves one stride on; the cursor never moves back |
| `TarScanner.ScanFrom` | tar_viewer.cpp:113-162 | the loop on an archive from a given cursor; its cursor never moves back |
| `TarScanner.Scan` | tar_viewer.cpp:113-162 | the loop on a whole archive from offset 0; the empty archive ends at once with nothing listed |
| `TarScanner.FileNames` | tar_viewer.cpp:129-153 | the file catalog of a run of headers, in archive order, with at most one name per header |
| `TarScanner.DirNames` | tar_viewer.cpp:139 | the directory catalog of a run of headers, in archive order, with at most one name per header |
| `TarScanner.WalkStop` | tar_viewer.cpp:113-122 | the loop ends at end of data, on a short read, or on a block without the magic, each at the cursor |
| `TarScanner.WalkVisits` | tar_viewer.cpp:113-162 | every recorded header is what the loop body accepted at its offset, and consecutive headers are one stride apart |
| `TarScanner.WalkCursor` | tar_viewer.cpp:124-159 | the cursor stops one stride past the last header, or 512 bytes past it when its directory walk failed |
| `TarScanner.WalkBeforeCursor` | tar_viewer.cpp:113-162 | every recorded header lies wholly before the final cursor |
| `TarScanner.BodyTotalCons` | tar_viewer.cpp:159 | the body blocks of a run of headers add up header by header |
| `TarScanner.WalkDrift` | tar_viewer.cpp:124-159 | the final cursor is 512 bytes per header plus 513 bytes per body block past the start |
| `TarScanner.StepAtCases` | tar_viewer.cpp:118-128 | a short read, a missing magic and an accepted, decoded header are the only outcomes of the loop body |
| `TarScanner.ScanStop` | tar_viewer.cpp:113-162 | why scanning ended, read off the cursor: end of data, fewer than 512 bytes left, no magic at the cursor, or a directory whose walk failed as the last header |
| `TarScanner.ScanChain` | tar_viewer.cpp:113-162 | every accepted header comes from a whole block with the magic, is that block decoded, and carries the scanner's block count; headers are one stride apart |
| `TarScanner.CursorDrift` | tar_viewer.cpp:159 | scanning a whole archive ends 512*(headers + body blocks) + body blocks bytes in |
| `TarScanner.SecondHeaderOffGrid` | tar_viewer.cpp:159 | the second header is read at 512 + 513*n, off the 512-byte grid unless n is a multiple of 512 |
| `TarScanner.StrideOffGrid` | tar_viewer.cpp:159 | the stride 512 + 513*n leaves remainder n mod 512 |
| `TarScanner.NothingAfterStop` | tar_viewer.cpp:119-122 | neither the block that ends the scan nor any later block adds a header |
| `TarScanner.NotUstarFirstBlock` | tar_viewer.cpp:119-122 | an archive whose first block lacks the magic lists nothing |
| `TarScanner.ZeroSizeStride` | tar_viewer.cpp:124-159 | a zero-size non-directory entry moves the cursor by exactly 512 |
| `TarScanner.DirectoryBlockCount` | tar_viewer.cpp:128-150 | a directory with size s and walk total D gets ceil(s/512) + ceil((s+D)/512) blocks, at least ceil(D/512) |
| `TarScanner.StrideAtLeastOneBlock` | tar_viewer.cpp:124-159 | a header with n > 0 body blocks moves the cursor further than a 512-byte-per-block reader would, overshooting by n bytes |
| `TarScanner.AtMostOneEntryPerHeader` | tar_viewer.cpp:129-157 | each header adds at most one name to the two catalogs together |
| `TarScanner.CatalogMembership` | tar_viewer.cpp:129-157 | a name is in a catalog exactly when an accepted header of that kind carries it |
| `TarScanner.CatalogsSnoc` | tar_viewer.cpp:136-153 | one more header extends the catalogs by its own entry only, at the end |
| `TarScanner.SingleEmptyFile` | tar_viewer.cpp:113-162 | an empty regular file followed by a non-ustar block lists that file alone and stops 512 bytes in |
| `TarScanner.SingleHeaderScan` | tar_viewer.cpp:113-162 | a header followed by a block without the magic is the only header scanned, and the scan ends on a failed walk exactly when its block count is missing |
| `TarScanner.SingleDirectory` | tar_viewer.cpp:138-151 | a lone directory header lists the directory even when its walk fails, and the scan is cut short exactly then |
| `TarScanner.WalkAccept` | tar_viewer.cpp:159 | after an accepted header, the walk continues one stride later |
| `TarScanner.ScanFromAccept` | tar_viewer.cpp:124-161 | one loop turn on an accepted header extends the headers seen by one and restarts the rest of the scan one stride on |
| `TarScanner.ScanFromWalkFailed` | tar_viewer.cpp:138-148 | a failed directory walk ends the scan with that header as the last one |
| `TarScanner.ScanFromHeader` | tar_viewer.cpp:118-161 | one loop turn on a block with the magic adds the decoded header to the headers seen; the scan then either ended because the directory walk failed or goes on one stride later |
| `TarScanner.ScanFromHalts` | tar_viewer.cpp:115-122 | a short read or a missing magic ends the scan without a further header |
| `TarScanner.Listing.constructor` | tar_viewer.cpp:47-48 | both catalogs start empty |
| `TarScanner.Listing.FileEntry` | tar_viewer.cpp:128-157 | the switch returns the header's block count and appends the name to exactly the catalog its flag selects, the directory before its walk |
| `TarScanner.Listing.ReadEntry` | tar_viewer.cpp:118-161 | one loop turn keeps the catalogs equal to the names of the headers seen so far and moves the cursor strictly forward |
| `TarScanner.Listing.ParseTarFile` | tar_viewer.cpp:93-167 | returns false exactly for a length that is not a multiple of 512, then appending nothing; otherwise the catalogs grow by exactly the scan's file and directory names, and the program is terminated (outcome `Terminated`) exactly when a directory walk fails |
| `Permissions.TypeChar` | tar_viewer.cpp:53-57 | the first character is 'd', 'b', 'c' or 'l' exactly for a directory, block device, character device or symlink, and '-' otherwise |
| `Permissions.BitChar` | tar_viewer.cpp:57-65 | one permission character is the letter when the mask bit is set in `p` and '-' when it is clear |
| `Permissions.DeterminePermissions` | tar_viewer.cpp:51-68 | the mode string has 10 characters and starts with the type character |
| `Permissions.PermissionChars` | tar_viewer.cpp:58-66 | character 1+i is 'r'/'w'/'x' exactly when the i-th permission bit is set, and '-' exactly when it is clear |
| `Permissions.PermissionChar` | tar_viewer.cpp:58-66 | character 1+i is the letter of the i-th bit or '-', as the bit decides |
| `Permissions.ModeBits` | tar_viewer.cpp:58-66 | reading bits back from a mode string yields only the nine permission bits |
| `Permissions.ModeBitsShows` | tar_viewer.cpp:58-66 | bit i is read back exactly when character 1+i is not '-' |
| `Permissions.ModeBitsRoundTrip` | tar_viewer.cpp:58-66 | the bits read back from the output are the input's nine permission bits |
| `Permissions.TypeOf` | tar_viewer.cpp:53-57 | every type character is shown for some file type |
| `Permissions.ModeStringsAreOutputs` | tar_viewer.cpp:51-68 | every well-formed mode string is the output for some type and bits |
| `Permissions.OutputsAreModeStrings` | tar_viewer.cpp:51-68 | every output is a well-formed mode string |
| `Permissions.DeterminePermissionsExamples` | tar_viewer.cpp:51-68 | mode 0700 regular gives "-rwx------", 0755 directory gives "drwxr-xr-x", unknown gives "-rwxrwxrwx" |
| `SizeT.Wrap` | tar_viewer.cpp:110 | a 64-bit unsigned result is below 2^64 and leaves smaller values unchanged |
| `SizeT.BodyBlocks64` | tar_viewer.cpp:128 | `(fileSize + 511) / 512` in 64 bits equals the unbounded block count while the sum stays below 2^64 |
| `SizeT.BlockCount64` | tar_viewer.cpp:128-150 | the machine's block count is missing exactly when the unbounded one is |
| `SizeT.Advance64` | tar_viewer.cpp:159 | the machine's cursor stays below 2^64 |
| `SizeT.Next64` | tar_viewer.cpp:113-162 | a loop turn as written goes on only after a whole header block |
| `SizeT.Iterate` | tar_viewer.cpp:113-162 | the cursor after k turns of the loop as written, starting at 0, or None once a turn has ended the loop; it can only have ended after a turn |
| `SizeT.BlockCountAgrees` | tar_viewer.cpp:128-150 | without wrap-around the machine's block count equals the unbounded one |
| `SizeT.NextAgrees` | tar_viewer.cpp:124-159 | without wrap-around a loop turn as written moves the cursor as the main model does |
| `SizeT.SizedHeaderDecodes` | tar_viewer.cpp:25-44 | the crafted header carries the magic and decodes to a regular file "a" of the encoded size |
| `SizeT.WrapSizeArithmetic` | tar_viewer.cpp:159 | the size 18410785508263723008 gives 35958565445827584 blocks, and the cursor at 512 wraps to 0 |
| `SizeT.WrapArchiveNeverEnds` | tar_viewer.cpp:113-162 | as written, the two-header archive sends the cursor back and forth between 0 and 512 for ever |
| `SizeT.WrapArchiveScanEnds` | tar_viewer.cpp:113-162 | with the cursor unbounded the same archive is scanned once, both names listed, and the scan ends |

## Left out

- Opening the archive, `seekg`, `tellg` and `peek` are not modelled: the archive is a byte sequence. The open failure at tar_viewer.cpp:95-98 is not modelled.
- The length is `int` in the source (tar_viewer.cpp:103). Archives of 2^31 bytes or more, where that conversion truncates, are not modelled.
- A header read that runs past the end of the archive ends the scan in the model (stop `ShortBlock`). The stream actually fills part of the buffer, leaving the rest stale from the previous header. The source then processes that mixed block once before `peek` reports EOF. The model does not do that.
- A name without a NUL inside the 512-byte block makes `std::string` read past the buffer, which is undefined behaviour. The model stops at the block end. The size text cannot run past the block: in a block with the magic the digits stop at offset 257 at the latest (`TarHeader.SizeTextStopsAtMagic`).
- The directory walk becomes the `probe` parameter. `stat` failures on single entries, and the order and content of the filesystem, are outside the model. The model adds the walk's total without 64-bit wrap-around.
- TarScanner.Listing.ParseTarFile: does not model 64-bit wrap-around of `position`, `block_count` and the size, because the main model uses unbounded integers. Module `SizeT` models the wrap and proves that the two agree turn by turn (`SizeT.BlockCountAgrees`, `SizeT.NextAgrees`: one turn's block count and next cursor match whenever no sum in that turn reaches 2^64). It does not prove by induction that the whole run of turns matches.
- TarScanner.BlockCount: unbounded, for the same reason; `SizeT.BlockCount64` is the 64-bit version.
- LibC.StrToULL: no `errno` and no end pointer. The source passes NULL and never reads `errno`. White space is the C locale's.
- LibC.DetectBase: models C17 base detection. C23 also reads a "0b"/"0B" prefix as binary in base 0, and glibc 2.38 and later do so for C++ builds. On such a toolchain a size text "0b101" reads as 5, where the model reads the octal "0" and gives 0.
- `getTime`, `getGroupOwnerName`, `outputEntry`, `main` and `printErrMsg` are not modelled. They do terminal output, locale and time-zone time formatting, and password and group database lookups.
- The global `file_sizes` (tar_viewer.cpp:46), which `parseTarFile` never touches, is not modelled. Nor are the locals `file_start_addr`, `dir_count` and `sz`, which it declares or updates but never reads.
- Header fields the scanner never reads are not modelled: mode, uid/gid, mtime, checksum, link name, prefix and the rest.
- Permissions.DeterminePermissions: its `path` argument, which is never read, is dropped. The file status is reduced to its `file_type`.

## Findings

| source | as written | input that shows it | evidently intended | confidence | as-written member | corrected member |
|---|---|---|---|---|---|---|
| tar_viewer.cpp:159 | `position += block_count * (BLOCK_SIZE+1)` is computed in 64-bit `size_t` and wraps modulo 2^64 | an empty file "a", then a regular file "a" whose size text at offset 124 is "01776001776001776000000" (18410785508263723008, 35958565445827584 blocks); 512 + 512 + 35958565445827584 * 513 = 2^64, so the cursor returns to 0 and the loop lists "a" again and again without end | the cursor only moves forward, so the scan ends | not executed | `SizeT.WrapArchiveNeverEnds` | `SizeT.WrapArchiveScanEnds` |
