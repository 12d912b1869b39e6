# cpmemu in Dafny

A verified model of the core of cpmemu. cpmemu is a CP/M 2.2 machine that runs a Z80 CPU emulator on a Raspberry Pi (Circle) or on a Linux host. It comes with two host tools. The project models:

- **`cpmdisk`**, the disk-image tool:
  - the 8+3 file-name conversion and the option parser with its range checks;
  - the disk geometry calculated from the options;
  - the 32-byte directory entry, with 16 byte-wide or 8 word-wide block numbers;
  - the five commands: `init` formats an image with 0xE5; `dir` lists the user's files in columns of five; `read` chains extents 0, 1, 2, … back into host files; `write` allocates first-fit directory entries and blocks; `delete` marks entries free.

  The image is a byte sequence. Host files are a map from path to contents. The directory buffer and the block map are arrays updated in place, as in the tool.
- **`hex2bin`**, the Intel HEX converter:
  - header, type, overflow, checksum and trailing-character checks;
  - a 64 KiB memory array filled record by record, with the lowest and highest address tracked;
  - padding of the end to a 128-byte record, and the output range.
- **The emulated machine's devices:**
  - the I/O-port state machine (console, disk track/sector/DMA registers, disk operations, control port);
  - the RAM disk's bounds-checked 128-byte sector copies;
  - the memory's reset vector and DMA window;
  - the console's one-byte key buffer and character translation.
- **The Z80 CPU's data model:**
  - register pairs with byte and word views;
  - the F register split into tracked bits and a separate carry;
  - the flag masks and the four flag tables;
  - the R register with its separately held bit 7;
  - interrupt state and its defaults;
  - the per-address breakpoint table.

The main results are these:

- **Write then read:** a `write` that succeeds, followed by a `read` of the files' last path components, gives back every file's bytes, padded with `^Z` to whole sectors. This holds for files of at most 255 extents' worth of bytes (`CpmRoundTrip.WriteThenRead`, `CpmMain.CheckedWriteThenRead`). With the corrected extent counter it holds for every file `write` accepts (`CpmRoundTrip.WrittenFileReads`).
- **Delete:** a `delete` removes exactly the named files. It leaves every other file readable as before.
- **File names:** the name converter refuses exactly the four classes of bad names.
- **Entries:** a directory entry survives encoding and decoding, in both directions.
- **HEX records:** a data record survives writing and parsing.
- **RAM disk:** a sector written reads back.
- **Ports:** every port keeps the state machine's invariant.

Where the code and its evident intent disagree, each disagreement is logged under "## Findings" with both versions in the model. The commands follow the code as written wherever its behaviour is defined: `read`'s byte-wide extent counter, `hex2bin`'s final `lowest < highest` check, and the option combinations `main` accepts. Where the code would read or write outside an array, no array model can follow it, so the commands use the corrected version. These are `hex2bin`'s overflow guard, the DMA window of the disk ports, the directory blocks that `write` marks past its block map, and the sector test of the RAM disk's `Read` and `Write`. For the RAM disk, the test as written wraps in 32 bits, which the ports never reach. Each such member is named under "## Left out".

## Model

| member | source | states |
|---|---|---|
| CpmNames.UpperByte | cpmdisk.c:170-173 | A name character becomes a byte above space and below 0x80 that is not a lower-case letter. |
| CpmNames.Fit | cpmdisk.c:187-191 | The field is exactly `n` bytes: longer parts are truncated, shorter ones padded. |
| CpmNames.FirstDotUnique | cpmdisk.c:175-185 | The name part ends at the first dot: any index with no dot before it and a dot (or the end) at it is that end. |
| CpmNames.ExtStartUnique | cpmdisk.c:175-185 | The extension starts after the run of dots that follows the name part. |
| CpmNames.ConvertFileName | cpmdisk.c:141-200 | An accepted name gives exactly 11 bytes (8 name, 3 extension), each a printable byte below 0x80 with no lower-case letter, and the name part is not empty. |
| CpmNames.ConvertFileNameInPlace | cpmdisk.c:141-200 | The converter's loop, which writes the 11-byte buffer through `pTo` and `nLength`, accepts exactly the names `ConvertFileName` accepts and produces the same bytes. |
| CpmNames.RefusedCharRefusesName | cpmdisk.c:155-168 | A single control character, space, byte of 0x80 or above, or one of `"*+,/:;<=>?[\]|` anywhere refuses the whole name. |
| CpmNames.DotAfterExtensionRefused | cpmdisk.c:175-180 | A dot after extension characters have begun refuses the name. |
| CpmNames.DotAfterExtensionIff | cpmdisk.c:175-185 | There is a dot in the extension part exactly when the name has a dot, then a non-dot, then another dot. |
| CpmNames.ConvertFileNameRefusesExactly | cpmdisk.c:155-197 | A name is refused if and only if it has a refused character, has a second dot after extension characters, or has an empty name part (it is empty or starts with a dot). |
| CpmNames.ConvertIgnoresCase | cpmdisk.c:170-173 | Upper-casing a name first does not change the conversion. |
| CpmNames.DisplayName | cpmdisk.c:307-326 | The name built for display is at most 12 characters: 8, a dot and 3. |
| CpmNames.ShownNameConverts | cpmdisk.c:141-200 | A stored name part and extension written as `NAME.EXT` convert back to the same fields. |
| CpmNames.DisplayOfConverted | cpmdisk.c:307-326 | The displayed form of a converted name is its upper-cased, truncated name part, a dot and its extension. |
| CpmNames.DisplayNameRoundTrip | cpmdisk.c:141-200 | Round trip: converting the displayed form of a converted name gives the same 11 bytes. |
| CpmNames.BaseName | cpmdisk.c:695-703 | The base name is the suffix of the path after its last '/', and holds no '/'. |
| CpmMain.SkipSpaces | cpmdisk.c:128 | `strtoul` skips exactly the leading white-space characters. |
| CpmMain.DigitsEnd | cpmdisk.c:128 | The digits `strtoul` reads are the longest run of decimal digits. |
| CpmMain.StrToUL | cpmdisk.c:128-129 | `strtoul` stops within the string, and the value it returns never exceeds `ULONG_MAX`. |
| CpmMain.OptionNumberInRange | cpmdisk.c:117-139 | An accepted option value lies in `[nMin, nMax]`. It came from a parameter that is present and does not start with '-'. |
| CpmMain.OptionNumberMissing | cpmdisk.c:121-126 | A missing parameter, or one starting with '-', is refused as "Option requires parameter". |
| CpmMain.OptionNumberDigits | cpmdisk.c:128-136 | A parameter of plain digits is accepted exactly when its value is in range, and then as that value. Otherwise it is refused as invalid. |
| CpmMain.OptionNumberCharacters | cpmdisk.c:128-136 | An accepted parameter holds nothing but white space, signs and digits. |
| CpmMain.Decimal | cpmdisk.c:128 | The decimal spelling of a number is a non-empty run of digits without leading zeros. |
| CpmMain.OptionNumberRoundTrip | cpmdisk.c:117-139 | Round trip: every number in the range, written in decimal, is accepted as itself. |
| CpmMain.EmptyParameterReadsZero | cpmdisk.c:128-136 | An empty parameter reads as 0, so it is accepted exactly when 0 is in range. |
| CpmMain.DefaultsInRange | cpmdisk.c:40-67 | The built-in defaults (80 tracks, 2 reserved, 80 sectors, 2 KiB blocks, 16 KiB extents, 128 entries, user 0) lie within every option's range. |
| CpmMain.SetNumberInRange | cpmdisk.c:1184-1210 | Setting one option to a value in its range keeps every setting in range. Block and extent sizes are multiplied by 1024. |
| CpmMain.Options | cpmdisk.c:1158-1216 | The option loop leaves every setting in range. It stops at the first argument that does not start with '-', which the command then gets. |
| CpmMain.ParseOptions | cpmdisk.c:1158-1216 | The option loop, updating the settings one option at a time, gives exactly what `Options` specifies from the defaults. |
| CpmMain.Geometry | cpmdisk.c:1220-1236 | The parameters derived from in-range settings are `Valid`: whole sectors per block and per extent, at most 3200 blocks, and a directory that fits its blocks. |
| CpmMain.CommandNamed | cpmdisk.c:1242-1267 | Each of `init`, `dir`, `read`, `write` and `delete` selects its command, and no other word selects one. |
| CpmMain.CommandLine | cpmdisk.c:1133-1236 | An accepted command line has valid geometry and a user number of at most 15. Its arguments carry no NUL. |
| CpmMain.ParseCommandLine | cpmdisk.c:1133-1236 | `main`'s parse, with the option loop as a loop, gives exactly `CommandLine`. |
| CpmMain.NoOptionsUseDefaults | cpmdisk.c:40-67 | Without options, a command runs on `cpmdisk.bin`, user 0 and the default geometry, with the rest of the arguments. |
| CpmMain.CommandGetsRest | cpmdisk.c:1158-1216 | The command's arguments are a proper suffix of the command line that does not start with an option. |
| CpmMain.WideExtentAccepted | cpmdisk.c:1201-1202 | `write -b 4 -e 32 FILE` is accepted with 195 blocks, 256 sectors per extent, 8 blocks per extent and 16 byte-wide slots, a geometry that is not `Consistent`. The byte-wide sector count of a full extent is then 0. |
| CpmMain.NoBlockPerExtentAccepted | cpmdisk.c:1197-1202 | `write -b 16 -e 8 FILE` is accepted with 0 blocks per extent, a geometry that is not `Consistent`. |
| CpmMain.CheckedCommandLine | cpmdisk.c:1133-1236 | The corrected parse accepts only `Consistent` geometries, and never the free-entry mark as the user number. |
| CpmMain.CheckedWriteThenRead | cpmdisk.c:589-1008 | For every command line the corrected parse accepts, and files of at most 255 extents' worth of bytes each: a `write` that succeeds, followed by a `read` of the base names, saves every file, each as its contents padded with `^Z`. |
| CpmMain.DirectoryBeyondBlockMapAccepted | cpmdisk.c:1184-1236 | `write -t 20 -r 20 FILE` is accepted with 0 data blocks and 2 directory blocks, a geometry that is not `Consistent`. |
| CpmMain.CheckedRefusesOnlyInconsistent | cpmdisk.c:1220-1236 | The corrected parse differs from `main` only by refusing inconsistent geometries. The default geometry is never refused. |
| CpmMain.FormattedBytes | cpmdisk.c:233-248 | A formatted image of `n` sectors is `n * 128` bytes, every one 0xE5. |
| CpmMain.DoInit | cpmdisk.c:202-252 | `init` fails in this order: on an extra argument, then if the image exists, then if it cannot be created. Otherwise it gives every sector of the disk filled with 0xE5. |
| CpmMain.FreshDirectoryIsEmpty | cpmdisk.c:233-248 | For a `Consistent` geometry, the directory of a freshly formatted disk reads back with every entry free. With an inconsistent geometry such as `-t 20 -r 20`, the formatted image can end before the directory. |
| CpmDisk.CalculatedIsValid | cpmdisk.c:1220-1236 | Every geometry the option ranges allow has whole sectors per block and per extent, at most 3200 blocks, and a directory that fits its blocks. |
| CpmDisk.BlocksFitDisk | cpmdisk.c:1224-1226 | The data blocks fit in the tracks after the reserved ones, and one more block would not. |
| CpmDisk.DirectoryFitsItsBlocks | cpmdisk.c:1234-1236 | The directory blocks are the fewest blocks that hold every 32-byte entry. |
| CpmDisk.BlockOffsetFormula | cpmdisk.c:497-498 | A block's byte offset in the image is `block * blockSize + reservedBytes`. |
| CpmDisk.BlocksDoNotOverlap | cpmdisk.c:930-933 | Distinct blocks occupy disjoint byte ranges of the image. |
| CpmDisk.DefaultGeometry | cpmdisk.c:48-67 | The default disk: 20480 reserved bytes, 6400 sectors, 390 blocks with word-wide slots, 128 sectors and 8 blocks per extent, 2 directory blocks. It is `Consistent`. |
| CpmDisk.TwoHundredFiftySixBlocksUseWords | cpmdisk.c:480-491 | A disk of exactly 256 blocks stores 16-bit block numbers: the tool's threshold is 255. |
| CpmDisk.EncodeEntry | cpmdisk.c:77-95 | An entry is stored as exactly 32 bytes. |
| CpmDisk.DecodeEntry | cpmdisk.c:77-95 | Any 32 bytes decode to a well-formed entry. |
| CpmDisk.EntryRoundTrip | cpmdisk.c:77-95 | Round trip: decoding an encoded entry gives the entry. |
| CpmDisk.EntryBytesRoundTrip | cpmdisk.c:77-95 | Round trip: encoding a decoded entry gives the 32 bytes back. |
| CpmDisk.WithSlot | cpmdisk.c:888-899 | Recording a block number in a slot keeps the entry well-formed. |
| CpmDisk.SlotUpdate | cpmdisk.c:888-899 | The slot written reads back as the block, every other slot and every other field keep their values, and words are little-endian. |
| CpmDisk.ZeroSlots | cpmdisk.c:844-847 | A new entry's slots all read 0. |
| CpmDisk.EncodeDirectory | cpmdisk.c:621-632 | The directory buffer holds 32 bytes per entry. |
| CpmDisk.DecodeDirectory | cpmdisk.c:621-632 | A buffer of whole entries decodes to one well-formed entry per 32 bytes. |
| CpmDisk.DirectoryRoundTrip | cpmdisk.c:621-632 | Round trip: decoding the encoded directory gives the directory. |
| CpmDisk.ReadAt | cpmdisk.c:386-397 | `fseek` + `fread` of `n` bytes succeeds exactly when the image holds them, and then gives `n` bytes. |
| CpmDisk.WriteAt | cpmdisk.c:930-957 | `fseek` + `fwrite` puts the data at the offset. Every other byte keeps its value, and a gap past the end reads 0. |
| CpmDisk.ReadAfterDisjointWrite | cpmdisk.c:930-957 | A write leaves every byte range it does not touch reading the same. |
| CpmDisk.ReadAfterWrite | cpmdisk.c:930-957 | Round trip: bytes written read back. |
| CpmDisk.ReadDirectory | cpmdisk.c:386-397 | A directory read gives `directoryEntries` well-formed entries. |
| CpmDisk.WriteDirectory | cpmdisk.c:979-1001 | Writing the directory back keeps the reserved tracks, and leaves an image at least as long as before that holds the whole directory. |
| CpmDisk.DirectoryWriteRead | cpmdisk.c:979-1001 | Round trip: the directory written back reads back as itself. |
| CpmDir.EntryAt | cpmdisk.c:286-297 | The `fread` of entry `n` succeeds exactly when the image holds it. |
| CpmDir.Pad | cpmdisk.c:330 | `%-12s` gives the name followed by spaces up to 12 characters, and a longer name unchanged. |
| CpmDir.DirCommand | cpmdisk.c:256-261 | `dir` with an argument is refused and prints nothing. |
| CpmDir.ListEntries | cpmdisk.c:284-342 | The entry loop with its column counter prints the listed names laid out in columns, and stops at a failed read. |
| CpmDir.DoDir | cpmdisk.c:254-352 | The `dir` command gives exactly `DirCommand`. |
| CpmDir.ShownNames | cpmdisk.c:299-303 | At most one name is listed per directory entry. |
| CpmDir.ShownNamesMeaning | cpmdisk.c:299-326 | A name is listed exactly when some entry of the user with extent 0 displays as it. |
| CpmDir.ListFromComplete | cpmdisk.c:286-297 | The entry loop gets through every entry exactly when the image holds the whole directory. |
| CpmDir.ListFromDirectory | cpmdisk.c:286-303 | Entry by entry, the loop sees what `ReadDirectory` reads in one go. |
| CpmDir.DirListsDirectory | cpmdisk.c:254-352 | A listing succeeds exactly when the directory can be read. It then prints the names of the user's first extents in directory order, in columns, ending with a complete line. |
| CpmDir.ColumnsLines | cpmdisk.c:332-341 | Laying out names ends a line each time the fifth column is filled. |
| CpmDir.ListingLines | cpmdisk.c:332-347 | A complete listing has one line per five names, rounded up. |
| CpmRead.FindEntry | cpmdisk.c:428-445 | The search finds the first entry with the user, extent number and 11-byte name, or reports none. |
| CpmRead.FindExtent | cpmdisk.c:428-445 | The search loop over the directory buffer gives exactly `FindEntry`. |
| CpmRead.ExtentData | cpmdisk.c:475-558 | The data of an extent that reads is exactly its sector count times 128 bytes. The only failures are an unreadable block or an out-of-range block number. |
| CpmRead.BlockCountSpan | cpmdisk.c:470-471 | `(SectorCount + spb - 1) / spb` counts exactly the blocks that start before the last sector. |
| CpmRead.BlockCount | cpmdisk.c:470-471 | `nBlockCount` is the number of blocks that cover the sector count. |
| CpmRead.ReadExtentBlocks | cpmdisk.c:475-558 | The block loop of one extent gives exactly `ExtentData`. |
| CpmRead.ReadExtents | cpmdisk.c:424-562 | The corrected read of a file's extents, with an unbounded extent counter, gives whole sectors. `read` itself uses `ReadExtentsAsWritten`. |
| CpmRead.ReadExtentsOutcome | cpmdisk.c:424-579 | With the corrected counter, a file is reported missing exactly when it has no extent 0. The chain ends, adding no data, exactly at the first missing extent. |
| CpmRead.ReadExtentsAsWritten | cpmdisk.c:416-562 | The loop with the `unsigned char` extent counter also reads whole sectors. |
| CpmRead.ReadExtentsAsWrittenOutcome | cpmdisk.c:416-579 | With the byte counter, a file without extent 0 is reported missing. Any other missing-file report needs the counter to have wrapped (it reached 256, or the file has an extent 255). A file read from extent 0 is never empty. |
| CpmRead.ShortFileCountersAgree | cpmdisk.c:416-562 | A file whose data fit in 255 full extents reads the same with the byte counter as with the unbounded one. |
| CpmRead.CountersAgreeBelow255 | cpmdisk.c:416-562 | A file without an extent 255 reads the same with the byte counter as with an unbounded one. |
| CpmRead.ByteCounterFailsOn256Extents | cpmdisk.c:416-562 | A file of 256 extents, the first 255 of them full, fails to read with the byte counter, while the unbounded counter reads it. |
| CpmRead.ReadExtentsSame | cpmdisk.c:424-562 | A file reads the same from two directories that hold the same entries for it. |
| CpmRead.ReadExtentsAsWrittenSame | cpmdisk.c:416-562 | With the byte counter too, a file reads the same from two directories that hold the same entries for it. |
| CpmRead.ReadFile | cpmdisk.c:404-579 | One file as `read` reads it: a name the converter refuses is reported invalid; otherwise its extents are read from 0 on with the byte counter. |
| CpmRead.ReadFileCorrected | cpmdisk.c:404-579 | The same with the unbounded counter: a refused name is reported invalid. |
| CpmRead.ReadFileOutcome | cpmdisk.c:404-579 | For `read` as written: a name the converter refuses is reported invalid. A valid name without extent 0 is reported missing; any other missing-file report comes from a file with an extent 255. Without an extent 255, the read equals the corrected one. A file that reads gives a non-empty run of whole sectors. |
| CpmRead.ReadFileCorrectedOutcome | cpmdisk.c:404-579 | With the corrected counter, a valid name is reported missing exactly when it has no extent 0, and a file that reads gives a non-empty run of whole sectors. |
| CpmRead.ReadFileAgrees | cpmdisk.c:416-562 | A file the corrected read gives, no longer than 255 full extents, is read the same by `read` as written. |
| CpmRead.ReadOneFile | cpmdisk.c:404-579 | The extent loop of `read` for one name, with its `unsigned char` counter and an output file opened once, gives exactly `ReadFile`, the byte-counter read. |
| CpmRead.FirstFailure | cpmdisk.c:399-587 | At most one file is saved per name. |
| CpmRead.FirstFailureMeaning | cpmdisk.c:399-587 | The files saved are the first results in order. All are saved when no read fails. Otherwise the error reported is the first failure. |
| CpmRead.ReadAll | cpmdisk.c:399-401 | Every name is read against the same directory. |
| CpmRead.ReadCommand | cpmdisk.c:354-587 | `read` without a name is refused, and a directory that cannot be read is reported. Each name is read with the byte counter (`ReadFile`). The host file that a failing name leaves behind is not part of the outcome (see "## Left out"). |
| CpmRead.ReadNames | cpmdisk.c:399-587 | The file-name loop gives exactly `FirstFailure` of the byte-counter reads. |
| CpmRead.DoRead | cpmdisk.c:354-587 | The `read` command, with its byte-wide extent counter, gives exactly `ReadCommand`. |
| CpmWrite.BlockMap | cpmdisk.c:636-679 | The block map exists exactly when every slot of every entry in use names a block of the disk. A block is then marked exactly when it is a directory block or some entry in use names it. |
| CpmWrite.FreeEntryFrom | cpmdisk.c:813-833 | The entry chosen is the first free one at or after the start, or none. |
| CpmWrite.FreeBlockFrom | cpmdisk.c:862-882 | The block chosen is the lowest one the map shows free, or none. |
| CpmWrite.BlockBuffer | cpmdisk.c:903-926 | The block buffer is the bytes read followed by `^Z` up to the block size. |
| CpmWrite.WriteBlocks | cpmdisk.c:858-975 | The block loop keeps the disk state well shaped and the directory's size. |
| CpmWrite.NewEntry | cpmdisk.c:837-847 | A new extent's entry is well formed. |
| CpmWrite.WriteExtents | cpmdisk.c:809-977 | The extent loop keeps the disk state well shaped and the directory's size. |
| CpmWrite.CopyFile | cpmdisk.c:772-977 | Copying one host file keeps the disk state well shaped. |
| CpmWrite.WriteFile | cpmdisk.c:688-977 | Writing one named file keeps the disk state well shaped. |
| CpmWrite.WriteEach | cpmdisk.c:688-977 | The file loop keeps the disk state well shaped. |
| CpmWrite.BuildBlockMap | cpmdisk.c:636-679 | The block-map loops succeed exactly when `BlockMap` exists, and then fill the array with it. Directory blocks are marked only inside the map (see "## Left out"). |
| CpmWrite.MarkEntry | cpmdisk.c:651-679 | The slot loop for one entry succeeds exactly when its slots are in range. It marks exactly the blocks the entry names. |
| CpmWrite.FindFreeEntry | cpmdisk.c:813-833 | The search for a free entry gives exactly `FreeEntryFrom`. |
| CpmWrite.FindFreeBlock | cpmdisk.c:862-882 | The search for a free block gives exactly `FreeBlockFrom`. |
| CpmWrite.CopyBlocks | cpmdisk.c:858-975 | The block loop over the directory buffer and block map leaves exactly the state `WriteBlocks` describes. |
| CpmWrite.CopyExtents | cpmdisk.c:809-977 | The extent loop leaves exactly the state `WriteExtents` describes. |
| CpmWrite.FindFile | cpmdisk.c:720-739 | The existence check finds a file exactly when some entry has the user and the name. |
| CpmWrite.CopyOneFile | cpmdisk.c:688-977 | One named file, copied in place, leaves exactly the state `WriteFile` describes. |
| CpmWrite.CopyHostFile | cpmdisk.c:741-977 | A host file that opened is refused if empty or over 256 extents. Otherwise its extents are copied, as `CopyFile` describes. |
| CpmWrite.WriteCommand | cpmdisk.c:589-679 | `write` without a file name, with a directory that cannot be read, or with a slot naming a block outside the disk fails with that error and leaves the image unchanged. |
| CpmWrite.DoWrite | cpmdisk.c:589-1008 | The `write` command gives exactly `WriteCommand`. |
| CpmWrite.CopyFiles | cpmdisk.c:688-977 | The file loop leaves exactly the state `WriteEach` describes. |
| CpmAlloc.BlockMapAllocated | cpmdisk.c:636-679 | The block map built from the directory covers the directory blocks and every block any entry in use names. |
| CpmAlloc.FreeBlockIsUnowned | cpmdisk.c:862-884 | A block the map shows free is neither a directory block nor named by any entry in use, so no block is handed out twice. |
| CpmAlloc.WriteBlocksKeeps | cpmdisk.c:858-975 | The block loop only marks blocks, and every block that was marked keeps its bytes. |
| CpmAlloc.WriteBlocksOnlySlots | cpmdisk.c:884-899 | The block loop changes only its own entry, and of it only the slots from the current one on. |
| CpmAlloc.WriteBlocksAllocated | cpmdisk.c:858-975 | The block loop keeps the allocation invariant. |
| CpmAlloc.WriteBlocksDataSlots | cpmdisk.c:862-899 | Every block the loop records is a data block after the directory. |
| CpmAlloc.WriteExtentsKeeps | cpmdisk.c:809-977 | The extent loop only marks blocks and keeps the bytes of marked blocks. |
| CpmAlloc.WriteExtentsOnlyFree | cpmdisk.c:813-847 | The extent loop changes only entries that were free. Each becomes an entry of the file being written. |
| CpmAlloc.WriteExtentsAllocated | cpmdisk.c:809-977 | The extent loop keeps the allocation invariant. The entries it fills name only data blocks. |
| CpmAlloc.CopyFileFrame | cpmdisk.c:772-977 | Copying one host file only marks blocks, keeps marked blocks' bytes and keeps the invariant. |
| CpmAlloc.WriteFileFrame | cpmdisk.c:688-977 | Writing one named file only marks blocks, keeps marked blocks' bytes, keeps the invariant and changes only free entries. |
| CpmAlloc.WriteFileKeepsFile | cpmdisk.c:688-977 | A file already on the disk keeps its entries through a later file's write. |
| CpmAlloc.WriteEachKeeps | cpmdisk.c:688-977 | The file loop only marks blocks and keeps the bytes of marked blocks. |
| CpmAlloc.WriteEachAllocated | cpmdisk.c:688-977 | The file loop keeps the allocation invariant. |
| CpmAlloc.WriteEachKeepsFile | cpmdisk.c:688-977 | A file already on the disk keeps its entries through the whole file loop. |
| CpmWriteBack.Padded | cpmdisk.c:920-926 | Padding gives the bytes followed by fewer than 128 `^Z` bytes, up to a whole sector. |
| CpmWriteBack.PaddedAppend | cpmdisk.c:920-926 | Whole sectors in front do not change the padding. |
| CpmWriteBack.SectorsForRoundsUp | cpmdisk.c:951-954 | Without wrap-around, the `unsigned` sector count of the bytes left rounds up to whole sectors, and is positive for a positive count. |
| CpmWriteBack.WrittenIsPadded | cpmdisk.c:903-957 | The sectors one block iteration writes are its bytes padded to whole sectors. |
| CpmWriteBack.WriteBlocksReadsBack | cpmdisk.c:858-975 | The blocks the loop fills, read back through the entry, give the bytes it copied. |
| CpmWriteBack.ExtentSectors | cpmdisk.c:844-847 | An extent's sector count fits its byte. It is full exactly when more than the last sector's worth is left. |
| CpmWriteBack.ExtentWritten | cpmdisk.c:809-977 | An extent copied without error is in a formerly free entry and is extent `n` of the file, with `min(sectors left, sectors per extent)` sectors. It reads back as its share of the file, padded. |
| CpmWriteBack.WriteExtentsReadsBack | cpmdisk.c:809-977 | The extent loop that ends without error leaves the file reading back, from the current extent on, as the rest of its bytes, padded. |
| CpmWriteBack.ExtentCount | cpmdisk.c:844-847 | A non-empty extent's sector count is positive, and full whenever more than an extent is left. |
| CpmRoundTrip.CopyExtentCount | cpmdisk.c:774-799 | An accepted file is not empty, its size fits the `unsigned` counter, and it needs exactly the extents computed. |
| CpmRoundTrip.CopyBlockCount | cpmdisk.c:803-804 | The starting block count is the fewest blocks that hold the file. |
| CpmRoundTrip.CopyFileReadsBack | cpmdisk.c:772-977 | A file copied without error onto a disk without a file of its name reads back from extent 0 as its bytes, padded with `^Z`. |
| CpmRoundTrip.WriteFileReadsBack | cpmdisk.c:688-977 | A named file written without error exists on the host. Its base name reads back as its contents, padded. |
| CpmRoundTrip.CopiedReadsBack | cpmdisk.c:705-977 | The same, stated through the name the converter accepted. |
| CpmRoundTrip.DirectoryKeepsData | cpmdisk.c:979-1001 | Writing the directory back leaves every data block as it was. |
| CpmRoundTrip.WriteEachReadsBack | cpmdisk.c:688-977 | After a file loop without error, every file it wrote reads back as its contents, padded. |
| CpmRoundTrip.FileSurvives | cpmdisk.c:688-977 | A file that reads back keeps reading back through later files' writes. |
| CpmRoundTrip.WrittenFileReads | cpmdisk.c:589-1001 | With the corrected extent counter, every file of a successful file loop reads back, once the directory is written, as its contents padded, however many extents it has. |
| CpmRoundTrip.ShortWrittenFileReads | cpmdisk.c:589-1001 | With `read`'s byte counter, the same holds for every file of at most 255 extents' worth of bytes. |
| CpmRoundTrip.PaddedWithinExtents | cpmdisk.c:920-926 | A file of at most 255 extents' worth of bytes still fits 255 full extents once padded. |
| CpmRoundTrip.WriteThenRead | cpmdisk.c:589-1008 | For a consistent geometry and files of at most 255 extents' worth of bytes each: a successful `write` followed by `read` of the files' base names saves every file, each as its contents padded with `^Z`. |
| CpmRoundTrip.AllSaved | cpmdisk.c:399-587 | Names that each read without error are all saved, in order. |
| CpmDelete.FreeEntries | cpmdisk.c:1076-1089 | Freeing keeps the number of entries and their well-formedness. |
| CpmDelete.DeleteEach | cpmdisk.c:1055-1099 | A successful run of deletes keeps the directory's size and well-formedness. |
| CpmDelete.DeleteCommand | cpmdisk.c:1010-1131 | A failed `delete` leaves the image unchanged. |
| CpmDelete.MarkFree | cpmdisk.c:1076-1099 | The entry loop marks exactly the name's entries free, and reports whether there were any. |
| CpmDelete.DoDelete | cpmdisk.c:1010-1131 | The `delete` command, over a directory array updated in place, gives exactly `DeleteCommand`. |
| CpmDelete.FreedFileGone | cpmdisk.c:1076-1089 | After freeing, the file has no entry left. |
| CpmDelete.FreeingKeepsOthers | cpmdisk.c:1076-1089 | Freeing one file keeps every entry of every other file of the user. |
| CpmDelete.DeleteEachOnlyFrees | cpmdisk.c:1076-1089 | Deleting only frees entries: no entry comes to belong to a file it did not belong to. |
| CpmDelete.DeleteEachRemoves | cpmdisk.c:1055-1099 | A successful delete leaves no entry of any named file. |
| CpmDelete.DeleteEachKeeps | cpmdisk.c:1055-1099 | A successful delete keeps every entry of every file that was not named. |
| CpmDelete.OtherFileReadsSame | cpmdisk.c:1055-1099 | A file that was not named reads the same after a successful delete. |
| CpmDelete.DeleteKeepsOtherUsers | cpmdisk.c:1076-1089 | Deleting never touches another user's entries. |
| CpmDelete.DeletedFilesNotFound | cpmdisk.c:1010-1131 | After a successful `delete`, the directory read back from the new image reports every named file as not found. |
| Hex2Bin.DigitValue | system/hex2bin.c:60 | A hex digit's value is below 16. |
| Hex2Bin.DigitChar | system/hex2bin.c:60 | The digit written for a value reads back as that value. |
| Hex2Bin.HexByte | system/hex2bin.c:100 | Two digits written for a byte read back as the byte. |
| Hex2Bin.CheckSum | system/hex2bin.c:93-124 | The checksum byte makes all the record's bytes sum to 0 modulo 256. |
| Hex2Bin.CheckSumIffZeroSum | system/hex2bin.c:93-129 | A record passes the checksum test exactly when all its bytes, checksum included, sum to 0 modulo 256. |
| Hex2Bin.ComplementPairs | system/hex2bin.c:117-118 | `x ^ 0xFF` then `+1` is the two's complement: two bytes sum to 0 modulo 256 exactly when one is the other's complement. |
| Hex2Bin.AsWrittenGuardNeverFires | system/hex2bin.c:83-91 | The overflow test as written, in 32-bit `unsigned` on a 16-bit address and 8-bit length, never refuses a record. |
| Hex2Bin.AsWrittenGuardAdmitsOverrun | system/hex2bin.c:83-112 | A two-byte record at 0xFFFF passes the test although its second byte lies past memory. |
| Hex2Bin.GuardAcceptsExactlyFittingRecords | system/hex2bin.c:83-91 | The corrected test accepts a record exactly when it is empty or its last byte lies at or below 0xFFFF. |
| Hex2Bin.DataBytes | system/hex2bin.c:95-115 | The data bytes are the digit pairs from column 9 on, one per byte. |
| Hex2Bin.ParseData | system/hex2bin.c:83-141 | An accepted type-0 record keeps its address and length, and lies inside memory: the corrected overflow guard refuses the rest (see "## Left out"). After the checksum, only white space, a NUL (the end of the C string) or the end of the line may follow. |
| Hex2Bin.TrailerEndsRecord | system/hex2bin.c:133-141 | After a correct checksum, a record is accepted exactly when white space, a NUL or the end of the line follows. Otherwise it is refused as an unexpected character. |
| Hex2Bin.ParseLine | system/hex2bin.c:52-141 | An accepted data record had ':' and eight hex digits of header and type 0. It holds as many bytes as its length field, and fits in memory. |
| Hex2Bin.EncodeRecord | system/hex2bin.c:60-141 | A data record is written in `12 + 2n` characters. |
| Hex2Bin.EncodeRecordRoundTrip | system/hex2bin.c:52-141 | Round trip: every data record that fits in memory, written out, parses as itself. |
| Hex2Bin.Poke | system/hex2bin.c:102-112 | Storing a byte keeps the memory's size. |
| Hex2Bin.Store | system/hex2bin.c:97-115 | Storing a record keeps the memory's size. |
| Hex2Bin.StoreKeepsTracked | system/hex2bin.c:102-110 | After a record is stored, every non-zero byte still lies between the lowest and highest address. |
| Hex2Bin.StoreWrites | system/hex2bin.c:97-115 | A record's bytes go to consecutive addresses from its address, and every other address keeps its byte. The lowest and highest addresses become the minimum and maximum including the record. |
| Hex2Bin.Padded | system/hex2bin.c:144-145 | Padding adds fewer than 128 bytes and leaves `highest + 1` a multiple of 128. |
| Hex2Bin.PaddingStaysInMemory | system/hex2bin.c:144-145 | Padding never leaves memory. The image length is a multiple of 128 exactly when the lowest address is aligned. |
| Hex2Bin.AsWrittenRefusesOneByteImage | system/hex2bin.c:144-159 | One data byte at 0x7F makes the written `assert (lowest < highest)` fail. The corrected end gives that one byte. |
| Hex2Bin.FinishAsWritten | system/hex2bin.c:144-172 | As written: the output is memory from the lowest to the padded highest address, and bytes outside it are 0. The conversion fails exactly when the lowest address is not strictly below the padded highest one. |
| Hex2Bin.Finish | system/hex2bin.c:144-172 | The corrected end: the same output, failing exactly when no byte was stored. |
| Hex2Bin.FinishAgrees | system/hex2bin.c:144-159 | The written and corrected ends agree unless the padded range is a single byte. |
| Hex2Bin.EmptyFileHasNoRange | system/hex2bin.c:42-43 | A file without data records leaves no range, and the conversion fails, as written and corrected. |
| Hex2Bin.Scan | system/hex2bin.c:52-172 | A conversion from any line on that succeeds gives a non-empty image ending on a 128-byte boundary, one byte per address. A failure names a line at or after the current one. |
| Hex2Bin.Converted | system/hex2bin.c:39-172 | The same for the whole file. |
| Hex2Bin.EndOfFileRecord | system/hex2bin.c:69-72 | `:00000001FF` ends the input. |
| Hex2Bin.SingleRecordFile | system/hex2bin.c:15-179 | A file of one data record and an end record fails exactly when it is a single byte at an address ending in 0x7F. Otherwise it converts to the record's bytes, padded with zeros to the 128-byte boundary. |
| Hex2Bin.StoreRecord | system/hex2bin.c:97-115 | The byte loop over the memory array leaves exactly the memory and range `Store` describes. |
| Hex2Bin.CopyRange | system/hex2bin.c:159-172 | The output loop gives exactly the memory from lowest to highest inclusive. |
| Hex2Bin.Convert | system/hex2bin.c:39-172 | The converter's loops give exactly `Converted`, which ends with the written `lowest < highest` check. An end-of-file record or ^Z leaves the record loop, and every file reaches the same padding and output loop. |
| Z80Ports.DecodePort | z80ports.cpp:83 | The port decoded is the port number modulo 256. |
| Z80Ports.PortDecodingIgnoresHighByte | z80ports.cpp:83 | The high byte of a port number never selects a device. |
| Z80Ports.WithDMALow | z80ports.cpp:126-129 | Writing the DMA-low port replaces only the low byte. |
| Z80Ports.WithDMAHigh | z80ports.cpp:131-134 | Writing the DMA-high port replaces only the high byte. |
| Z80Ports.DMAAddressFromBytes | z80ports.cpp:126-134 | Writing L then H, in either order, gives the DMA address `H * 256 + L`. |
| Z80Ports.DiskSectorNumber | z80ports.cpp:143 | The sector is `80 * track + sector`. It is below 2^25 - 1, where the RAM disk's 32-bit check is exact. |
| Z80Ports.ControlRequestOf | z80ports.cpp:163-179 | 'S' requests a save and 'Q' a shutdown; every other value requests nothing. |
| Z80Ports.Z80Ports.constructor | z80ports.cpp:57-69 | Starts at track 0, sector 0, DMA address 0x80, disk status false. |
| Z80Ports.Z80Ports.PortInput | z80ports.cpp:81-103 | Decodes the low byte. The console is the Circle build's, so console status is the buffer test of `GetStatus` (console.cpp:140-145), not the host build's poll (`GetStatusHost`): 1 exactly when a key is buffered, and is not consumed. Console input is the translated key, and empties the buffer. Disk status is 0 after success and 1 otherwise. Every other port reads 0xFF. |
| Z80Ports.Z80Ports.PortOutput | z80ports.cpp:105-184 | Decodes the low byte and changes only the register the port names; unknown ports change nothing. A disk operation first clears the status. It succeeds exactly for a read or write of a valid sector through a DMA window inside memory; a read copies the sector into the window. A window past 0xFFFF is refused (see "## Left out"). |
| RamDisk.ValidSectorsAreTheSectorCount | ramdisk.cpp:120-121 | The valid sectors are exactly 0..6399. |
| RamDisk.SectorOf | ramdisk.cpp:128 | A sector is the 128 bytes at offset `sector * 128`. |
| RamDisk.WithSector | ramdisk.cpp:143 | Writing a sector overwrites exactly its 128 bytes. |
| RamDisk.ReadAfterWrite | ramdisk.cpp:128-143 | Round trip: a sector written reads back as the bytes written. |
| RamDisk.WriteKeepsOtherSectors | ramdisk.cpp:143 | Writing one sector leaves every other sector unchanged. |
| RamDisk.AsWrittenAcceptsWrappedSectors | ramdisk.cpp:120-121 | The 32-bit test accepts sector 0x2000000, whose offset wraps to 0. It also accepts 0x1FFFFFF, whose sector would run past the buffer. |
| RamDisk.AsWrittenAgreesBelowWrap | ramdisk.cpp:120-121 | Below 2^25 - 1, the test as written accepts exactly the valid sectors. |
| RamDisk.RAMDisk.constructor | ramdisk.cpp:40-59 | The buffer has DISK_SIZE bytes. The source allocates it uninitialised in `Initialize`, so the zero fill is the model's choice. Nothing can observe it: the machine stops unless the load fills every byte. |
| RamDisk.RAMDisk.Initialize | ramdisk.cpp:94-115 | Loading succeeds exactly when the file exists and holds at least DISK_SIZE bytes. The buffer then holds its first DISK_SIZE bytes. |
| RamDisk.RAMDisk.Read | ramdisk.cpp:118-131 | Succeeds exactly for a valid sector, by the corrected sector test (see "## Left out"). Then it copies that sector into the destination window, and every other destination byte is untouched. |
| RamDisk.RAMDisk.Write | ramdisk.cpp:133-146 | Succeeds exactly for a valid sector, by the corrected sector test (see "## Left out"). Then only that sector changes, to the source window; otherwise the buffer is unchanged. |
| RamDisk.RAMDisk.Save | ramdisk.cpp:183-205 | Saving writes the whole buffer. |
| Z80Memory.ResetVector | z80memory.cpp:47-50 | The reset vector is `C3 00 F2`, a jump to MEM_BIOS. |
| Z80Memory.DMAWindowAsWritten | z80memory.cpp:113-122 | As written, a window handed out starts at the DMA address. |
| Z80Memory.AsWrittenNeverRefuses | z80memory.cpp:113-122 | As written, `GetDMAPointer` hands out every window; the null branch is unreachable. |
| Z80Memory.AsWrittenOverrunsMemory | z80memory.cpp:116-121 | A 128-byte window at 0xFFF0 is handed out although it runs past memory. |
| Z80Memory.DMAWindow | z80memory.cpp:113-122 | The corrected window is given exactly when it fits below 0x10000, and starts at the address. |
| Z80Memory.DMAWindowRefinesAsWritten | z80memory.cpp:113-122 | On windows that fit, the corrected and as-written versions agree. |
| Z80Memory.SystemImageFits | z80memory.cpp:98 | A system image of SYSTEM_MINSIZE to SYSTEM_MAXSIZE bytes at MEM_CCP ends at or below 0x10000 and covers the BIOS entry. |
| Z80Memory.Memory.constructor | z80memory.cpp:40-51 | Memory starts zeroed with the reset vector at 0..2. |
| Z80Memory.Memory.Initialize | z80memory.cpp:89-111 | A missing file fails and changes nothing. Otherwise up to SYSTEM_MAXSIZE bytes are loaded at MEM_CCP, every other byte is kept, and loading succeeds exactly when at least SYSTEM_MINSIZE bytes were loaded. |
| Console.Translate | console.cpp:212-225 | LF becomes CR and DEL becomes BS; every other byte is unchanged. |
| Console.PendingKeyIsKept | console.cpp:234-237 | A pending key survives any number of further key presses. |
| Console.FirstKeyWins | console.cpp:234-237 | Into an empty buffer, the first non-zero key pressed is the one kept. |
| Console.Console.constructor | console.cpp:45-55 | The key buffer starts empty. |
| Console.Console.PutChar | console.cpp:128-138 | The byte is appended to the output, and the key buffer is untouched. |
| Console.Console.GetStatus | console.cpp:140-145 | Circle build: a key is available exactly when the buffer is non-zero, and nothing is consumed. |
| Console.Console.GetStatusHost | console.cpp:146-185 | Host build: a pending key is reported. An empty buffer polls once: a received byte is stored and reported, anything else leaves the buffer empty. |
| Console.Console.GetChar | console.cpp:188-226 | Returns the pending key, or the next one delivered, translated. The buffer is empty afterwards. |
| Console.Console.KeyPressedHandler | console.cpp:230-238 | The first byte of the key string is stored only into an empty buffer; a pending key is never overwritten. |
| Z80Registers.WithHi | z80.h:17-29 | Writing the high byte leaves the low byte unchanged. |
| Z80Registers.WithLo | z80.h:17-29 | Writing the low byte leaves the high byte unchanged. |
| Z80Registers.PairOf | z80.h:17-29 | The pair built from a word has that word. |
| Z80Registers.PairViewsAgree | z80.h:17-29 | The byte and word views determine each other: the word is `hi * 256 + lo`. |
| Z80Registers.HalfWriteChangesWord | z80.h:31-55 | Writing one half changes the word by exactly that byte's weight. |
| Z80Registers.FlagMasksPartitionF | z80.h:77-85 | The eight flag masks are distinct single bits that together cover F. OVERFLOW aliases PARITY. |
| Z80Registers.CompositeMaskValues | z80.h:87-91 | FLAG_53 = 0x28, SZ = 0xC0, SZHN = 0xD2, SZP = 0xC4, SZHP = 0xD4. |
| Z80Registers.FlagTableContents | z80.h:171-185 | Sign, bit 5 and bit 3 come from the value, and zero is set exactly for 0. ADDSUB is clear in the add tables and set in the sub tables. Only the `pn` tables compute parity. Half-carry and carry are always 0. |
| Z80Registers.FlagsRoundTrip | z80.h:94-97 | Round trip: splitting F into the seven tracked bits and the carry, then recombining, is the identity, in both directions. |
| Z80Registers.RefreshKeepsBit7 | z80.h:126-129 | Counting R up never disturbs its bit 7, which is held separately. |
| Z80Registers.IYMacrosAliasHL | z80.h:56-58 | As written, `REG_IY` reads HL's word whenever HL and IY differ, and writing `REG_IYh` changes HL and leaves IY alone. |
| Z80Registers.IYView | z80.h:56-58 | The corrected `REG_IY` reads IY's word. |
| Z80Registers.Z80.constructor | z80.h:131-147 | IFF1, IFF2, pendingEI, activeNMI, activeINT, halted and pinReset start false, and the interrupt mode is IM0. No breakpoint is set: this clearing is assumed, as z80.h:189 only declares `breakpointAt` and the constructor body is in the CPU's implementation file (see "## Left out"). |
| Z80Registers.Z80.SetFlags | z80.h:328-329 | After `setFlags(f)`, `getFlags()` returns `f`; only F's tracked bits and carry are written, so every other register, A and R included, is unchanged. |
| Z80Registers.Z80.SetRegR | z80.h:126-129 | After `setRegR(v)`, `getRegR()` returns `v`; only R's low seven bits and its bit 7 are written, so every other register, A, I and F included, is unchanged. |
| Z80Registers.Z80.PairIR | z80.h:290-291 | IR has I in the high byte and R in the low byte. |
| Z80Registers.Z80.SetIFF1 | z80.h:333-334 | Sets IFF1 and changes no other field. |
| Z80Registers.Z80.SetIFF2 | z80.h:338 | Sets IFF2 and changes no other field. |
| Z80Registers.Z80.SetNMI | z80.h:341 | Sets the NMI request to the level given, and changes no other field. |
| Z80Registers.Z80.TriggerNMI | z80.h:343-344 | A pulse on the NMI line leaves a pending request, and changes no other field. |
| Z80Registers.Z80.SetINTLine | z80.h:347-348 | The INT line follows the level it is given, and no other field changes. |
| Z80Registers.Z80.SetIM | z80.h:353 | Sets the interrupt mode, and changes no other field. |
| Z80Registers.Z80.SetHalted | z80.h:356 | Sets the halted state, and changes no other field. |
| Z80Registers.Z80.SetPinReset | z80.h:359 | Requests a reset through the /RESET pin, and changes no other field. |
| Z80Registers.Z80.SetPendingEI | z80.h:362 | Sets the EI pending state, and changes no other field. |
| Z80Registers.Z80.SetBreakpoint | z80.h:187-189 | After `setBreakpoint(a, s)`, `isBreakpoint(a)` is `s`, and every other address keeps its flag. |
| Z80Registers.Z80.ResetBreakpoints | z80.h:370-372 | Afterwards, no address has a breakpoint. |

## Left out

- File-system failures that the tools report but that depend on the host are not modelled:
  - `cpmdisk`: the image `fopen` failing ("Cannot open") in `dir`, `read`, `write` and `delete`, `fseek`/`fread`/`fwrite` errors while copying, failure to create an output file in `read`, a failing `fclose`;
  - `hex2bin`: write errors in `fputc`, failure to open either file;
  - the RAM disk: `Save` failing to create or fully write the image file (ramdisk.cpp:184-199), whose result z80ports.cpp:167 ignores; the Circle build's `FileClose` failing after a complete load of the RAM disk or of the system image (ramdisk.cpp:88-93, z80memory.cpp:83-88).
  The image and the host files are values, so these paths do not arise. The read of the directory and of each block is modelled, because it fails on a short image.
- DoInit's `fwrite` errors are not modelled: formatting produces the whole image. Whether the image exists and whether it can be created are parameters.
- `main`'s call of the selected command is not a member of its own. Each command is a member (`DoInit`, `DoDir`, `DoRead`, `DoWrite`, `DoDelete`) that takes the parsed invocation's parameters.
- `Usage` and every `printf`/`fprintf` are not modelled, except the `dir` listing. That listing's text is modelled because it is the command's result.
- Arguments are C strings, so they are taken without NUL characters (`NoNul`). The model takes a platform where `char` is signed, such as x86: there the comparison `c <= ' '` refuses host bytes above 0x7F in a name. Where `char` is unsigned, as on ARM Linux, such bytes pass `ConvertFileName` unchanged; that platform is not modelled.
- `hex2bin` reads each data byte and the checksum with an unchecked `sscanf` of `%2X` (system/hex2bin.c:97-121). When the first character is not a hex digit, `sscanf` stores nothing and the uninitialised variable is used. `%2X` also reads a single digit, so a field cut short is accepted: `:01000000F0F` passes with checksum 0x0F. The model refuses all of these lines instead: each data byte and the checksum must be exactly two hex digits. `%2X`/`%4X` leniency (leading spaces, a `0x` prefix) is not modelled: the header must be ':' followed by eight hex digits.
- `hex2bin`'s lines are given already split; `fgets`'s 1000-character limit is not modelled.
- The CP/M 2.2 rule chooses 8-bit block numbers while the largest block number is at most 255, which includes a disk of 256 blocks. The tool uses 8-bit numbers only up to 255 blocks (its own TODO questions this). The model follows the tool; both `read` and `write` use the same rule (`CpmDisk.TwoHundredFiftySixBlocksUseWords`).
- The Z80 instruction interpreter, the per-register getters and setters, the single-flag accessors, the loop that fills the flag tables, and `reset` are not modelled: their code is in the CPU's implementation file, which is not part of this model. The tables are modelled as the functions their comments define. z80computer.cpp, kernel.cpp, main.cpp and multicore.cpp (bootstrap and run loop) are not part of this model either.
- `Z80_RAM_SIZE` comes from z80stub.h, which is not part of this model. It is taken as 0x10000.
- z80ports.h declares a two-drive constructor; the model follows z80ports.cpp. The collaborators are the console, the memory and the RAM disk; `Shutdown` and `Save` are returned as a request.
- The console's terminal set-up (termios, `select`, `read` on stdin) and Circle's USB keyboard and screen become parameters: the polled byte, and the key delivered to `GetChar`. Circle's busy wait in `GetChar` becomes the key it waits for. The keyboard interrupt is modelled as a sequential call, without `volatile` concurrency.
- Z80Registers.Z80.SetIFF1, Z80Registers.Z80.SetIFF2, Z80Registers.Z80.SetNMI, Z80Registers.Z80.TriggerNMI, Z80Registers.Z80.SetINTLine, Z80Registers.Z80.SetIM, Z80Registers.Z80.SetHalted, Z80Registers.Z80.SetPinReset, Z80Registers.Z80.SetPendingEI: the implementations are in the CPU's implementation file; the contracts state what the declarations and their comments say.
- RamDisk.RAMDisk.Read, RamDisk.RAMDisk.Write: these use the corrected sector test, sector < SECTOR_COUNT (`ValidSector`). ramdisk.cpp:120-121 computes `nSector * 128 + 128` in 32-bit `unsigned`. From sector 2^25 − 1 up, that test also accepts sectors: 0x1FFFFFF reaches past the buffer, and 0x2000000 wraps to offset 0 and aliases sector 0 (`AsWrittenAcceptsWrappedSectors`). The only caller, the disk port, never produces such a sector (`DiskSectorNumber`), and below 2^25 − 1 the two tests agree (`AsWrittenAgreesBelowWrap`).
- RamDisk.RAMDisk.Initialize and RamDisk.RAMDisk.Save model the host build's single `fread`/`fwrite` of the whole image. The Circle build's track-by-track loop has the same effect.
- CpmRead.ReadExtentsAsWritten: a full extent 255 makes the byte counter wrap and look for extent 0 again, which trips the `assert (pOutFile == NULL)`. The model reports this as an abort, not as a process abort.
- CpmRead.ReadCommand, CpmRead.ReadNames, CpmRead.DoRead, CpmRead.FirstFailure, CpmRead.ReadFile: the outcome lists only the host files of names that read completely. The tool creates and truncates the output file as soon as extent 0 is found (cpmdisk.c:443-454) and writes each block as it reads it (cpmdisk.c:535-550). A later failure therefore leaves a partly or wholly written host file behind, even though the command reports an error: for example, extent 1 names block 0 or a block past the image, or the byte counter wraps after extent 255 and reports "File not found" (cpmdisk.c:572-583). The model does not return these leftover files.
- Z80Registers.Z80.constructor: the default member initialisers of z80.h:131-147 are modelled. The empty breakpoint table is assumed, because the constructor body that would clear `breakpointAt` is in the CPU's implementation file.
- CpmRead.ReadExtents, CpmRead.ReadExtentsOutcome, CpmRead.ReadFileCorrected, CpmRead.ReadFileCorrectedOutcome: these use an unbounded extent counter, the corrected half of the extent-counter finding. `read` itself (`ReadFile`, `ReadOneFile`, `ReadCommand`, `DoRead`) uses the byte counter.
- CpmRoundTrip.WriteThenRead: proved only for files of at most 255 extents' worth of bytes. A file that fills extent 255 cannot be read back by `read` as written (`CpmRead.ByteCounterFailsOn256Extents`). `CpmRoundTrip.WrittenFileReads` covers every file for the corrected read.
- CpmMain.CheckedWriteThenRead: the same bound of 255 extents' worth of bytes per file, for the same reason.
- CpmWrite.BuildBlockMap: directory blocks are marked only while they lie inside the map. When the settings give more directory blocks than blocks (`CpmMain.DirectoryBeyondBlockMapAccepted`), the tool writes past its `malloc`ed map, which an array model cannot represent. `Consistent` geometries have fewer directory blocks than blocks, so there the two agree.
- Hex2Bin.ParseData: a record whose bytes run past 0xFFFF is refused as an address overflow, by the corrected guard. The converter as written accepts it and stores past its 64 KiB array (`Hex2Bin.AsWrittenGuardAdmitsOverrun`), which an array model cannot represent.
- Hex2Bin.ParseLine, Hex2Bin.Scan, Hex2Bin.Converted, Hex2Bin.Convert: these inherit the corrected guard of `ParseData`. They end with the written `lowest < highest` check (`FinishAsWritten`).
- Z80Ports.Z80Ports.PortOutput: a disk read or write whose DMA window runs past 0xFFFF fails with status 1 and leaves memory unchanged, by the corrected `DMAWindow`. The device as written gets the window (`Z80Memory.AsWrittenNeverRefuses`), reports success and copies past the end of memory, which an array model cannot represent.

## Findings

| source | as written | input that shows it | evidently intended | confidence | as-written member | corrected member |
|---|---|---|---|---|---|---|
| system/hex2bin.c:83-91 | `nAddress + nLength-1 < nAddress` is computed in 32-bit `unsigned` on a 16-bit address and an 8-bit length, so it is never true | a record of length 2 at address 0xFFFF: its second byte is stored at `Memory[0x10000]`, past the array | refuse a record whose last byte lies past 0xFFFF | high (not executed) | Hex2Bin.AsWrittenGuardAdmitsOverrun | Hex2Bin.GuardAcceptsExactlyFittingRecords |
| system/hex2bin.c:144-159 | after padding, `assert (nLowestAddress < nHighestAddress)` | a file whose only data is one byte at 0x7F: lowest and padded highest are both 0x7F, and the assert aborts | accept `lowest <= highest` and write the one byte | medium (not executed) | Hex2Bin.AsWrittenRefusesOneByteImage | Hex2Bin.Finish |
| z80memory.cpp:116-119 | `usAddress + usLength < usAddress` is evaluated after promotion to `int`, so it is never true | DMA address 0xFFF0 with a 128-byte sector: the window runs 112 bytes past memory | return null for a window that wraps past 0xFFFF | high (not executed) | Z80Memory.AsWrittenOverrunsMemory | Z80Memory.DMAWindow |
| ramdisk.cpp:120-121 | `nSector * SECTOR_SIZE` and `nOffset + SECTOR_SIZE` are computed in 32-bit `unsigned` | sector 0x2000000: the offset wraps to 0, the check passes, and sector 0 is accessed. The ports only produce sectors below 2^25 - 1 (`Z80Ports.DiskSectorNumber`). | refuse every sector at or above SECTOR_COUNT | low: unreachable from the ports (not executed) | RamDisk.AsWrittenAcceptsWrappedSectors | RamDisk.ValidSectorsAreTheSectorCount |
| z80.h:56-58 | `REG_IYh`, `REG_IYl` and `REG_IY` expand to `regHL` | HL = 0 and IY = 0x1234: `REG_IY` reads 0 | expand to `regIY` | high (not executed) | Z80Registers.IYMacrosAliasHL | Z80Registers.IYView |
| cpmdisk.c:416-562 | the extent counter of `read` is an `unsigned char` | a file of 256 extents, the first 255 full and extent 255 full too (`init`, then `write FILE` with a 2 MiB `FILE`, then `read FILE`, each with `-t 160 -s 160 -b 1 -e 8 -d 256`: 8 KiB extents, 256 directory entries and 3160 blocks, so `write` finds a free entry for every extent and blocks for all of them): the counter wraps to 0, extent 0 is found again, and `assert (pOutFile == NULL)` aborts | stop after extent 255, as `write` stores at most 256 extents | medium (not executed) | CpmRead.ByteCounterFailsOn256Extents | CpmRoundTrip.WrittenFileReads |
| cpmdisk.c:636-645 | the directory blocks are marked in a map of `nTotalBlocks` bytes without comparing against its size | `cpmdisk write -t 20 -r 20 FILE` on an image that holds the directory at byte 204800, such as one made by a plain `cpmdisk init`: no data blocks but 2 directory blocks, so `pBlockMap[0]` and `pBlockMap[1]` are written into a buffer of 0 bytes | refuse settings whose directory does not fit in the data tracks | medium (not executed) | CpmMain.DirectoryBeyondBlockMapAccepted | CpmMain.CheckedCommandLine |
| cpmdisk.c:1184-1236 | each option is range-checked alone, so combinations the directory cannot describe are accepted | `cpmdisk write -b 4 -e 32 FILE` with a `FILE` over 32 KiB: 256 sectors per extent in 8 blocks of 4 KiB, and a full extent's `SectorCount` byte is written as 0, which `read` asserts against. `-b 16 -e 8`: 0 blocks per extent. `-b 3 -e 8`: 2 blocks of 24 sectors do not make the 64-sector extent. | refuse geometries with a partial or missing block per extent, more blocks per extent than slots, or over 255 sectors per extent | medium (not executed) | CpmMain.WideExtentAccepted | CpmMain.CheckedWriteThenRead |
