/**
 * The CP/M disk image as cpmdisk lays it out: reserved tracks, then
 * allocation blocks, the first of which hold the directory of 32-byte
 * entries. The image file is a byte sequence; seeking past its end and
 * writing there fills the gap with zeros, as a POSIX file does.
 */
module CpmDisk {
  import opened Types

  const SECTOR_SIZE: nat := 128
  const FORMAT_BYTE: u8 := 0xE5
  const ENTRY_SIZE: nat := 32
  const BLOCKCOUNT_BYTE: nat := 16
  const BLOCKCOUNT_WORD: nat := 8
  const KBYTE: nat := 1024

  // ----- Geometry -----

  /**
   * The disk parameters: six configured values (block and extent sizes in
   * bytes) and the seven `main` derives from them.
   */
  datatype DiskParams = DiskParams(
    tracks: nat,
    reservedTracks: nat,
    sectorsPerTrack: nat,
    blockSize: nat,
    extendSize: nat,
    directoryEntries: nat,
    reservedBytes: nat,
    totalSectors: nat,
    totalBlocks: nat,
    sectorsPerBlock: nat,
    sectorsPerExtend: nat,
    blocksPerExtend: nat,
    directoryBlocks: nat)

  /** The ranges the command-line options enforce, one option at a time. */
  predicate OptionRanges(tracks: nat, reservedTracks: nat, sectorsPerTrack: nat, blockSize: nat, extendSize: nat, directoryEntries: nat)
  {
    && 20 <= tracks <= 160
    && reservedTracks <= 20
    && 8 <= sectorsPerTrack <= 160
    && blockSize % KBYTE == 0 && KBYTE <= blockSize <= 16 * KBYTE
    && extendSize % KBYTE == 0 && 8 * KBYTE <= extendSize <= 256 * KBYTE
    && 32 <= directoryEntries <= 2048
  }

  /** `main`'s calculation of the derived parameters. */
  function Calculate(tracks: nat, reservedTracks: nat, sectorsPerTrack: nat, blockSize: nat, extendSize: nat, directoryEntries: nat): (p: DiskParams)
    requires OptionRanges(tracks, reservedTracks, sectorsPerTrack, blockSize, extendSize, directoryEntries)
  {
    var usableTracks: nat := tracks - reservedTracks;
    DiskParams(
      tracks, reservedTracks, sectorsPerTrack, blockSize, extendSize, directoryEntries,
      Mul(Mul(reservedTracks, sectorsPerTrack), SECTOR_SIZE),
      Mul(tracks, sectorsPerTrack),
      Div(Mul(Mul(usableTracks, sectorsPerTrack), SECTOR_SIZE), blockSize),
      Div(blockSize, SECTOR_SIZE),
      Div(extendSize, SECTOR_SIZE),
      Div(extendSize, blockSize),
      Div(Mul(directoryEntries, ENTRY_SIZE) + blockSize - 1, blockSize))
  }

  function Mul(a: nat, b: nat): nat { a * b }

  function Div(a: nat, b: nat): nat
    requires b > 0
  {
    a / b
  }

  const DEFAULT_PARAMS: DiskParams := Calculate(80, 2, 80, 2 * KBYTE, 16 * KBYTE, 128)

  /**
   * What the rest of the tool relies on: the option ranges, whole sectors
   * per block and per extent, block numbers below 3201, and a directory
   * that fits its blocks.
   */
  predicate Valid(p: DiskParams)
  {
    && OptionRanges(p.tracks, p.reservedTracks, p.sectorsPerTrack, p.blockSize, p.extendSize, p.directoryEntries)
    && p.reservedBytes == p.reservedTracks * p.sectorsPerTrack * SECTOR_SIZE
    && p.totalSectors == p.tracks * p.sectorsPerTrack
    && p.sectorsPerBlock * SECTOR_SIZE == p.blockSize
    && p.sectorsPerExtend * SECTOR_SIZE == p.extendSize
    && p.totalBlocks <= 3200
    && p.directoryEntries * ENTRY_SIZE <= p.directoryBlocks * p.blockSize
  }

  /** The calculated parameters have every property the rest relies on. */
  lemma CalculatedIsValid(tracks: nat, reservedTracks: nat, sectorsPerTrack: nat, blockSize: nat, extendSize: nat, directoryEntries: nat)
    requires OptionRanges(tracks, reservedTracks, sectorsPerTrack, blockSize, extendSize, directoryEntries)
    ensures Valid(Calculate(tracks, reservedTracks, sectorsPerTrack, blockSize, extendSize, directoryEntries))
  {
    var p := Calculate(tracks, reservedTracks, sectorsPerTrack, blockSize, extendSize, directoryEntries);
    WholeSectors(blockSize);
    WholeSectors(extendSize);
    var usable: nat := tracks - reservedTracks;
    TotalBlocksBound(usable, sectorsPerTrack, blockSize);
    DirectoryFitsItsBlocks(directoryEntries, blockSize);
  }

  /** A whole number of KiB is a whole number of 128-byte sectors. */
  lemma WholeSectors(size: nat)
    requires size % KBYTE == 0
    ensures Div(size, SECTOR_SIZE) * SECTOR_SIZE == size
  {
    var k := size / KBYTE;
    assert size == k * KBYTE;
  }

  lemma TotalBlocksBound(usable: nat, sectorsPerTrack: nat, blockSize: nat)
    requires usable <= 160 && sectorsPerTrack <= 160 && KBYTE <= blockSize
    ensures Div(Mul(Mul(usable, sectorsPerTrack), SECTOR_SIZE), blockSize) <= 3200
  {
    var data := Mul(Mul(usable, sectorsPerTrack), SECTOR_SIZE);
    MulLe(usable, 160, sectorsPerTrack);
    MulLe(sectorsPerTrack, 160, 160);
    assert data <= 160 * 160 * SECTOR_SIZE;
    var q := data / blockSize;
    assert q * blockSize <= data;
    MulLe(KBYTE, blockSize, q);
  }

  lemma MulLe(a: nat, b: nat, k: nat)
    requires a <= b
    ensures a * k <= b * k && k * a <= k * b
  {
  }

  /** The blocks fit the disk after the reserved tracks, with less than one block to spare. */
  lemma BlocksFitDisk(tracks: nat, reservedTracks: nat, sectorsPerTrack: nat, blockSize: nat, extendSize: nat, directoryEntries: nat)
    requires OptionRanges(tracks, reservedTracks, sectorsPerTrack, blockSize, extendSize, directoryEntries)
    ensures var p := Calculate(tracks, reservedTracks, sectorsPerTrack, blockSize, extendSize, directoryEntries);
      && p.reservedBytes + p.totalBlocks * blockSize <= p.totalSectors * SECTOR_SIZE
      && p.totalSectors * SECTOR_SIZE < p.reservedBytes + (p.totalBlocks + 1) * blockSize
  {
    var p := Calculate(tracks, reservedTracks, sectorsPerTrack, blockSize, extendSize, directoryEntries);
    var usable: nat := tracks - reservedTracks;
    var data := usable * sectorsPerTrack * SECTOR_SIZE;
    assert p.totalSectors * SECTOR_SIZE == p.reservedBytes + data by {
      assert tracks * sectorsPerTrack == reservedTracks * sectorsPerTrack + usable * sectorsPerTrack;
    }
    var q := p.totalBlocks;
    assert data == q * blockSize + data % blockSize;
    assert (q + 1) * blockSize == q * blockSize + blockSize;
  }

  /** The directory blocks are the fewest that hold every entry. */
  lemma DirectoryFitsItsBlocks(directoryEntries: nat, blockSize: nat)
    requires KBYTE <= blockSize
    ensures var blocks := Div(Mul(directoryEntries, ENTRY_SIZE) + blockSize - 1, blockSize);
      && directoryEntries * ENTRY_SIZE <= blocks * blockSize
      && (directoryEntries > 0 ==> (blocks - 1) * blockSize < directoryEntries * ENTRY_SIZE)
  {
    var n := directoryEntries * ENTRY_SIZE + blockSize - 1;
    var q := n / blockSize;
    assert n == q * blockSize + n % blockSize;
    if directoryEntries > 0 {
      assert q >= 1;
      assert (q - 1) * blockSize == q * blockSize - blockSize;
    }
  }

  /**
   * The byte offset of an allocation block in the image: block 0 starts
   * right after the reserved tracks and each block follows the one before.
   */
  function BlockOffset(p: DiskParams, block: nat): nat
  {
    if block == 0 then p.reservedBytes else BlockOffset(p, block - 1) + p.blockSize
  }

  /** The offset is `block * blockSize + reservedBytes`, as the tool computes it. */
  lemma {:induction false} BlockOffsetFormula(p: DiskParams, block: nat)
    ensures BlockOffset(p, block) == block * p.blockSize + p.reservedBytes
  {
    if block > 0 {
      BlockOffsetFormula(p, block - 1);
      assert block * p.blockSize == (block - 1) * p.blockSize + p.blockSize;
    }
  }

  /** A disk with at most 255 blocks keeps one byte per block number, a larger one a 16-bit word. */
  predicate ByteSlots(p: DiskParams)
  {
    p.totalBlocks <= 255
  }

  function SlotCount(p: DiskParams): nat
  {
    if ByteSlots(p) then BLOCKCOUNT_BYTE else BLOCKCOUNT_WORD
  }

  /**
   * The geometries for which the directory can describe a full extent:
   * whole blocks per extent, at least one, no more than the slots of an
   * entry, a sector count that fits its byte, and room for a file block
   * after the directory.
   */
  predicate Consistent(p: DiskParams)
  {
    && Valid(p)
    && 0 < p.blocksPerExtend <= SlotCount(p)
    && p.blocksPerExtend * p.sectorsPerBlock == p.sectorsPerExtend
    && p.sectorsPerExtend <= 255
    && p.directoryBlocks < p.totalBlocks
  }

  /** Distinct blocks occupy disjoint byte ranges of the image. */
  lemma {:induction false} BlocksDoNotOverlap(p: DiskParams, a: nat, b: nat)
    requires a < b
    ensures BlockOffset(p, a) + p.blockSize <= BlockOffset(p, b)
    decreases b
  {
    if a + 1 < b {
      BlocksDoNotOverlap(p, a, b - 1);
    }
  }

  lemma MulStep(x: nat, y: nat, k: nat)
    requires x < y
    ensures x * k + k <= y * k
    decreases y - x
  {
    if x + 1 < y {
      MulStep(x + 1, y, k);
    }
  }

  /** The default disk: 390 blocks of 2 KiB, word slots, 8 blocks and 128 sectors per extent. */
  lemma DefaultGeometry()
    ensures Valid(DEFAULT_PARAMS) && Consistent(DEFAULT_PARAMS)
    ensures DEFAULT_PARAMS.reservedBytes == 20480 && DEFAULT_PARAMS.totalSectors == 6400
    ensures DEFAULT_PARAMS.totalBlocks == 390 && !ByteSlots(DEFAULT_PARAMS)
    ensures DEFAULT_PARAMS.sectorsPerExtend == 128 && DEFAULT_PARAMS.blocksPerExtend == 8
    ensures DEFAULT_PARAMS.directoryBlocks == 2
  {
    CalculatedIsValid(80, 2, 80, 2 * KBYTE, 16 * KBYTE, 128);
  }

  /**
   * A disk of exactly 256 blocks keeps word slots, although every block
   * number 0..255 would fit a byte (CP/M 2.2 switches to words only
   * above 256 blocks).
   */
  lemma TwoHundredFiftySixBlocksUseWords()
    ensures var p := Calculate(34, 2, 128, 2 * KBYTE, 16 * KBYTE, 64);
      p.totalBlocks == 256 && !ByteSlots(p)
  {
  }

  // ----- Directory entries -----

  /** One 32-byte directory entry; `blockBytes` holds 16 byte slots or 8 little-endian word slots. */
  datatype DirEntry = DirEntry(
    user: u8,
    name: seq<u8>,
    extent: u8,
    reserved1: u8,
    reserved2: u8,
    sectorCount: u8,
    blockBytes: seq<u8>)

  predicate WellFormed(e: DirEntry)
  {
    |e.name| == 11 && |e.blockBytes| == 16
  }

  predicate IsFree(e: DirEntry)
  {
    e.user == FORMAT_BYTE
  }

  function EncodeEntry(e: DirEntry): (b: seq<u8>)
    requires WellFormed(e)
    ensures |b| == ENTRY_SIZE
  {
    [e.user] + e.name + [e.extent, e.reserved1, e.reserved2, e.sectorCount] + e.blockBytes
  }

  function DecodeEntry(b: seq<u8>): (e: DirEntry)
    requires |b| == ENTRY_SIZE
    ensures WellFormed(e)
  {
    DirEntry(b[0], b[1..12], b[12], b[13], b[14], b[15], b[16..32])
  }

  lemma EntryRoundTrip(e: DirEntry)
    requires WellFormed(e)
    ensures DecodeEntry(EncodeEntry(e)) == e
  {
    var b := EncodeEntry(e);
    assert b[1..12] == e.name;
    assert b[16..32] == e.blockBytes;
  }

  lemma EntryBytesRoundTrip(b: seq<u8>)
    requires |b| == ENTRY_SIZE
    ensures EncodeEntry(DecodeEntry(b)) == b
  {
    assert b == [b[0]] + b[1..12] + [b[12], b[13], b[14], b[15]] + b[16..32];
  }

  /** The largest block number plus one that a slot can hold. */
  function SlotLimit(p: DiskParams): nat
  {
    if ByteSlots(p) then 0x100 else 0x1_0000
  }

  /** Block slot `j` of an entry: a byte, or a little-endian 16-bit word. */
  function Slot(p: DiskParams, e: DirEntry, j: nat): nat
    requires WellFormed(e) && j < SlotCount(p)
  {
    if ByteSlots(p) then e.blockBytes[j]
    else e.blockBytes[2 * j] as int + 0x100 * e.blockBytes[2 * j + 1] as int
  }

  function WithSlot(p: DiskParams, e: DirEntry, j: nat, block: nat): (r: DirEntry)
    requires WellFormed(e) && j < SlotCount(p) && block < SlotLimit(p)
    ensures WellFormed(r)
  {
    if ByteSlots(p) then e.(blockBytes := e.blockBytes[j := block])
    else
      assert block < 0x1_0000;
      var lo: u8, hi: u8 := block % 0x100, block / 0x100;
      e.(blockBytes := e.blockBytes[2 * j := lo][2 * j + 1 := hi])
  }

  /** Writing a slot stores the block number there and changes nothing else. */
  lemma SlotUpdate(p: DiskParams, e: DirEntry, j: nat, block: nat)
    requires WellFormed(e) && j < SlotCount(p) && block < SlotLimit(p)
    ensures Slot(p, WithSlot(p, e, j, block), j) == block
    ensures forall k :: 0 <= k < SlotCount(p) && k != j ==> Slot(p, WithSlot(p, e, j, block), k) == Slot(p, e, k)
    ensures WithSlot(p, e, j, block).(blockBytes := e.blockBytes) == e
  {
  }

  /** An entry whose slots are all zero, as `memset` leaves a new one. */
  const NO_BLOCKS: seq<u8> := seq(16, _ => 0)

  lemma ZeroSlots(p: DiskParams, e: DirEntry)
    requires WellFormed(e) && e.blockBytes == NO_BLOCKS
    ensures forall k :: 0 <= k < SlotCount(p) ==> Slot(p, e, k) == 0
  {
  }

  // ----- The directory as bytes -----

  predicate AllWellFormed(dir: seq<DirEntry>)
  {
    forall i :: 0 <= i < |dir| ==> WellFormed(dir[i])
  }

  function EncodeDirectory(dir: seq<DirEntry>): (b: seq<u8>)
    requires AllWellFormed(dir)
    ensures |b| == ENTRY_SIZE * |dir|
  {
    if dir == [] then [] else EncodeDirectory(dir[..|dir| - 1]) + EncodeEntry(dir[|dir| - 1])
  }

  function DecodeDirectory(b: seq<u8>): (dir: seq<DirEntry>)
    requires |b| % ENTRY_SIZE == 0
    ensures |dir| == |b| / ENTRY_SIZE && AllWellFormed(dir)
  {
    seq(|b| / ENTRY_SIZE, i requires 0 <= i < |b| / ENTRY_SIZE => DecodeEntry(b[ENTRY_SIZE * i..ENTRY_SIZE * i + ENTRY_SIZE]))
  }

  lemma {:induction false} EncodedEntryAt(dir: seq<DirEntry>, i: nat)
    requires AllWellFormed(dir) && i < |dir|
    ensures EncodeDirectory(dir)[ENTRY_SIZE * i..ENTRY_SIZE * i + ENTRY_SIZE] == EncodeEntry(dir[i])
  {
    var last := |dir| - 1;
    var front := EncodeDirectory(dir[..last]);
    assert EncodeDirectory(dir) == front + EncodeEntry(dir[last]);
    if i < last {
      EncodedEntryAt(dir[..last], i);
      assert EncodeDirectory(dir)[ENTRY_SIZE * i..ENTRY_SIZE * i + ENTRY_SIZE] == front[ENTRY_SIZE * i..ENTRY_SIZE * i + ENTRY_SIZE];
    } else {
      assert EncodeDirectory(dir)[ENTRY_SIZE * i..ENTRY_SIZE * i + ENTRY_SIZE] == EncodeEntry(dir[last]);
    }
  }

  lemma DirectoryRoundTrip(dir: seq<DirEntry>)
    requires AllWellFormed(dir)
    ensures DecodeDirectory(EncodeDirectory(dir)) == dir
  {
    var d := DecodeDirectory(EncodeDirectory(dir));
    forall i | 0 <= i < |dir| ensures d[i] == dir[i] {
      EncodedEntryAt(dir, i);
      EntryRoundTrip(dir[i]);
    }
  }

  // ----- The image file -----

  /** `fseek` and `fread` of `n` bytes: None when the file ends first. */
  function ReadAt(image: seq<u8>, offset: nat, n: nat): (r: Option<seq<u8>>)
    ensures r.Some? <==> offset + n <= |image|
    ensures r.Some? ==> |r.value| == n
  {
    if offset + n <= |image| then Some(image[offset..offset + n]) else None
  }

  function Zeros(n: nat): (r: seq<u8>)
    ensures |r| == n && forall i :: 0 <= i < n ==> r[i] == 0
  {
    seq(n, _ => 0)
  }

  /** `fseek` and `fwrite`: past the end the file grows, a gap reading as zeros. */
  function WriteAt(image: seq<u8>, offset: nat, data: seq<u8>): (r: seq<u8>)
    ensures |r| == if offset + |data| <= |image| then |image| else offset + |data|
    ensures r[offset..offset + |data|] == data
    ensures forall i :: 0 <= i < |r| && !(offset <= i < offset + |data|) ==>
      r[i] == if i < |image| then image[i] else 0
  {
    var base := if offset <= |image| then image else image + Zeros(offset - |image|);
    var r := base[..offset] + data + (if offset + |data| <= |base| then base[offset + |data|..] else []);
    assert r[offset..offset + |data|] == data;
    r
  }

  /** A write leaves a range it does not touch as it was, when that range lay inside the file. */
  lemma ReadAfterDisjointWrite(image: seq<u8>, offset: nat, data: seq<u8>, at: nat, n: nat)
    requires at + n <= offset || offset + |data| <= at
    requires at + n <= |image|
    ensures ReadAt(WriteAt(image, offset, data), at, n) == ReadAt(image, at, n)
  {
    var r := WriteAt(image, offset, data);
    assert r[at..at + n] == image[at..at + n];
  }

  lemma ReadAfterWrite(image: seq<u8>, offset: nat, data: seq<u8>)
    ensures ReadAt(WriteAt(image, offset, data), offset, |data|) == Some(data)
  {
  }

  /** The directory as `fread` brings it in: every entry, or None when the image is too short. */
  function ReadDirectory(p: DiskParams, image: seq<u8>): (r: Option<seq<DirEntry>>)
    ensures r.Some? ==> |r.value| == p.directoryEntries && AllWellFormed(r.value)
  {
    match ReadAt(image, p.reservedBytes, p.directoryEntries * ENTRY_SIZE)
    case None => None
    case Some(bytes) => Some(DecodeDirectory(bytes))
  }

  /** The directory written back, as the three writing commands do at their end. */
  function WriteDirectory(p: DiskParams, image: seq<u8>, dir: seq<DirEntry>): (r: seq<u8>)
    requires AllWellFormed(dir)
    ensures |image| <= |r| && p.reservedBytes + |dir| * ENTRY_SIZE <= |r|
    ensures forall i :: 0 <= i < p.reservedBytes && i < |image| ==> r[i] == image[i]
  {
    WriteAt(image, p.reservedBytes, EncodeDirectory(dir))
  }

  lemma DirectoryWriteRead(p: DiskParams, image: seq<u8>, dir: seq<DirEntry>)
    requires AllWellFormed(dir) && |dir| == p.directoryEntries
    ensures ReadDirectory(p, WriteDirectory(p, image, dir)) == Some(dir)
  {
    ReadAfterWrite(image, p.reservedBytes, EncodeDirectory(dir));
    DirectoryRoundTrip(dir);
  }

  // ----- Outcomes of the commands -----

  /** Why a command stops: the message it prints, or an `assert` that fails. */
  datatype ToolError =
    | MissingFilename
    | UnexpectedArgument
    | CannotCreate
    | ImageExists
    | DirectoryUnreadable
    | InvalidFilename(name: seq<char>)
    | FileNotFound(name: seq<char>)
    | FileExists(name: seq<char>)
    | FileEmpty(name: seq<char>)
    | FileTooBig(name: seq<char>)
    | ReadFailed(name: seq<char>)
    | DirectoryFull
    | DiskFull
    | BlockUnreadable(block: nat)
    | Aborted

  datatype Result<T> = Ok(value: T) | Err(error: ToolError)

  /** What a command that changes the disk leaves: the image file, and the error that stopped it. */
  datatype ImageOutcome = ImageOutcome(image: seq<u8>, error: Option<ToolError>)
}
