/**
 * `cpmdisk write`: host files are copied into the image. The directory
 * is read into a buffer and a map of the allocated blocks is built from
 * it; each file gets one directory entry per extent and the lowest free
 * blocks, whose data goes to the image at once. The directory buffer goes
 * back to the image only after every file was copied.
 */
module CpmWrite {
  import opened Types
  import opened CpmDisk
  import opened CpmNames
  import opened CpmRead

  const MAX_EXTENTS: nat := 256
  /** `^Z`, the CP/M end-of-file mark that fills the rest of the last block. */
  const PAD_BYTE: u8 := 0x1A

  /** A host file: the size `fstat` reports and the bytes reading it delivers. */
  datatype HostFile = HostFile(size: nat, data: seq<u8>)

  /** The directory buffer, the block map and the image file. */
  datatype Disk = Disk(dir: seq<DirEntry>, used: seq<bool>, image: seq<u8>)

  /** Where a copy stands: the disk, the input position, `nBytesLeft`, and the error that stopped it. */
  datatype Progress = Progress(disk: Disk, pos: nat, bytesLeft: u32, error: Option<ToolError>)

  /** A file or a run of files copied, or the error that stopped it with the disk as it was then. */
  datatype Written = Written(disk: Disk, error: Option<ToolError>)

  /** `unsigned` arithmetic: the result modulo 2^32. */
  function Wrap32(x: int): u32
  {
    x % 0x1_0000_0000
  }

  /** What the copy needs of the geometry: whole sectors per block and nonzero sizes. */
  predicate Sized(p: DiskParams)
  {
    p.sectorsPerBlock > 0 && p.blockSize == 128 * p.sectorsPerBlock && p.blockSize >= 128 && p.extendSize > 0
  }

  lemma ValidIsSized(p: DiskParams)
    requires Valid(p)
    ensures Sized(p)
  {
  }

  /** A disk state the copy can work on: a map entry per block and well-formed entries. */
  predicate Shaped(p: DiskParams, d: Disk)
  {
    |d.used| == p.totalBlocks && AllWellFormed(d.dir)
  }

  // ----- The block map -----

  /** Entry `e` is in use and names block `block` in one of its slots. */
  predicate Names(p: DiskParams, e: DirEntry, block: nat)
    requires WellFormed(e)
  {
    !IsFree(e) && exists j :: 0 <= j < SlotCount(p) && Slot(p, e, j) == block
  }

  /** Some entry in use names block `block`. */
  predicate Referenced(p: DiskParams, dir: seq<DirEntry>, block: nat)
    requires AllWellFormed(dir)
  {
    exists i :: 0 <= i < |dir| && Names(p, dir[i], block)
  }

  /** Every slot of entry `e`, when it is in use, holds a block number of the disk. */
  predicate InRange(p: DiskParams, e: DirEntry)
    requires WellFormed(e)
  {
    !IsFree(e) ==> forall j :: 0 <= j < SlotCount(p) ==> Slot(p, e, j) < p.totalBlocks
  }

  predicate SlotsInRange(p: DiskParams, dir: seq<DirEntry>)
    requires AllWellFormed(dir)
  {
    forall i :: 0 <= i < |dir| ==> InRange(p, dir[i])
  }

  /**
   * The block map: the directory blocks and every block a slot of an
   * entry in use names (a slot left at 0 names block 0). A slot outside
   * the disk fails an `assert`.
   */
  function BlockMap(p: DiskParams, dir: seq<DirEntry>): (r: Option<seq<bool>>)
    requires AllWellFormed(dir)
    ensures r.Some? <==> SlotsInRange(p, dir)
    ensures r.Some? ==> |r.value| == p.totalBlocks
    ensures r.Some? ==> forall b :: 0 <= b < p.totalBlocks ==> (r.value[b] <==> b < p.directoryBlocks || Referenced(p, dir, b))
  {
    if SlotsInRange(p, dir) then Some(seq(p.totalBlocks, b => b < p.directoryBlocks || Referenced(p, dir, b)))
    else None
  }

  // ----- The searches -----

  /** The first free directory entry at or after `i`, or `|dir|`. */
  function FreeEntryFrom(dir: seq<DirEntry>, i: nat): (r: nat)
    requires i <= |dir|
    ensures i <= r <= |dir| && (r < |dir| ==> IsFree(dir[r]))
    ensures forall k :: i <= k < r ==> !IsFree(dir[k])
    decreases |dir| - i
  {
    if i == |dir| || IsFree(dir[i]) then i else FreeEntryFrom(dir, i + 1)
  }

  /** The lowest block at or after `b` that the map shows free, or `|used|`. */
  function FreeBlockFrom(used: seq<bool>, b: nat): (r: nat)
    requires b <= |used|
    ensures b <= r <= |used| && (r < |used| ==> !used[r])
    ensures forall k :: b <= k < r ==> used[k]
    decreases |used| - b
  {
    if b == |used| || !used[b] then b else FreeBlockFrom(used, b + 1)
  }

  // ----- Copying -----

  /** A block's worth of data: the bytes read, then `^Z` up to the block size. */
  function BlockBuffer(chunk: seq<u8>, blockSize: nat): (r: seq<u8>)
    requires |chunk| <= blockSize
    ensures |r| == blockSize && r[..|chunk|] == chunk
    ensures forall k :: |chunk| <= k < blockSize ==> r[k] == PAD_BYTE
  {
    chunk + seq(blockSize - |chunk|, _ => PAD_BYTE)
  }

  /**
   * The block loop of one extent, from block `j` of `nBlocks` on: take
   * the lowest free block, record it in slot `j` of the entry, read the
   * next block of input and write as many sectors of it as hold data.
   */
  function WriteBlocks(p: DiskParams, d: Disk, entry: nat, path: seq<char>, data: seq<u8>, j: nat, nBlocks: nat, pos: nat, bytesLeft: u32): (r: Progress)
    requires Sized(p) && Shaped(p, d) && entry < |d.dir|
    ensures Shaped(p, r.disk) && |r.disk.dir| == |d.dir|
    decreases nBlocks - j
  {
    if j >= nBlocks then Progress(d, pos, bytesLeft, None)
    else
      var block := FreeBlockFrom(d.used, 0);
      if block >= p.totalBlocks then Progress(d, pos, bytesLeft, Some(DiskFull))
      else
        var used := d.used[block := true];
        if j >= SlotCount(p) || block >= SlotLimit(p) then Progress(d.(used := used), pos, bytesLeft, Some(Aborted))
        else
          var dir := d.dir[entry := WithSlot(p, d.dir[entry], j, block)];
          var nBytes := Min(bytesLeft, p.blockSize);
          if pos + nBytes > |data| then Progress(Disk(dir, used, d.image), pos, bytesLeft, Some(ReadFailed(path)))
          else if block == 0 then Progress(Disk(dir, used, d.image), pos + nBytes, bytesLeft, Some(Aborted))
          else
            var buffer := BlockBuffer(data[pos..pos + nBytes], p.blockSize);
            var nSectors := Min(SectorsFor(bytesLeft), p.sectorsPerBlock);
            var image := WriteAt(d.image, BlockOffset(p, block), buffer[..nSectors * 128]);
            WriteBlocks(p, Disk(dir, used, image), entry, path, data, j + 1, nBlocks, pos + nBytes, Wrap32(bytesLeft - p.blockSize))
  }

  /** One block copied: the loop goes on from the next slot with the disk that block left. */
  lemma WriteBlocksStep(p: DiskParams, d: Disk, entry: nat, path: seq<char>, data: seq<u8>, j: nat, nBlocks: nat, pos: nat, bytesLeft: u32, next: Disk)
    requires Sized(p) && Shaped(p, d) && entry < |d.dir| && j < nBlocks
    requires var block := FreeBlockFrom(d.used, 0);
      && 0 < block < p.totalBlocks && j < SlotCount(p) && block < SlotLimit(p)
      && pos + Min(bytesLeft, p.blockSize) <= |data|
      && next.dir == d.dir[entry := WithSlot(p, d.dir[entry], j, block)]
      && next.used == d.used[block := true]
      && next.image == WriteAt(d.image, BlockOffset(p, block),
           BlockBuffer(data[pos..pos + Min(bytesLeft, p.blockSize)], p.blockSize)[..Min(SectorsFor(bytesLeft), p.sectorsPerBlock) * 128])
    ensures Shaped(p, next)
    ensures WriteBlocks(p, d, entry, path, data, j, nBlocks, pos, bytesLeft) ==
      WriteBlocks(p, next, entry, path, data, j + 1, nBlocks, pos + Min(bytesLeft, p.blockSize), Wrap32(bytesLeft - p.blockSize))
  {
    var block := FreeBlockFrom(d.used, 0);
    var used := d.used[block := true];
    var dir := d.dir[entry := WithSlot(p, d.dir[entry], j, block)];
    assert next == Disk(dir, used, next.image);
  }

  /** The block loop from slot `j` on, with `bytesLeft` bytes left to copy from `pos`, ends in `res`. */
  ghost predicate BlocksEndIn(p: DiskParams, d: Disk, entry: nat, path: seq<char>, data: seq<u8>, j: nat, nBlocks: nat, pos: nat, bytesLeft: u32, res: Progress)
    requires Sized(p) && Shaped(p, d) && entry < |d.dir|
  {
    WriteBlocks(p, d, entry, path, data, j, nBlocks, pos, bytesLeft) == res
  }

  /** The same step in the block loop's own variables. */
  lemma BlockLoopStep(p: DiskParams, d: Disk, entry: nat, path: seq<char>, data: seq<u8>, j: nat, nBlocks: nat, pos: nat, bytesLeft: u32,
                      block: nat, nBytes: nat, nSectors: nat, buffer: seq<u8>, next: Disk, fin: Progress)
    requires Sized(p) && Shaped(p, d) && entry < |d.dir| && j < nBlocks
    requires BlocksEndIn(p, d, entry, path, data, j, nBlocks, pos, bytesLeft, fin)
    requires block == FreeBlockFrom(d.used, 0) && 0 < block < p.totalBlocks && j < SlotCount(p) && block < SlotLimit(p)
    requires nBytes == Min(bytesLeft, p.blockSize) && pos + nBytes <= |data|
    requires nSectors == Min(SectorsFor(bytesLeft), p.sectorsPerBlock)
    requires buffer == BlockBuffer(data[pos..pos + nBytes], p.blockSize)
    requires next == Disk(d.dir[entry := WithSlot(p, d.dir[entry], j, block)], d.used[block := true],
      WriteAt(d.image, BlockOffset(p, block), buffer[..nSectors * 128]))
    ensures Shaped(p, next) && entry < |next.dir|
    ensures BlocksEndIn(p, next, entry, path, data, j + 1, nBlocks, pos + nBytes, Wrap32(bytesLeft - p.blockSize), fin)
  {
    assert next.image == WriteAt(d.image, BlockOffset(p, block),
      BlockBuffer(data[pos..pos + Min(bytesLeft, p.blockSize)], p.blockSize)[..Min(SectorsFor(bytesLeft), p.sectorsPerBlock) * 128]);
    WriteBlocksStep(p, d, entry, path, data, j, nBlocks, pos, bytesLeft, next);
  }

  /** `(nBytesLeft + SECTOR_SIZE-1) / SECTOR_SIZE` in `unsigned` arithmetic. */
  function SectorsFor(bytesLeft: u32): nat
  {
    Wrap32(bytesLeft + 127) / 128
  }

  /** The directory entry of extent `extent` before its blocks are chosen. */
  function NewEntry(p: DiskParams, user: u8, cpmName: seq<u8>, extent: nat, bytesLeft: u32): (e: DirEntry)
    requires |cpmName| == FILENAME_LEN + EXTENSION_LEN
    ensures WellFormed(e)
  {
    DirEntry(user, cpmName, extent % 0x100, 0, 0, Min(SectorsFor(bytesLeft), p.sectorsPerExtend) % 0x100, Zeros(16))
  }

  /**
   * The extent loop, from extent `extent` of `nExtends` on: each extent
   * takes the first free directory entry and at most `blocksPerExtend`
   * blocks.
   */
  function WriteExtents(p: DiskParams, d: Disk, user: u8, cpmName: seq<u8>, path: seq<char>, data: seq<u8>, extent: nat, nExtends: nat, pos: nat, bytesLeft: u32, blocksLeft: u32): (r: Progress)
    requires Sized(p) && Shaped(p, d) && |cpmName| == FILENAME_LEN + EXTENSION_LEN
    ensures Shaped(p, r.disk) && |r.disk.dir| == |d.dir|
    decreases nExtends - extent
  {
    if extent >= nExtends then Progress(d, pos, bytesLeft, None)
    else
      var i := FreeEntryFrom(d.dir, 0);
      if i == |d.dir| then Progress(d, pos, bytesLeft, Some(DirectoryFull))
      else
        var entry := NewEntry(p, user, cpmName, extent, bytesLeft);
        var nBlocks := Min(blocksLeft, p.blocksPerExtend);
        var r := WriteBlocks(p, d.(dir := d.dir[i := entry]), i, path, data, 0, nBlocks, pos, bytesLeft);
        if r.error.Some? then r
        else WriteExtents(p, r.disk, user, cpmName, path, data, extent + 1, nExtends, r.pos, r.bytesLeft, Wrap32(blocksLeft - p.blocksPerExtend))
  }

  /** The number of extents a file of `size` bytes needs. */
  function ExtentsFor(p: DiskParams, size: nat): nat
    requires Sized(p)
  {
    QuotientBounds(size + p.extendSize - 1, p.extendSize);
    (size + p.extendSize - 1) / p.extendSize
  }

  /** A quotient of naturals is a natural no larger than the dividend. */
  lemma QuotientBounds(x: nat, k: nat)
    requires 0 < k
    ensures 0 <= x / k <= x
  {
    var q := x / k;
    assert x == q * k + x % k;
    ProductSign(q, k);
  }

  /** A multiple `q * k` of a positive `k` is at most `-k` when `q` is negative and at least `q` otherwise. */
  lemma ProductSign(q: int, k: nat)
    requires 0 < k
    ensures q < 0 ==> q * k + k <= 0
    ensures 0 <= q ==> q <= q * k
  {
    if q < 0 {
      var m: nat := -q;
      MulLe(1, m, k);
      assert q * k == -(m * k);
    } else {
      MulLe(1, k, q);
    }
  }

  /**
   * The copy of a host file that exists: an empty file or one of more
   * than 256 extents is refused; `nBytesLeft` and `nBlocksLeft` start from
   * the size `fstat` reported.
   */
  function CopyFile(p: DiskParams, d: Disk, user: u8, cpmName: seq<u8>, path: seq<char>, file: HostFile): (r: Written)
    requires Sized(p) && Shaped(p, d) && |cpmName| == FILENAME_LEN + EXTENSION_LEN
    ensures Shaped(p, r.disk) && |r.disk.dir| == |d.dir|
  {
    var nExtends := ExtentsFor(p, file.size);
    if nExtends == 0 then Written(d, Some(FileEmpty(path)))
    else if nExtends > MAX_EXTENTS then Written(d, Some(FileTooBig(path)))
    else
      var bytesLeft := Wrap32(file.size);
      var r := WriteExtents(p, d, user, cpmName, path, file.data, 0, nExtends, 0, bytesLeft, BlocksFor(p, bytesLeft));
      Written(r.disk, r.error)
  }

  /** `(nBytesLeft + nBlockSize-1) / nBlockSize` in `unsigned` arithmetic. */
  function BlocksFor(p: DiskParams, bytesLeft: u32): u32
    requires Sized(p)
  {
    var sum := Wrap32(bytesLeft + p.blockSize - 1);
    QuotientBounds(sum, p.blockSize);
    sum / p.blockSize
  }

  /**
   * One file named on the command line: its last path component names it
   * on the disk, and an existing file of that name is not overwritten.
   */
  function WriteFile(p: DiskParams, d: Disk, user: u8, path: seq<char>, host: map<seq<char>, HostFile>): (r: Written)
    requires Sized(p) && Shaped(p, d) && NoNul(path)
    ensures Shaped(p, r.disk) && |r.disk.dir| == |d.dir|
  {
    match ConvertFileName(BaseName(path))
    case None => Written(d, Some(InvalidFilename(BaseName(path))))
    case Some(cpmName) =>
      if HasFile(d.dir, user, cpmName) then Written(d, Some(FileExists(BaseName(path))))
      else if path !in host then Written(d, Some(FileNotFound(path)))
      else CopyFile(p, d, user, cpmName, path, host[path])
  }

  /** The files from `i` on, one after the other, until one fails. */
  function WriteEach(p: DiskParams, d: Disk, user: u8, paths: seq<seq<char>>, host: map<seq<char>, HostFile>, i: nat): (r: Written)
    requires Sized(p) && Shaped(p, d) && AllNoNul(paths) && i <= |paths|
    ensures Shaped(p, r.disk) && |r.disk.dir| == |d.dir|
    decreases |paths| - i
  {
    if i == |paths| then Written(d, None)
    else
      var w := WriteFile(p, d, user, paths[i], host);
      if w.error.Some? then w else WriteEach(p, w.disk, user, paths, host, i + 1)
  }

  /**
   * `cpmdisk write file...`: on success the directory buffer is written
   * back; after a failure the data blocks already written stay in the
   * image but the directory does not describe them.
   */
  function WriteCommand(p: DiskParams, image: seq<u8>, user: u8, paths: seq<seq<char>>, host: map<seq<char>, HostFile>): (r: ImageOutcome)
    requires Sized(p) && AllNoNul(paths)
    ensures paths == [] ==> r == ImageOutcome(image, Some(MissingFilename))
    ensures paths != [] && ReadDirectory(p, image).None? ==> r == ImageOutcome(image, Some(DirectoryUnreadable))
    ensures paths != [] && ReadDirectory(p, image).Some? && BlockMap(p, ReadDirectory(p, image).value).None? ==>
      r == ImageOutcome(image, Some(Aborted))
  {
    if paths == [] then ImageOutcome(image, Some(MissingFilename))
    else
      match ReadDirectory(p, image)
      case None => ImageOutcome(image, Some(DirectoryUnreadable))
      case Some(dir) =>
        match BlockMap(p, dir)
        case None => ImageOutcome(image, Some(Aborted))
        case Some(used) =>
          var w := WriteEach(p, Disk(dir, used, image), user, paths, host, 0);
          if w.error.Some? then ImageOutcome(w.disk.image, w.error)
          else ImageOutcome(WriteDirectory(p, w.disk.image, w.disk.dir), None)
  }

  // ----- The loops over the directory buffer and the block map -----

  /**
   * The block map as the tool builds it: the directory blocks first, then
   * every slot of every entry in use; a slot outside the disk stops it.
   */
  method BuildBlockMap(p: DiskParams, dir: seq<DirEntry>) returns (ok: bool, blockMap: array<bool>)
    requires AllWellFormed(dir)
    ensures fresh(blockMap)
    ensures ok <==> BlockMap(p, dir).Some?
    ensures ok ==> blockMap[..] == BlockMap(p, dir).value
  {
    blockMap := new bool[p.totalBlocks](_ => false);
    var i := 0;
    while i < p.directoryBlocks && i < p.totalBlocks
      invariant i <= p.totalBlocks && i <= p.directoryBlocks
      invariant forall b :: 0 <= b < p.totalBlocks ==> (blockMap[b] <==> b < i)
    {
      blockMap[i] := true;
      i := i + 1;
    }
    var nEntry := 0;
    while nEntry < |dir|
      invariant nEntry <= |dir|
      invariant forall k :: 0 <= k < nEntry ==> InRange(p, dir[k])
      invariant forall b :: 0 <= b < p.totalBlocks ==>
        (blockMap[b] <==> b < p.directoryBlocks || exists k :: 0 <= k < nEntry && Names(p, dir[k], b))
    {
      ok := MarkEntry(p, dir[nEntry], blockMap);
      if !ok {
        assert !InRange(p, dir[nEntry]);
        return;
      }
      nEntry := nEntry + 1;
    }
    ok := true;
  }

  /** The slot loop for one entry: every slot of an entry in use marks its block. */
  method MarkEntry(p: DiskParams, e: DirEntry, blockMap: array<bool>) returns (ok: bool)
    requires WellFormed(e) && blockMap.Length == p.totalBlocks
    modifies blockMap
    ensures ok <==> InRange(p, e)
    ensures ok ==> forall b :: 0 <= b < p.totalBlocks ==> (blockMap[b] <==> old(blockMap[b]) || Names(p, e, b))
  {
    if IsFree(e) {
      return true;
    }
    var j := 0;
    while j < SlotCount(p)
      invariant j <= SlotCount(p)
      invariant forall k :: 0 <= k < j ==> Slot(p, e, k) < p.totalBlocks
      invariant forall b :: 0 <= b < p.totalBlocks ==>
        (blockMap[b] <==> old(blockMap[b]) || exists k :: 0 <= k < j && Slot(p, e, k) == b)
    {
      var block := Slot(p, e, j);
      if block >= p.totalBlocks {
        return false;
      }
      blockMap[block] := true;
      j := j + 1;
    }
    return true;
  }

  /** The search for the first free directory entry. */
  method FindFreeEntry(directory: array<DirEntry>) returns (n: nat)
    ensures n == FreeEntryFrom(directory[..], 0)
  {
    n := 0;
    while n < directory.Length && directory[n].user != FORMAT_BYTE
      invariant n <= directory.Length
      invariant FreeEntryFrom(directory[..], n) == FreeEntryFrom(directory[..], 0)
    {
      n := n + 1;
    }
  }

  /** The search for the lowest free block. */
  method FindFreeBlock(blockMap: array<bool>) returns (n: nat)
    ensures n == FreeBlockFrom(blockMap[..], 0)
  {
    n := 0;
    while n < blockMap.Length && blockMap[n]
      invariant n <= blockMap.Length
      invariant FreeBlockFrom(blockMap[..], n) == FreeBlockFrom(blockMap[..], 0)
    {
      n := n + 1;
    }
  }

  /**
   * The block loop of one extent over the directory buffer and the block
   * map, with the image as it grows.
   */
  method CopyBlocks(p: DiskParams, directory: array<DirEntry>, blockMap: array<bool>, image: seq<u8>, entry: nat, path: seq<char>, data: seq<u8>, nBlocks: nat, pos: nat, bytesLeft: u32)
    returns (newImage: seq<u8>, newPos: nat, newBytesLeft: u32, error: Option<ToolError>)
    requires Sized(p) && blockMap.Length == p.totalBlocks && AllWellFormed(directory[..]) && entry < directory.Length
    modifies directory, blockMap
    ensures Progress(Disk(directory[..], blockMap[..], newImage), newPos, newBytesLeft, error) ==
      WriteBlocks(p, Disk(old(directory[..]), old(blockMap[..]), image), entry, path, data, 0, nBlocks, pos, bytesLeft)
  {
    ghost var whole := WriteBlocks(p, Disk(directory[..], blockMap[..], image), entry, path, data, 0, nBlocks, pos, bytesLeft);
    newImage, newPos, newBytesLeft := image, pos, bytesLeft;
    var nBlock := 0;
    while nBlock < nBlocks
      invariant AllWellFormed(directory[..])
      invariant BlocksEndIn(p, Disk(directory[..], blockMap[..], newImage), entry, path, data, nBlock, nBlocks, newPos, newBytesLeft, whole)
      decreases nBlocks - nBlock
    {
      ghost var d := Disk(directory[..], blockMap[..], newImage);
      var block := FindFreeBlock(blockMap);
      if block >= p.totalBlocks {
        return newImage, newPos, newBytesLeft, Some(DiskFull);
      }
      blockMap[block] := true;
      assert blockMap[..] == d.used[block := true];
      if nBlock >= SlotCount(p) || block >= SlotLimit(p) {
        return newImage, newPos, newBytesLeft, Some(Aborted);
      }
      directory[entry] := WithSlot(p, directory[entry], nBlock, block);
      assert directory[..] == d.dir[entry := WithSlot(p, d.dir[entry], nBlock, block)];
      var nBytes := Min(newBytesLeft, p.blockSize);
      if newPos + nBytes > |data| {
        return newImage, newPos, newBytesLeft, Some(ReadFailed(path));
      }
      if block == 0 {
        return newImage, newPos + nBytes, newBytesLeft, Some(Aborted);
      }
      var buffer := BlockBuffer(data[newPos..newPos + nBytes], p.blockSize);
      var nSectors := Min(SectorsFor(newBytesLeft), p.sectorsPerBlock);
      newImage := WriteAt(newImage, BlockOffset(p, block), buffer[..nSectors * 128]);
      ghost var next := Disk(directory[..], blockMap[..], newImage);
      BlockLoopStep(p, d, entry, path, data, nBlock, nBlocks, newPos, newBytesLeft, block, nBytes, nSectors, buffer, next, whole);
      nBlock, newPos, newBytesLeft := nBlock + 1, newPos + nBytes, Wrap32(newBytesLeft - p.blockSize);
    }
    error := None;
  }

  /** The extent loop of one file over the directory buffer and the block map. */
  method CopyExtents(p: DiskParams, directory: array<DirEntry>, blockMap: array<bool>, image: seq<u8>, user: u8, cpmName: seq<u8>, path: seq<char>, data: seq<u8>, nExtends: nat, bytesLeft: u32, blocksLeft: u32)
    returns (newImage: seq<u8>, error: Option<ToolError>)
    requires Sized(p) && blockMap.Length == p.totalBlocks && AllWellFormed(directory[..]) && |cpmName| == FILENAME_LEN + EXTENSION_LEN
    modifies directory, blockMap
    ensures var w := WriteExtents(p, Disk(old(directory[..]), old(blockMap[..]), image), user, cpmName, path, data, 0, nExtends, 0, bytesLeft, blocksLeft);
      Written(Disk(directory[..], blockMap[..], newImage), error) == Written(w.disk, w.error)
  {
    ghost var whole := WriteExtents(p, Disk(directory[..], blockMap[..], image), user, cpmName, path, data, 0, nExtends, 0, bytesLeft, blocksLeft);
    newImage := image;
    var pos: nat, left: u32, blocks: u32 := 0, bytesLeft, blocksLeft;
    var nExtend := 0;
    while nExtend < nExtends
      invariant AllWellFormed(directory[..])
      invariant whole == WriteExtents(p, Disk(directory[..], blockMap[..], newImage), user, cpmName, path, data, nExtend, nExtends, pos, left, blocks)
      decreases nExtends - nExtend
    {
      var nEntry := FindFreeEntry(directory);
      if nEntry >= directory.Length {
        return newImage, Some(DirectoryFull);
      }
      directory[nEntry] := NewEntry(p, user, cpmName, nExtend, left);
      var nBlocks := Min(blocks, p.blocksPerExtend);
      newImage, pos, left, error := CopyBlocks(p, directory, blockMap, newImage, nEntry, path, data, nBlocks, pos, left);
      if error.Some? {
        return;
      }
      nExtend, blocks := nExtend + 1, Wrap32(blocks - p.blocksPerExtend);
    }
    error := None;
  }

  /** The check that no entry of the user already has the name. */
  method FindFile(directory: array<DirEntry>, user: u8, cpmName: seq<u8>) returns (found: bool)
    ensures found <==> HasFile(directory[..], user, cpmName)
  {
    var n := 0;
    while n < directory.Length
      invariant n <= directory.Length
      invariant forall k :: 0 <= k < n ==> !OwnedBy(directory[k], user, cpmName)
    {
      if directory[n].user == user && directory[n].name == cpmName {
        return true;
      }
      n := n + 1;
    }
    return false;
  }

  /** One file named on the command line, copied with the directory buffer and the block map updated in place. */
  method CopyOneFile(p: DiskParams, directory: array<DirEntry>, blockMap: array<bool>, image: seq<u8>, user: u8, path: seq<char>, host: map<seq<char>, HostFile>)
    returns (newImage: seq<u8>, error: Option<ToolError>)
    requires Sized(p) && blockMap.Length == p.totalBlocks && AllWellFormed(directory[..]) && NoNul(path)
    modifies directory, blockMap
    ensures var w := WriteFile(p, Disk(old(directory[..]), old(blockMap[..]), image), user, path, host);
      Written(Disk(directory[..], blockMap[..], newImage), error) == w
  {
    var baseName := BaseName(path);
    var ok, cpmName := ConvertFileNameInPlace(baseName);
    if !ok {
      return image, Some(InvalidFilename(baseName));
    }
    var present := FindFile(directory, user, cpmName);
    if present {
      return image, Some(FileExists(baseName));
    }
    if path !in host {
      return image, Some(FileNotFound(path));
    }
    newImage, error := CopyHostFile(p, directory, blockMap, image, user, cpmName, path, host[path]);
  }

  /** A host file that could be opened: its size checked, then its extents copied. */
  method CopyHostFile(p: DiskParams, directory: array<DirEntry>, blockMap: array<bool>, image: seq<u8>, user: u8, cpmName: seq<u8>, path: seq<char>, file: HostFile)
    returns (newImage: seq<u8>, error: Option<ToolError>)
    requires Sized(p) && blockMap.Length == p.totalBlocks && AllWellFormed(directory[..]) && |cpmName| == FILENAME_LEN + EXTENSION_LEN
    modifies directory, blockMap
    ensures var w := CopyFile(p, Disk(old(directory[..]), old(blockMap[..]), image), user, cpmName, path, file);
      Written(Disk(directory[..], blockMap[..], newImage), error) == w
  {
    var nExtends := ExtentsFor(p, file.size);
    if nExtends == 0 {
      return image, Some(FileEmpty(path));
    }
    if nExtends > MAX_EXTENTS {
      return image, Some(FileTooBig(path));
    }
    var bytesLeft := Wrap32(file.size);
    newImage, error := CopyExtents(p, directory, blockMap, image, user, cpmName, path, file.data, nExtends, bytesLeft, BlocksFor(p, bytesLeft));
  }

  /** The write command: the directory read into a buffer, the block map built, then every file. */
  method DoWrite(p: DiskParams, image: seq<u8>, user: u8, paths: seq<seq<char>>, host: map<seq<char>, HostFile>) returns (r: ImageOutcome)
    requires Sized(p) && AllNoNul(paths)
    ensures r == WriteCommand(p, image, user, paths, host)
  {
    if |paths| == 0 {
      return ImageOutcome(image, Some(MissingFilename));
    }
    var loaded := ReadDirectory(p, image);
    if loaded.None? {
      return ImageOutcome(image, Some(DirectoryUnreadable));
    }
    var dir := loaded.value;
    var ok, blockMap := BuildBlockMap(p, dir);
    if !ok {
      return ImageOutcome(image, Some(Aborted));
    }
    var directory := new DirEntry[|dir|](i requires 0 <= i < |dir| => dir[i]);
    assert directory[..] == dir;
    var newImage, error := CopyFiles(p, directory, blockMap, image, user, paths, host);
    if error.Some? {
      return ImageOutcome(newImage, error);
    }
    return ImageOutcome(WriteDirectory(p, newImage, directory[..]), None);
  }

  /** The file-name loop: each file copied in turn until one fails. */
  method CopyFiles(p: DiskParams, directory: array<DirEntry>, blockMap: array<bool>, image: seq<u8>, user: u8, paths: seq<seq<char>>, host: map<seq<char>, HostFile>)
    returns (newImage: seq<u8>, error: Option<ToolError>)
    requires Sized(p) && blockMap.Length == p.totalBlocks && AllWellFormed(directory[..]) && AllNoNul(paths)
    modifies directory, blockMap
    ensures var w := WriteEach(p, Disk(old(directory[..]), old(blockMap[..]), image), user, paths, host, 0);
      Written(Disk(directory[..], blockMap[..], newImage), error) == w
  {
    ghost var whole := WriteEach(p, Disk(directory[..], blockMap[..], image), user, paths, host, 0);
    newImage := image;
    var k := 0;
    while k < |paths|
      invariant k <= |paths| && AllWellFormed(directory[..])
      invariant whole == WriteEach(p, Disk(directory[..], blockMap[..], newImage), user, paths, host, k)
    {
      newImage, error := CopyOneFile(p, directory, blockMap, newImage, user, paths[k], host);
      if error.Some? {
        return;
      }
      k := k + 1;
    }
    error := None;
  }
}
