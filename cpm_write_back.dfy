/**
 * What `cpmdisk write` leaves for `cpmdisk read`: a file copied into the
 * image reads back as its bytes followed by `^Z` up to the end of its
 * last sector.
 */
module CpmWriteBack {
  import opened Types
  import opened CpmDisk
  import opened CpmNames
  import opened CpmRead
  import opened CpmWrite
  import opened CpmAlloc

  lemma {:induction false} TimesIsMul(m: nat, k: nat)
    ensures Times(m, k) == m * k
  {
    if m > 0 {
      TimesIsMul(m - 1, k);
      assert m * k == (m - 1) * k + k;
    }
  }

  lemma {:induction false} TimesAdd(a: nat, b: nat, k: nat)
    ensures Times(a + b, k) == Times(a, k) + Times(b, k)
    decreases b
  {
    if b > 0 {
      TimesAdd(a, b - 1, k);
    }
  }

  lemma TimesMono(a: nat, b: nat, k: nat)
    requires a <= b
    ensures Times(a, k) <= Times(b, k)
  {
    TimesAdd(a, b - a, k);
  }

  /** A count of blocks in bytes is 128 times the count in sectors. */
  lemma {:induction false} TimesSectors(m: nat, sectorsPerBlock: nat)
    ensures Times(m, 128 * sectorsPerBlock) == 128 * Times(m, sectorsPerBlock)
  {
    if m > 0 {
      TimesSectors(m - 1, sectorsPerBlock);
    }
  }

  /**
   * The geometry facts the round trip relies on: whole blocks per extent,
   * no more than an entry has slots, a sector count that fits its byte,
   * and a data block after the directory.
   */
  predicate Layout(p: DiskParams)
  {
    && Sized(p)
    && 0 < p.directoryBlocks < p.totalBlocks
    && 0 < p.blocksPerExtend <= SlotCount(p)
    && p.sectorsPerExtend == Times(p.blocksPerExtend, p.sectorsPerBlock)
    && p.sectorsPerExtend <= 255
    && p.extendSize == 128 * p.sectorsPerExtend
    && p.extendSize == Times(p.blocksPerExtend, p.blockSize)
  }

  lemma ConsistentLayout(p: DiskParams)
    requires Consistent(p)
    ensures Layout(p)
  {
    assert p.directoryEntries * ENTRY_SIZE > 0;
    TimesIsMul(p.blocksPerExtend, p.sectorsPerBlock);
    TimesSectors(p.blocksPerExtend, p.sectorsPerBlock);
  }

  /** `bytes` followed by `^Z` up to the next whole sector. */
  function Padded(bytes: seq<u8>): (r: seq<u8>)
    ensures |r| % SECTOR_SIZE == 0 && |bytes| <= |r| < |bytes| + SECTOR_SIZE
    ensures r[..|bytes|] == bytes && forall k :: |bytes| <= k < |r| ==> r[k] == PAD_BYTE
  {
    bytes + seq((SECTOR_SIZE - |bytes| % SECTOR_SIZE) % SECTOR_SIZE, _ => PAD_BYTE)
  }

  /** Whole sectors in front do not change the padding. */
  lemma PaddedAppend(a: seq<u8>, b: seq<u8>)
    requires |a| % SECTOR_SIZE == 0
    ensures Padded(a + b) == a + Padded(b)
  {
    assert (|a| + |b|) % SECTOR_SIZE == |b| % SECTOR_SIZE;
    var pad := seq((SECTOR_SIZE - |b| % SECTOR_SIZE) % SECTOR_SIZE, _ => PAD_BYTE);
    assert Padded(a + b) == (a + b) + pad;
    assert (a + b) + pad == a + (b + pad);
  }

  /** Two adjacent slices of the input are one slice. */
  lemma SliceConcat(data: seq<u8>, i: nat, j: nat, k: nat)
    requires i <= j <= k <= |data|
    ensures data[i..j] + data[j..k] == data[i..k]
  {
  }

  /** A whole block of input, padded, followed by the padded bytes after it, is the two padded as one. */
  lemma JoinPadded(p: DiskParams, data: seq<u8>, pos: nat, pos1: nat, end: nat)
    requires Sized(p) && pos1 == pos + p.blockSize && pos1 <= end <= |data|
    ensures Prepend(Padded(data[pos..pos1]), Ok(Padded(data[pos1..end]))) == Ok(Padded(data[pos..end]))
  {
    var a := data[pos..pos1];
    assert |a| == SECTOR_SIZE * p.sectorsPerBlock;
    PaddedAppend(a, data[pos1..end]);
    PaddedAppend(a, []);
    assert a + [] == a;
    SliceConcat(data, pos, pos1, end);
  }

  // ----- Sector arithmetic -----

  /** Without wrap-around, `SectorsFor` rounds up to whole sectors. */
  lemma SectorsForRoundsUp(bytesLeft: u32)
    requires bytesLeft as int + 127 < 0x1_0000_0000
    ensures SectorsFor(bytesLeft) == (bytesLeft as int + 127) / 128
    ensures SectorsFor(bytesLeft) * 128 == bytesLeft as int + (128 - bytesLeft as int % 128) % 128
    ensures bytesLeft > 0 ==> SectorsFor(bytesLeft) > 0
  {
    var q := bytesLeft as int / 128;
    var r := bytesLeft as int % 128;
    assert bytesLeft as int == 128 * q + r;
    if r == 0 {
      assert (bytesLeft as int + 127) / 128 == q;
    } else {
      assert (bytesLeft as int + 127) / 128 == q + 1;
    }
  }

  /** A count of sectors compared with a count of bytes. */
  lemma SectorsForBounds(bytesLeft: u32, sectors: nat)
    requires bytesLeft as int + 127 < 0x1_0000_0000
    ensures SectorsFor(bytesLeft) <= sectors <==> bytesLeft as int <= 128 * sectors
    ensures SectorsFor(bytesLeft) >= sectors <==> bytesLeft as int > 128 * sectors - 128
  {
    SectorsForRoundsUp(bytesLeft);
  }

  /** The sectors of a block taken off the front of the bytes that are left. */
  lemma SectorsForLessBlock(bytesLeft: u32, sectorsPerBlock: nat)
    requires bytesLeft as int + 127 < 0x1_0000_0000 && 128 * sectorsPerBlock <= bytesLeft as int
    ensures SectorsFor(bytesLeft) >= sectorsPerBlock
    ensures Wrap32(bytesLeft as int - 128 * sectorsPerBlock) == bytesLeft as int - 128 * sectorsPerBlock
    ensures SectorsFor(Wrap32(bytesLeft as int - 128 * sectorsPerBlock)) == SectorsFor(bytesLeft) - sectorsPerBlock
  {
    var rest: u32 := bytesLeft - 128 * sectorsPerBlock;
    SectorsForRoundsUp(bytesLeft);
    SectorsForRoundsUp(rest);
    var x := bytesLeft as int + 127;
    assert x == 128 * (x / 128) + x % 128;
    assert rest as int + 127 == 128 * (x / 128 - sectorsPerBlock) + x % 128;
  }

  /** What one block of the block loop writes is its bytes padded to whole sectors. */
  lemma WrittenIsPadded(p: DiskParams, data: seq<u8>, pos: nat, pos1: nat, bytesLeft: u32, written: seq<u8>)
    requires Sized(p) && bytesLeft as int + 127 < 0x1_0000_0000
    requires pos1 == pos + Min(bytesLeft, p.blockSize) && pos1 <= |data|
    requires written == BlockBuffer(data[pos..pos1], p.blockSize)[..Min(SectorsFor(bytesLeft), p.sectorsPerBlock) * 128]
    ensures |written| == Min(SectorsFor(bytesLeft), p.sectorsPerBlock) * SECTOR_SIZE
    ensures written == Padded(data[pos..pos1])
  {
    var chunk := data[pos..pos1];
    var buffer := BlockBuffer(chunk, p.blockSize);
    var n := Min(SectorsFor(bytesLeft), p.sectorsPerBlock);
    SectorsForRoundsUp(bytesLeft);
    SectorsForBounds(bytesLeft, p.sectorsPerBlock);
    assert n * 128 == |Padded(chunk)|;
    forall k | 0 <= k < |written|
      ensures written[k] == Padded(chunk)[k]
    {
      if k < |chunk| {
        assert buffer[..|chunk|][k] == chunk[k];
        assert Padded(chunk)[..|chunk|][k] == chunk[k];
      }
    }
  }

  /**
   * The counts of the block loop at slot `j` of `nBlocks`, every block
   * from `j` on holding data, and at the slot `j1` after it with the
   * `left` bytes that remain then.
   */
  lemma BlockArith(p: DiskParams, bytesLeft: u32, j: nat, nBlocks: nat, j1: nat, left: u32)
    requires Sized(p) && j < nBlocks && bytesLeft as int + 127 < 0x1_0000_0000
    requires Times(nBlocks - j - 1, p.blockSize) < bytesLeft as int
    requires j1 == j + 1 && left == Wrap32(bytesLeft as int - p.blockSize)
    ensures var sectors := Min(SectorsFor(bytesLeft), Times(nBlocks - j, p.sectorsPerBlock));
      && sectors > 0
      && Min(SectorsFor(bytesLeft), p.sectorsPerBlock) == (if sectors >= p.sectorsPerBlock then p.sectorsPerBlock else sectors)
    ensures j1 == nBlocks ==>
      && Min(SectorsFor(bytesLeft), Times(nBlocks - j, p.sectorsPerBlock)) - Min(SectorsFor(bytesLeft), p.sectorsPerBlock) == 0
      && Min(bytesLeft, Times(nBlocks - j, p.blockSize)) == Min(bytesLeft, p.blockSize)
      && (bytesLeft as int >= Times(nBlocks - j, p.blockSize) ==>
            left as int == bytesLeft as int - Times(nBlocks - j, p.blockSize))
    ensures j1 < nBlocks ==>
      && left as int == bytesLeft as int - p.blockSize
      && left as int + 127 < 0x1_0000_0000
      && Times(nBlocks - j1 - 1, p.blockSize) < left as int
      && Min(bytesLeft, p.blockSize) == p.blockSize
      && Min(SectorsFor(bytesLeft), Times(nBlocks - j, p.sectorsPerBlock)) - Min(SectorsFor(bytesLeft), p.sectorsPerBlock)
           == Min(SectorsFor(left), Times(nBlocks - j1, p.sectorsPerBlock))
      && Min(bytesLeft, Times(nBlocks - j, p.blockSize)) == p.blockSize + Min(left, Times(nBlocks - j1, p.blockSize))
      && (bytesLeft as int >= Times(nBlocks - j, p.blockSize) <==> left as int >= Times(nBlocks - j1, p.blockSize))
      && bytesLeft as int - Times(nBlocks - j, p.blockSize) == left as int - Times(nBlocks - j1, p.blockSize)
  {
    var m := nBlocks - j;
    SectorsForRoundsUp(bytesLeft);
    assert Times(m, p.sectorsPerBlock) == Times(m - 1, p.sectorsPerBlock) + p.sectorsPerBlock;
    assert Times(m, p.blockSize) == Times(m - 1, p.blockSize) + p.blockSize;
    if m >= 2 {
      assert Times(m - 1, p.blockSize) == Times(m - 2, p.blockSize) + p.blockSize;
      SectorsForLessBlock(bytesLeft, p.sectorsPerBlock);
    }
  }

  /**
   * What the first block the block loop fills from slot `j` on leaves in
   * the entry and on the image of the loop's end `res`; the loop goes on
   * at slot `j1` with the disk `next`, at `pos1` with `left` bytes to
   * copy.
   */
  lemma FirstBlockFacts(p: DiskParams, d: Disk, entry: nat, path: seq<char>, data: seq<u8>, j: nat, nBlocks: nat, pos: nat, bytesLeft: u32, res: Progress)
    returns (next: Disk, block: nat, written: seq<u8>, j1: nat, pos1: nat, left: u32)
    requires Sized(p) && Shaped(p, d) && entry < |d.dir| && j < nBlocks
    requires bytesLeft as int + 127 < 0x1_0000_0000
    requires BlocksEndIn(p, d, entry, path, data, j, nBlocks, pos, bytesLeft, res) && res.error.None?
    ensures Shaped(p, next) && entry < |next.dir|
    ensures j1 == j + 1 && left == Wrap32(bytesLeft as int - p.blockSize)
    ensures pos1 == pos + Min(bytesLeft, p.blockSize) && pos1 <= |data|
    ensures BlocksEndIn(p, next, entry, path, data, j1, nBlocks, pos1, left, res)
    ensures j1 == nBlocks ==> res.pos == pos1 && res.bytesLeft == left
    ensures Shaped(p, res.disk) && entry < |res.disk.dir|
    ensures j < SlotCount(p) && 0 < block < p.totalBlocks && Slot(p, res.disk.dir[entry], j) == block
    ensures |written| == Min(SectorsFor(bytesLeft), p.sectorsPerBlock) * SECTOR_SIZE
    ensures written == Padded(data[pos..pos1])
    ensures ReadAt(res.disk.image, BlockOffset(p, block), |written|) == Some(written)
  {
    BlocksContinue(p, d, entry, path, data, j, nBlocks, pos, bytesLeft);
    var nBytes;
    next, block, nBytes, written := NextBlock(p, d, entry, path, data, j, nBlocks, pos, bytesLeft);
    j1, pos1, left := j + 1, pos + nBytes, Wrap32(bytesLeft as int - p.blockSize);
    WrittenIsPadded(p, data, pos, pos1, bytesLeft, written);
    var r := WriteBlocks(p, next, entry, path, data, j1, nBlocks, pos1, left).disk;
    WriteBlocksOnlySlots(p, next, entry, path, data, j1, nBlocks, pos1, left);
    SlotUpdate(p, d.dir[entry], j, block);
    WriteBlocksKeeps(p, next, entry, path, data, j1, nBlocks, pos1, left);
    ReadKeptBlock(p, next.used, next.image, r.image, block, |written|);
  }

  /**
   * The block loop ended in `res` copied `size` bytes from `pos`, from
   * slot `j` on, and left blocks that read back from the entry as those
   * bytes padded with `^Z` to a whole sector.
   */
  ghost predicate ReadsBackFrom(p: DiskParams, res: Progress, entry: nat, data: seq<u8>, j: nat, nBlocks: nat, pos: nat, bytesLeft: u32)
    requires Sized(p) && AllWellFormed(res.disk.dir) && entry < |res.disk.dir| && j <= nBlocks
  {
    var size := Min(bytesLeft, Times(nBlocks - j, p.blockSize));
    && pos + size <= |data| && res.pos == pos + size
    && (bytesLeft as int >= Times(nBlocks - j, p.blockSize) ==> res.bytesLeft as int == bytesLeft as int - Times(nBlocks - j, p.blockSize))
    && ExtentData(p, res.disk.image, res.disk.dir[entry], j, Min(SectorsFor(bytesLeft), Times(nBlocks - j, p.sectorsPerBlock)))
         == Ok(Padded(data[pos..pos + size]))
  }

  /**
   * A block the block loop filled at slot `j` of an extent reads back as
   * the sectors it wrote, ahead of the slots after it.
   */
  lemma BlockReadsBack(p: DiskParams, image: seq<u8>, e: DirEntry, j: nat, nBlocks: nat, bytesLeft: u32, block: nat, written: seq<u8>, j1: nat, left: u32)
    requires Sized(p) && WellFormed(e) && j < SlotCount(p) && j < nBlocks
    requires 0 < block < p.totalBlocks && Slot(p, e, j) == block
    requires bytesLeft as int + 127 < 0x1_0000_0000 && Times(nBlocks - j - 1, p.blockSize) < bytesLeft as int
    requires j1 == j + 1 && left == Wrap32(bytesLeft as int - p.blockSize)
    requires |written| == Min(SectorsFor(bytesLeft), p.sectorsPerBlock) * SECTOR_SIZE
    requires ReadAt(image, BlockOffset(p, block), |written|) == Some(written)
    ensures j1 < nBlocks ==>
      ExtentData(p, image, e, j, Min(SectorsFor(bytesLeft), Times(nBlocks - j, p.sectorsPerBlock))) ==
        Prepend(written, ExtentData(p, image, e, j1, Min(SectorsFor(left), Times(nBlocks - j1, p.sectorsPerBlock))))
    ensures j1 == nBlocks ==>
      ExtentData(p, image, e, j, Min(SectorsFor(bytesLeft), Times(nBlocks - j, p.sectorsPerBlock))) == Ok(written)
  {
    BlockArith(p, bytesLeft, j, nBlocks, j1, left);
    var sectors := Min(SectorsFor(bytesLeft), Times(nBlocks - j, p.sectorsPerBlock));
    var n := Min(SectorsFor(bytesLeft), p.sectorsPerBlock);
    ExtentDataStep(p, image, e, j, sectors, n, written);
    if j1 == nBlocks {
      assert ExtentData(p, image, e, j1, sectors - n) == Ok([]);
      assert written + [] == written;
    }
  }

  /**
   * The block the loop filled at slot `j`, ahead of the blocks after it
   * that read back, reads back with them.
   */
  lemma StepReadsBack(p: DiskParams, res: Progress, entry: nat, data: seq<u8>, j: nat, nBlocks: nat, pos: nat, bytesLeft: u32,
                      block: nat, written: seq<u8>, j1: nat, pos1: nat, left: u32)
    requires Sized(p) && AllWellFormed(res.disk.dir) && entry < |res.disk.dir| && j < nBlocks && j1 < nBlocks
    requires bytesLeft as int + 127 < 0x1_0000_0000 && Times(nBlocks - j - 1, p.blockSize) < bytesLeft as int
    requires j1 == j + 1 && left == Wrap32(bytesLeft as int - p.blockSize)
    requires pos1 == pos + Min(bytesLeft, p.blockSize) && pos1 <= |data|
    requires written == Padded(data[pos..pos1])
    requires ExtentData(p, res.disk.image, res.disk.dir[entry], j, Min(SectorsFor(bytesLeft), Times(nBlocks - j, p.sectorsPerBlock))) ==
      Prepend(written, ExtentData(p, res.disk.image, res.disk.dir[entry], j1, Min(SectorsFor(left), Times(nBlocks - j1, p.sectorsPerBlock))))
    requires ReadsBackFrom(p, res, entry, data, j1, nBlocks, pos1, left)
    ensures ReadsBackFrom(p, res, entry, data, j, nBlocks, pos, bytesLeft)
  {
    BlockArith(p, bytesLeft, j, nBlocks, j1, left);
    var size, size1 := Min(bytesLeft, Times(nBlocks - j, p.blockSize)), Min(left, Times(nBlocks - j1, p.blockSize));
    var end := pos1 + size1;
    assert end == pos + size;
    var e := res.disk.dir[entry];
    var rest := ExtentData(p, res.disk.image, e, j1, Min(SectorsFor(left), Times(nBlocks - j1, p.sectorsPerBlock)));
    assert rest == Ok(Padded(data[pos1..end])) && res.pos == end;
    JoinPadded(p, data, pos, pos1, end);
    assert Prepend(written, rest) == Ok(Padded(data[pos..end]));
  }

  /** The last block the loop filled, at slot `j`, reads back as the bytes it copied. */
  lemma LastReadsBack(p: DiskParams, res: Progress, entry: nat, data: seq<u8>, j: nat, nBlocks: nat, pos: nat, bytesLeft: u32,
                      written: seq<u8>, j1: nat, pos1: nat, left: u32)
    requires Sized(p) && AllWellFormed(res.disk.dir) && entry < |res.disk.dir| && j < nBlocks && j1 == nBlocks
    requires bytesLeft as int + 127 < 0x1_0000_0000 && Times(nBlocks - j - 1, p.blockSize) < bytesLeft as int
    requires j1 == j + 1 && left == Wrap32(bytesLeft as int - p.blockSize)
    requires pos1 == pos + Min(bytesLeft, p.blockSize) && pos1 <= |data|
    requires written == Padded(data[pos..pos1])
    requires ExtentData(p, res.disk.image, res.disk.dir[entry], j, Min(SectorsFor(bytesLeft), Times(nBlocks - j, p.sectorsPerBlock))) == Ok(written)
    requires res.pos == pos1 && res.bytesLeft == left
    ensures ReadsBackFrom(p, res, entry, data, j, nBlocks, pos, bytesLeft)
  {
    BlockArith(p, bytesLeft, j, nBlocks, j1, left);
  }

  /**
   * The blocks the block loop fills from slot `j` on, each holding data,
   * read back from the entry as the bytes copied, padded with `^Z` to a
   * whole sector.
   */
  lemma {:induction false} WriteBlocksReadsBack(p: DiskParams, d: Disk, entry: nat, path: seq<char>, data: seq<u8>, j: nat, nBlocks: nat, pos: nat, bytesLeft: u32, res: Progress)
    requires Sized(p) && Shaped(p, d) && entry < |d.dir| && j < nBlocks
    requires bytesLeft as int + 127 < 0x1_0000_0000 && Times(nBlocks - j - 1, p.blockSize) < bytesLeft as int
    requires BlocksEndIn(p, d, entry, path, data, j, nBlocks, pos, bytesLeft, res) && res.error.None?
    ensures Shaped(p, res.disk) && entry < |res.disk.dir|
    ensures ReadsBackFrom(p, res, entry, data, j, nBlocks, pos, bytesLeft)
    decreases nBlocks - j
  {
    var next, block, written, j1, pos1, left := FirstBlockFacts(p, d, entry, path, data, j, nBlocks, pos, bytesLeft, res);
    BlockReadsBack(p, res.disk.image, res.disk.dir[entry], j, nBlocks, bytesLeft, block, written, j1, left);
    if j1 < nBlocks {
      BlockArith(p, bytesLeft, j, nBlocks, j1, left);
      WriteBlocksReadsBack(p, next, entry, path, data, j1, nBlocks, pos1, left, res);
      StepReadsBack(p, res, entry, data, j, nBlocks, pos, bytesLeft, block, written, j1, pos1, left);
    } else {
      LastReadsBack(p, res, entry, data, j, nBlocks, pos, bytesLeft, written, j1, pos1, left);
    }
  }

  // ----- The extent loop -----

  /** The blocks of the extent about to be copied, with `bytesLeft` bytes in `blocksLeft` blocks still to copy. */
  lemma ExtentBlocks(p: DiskParams, bytesLeft: u32, blocksLeft: u32)
    requires Layout(p) && bytesLeft as int + 127 < 0x1_0000_0000
    requires 0 < blocksLeft && Times(blocksLeft - 1, p.blockSize) < bytesLeft as int <= Times(blocksLeft, p.blockSize)
    ensures var nBlocks := Min(blocksLeft, p.blocksPerExtend);
      && 1 <= nBlocks
      && Times(nBlocks - 1, p.blockSize) < bytesLeft as int
      && Min(SectorsFor(bytesLeft), Times(nBlocks, p.sectorsPerBlock)) == Min(SectorsFor(bytesLeft), p.sectorsPerExtend)
      && Min(bytesLeft, Times(nBlocks, p.blockSize)) == Min(bytesLeft, p.extendSize)
      && (bytesLeft as int >= p.extendSize ==> Times(nBlocks, p.blockSize) == p.extendSize)
  {
    var nBlocks := Min(blocksLeft, p.blocksPerExtend);
    TimesMono(nBlocks - 1, blocksLeft - 1, p.blockSize);
    if blocksLeft < p.blocksPerExtend {
      TimesMono(blocksLeft, p.blocksPerExtend - 1, p.blockSize);
      assert Times(p.blocksPerExtend, p.blockSize) == Times(p.blocksPerExtend - 1, p.blockSize) + p.blockSize;
      TimesSectors(blocksLeft, p.sectorsPerBlock);
      SectorsForBounds(bytesLeft, Times(blocksLeft, p.sectorsPerBlock));
      TimesMono(blocksLeft, p.blocksPerExtend, p.sectorsPerBlock);
      TimesMono(blocksLeft, p.blocksPerExtend, p.blockSize);
    }
  }

  /** The sector count of the extent's entry fits its byte, and is full when more than the last sector's worth is missing. */
  lemma ExtentSectors(p: DiskParams, bytesLeft: u32)
    requires Layout(p) && bytesLeft as int + 127 < 0x1_0000_0000
    ensures Min(SectorsFor(bytesLeft), p.sectorsPerExtend) % 0x100 == Min(SectorsFor(bytesLeft), p.sectorsPerExtend)
    ensures Min(SectorsFor(bytesLeft), p.sectorsPerExtend) == p.sectorsPerExtend <==> bytesLeft as int > p.extendSize - 128
  {
    SectorsForBounds(bytesLeft, p.sectorsPerExtend);
  }

  /**
   * The counts of the extent loop, with `bytesLeft` bytes still to copy in
   * `nExtends - extent` extents and `blocksLeft` blocks: an extent that is
   * not the last is full, and what remains after it, `bytes1` bytes in
   * `blocks1` blocks from extent `extent1` on, is counted the same way.
   */
  lemma ExtentCounts(p: DiskParams, extent: nat, nExtends: nat, bytesLeft: u32, blocksLeft: u32, extent1: nat, bytes1: u32, blocks1: u32)
    requires Layout(p) && extent < nExtends
    requires Times(nExtends - extent - 1, p.extendSize) < bytesLeft as int <= Times(nExtends - extent, p.extendSize)
    requires 0 < blocksLeft && Times(blocksLeft - 1, p.blockSize) < bytesLeft as int <= Times(blocksLeft, p.blockSize)
    requires extent1 == extent + 1 && blocks1 == Wrap32(blocksLeft as int - p.blocksPerExtend)
    requires bytesLeft as int >= p.extendSize ==> bytes1 as int == bytesLeft as int - p.extendSize
    ensures extent1 == nExtends ==> bytesLeft as int <= p.extendSize
    ensures extent1 < nExtends ==>
      && bytes1 < bytesLeft
      && Times(nExtends - extent1 - 1, p.extendSize) < bytes1 as int <= Times(nExtends - extent1, p.extendSize)
      && 0 < blocks1 && Times(blocks1 - 1, p.blockSize) < bytes1 as int <= Times(blocks1, p.blockSize)
  {
    assert Times(nExtends - extent, p.extendSize) == Times(nExtends - extent - 1, p.extendSize) + p.extendSize;
    if extent1 < nExtends {
      assert Times(nExtends - extent - 1, p.extendSize) == Times(nExtends - extent - 2, p.extendSize) + p.extendSize;
      if blocksLeft <= p.blocksPerExtend {
        TimesMono(blocksLeft, p.blocksPerExtend, p.blockSize);
      }
      TimesAdd(blocksLeft - p.blocksPerExtend - 1, p.blocksPerExtend, p.blockSize);
      TimesAdd(blocksLeft - p.blocksPerExtend, p.blocksPerExtend, p.blockSize);
    } else {
      assert Times(0, p.extendSize) == 0;
    }
  }

  /** The file `cpmName` of user `user`, read from extent `extent` on, is `bytes`. */
  ghost predicate FileReadsAs(p: DiskParams, d: Disk, user: u8, fileName: seq<char>, cpmName: seq<u8>, extent: nat, bytes: seq<u8>)
    requires p.sectorsPerBlock > 0 && AllWellFormed(d.dir)
  {
    ReadExtents(p, d.dir, d.image, user, fileName, cpmName, extent) == Ok(bytes)
  }

  /** The file read from extent `extent` on is the `bytesLeft` bytes of `data` from `pos` on, padded. */
  ghost predicate TailReadsBack(p: DiskParams, d: Disk, user: u8, fileName: seq<char>, cpmName: seq<u8>, extent: nat, data: seq<u8>, pos: nat, bytesLeft: u32)
    requires p.sectorsPerBlock > 0
  {
    && pos + bytesLeft as int <= |data|
    && AllWellFormed(d.dir)
    && FileReadsAs(p, d, user, fileName, cpmName, extent, Padded(data[pos..pos + bytesLeft as int]))
  }

  /** The extent loop from extent `extent` on, with `bytesLeft` bytes in `blocksLeft` blocks left to copy from `pos`, ends in `fin`. */
  ghost predicate ExtentsEndIn(p: DiskParams, d: Disk, user: u8, cpmName: seq<u8>, path: seq<char>, data: seq<u8>, extent: nat, nExtends: nat, pos: nat, bytesLeft: u32, blocksLeft: u32, fin: Progress)
    requires Sized(p) && Shaped(p, d) && |cpmName| == FILENAME_LEN + EXTENSION_LEN
  {
    WriteExtents(p, d, user, cpmName, path, data, extent, nExtends, pos, bytesLeft, blocksLeft) == fin
  }

  /**
   * One extent of an extent loop that ends without error: it took entry
   * `i`, free before, and its block loop, which began on `start`, ended
   * without error in `r`, where the rest of the extent loop goes on.
   */
  lemma ExtentBegun(p: DiskParams, d: Disk, user: u8, cpmName: seq<u8>, path: seq<char>, data: seq<u8>, extent: nat, nExtends: nat, pos: nat, bytesLeft: u32, blocksLeft: u32, fin: Progress)
    returns (i: nat, start: Disk, r: Progress, extent1: nat, blocks1: u32)
    requires Sized(p) && Shaped(p, d) && |cpmName| == FILENAME_LEN + EXTENSION_LEN && extent < nExtends
    requires ExtentsEndIn(p, d, user, cpmName, path, data, extent, nExtends, pos, bytesLeft, blocksLeft, fin) && fin.error.None?
    ensures i < |d.dir| && IsFree(d.dir[i])
    ensures start == d.(dir := d.dir[i := NewEntry(p, user, cpmName, extent, bytesLeft)]) && Shaped(p, start)
    ensures BlocksEndIn(p, start, i, path, data, 0, Min(blocksLeft, p.blocksPerExtend), pos, bytesLeft, r) && r.error.None?
    ensures Shaped(p, r.disk) && |r.disk.dir| == |d.dir|
    ensures extent1 == extent + 1 && blocks1 == Wrap32(blocksLeft - p.blocksPerExtend)
    ensures ExtentsEndIn(p, r.disk, user, cpmName, path, data, extent1, nExtends, r.pos, r.bytesLeft, blocks1, fin)
  {
    ExtentsContinue(p, d, user, cpmName, path, data, extent, nExtends, pos, bytesLeft, blocksLeft);
    i, start, r := NextExtent(p, d, user, cpmName, path, data, extent, nExtends, pos, bytesLeft, blocksLeft);
    extent1, blocks1 := extent + 1, Wrap32(blocksLeft - p.blocksPerExtend);
  }

  /**
   * A block loop from slot 0 that ends in `r` keeps the allocation
   * invariant and changes only the slots of its entry.
   */
  lemma BlockLoopFacts(p: DiskParams, d: Disk, entry: nat, path: seq<char>, data: seq<u8>, nBlocks: nat, pos: nat, bytesLeft: u32, r: Progress)
    requires Sized(p) && Shaped(p, d) && entry < |d.dir| && Allocated(p, d)
    requires BlocksEndIn(p, d, entry, path, data, 0, nBlocks, pos, bytesLeft, r)
    ensures Shaped(p, r.disk) && Allocated(p, r.disk) && |r.disk.dir| == |d.dir|
    ensures forall x :: 0 <= x < |d.dir| && x != entry ==> r.disk.dir[x] == d.dir[x]
    ensures r.disk.dir[entry].(blockBytes := d.dir[entry].blockBytes) == d.dir[entry]
  {
    WriteBlocksAllocated(p, d, entry, path, data, 0, nBlocks, pos, bytesLeft);
    WriteBlocksOnlySlots(p, d, entry, path, data, 0, nBlocks, pos, bytesLeft);
  }

  /** The entry a new extent starts from is that extent of the file. */
  lemma NewEntryMatches(p: DiskParams, user: u8, cpmName: seq<u8>, extent: nat, bytesLeft: u32)
    requires |cpmName| == FILENAME_LEN + EXTENSION_LEN && extent < MAX_EXTENTS
    ensures Matches(NewEntry(p, user, cpmName, extent, bytesLeft), user, cpmName, extent)
  {
  }

  /**
   * One extent of the extent loop copied without error: the entry it
   * took is extent `extent` of the file and reads back as the bytes
   * copied into it, padded to a whole sector.
   */
  lemma ExtentWritten(p: DiskParams, d: Disk, user: u8, cpmName: seq<u8>, path: seq<char>, data: seq<u8>, extent: nat, nExtends: nat, pos: nat, bytesLeft: u32, blocksLeft: u32, fin: Progress)
    returns (i: nat, r: Progress, extent1: nat, blocks1: u32)
    requires Layout(p) && Shaped(p, d) && Allocated(p, d) && |cpmName| == FILENAME_LEN + EXTENSION_LEN && user != FORMAT_BYTE
    requires extent < nExtends <= MAX_EXTENTS
    requires bytesLeft as int + 127 < 0x1_0000_0000
    requires Times(nExtends - extent - 1, p.extendSize) < bytesLeft as int <= Times(nExtends - extent, p.extendSize)
    requires 0 < blocksLeft && Times(blocksLeft - 1, p.blockSize) < bytesLeft as int <= Times(blocksLeft, p.blockSize)
    requires ExtentsEndIn(p, d, user, cpmName, path, data, extent, nExtends, pos, bytesLeft, blocksLeft, fin) && fin.error.None?
    ensures r.error.None? && Shaped(p, r.disk) && Allocated(p, r.disk) && |r.disk.dir| == |d.dir| && i < |d.dir|
    ensures extent1 == extent + 1 && blocks1 == Wrap32(blocksLeft - p.blocksPerExtend)
    ensures ExtentsEndIn(p, r.disk, user, cpmName, path, data, extent1, nExtends, r.pos, r.bytesLeft, blocks1, fin)
    ensures Matches(r.disk.dir[i], user, cpmName, extent)
    ensures forall x :: 0 <= x < |d.dir| && x != i ==> r.disk.dir[x] == d.dir[x]
    ensures r.disk.dir[i].sectorCount as nat == Min(SectorsFor(bytesLeft), p.sectorsPerExtend)
    ensures r.pos == pos + Min(bytesLeft, p.extendSize) && r.pos <= |data|
    ensures bytesLeft as int >= p.extendSize ==> r.bytesLeft as int == bytesLeft as int - p.extendSize
    ensures ExtentData(p, r.disk.image, r.disk.dir[i], 0, r.disk.dir[i].sectorCount) == Ok(Padded(data[pos..r.pos]))
  {
    var start;
    i, start, r, extent1, blocks1 := ExtentBegun(p, d, user, cpmName, path, data, extent, nExtends, pos, bytesLeft, blocksLeft, fin);
    ExtentFilled(p, d, start, r, i, user, cpmName, path, data, extent, pos, bytesLeft, blocksLeft);
  }

  /**
   * The block loop of extent `extent`, begun on `start` with the new
   * entry at the free entry `i` and ended without error in `r`: the entry
   * is that extent of the file and reads back as the bytes copied.
   */
  lemma ExtentFilled(p: DiskParams, d: Disk, start: Disk, r: Progress, i: nat, user: u8, cpmName: seq<u8>, path: seq<char>, data: seq<u8>, extent: nat, pos: nat, bytesLeft: u32, blocksLeft: u32)
    requires Layout(p) && Shaped(p, d) && Allocated(p, d) && |cpmName| == FILENAME_LEN + EXTENSION_LEN && extent < MAX_EXTENTS
    requires bytesLeft as int + 127 < 0x1_0000_0000
    requires 0 < blocksLeft && Times(blocksLeft - 1, p.blockSize) < bytesLeft as int <= Times(blocksLeft, p.blockSize)
    requires i < |d.dir| && start == d.(dir := d.dir[i := NewEntry(p, user, cpmName, extent, bytesLeft)]) && Shaped(p, start)
    requires BlocksEndIn(p, start, i, path, data, 0, Min(blocksLeft, p.blocksPerExtend), pos, bytesLeft, r) && r.error.None?
    ensures Shaped(p, r.disk) && Allocated(p, r.disk) && |r.disk.dir| == |d.dir|
    ensures Matches(r.disk.dir[i], user, cpmName, extent)
    ensures forall x :: 0 <= x < |d.dir| && x != i ==> r.disk.dir[x] == d.dir[x]
    ensures r.disk.dir[i].sectorCount as nat == Min(SectorsFor(bytesLeft), p.sectorsPerExtend)
    ensures r.pos == pos + Min(bytesLeft, p.extendSize) && r.pos <= |data|
    ensures bytesLeft as int >= p.extendSize ==> r.bytesLeft as int == bytesLeft as int - p.extendSize
    ensures ExtentData(p, r.disk.image, r.disk.dir[i], 0, r.disk.dir[i].sectorCount) == Ok(Padded(data[pos..r.pos]))
  {
    var nBlocks := Min(blocksLeft, p.blocksPerExtend);
    ExtentBlocks(p, bytesLeft, blocksLeft);
    ExtentSectors(p, bytesLeft);
    var e := NewEntry(p, user, cpmName, extent, bytesLeft);
    NewEntryMatches(p, user, cpmName, extent, bytesLeft);
    assert forall j :: 0 <= j < SlotCount(p) ==> Slot(p, e, j) == 0;
    NewEntryAllocated(p, d, i, e);
    BlockLoopFacts(p, start, i, path, data, nBlocks, pos, bytesLeft, r);
    assert r.disk.dir[i].(blockBytes := e.blockBytes) == e;
    WriteBlocksReadsBack(p, start, i, path, data, 0, nBlocks, pos, bytesLeft, r);
    ExtentReadsBack(p, r, i, data, pos, bytesLeft, blocksLeft);
  }

  /** The block loop of one extent, ended in `r`, read back as that extent's entry counts it. */
  lemma ExtentReadsBack(p: DiskParams, r: Progress, i: nat, data: seq<u8>, pos: nat, bytesLeft: u32, blocksLeft: u32)
    requires Layout(p) && AllWellFormed(r.disk.dir) && i < |r.disk.dir| && bytesLeft as int + 127 < 0x1_0000_0000
    requires 0 < blocksLeft && Times(blocksLeft - 1, p.blockSize) < bytesLeft as int <= Times(blocksLeft, p.blockSize)
    requires r.disk.dir[i].sectorCount as nat == Min(SectorsFor(bytesLeft), p.sectorsPerExtend)
    requires ReadsBackFrom(p, r, i, data, 0, Min(blocksLeft, p.blocksPerExtend), pos, bytesLeft)
    ensures r.pos == pos + Min(bytesLeft, p.extendSize) && r.pos <= |data|
    ensures bytesLeft as int >= p.extendSize ==> r.bytesLeft as int == bytesLeft as int - p.extendSize
    ensures ExtentData(p, r.disk.image, r.disk.dir[i], 0, r.disk.dir[i].sectorCount) == Ok(Padded(data[pos..r.pos]))
  {
    ExtentBlocks(p, bytesLeft, blocksLeft);
  }

  /**
   * An extent loop that ends in `fin` changes only entries that were
   * free, each into an entry of the file with an extent number from
   * `extent` on, and keeps every marked block.
   */
  lemma ExtentLoopFacts(p: DiskParams, d: Disk, user: u8, cpmName: seq<u8>, path: seq<char>, data: seq<u8>, extent: nat, nExtends: nat, pos: nat, bytesLeft: u32, blocksLeft: u32, fin: Progress)
    requires Sized(p) && Shaped(p, d) && |cpmName| == FILENAME_LEN + EXTENSION_LEN && nExtends <= MAX_EXTENTS
    requires ExtentsEndIn(p, d, user, cpmName, path, data, extent, nExtends, pos, bytesLeft, blocksLeft, fin)
    ensures Shaped(p, fin.disk) && |fin.disk.dir| == |d.dir|
    ensures forall x :: 0 <= x < |d.dir| ==>
      fin.disk.dir[x] == d.dir[x] || (IsFree(d.dir[x]) && OwnedBy(fin.disk.dir[x], user, cpmName) && extent <= fin.disk.dir[x].extent as nat < nExtends)
    ensures KeepsBlocks(p, d.used, d.image, fin.disk.image)
  {
    WriteExtentsOnlyFree(p, d, user, cpmName, path, data, extent, nExtends, pos, bytesLeft, blocksLeft);
    WriteExtentsKeeps(p, d, user, cpmName, path, data, extent, nExtends, pos, bytesLeft, blocksLeft);
  }

  /**
   * Where extent `extent` of the file is found once the extent loop has
   * ended in `fin`: the entry `i` it took, which the rest of the loop left
   * alone and whose blocks it kept, and after it no entry of the file
   * below extent `extent + 1`.
   */
  lemma ExtentFound(p: DiskParams, d: Disk, r1: Disk, fin: Disk, user: u8, cpmName: seq<u8>, extent: nat, extent1: nat, nExtends: nat, i: nat)
    requires extent1 == extent + 1
    requires Sized(p) && Shaped(p, r1) && Allocated(p, r1) && Shaped(p, fin) && user != FORMAT_BYTE
    requires |r1.dir| == |d.dir| && |fin.dir| == |d.dir| && i < |d.dir|
    requires forall x :: 0 <= x < |d.dir| && OwnedBy(d.dir[x], user, cpmName) ==> d.dir[x].extent as nat < extent
    requires Matches(r1.dir[i], user, cpmName, extent)
    requires forall x :: 0 <= x < |d.dir| && x != i ==> r1.dir[x] == d.dir[x]
    requires forall x :: 0 <= x < |r1.dir| ==>
      fin.dir[x] == r1.dir[x] || (IsFree(r1.dir[x]) && OwnedBy(fin.dir[x], user, cpmName) && extent1 <= fin.dir[x].extent as nat < nExtends)
    requires KeepsBlocks(p, r1.used, r1.image, fin.image)
    requires ExtentData(p, r1.image, r1.dir[i], 0, r1.dir[i].sectorCount as nat).Ok?
    ensures FindEntry(fin.dir, user, cpmName, extent) == i && fin.dir[i] == r1.dir[i]
    ensures ExtentData(p, fin.image, fin.dir[i], 0, fin.dir[i].sectorCount as nat) == ExtentData(p, r1.image, r1.dir[i], 0, r1.dir[i].sectorCount as nat)
    ensures forall x :: 0 <= x < |r1.dir| && OwnedBy(r1.dir[x], user, cpmName) ==> r1.dir[x].extent as nat < extent1
    ensures extent1 == nExtends ==> FindEntry(fin.dir, user, cpmName, extent1) == |fin.dir|
  {
    var e := r1.dir[i];
    assert fin.dir[i] == e;
    assert Marked(p, e, r1.used);
    ExtentDataKept(p, r1.used, r1.image, fin.image, e, 0, e.sectorCount as nat);
    forall x | 0 <= x < |fin.dir| && x != i
      ensures !Matches(fin.dir[x], user, cpmName, extent)
    {
    }
    if extent1 == nExtends {
      forall x | 0 <= x < |fin.dir|
        ensures !Matches(fin.dir[x], user, cpmName, extent1)
      {
      }
    }
  }

  /**
   * One extent of an extent loop that ends without error in `fin`, with
   * the counts and the state the rest of the loop starts from, and where
   * the file finds that extent in `fin`.
   */
  lemma ExtentStep(p: DiskParams, d: Disk, user: u8, cpmName: seq<u8>, path: seq<char>, data: seq<u8>, extent: nat, nExtends: nat, pos: nat, bytesLeft: u32, blocksLeft: u32, fin: Progress)
    returns (i: nat, r1: Progress, extent1: nat, blocks1: u32)
    requires Layout(p) && Shaped(p, d) && Allocated(p, d) && |cpmName| == FILENAME_LEN + EXTENSION_LEN && user != FORMAT_BYTE
    requires extent < nExtends <= MAX_EXTENTS
    requires bytesLeft as int + 127 < 0x1_0000_0000
    requires Times(nExtends - extent - 1, p.extendSize) < bytesLeft as int <= Times(nExtends - extent, p.extendSize)
    requires 0 < blocksLeft && Times(blocksLeft - 1, p.blockSize) < bytesLeft as int <= Times(blocksLeft, p.blockSize)
    requires forall x :: 0 <= x < |d.dir| && OwnedBy(d.dir[x], user, cpmName) ==> d.dir[x].extent as nat < extent
    requires ExtentsEndIn(p, d, user, cpmName, path, data, extent, nExtends, pos, bytesLeft, blocksLeft, fin) && fin.error.None?
    ensures Shaped(p, r1.disk) && Allocated(p, r1.disk) && extent1 == extent + 1
    ensures ExtentsEndIn(p, r1.disk, user, cpmName, path, data, extent1, nExtends, r1.pos, r1.bytesLeft, blocks1, fin)
    ensures forall x :: 0 <= x < |r1.disk.dir| && OwnedBy(r1.disk.dir[x], user, cpmName) ==> r1.disk.dir[x].extent as nat < extent1
    ensures extent1 < nExtends ==>
      && r1.bytesLeft as int + 127 < 0x1_0000_0000
      && Times(nExtends - extent1 - 1, p.extendSize) < r1.bytesLeft as int <= Times(nExtends - extent1, p.extendSize)
      && 0 < blocks1 && Times(blocks1 - 1, p.blockSize) < r1.bytesLeft as int <= Times(blocks1, p.blockSize)
      && p.extendSize < bytesLeft as int && r1.bytesLeft as int == bytesLeft as int - p.extendSize
    ensures extent1 == nExtends ==> bytesLeft as int <= p.extendSize && FindEntry(fin.disk.dir, user, cpmName, extent1) == |fin.disk.dir|
    ensures Shaped(p, fin.disk) && i < |fin.disk.dir| && FindEntry(fin.disk.dir, user, cpmName, extent) == i
    ensures fin.disk.dir[i].sectorCount as nat == Min(SectorsFor(bytesLeft), p.sectorsPerExtend)
    ensures r1.pos == pos + Min(bytesLeft, p.extendSize) && r1.pos <= |data|
    ensures ExtentData(p, fin.disk.image, fin.disk.dir[i], 0, fin.disk.dir[i].sectorCount as nat) == Ok(Padded(data[pos..r1.pos]))
  {
    i, r1, extent1, blocks1 := ExtentWritten(p, d, user, cpmName, path, data, extent, nExtends, pos, bytesLeft, blocksLeft, fin);
    ExtentCounts(p, extent, nExtends, bytesLeft, blocksLeft, extent1, r1.bytesLeft, blocks1);
    ExtentLoopFacts(p, r1.disk, user, cpmName, path, data, extent1, nExtends, r1.pos, r1.bytesLeft, blocks1, fin);
    ExtentFound(p, d, r1.disk, fin.disk, user, cpmName, extent, extent1, nExtends, i);
  }

  /**
   * The extent loop from extent `extent` on, when it ends without an
   * error in `fin` and no entry of the file has an extent number from
   * `extent` on yet: the file read from that extent on is the bytes still
   * to copy, padded with `^Z` to a whole sector.
   */
  lemma {:induction false} WriteExtentsReadsBack(p: DiskParams, d: Disk, user: u8, fileName: seq<char>, cpmName: seq<u8>, path: seq<char>, data: seq<u8>, extent: nat, nExtends: nat, pos: nat, bytesLeft: u32, blocksLeft: u32, fin: Progress)
    requires Layout(p) && Shaped(p, d) && Allocated(p, d) && |cpmName| == FILENAME_LEN + EXTENSION_LEN && user != FORMAT_BYTE
    requires extent < nExtends <= MAX_EXTENTS
    requires bytesLeft as int + 127 < 0x1_0000_0000
    requires Times(nExtends - extent - 1, p.extendSize) < bytesLeft as int <= Times(nExtends - extent, p.extendSize)
    requires 0 < blocksLeft && Times(blocksLeft - 1, p.blockSize) < bytesLeft as int <= Times(blocksLeft, p.blockSize)
    requires forall x :: 0 <= x < |d.dir| && OwnedBy(d.dir[x], user, cpmName) ==> d.dir[x].extent as nat < extent
    requires ExtentsEndIn(p, d, user, cpmName, path, data, extent, nExtends, pos, bytesLeft, blocksLeft, fin) && fin.error.None?
    ensures Shaped(p, fin.disk)
    ensures TailReadsBack(p, fin.disk, user, fileName, cpmName, extent, data, pos, bytesLeft)
    decreases nExtends - extent
  {
    var i, r1, extent1, blocks1 := ExtentStep(p, d, user, cpmName, path, data, extent, nExtends, pos, bytesLeft, blocksLeft, fin);
    if extent1 < nExtends {
      WriteExtentsReadsBack(p, r1.disk, user, fileName, cpmName, path, data, extent1, nExtends, r1.pos, r1.bytesLeft, blocks1, fin);
      ExtentsJoin(p, fin.disk, user, fileName, cpmName, extent, extent1, nExtends, i, data, pos, r1.pos, bytesLeft, r1.bytesLeft);
    } else {
      ExtentsJoin(p, fin.disk, user, fileName, cpmName, extent, extent1, nExtends, i, data, pos, r1.pos, bytesLeft, r1.bytesLeft);
    }
  }

  /** The sector count an extent holding `bytesLeft` bytes gets: nonzero, and full when more than an extent is left. */
  lemma ExtentCount(p: DiskParams, bytesLeft: u32)
    requires Layout(p) && 0 < bytesLeft && bytesLeft as int + 127 < 0x1_0000_0000
    ensures Min(SectorsFor(bytesLeft), p.sectorsPerExtend) > 0
    ensures p.extendSize < bytesLeft as int ==> Min(SectorsFor(bytesLeft), p.sectorsPerExtend) == p.sectorsPerExtend
  {
    ExtentSectors(p, bytesLeft);
    SectorsForRoundsUp(bytesLeft);
  }

  /** A full extent of data ahead of the rest, each padded, is the whole padded. */
  lemma JoinExtentPadded(p: DiskParams, data: seq<u8>, pos: nat, pos1: nat, end: nat)
    requires Layout(p) && pos1 == pos + p.extendSize && pos1 <= end <= |data|
    ensures Prepend(Padded(data[pos..pos1]), Ok(Padded(data[pos1..end]))) == Ok(Padded(data[pos..end]))
  {
    var a := data[pos..pos1];
    assert |a| == SECTOR_SIZE * p.sectorsPerExtend;
    PaddedAppend(a, data[pos1..end]);
    PaddedAppend(a, []);
    assert a + [] == a;
    SliceConcat(data, pos, pos1, end);
  }

  /**
   * Extent `extent` of the file, found at entry `i`, read back ahead of
   * the extents after it, which hold the `bytes1` bytes from `pos1` on:
   * the file from that extent on is the bytes from `pos` on, padded.
   */
  lemma ExtentsJoin(p: DiskParams, d: Disk, user: u8, fileName: seq<char>, cpmName: seq<u8>,
                    extent: nat, extent1: nat, nExtends: nat, i: nat, data: seq<u8>, pos: nat, pos1: nat, bytesLeft: u32, bytes1: u32)
    requires Layout(p) && AllWellFormed(d.dir) && i < |d.dir| && FindEntry(d.dir, user, cpmName, extent) == i
    requires extent1 == extent + 1 && extent < nExtends && 0 < bytesLeft && bytesLeft as int + 127 < 0x1_0000_0000
    requires d.dir[i].sectorCount as nat == Min(SectorsFor(bytesLeft), p.sectorsPerExtend)
    requires pos1 == pos + Min(bytesLeft, p.extendSize) && pos1 <= |data|
    requires ExtentData(p, d.image, d.dir[i], 0, d.dir[i].sectorCount as nat) == Ok(Padded(data[pos..pos1]))
    requires extent1 == nExtends ==> bytesLeft as int <= p.extendSize && FindEntry(d.dir, user, cpmName, extent1) == |d.dir|
    requires extent1 < nExtends ==>
      && p.extendSize < bytesLeft as int && bytes1 as int == bytesLeft as int - p.extendSize
      && TailReadsBack(p, d, user, fileName, cpmName, extent1, data, pos1, bytes1)
    ensures TailReadsBack(p, d, user, fileName, cpmName, extent, data, pos, bytesLeft)
  {
    ExtentCount(p, bytesLeft);
    var bytes := Padded(data[pos..pos1]);
    ReadExtentsStep(p, d.dir, d.image, user, fileName, cpmName, extent, bytes);
    var rest := ReadExtents(p, d.dir, d.image, user, fileName, cpmName, extent1);
    if extent1 < nExtends {
      var end := pos + bytesLeft as int;
      assert pos1 + bytes1 as int == end;
      assert rest == Ok(Padded(data[pos1..end]));
      assert d.dir[i].sectorCount as nat == p.sectorsPerExtend;
      JoinExtentPadded(p, data, pos, pos1, end);
      assert ReadExtents(p, d.dir, d.image, user, fileName, cpmName, extent) == Prepend(bytes, rest);
      assert FileReadsAs(p, d, user, fileName, cpmName, extent, Padded(data[pos..end]));
    } else {
      assert pos1 == pos + bytesLeft as int;
      assert rest == Ok([]);
      assert bytes + [] == bytes;
      assert ReadExtents(p, d.dir, d.image, user, fileName, cpmName, extent) == Ok(bytes);
      assert FileReadsAs(p, d, user, fileName, cpmName, extent, Padded(data[pos..pos1]));
    }
  }

  /** The bytes of an extent whose blocks stay marked read the same from an image that keeps the marked blocks. */
  lemma {:induction false} ExtentDataKept(p: DiskParams, keep: seq<bool>, a: seq<u8>, b: seq<u8>, e: DirEntry, j: nat, sectorsLeft: nat)
    requires Sized(p) && WellFormed(e) && !IsFree(e) && Marked(p, e, keep) && KeepsBlocks(p, keep, a, b)
    requires ExtentData(p, a, e, j, sectorsLeft).Ok?
    ensures ExtentData(p, b, e, j, sectorsLeft) == ExtentData(p, a, e, j, sectorsLeft)
    decreases sectorsLeft
  {
    if sectorsLeft > 0 {
      var block := Slot(p, e, j);
      var n := if sectorsLeft >= p.sectorsPerBlock then p.sectorsPerBlock else sectorsLeft;
      ReadKeptBlock(p, keep, a, b, block, n * SECTOR_SIZE);
      ExtentDataKept(p, keep, a, b, e, j + 1, sectorsLeft - n);
    }
  }
}
