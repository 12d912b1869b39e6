/**
 * What the write command does to the block map, the directory buffer and
 * the image: the map keeps covering every block the directory uses, a
 * block is handed out only when no entry in use and no directory block
 * holds it, and the bytes of blocks already in use stay as they were.
 */
module CpmAlloc {
  import opened Types
  import opened CpmDisk
  import opened CpmNames
  import opened CpmRead
  import opened CpmWrite

  // ----- The allocation invariant -----

  /** An entry in use has every slot inside the disk and marked in `used`. */
  predicate Marked(p: DiskParams, e: DirEntry, used: seq<bool>)
    requires WellFormed(e)
  {
    !IsFree(e) ==> forall j :: 0 <= j < SlotCount(p) ==> Slot(p, e, j) < |used| && used[Slot(p, e, j)]
  }

  /** The block map covers the directory blocks and every block an entry in use names. */
  predicate Allocated(p: DiskParams, d: Disk)
    requires Shaped(p, d)
  {
    && (forall b :: 0 <= b < p.directoryBlocks && b < p.totalBlocks ==> d.used[b])
    && (forall i :: 0 <= i < |d.dir| ==> Marked(p, d.dir[i], d.used))
  }

  /** The block map built from the directory satisfies the invariant. */
  lemma BlockMapAllocated(p: DiskParams, dir: seq<DirEntry>, image: seq<u8>)
    requires AllWellFormed(dir) && BlockMap(p, dir).Some?
    ensures Shaped(p, Disk(dir, BlockMap(p, dir).value, image))
    ensures Allocated(p, Disk(dir, BlockMap(p, dir).value, image))
  {
    var used := BlockMap(p, dir).value;
    forall i | 0 <= i < |dir|
      ensures Marked(p, dir[i], used)
    {
      if !IsFree(dir[i]) {
        forall j | 0 <= j < SlotCount(p)
          ensures Slot(p, dir[i], j) < |used| && used[Slot(p, dir[i], j)]
        {
          assert InRange(p, dir[i]);
          assert Names(p, dir[i], Slot(p, dir[i], j));
        }
      }
    }
  }

  /**
   * A block the map shows free is neither a directory block nor named by
   * any entry in use: handing it out gives no block to two owners.
   */
  lemma FreeBlockIsUnowned(p: DiskParams, d: Disk, block: nat)
    requires Shaped(p, d) && Allocated(p, d) && block < p.totalBlocks && !d.used[block]
    ensures block >= p.directoryBlocks
    ensures !Referenced(p, d.dir, block)
  {
  }

  // ----- The bytes of kept blocks -----

  /** Block `c`'s bytes that `a` holds are the same in `b`. */
  predicate SameBlock(p: DiskParams, c: nat, a: seq<u8>, b: seq<u8>)
  {
    forall i :: BlockOffset(p, c) <= i < BlockOffset(p, c) + p.blockSize && i < |a| && i < |b| ==> b[i] == a[i]
  }

  /** `b` is at least as long as `a` and agrees with it on every block `keep` marks. */
  predicate KeepsBlocks(p: DiskParams, keep: seq<bool>, a: seq<u8>, b: seq<u8>)
  {
    |a| <= |b| && forall c :: 0 <= c < |keep| && keep[c] ==> SameBlock(p, c, a, b)
  }

  /** Keeping is transitive, for a set of blocks that only grows. */
  lemma KeepsTrans(p: DiskParams, keep1: seq<bool>, keep2: seq<bool>, a: seq<u8>, b: seq<u8>, c: seq<u8>)
    requires |keep1| == |keep2| && forall x :: 0 <= x < |keep1| && keep1[x] ==> keep2[x]
    requires KeepsBlocks(p, keep1, a, b) && KeepsBlocks(p, keep2, b, c)
    ensures KeepsBlocks(p, keep1, a, c)
  {
    forall x | 0 <= x < |keep1| && keep1[x]
      ensures SameBlock(p, x, a, c)
    {
      assert SameBlock(p, x, a, b) && SameBlock(p, x, b, c);
    }
  }

  /** Writing at most a block at a block `keep` does not mark keeps every marked block. */
  lemma WriteAtKeeps(p: DiskParams, keep: seq<bool>, image: seq<u8>, block: nat, data: seq<u8>)
    requires block < |keep| && !keep[block] && |data| <= p.blockSize
    ensures KeepsBlocks(p, keep, image, WriteAt(image, BlockOffset(p, block), data))
  {
    var r := WriteAt(image, BlockOffset(p, block), data);
    forall c | 0 <= c < |keep| && keep[c]
      ensures SameBlock(p, c, image, r)
    {
      if c < block {
        BlocksDoNotOverlap(p, c, block);
      } else {
        BlocksDoNotOverlap(p, block, c);
      }
    }
  }

  /** A kept block reads the same from both images, when it could be read from the first. */
  lemma ReadKeptBlock(p: DiskParams, keep: seq<bool>, a: seq<u8>, b: seq<u8>, c: nat, n: nat)
    requires KeepsBlocks(p, keep, a, b) && c < |keep| && keep[c] && n <= p.blockSize
    requires ReadAt(a, BlockOffset(p, c), n).Some?
    ensures ReadAt(b, BlockOffset(p, c), n) == ReadAt(a, BlockOffset(p, c), n)
  {
    assert SameBlock(p, c, a, b);
    assert b[BlockOffset(p, c)..BlockOffset(p, c) + n] == a[BlockOffset(p, c)..BlockOffset(p, c) + n];
  }

  // ----- The block loop -----

  /** Every slot of an entry that is not 0 names a data block: one after the directory. */
  predicate DataSlots(p: DiskParams, e: DirEntry)
    requires WellFormed(e)
  {
    forall j :: 0 <= j < SlotCount(p) && Slot(p, e, j) != 0 ==> p.directoryBlocks <= Slot(p, e, j) < p.totalBlocks
  }

  /** Marking one more block keeps the invariant. */
  lemma MarkBlock(p: DiskParams, d: Disk, block: nat, image: seq<u8>)
    requires Shaped(p, d) && Allocated(p, d) && block < p.totalBlocks
    ensures Shaped(p, Disk(d.dir, d.used[block := true], image))
    ensures Allocated(p, Disk(d.dir, d.used[block := true], image))
  {
    var used := d.used[block := true];
    forall i | 0 <= i < |d.dir|
      ensures Marked(p, d.dir[i], used)
    {
      assert Marked(p, d.dir[i], d.used);
    }
  }

  /** Recording a newly marked block in a slot keeps the invariant. */
  lemma MarkSlot(p: DiskParams, d: Disk, entry: nat, j: nat, block: nat, image: seq<u8>)
    requires Shaped(p, d) && Allocated(p, d) && entry < |d.dir| && j < SlotCount(p) && block < p.totalBlocks && block < SlotLimit(p)
    ensures Allocated(p, Disk(d.dir[entry := WithSlot(p, d.dir[entry], j, block)], d.used[block := true], image))
  {
    MarkBlock(p, d, block, image);
    SlotUpdate(p, d.dir[entry], j, block);
    assert Marked(p, d.dir[entry], d.used);
  }

  /**
   * One block of the block loop copied: the disk it leaves, described
   * without the bytes written.
   */
  lemma NextBlock(p: DiskParams, d: Disk, entry: nat, path: seq<char>, data: seq<u8>, j: nat, nBlocks: nat, pos: nat, bytesLeft: u32)
    returns (next: Disk, block: nat, nBytes: nat, written: seq<u8>)
    requires Sized(p) && Shaped(p, d) && entry < |d.dir| && j < nBlocks
    requires 0 < FreeBlockFrom(d.used, 0) < p.totalBlocks && j < SlotCount(p) && FreeBlockFrom(d.used, 0) < SlotLimit(p)
    requires pos + Min(bytesLeft, p.blockSize) <= |data|
    ensures block == FreeBlockFrom(d.used, 0) && nBytes == Min(bytesLeft, p.blockSize)
    ensures written == BlockBuffer(data[pos..pos + nBytes], p.blockSize)[..Min(SectorsFor(bytesLeft), p.sectorsPerBlock) * 128]
    ensures ReadAt(next.image, BlockOffset(p, block), |written|) == Some(written)
    ensures Shaped(p, next)
    ensures next.used == d.used[block := true]
    ensures next.dir == d.dir[entry := WithSlot(p, d.dir[entry], j, block)]
    ensures KeepsBlocks(p, d.used, d.image, next.image)
    ensures WriteBlocks(p, d, entry, path, data, j, nBlocks, pos, bytesLeft) ==
      WriteBlocks(p, next, entry, path, data, j + 1, nBlocks, pos + nBytes, Wrap32(bytesLeft - p.blockSize))
  {
    block := FreeBlockFrom(d.used, 0);
    nBytes := Min(bytesLeft, p.blockSize);
    var buffer := BlockBuffer(data[pos..pos + nBytes], p.blockSize);
    var nSectors := Min(SectorsFor(bytesLeft), p.sectorsPerBlock);
    written := buffer[..nSectors * 128];
    next := Disk(d.dir[entry := WithSlot(p, d.dir[entry], j, block)], d.used[block := true],
      WriteAt(d.image, BlockOffset(p, block), written));
    WriteBlocksStep(p, d, entry, path, data, j, nBlocks, pos, bytesLeft, next);
    WriteAtKeeps(p, d.used, d.image, block, written);
    ReadAfterWrite(d.image, BlockOffset(p, block), written);
  }

  /** The block loop stopped before copying block `j`: at most that block marked and recorded. */
  lemma BlocksStopped(p: DiskParams, d: Disk, entry: nat, path: seq<char>, data: seq<u8>, j: nat, nBlocks: nat, pos: nat, bytesLeft: u32)
    requires Sized(p) && Shaped(p, d) && entry < |d.dir|
    requires var block := FreeBlockFrom(d.used, 0);
      !(j < nBlocks && 0 < block < p.totalBlocks && j < SlotCount(p) && block < SlotLimit(p) && pos + Min(bytesLeft, p.blockSize) <= |data|)
    ensures var block := FreeBlockFrom(d.used, 0);
      var r := WriteBlocks(p, d, entry, path, data, j, nBlocks, pos, bytesLeft).disk;
      && r.image == d.image
      && (r.used == d.used || (block < p.totalBlocks && r.used == d.used[block := true]))
      && (r.dir == d.dir || (block < p.totalBlocks && j < SlotCount(p) && block < SlotLimit(p) && r.dir == d.dir[entry := WithSlot(p, d.dir[entry], j, block)]))
  {
  }

  /** A block loop that ends without an error copied every block that was due: each step's checks passed. */
  lemma BlocksContinue(p: DiskParams, d: Disk, entry: nat, path: seq<char>, data: seq<u8>, j: nat, nBlocks: nat, pos: nat, bytesLeft: u32)
    requires Sized(p) && Shaped(p, d) && entry < |d.dir| && j < nBlocks
    requires WriteBlocks(p, d, entry, path, data, j, nBlocks, pos, bytesLeft).error.None?
    ensures var block := FreeBlockFrom(d.used, 0);
      0 < block < p.totalBlocks && j < SlotCount(p) && block < SlotLimit(p) && pos + Min(bytesLeft, p.blockSize) <= |data|
  {
  }

  /**
   * The block loop only ever marks blocks, and writes only blocks the map
   * showed free, so every marked block keeps its bytes.
   */
  lemma {:induction false} WriteBlocksKeeps(p: DiskParams, d: Disk, entry: nat, path: seq<char>, data: seq<u8>, j: nat, nBlocks: nat, pos: nat, bytesLeft: u32)
    requires Sized(p) && Shaped(p, d) && entry < |d.dir|
    ensures var r := WriteBlocks(p, d, entry, path, data, j, nBlocks, pos, bytesLeft).disk;
      && (forall c :: 0 <= c < p.totalBlocks && d.used[c] ==> r.used[c])
      && KeepsBlocks(p, d.used, d.image, r.image)
    decreases nBlocks - j
  {
    var block := FreeBlockFrom(d.used, 0);
    if j < nBlocks && 0 < block < p.totalBlocks && j < SlotCount(p) && block < SlotLimit(p) && pos + Min(bytesLeft, p.blockSize) <= |data| {
      var next, _, nBytes, _ := NextBlock(p, d, entry, path, data, j, nBlocks, pos, bytesLeft);
      WriteBlocksKeeps(p, next, entry, path, data, j + 1, nBlocks, pos + nBytes, Wrap32(bytesLeft - p.blockSize));
      var r := WriteBlocks(p, next, entry, path, data, j + 1, nBlocks, pos + nBytes, Wrap32(bytesLeft - p.blockSize)).disk;
      KeepsTrans(p, d.used, next.used, d.image, next.image, r.image);
    }
  }

  /**
   * The block loop changes only entry `entry`, and of it only the slots
   * from `j` on.
   */
  lemma {:induction false} WriteBlocksOnlySlots(p: DiskParams, d: Disk, entry: nat, path: seq<char>, data: seq<u8>, j: nat, nBlocks: nat, pos: nat, bytesLeft: u32)
    requires Sized(p) && Shaped(p, d) && entry < |d.dir|
    ensures var r := WriteBlocks(p, d, entry, path, data, j, nBlocks, pos, bytesLeft).disk;
      && (forall i :: 0 <= i < |d.dir| && i != entry ==> r.dir[i] == d.dir[i])
      && r.dir[entry].(blockBytes := d.dir[entry].blockBytes) == d.dir[entry]
      && (forall k :: 0 <= k < j && k < SlotCount(p) ==> Slot(p, r.dir[entry], k) == Slot(p, d.dir[entry], k))
    decreases nBlocks - j
  {
    var block := FreeBlockFrom(d.used, 0);
    if j < nBlocks && 0 < block < p.totalBlocks && j < SlotCount(p) && block < SlotLimit(p) && pos + Min(bytesLeft, p.blockSize) <= |data| {
      var next, _, nBytes, _ := NextBlock(p, d, entry, path, data, j, nBlocks, pos, bytesLeft);
      SlotUpdate(p, d.dir[entry], j, block);
      WriteBlocksOnlySlots(p, next, entry, path, data, j + 1, nBlocks, pos + nBytes, Wrap32(bytesLeft - p.blockSize));
    } else {
      BlocksStopped(p, d, entry, path, data, j, nBlocks, pos, bytesLeft);
      if block < p.totalBlocks && j < SlotCount(p) && block < SlotLimit(p) {
        SlotUpdate(p, d.dir[entry], j, block);
      }
    }
  }

  /** The block loop keeps the allocation invariant. */
  lemma {:induction false} WriteBlocksAllocated(p: DiskParams, d: Disk, entry: nat, path: seq<char>, data: seq<u8>, j: nat, nBlocks: nat, pos: nat, bytesLeft: u32)
    requires Sized(p) && Shaped(p, d) && entry < |d.dir| && Allocated(p, d)
    ensures Allocated(p, WriteBlocks(p, d, entry, path, data, j, nBlocks, pos, bytesLeft).disk)
    decreases nBlocks - j
  {
    var block := FreeBlockFrom(d.used, 0);
    if j < nBlocks && block < p.totalBlocks {
      MarkBlock(p, d, block, d.image);
      if j < SlotCount(p) && block < SlotLimit(p) {
        MarkSlot(p, d, entry, j, block, d.image);
        if 0 < block && pos + Min(bytesLeft, p.blockSize) <= |data| {
          var next, _, nBytes, _ := NextBlock(p, d, entry, path, data, j, nBlocks, pos, bytesLeft);
          MarkSlot(p, d, entry, j, block, next.image);
          WriteBlocksAllocated(p, next, entry, path, data, j + 1, nBlocks, pos + nBytes, Wrap32(bytesLeft - p.blockSize));
        }
      }
    }
  }

  /** Every block the block loop records in the entry is a data block: the map showed it free. */
  lemma {:induction false} WriteBlocksDataSlots(p: DiskParams, d: Disk, entry: nat, path: seq<char>, data: seq<u8>, j: nat, nBlocks: nat, pos: nat, bytesLeft: u32)
    requires Sized(p) && Shaped(p, d) && entry < |d.dir| && Allocated(p, d) && DataSlots(p, d.dir[entry])
    ensures DataSlots(p, WriteBlocks(p, d, entry, path, data, j, nBlocks, pos, bytesLeft).disk.dir[entry])
    decreases nBlocks - j
  {
    var block := FreeBlockFrom(d.used, 0);
    if block < p.totalBlocks && j < SlotCount(p) && block < SlotLimit(p) {
      FreeBlockIsUnowned(p, d, block);
      SlotUpdate(p, d.dir[entry], j, block);
      assert DataSlots(p, WithSlot(p, d.dir[entry], j, block));
    }
    if j < nBlocks && 0 < block < p.totalBlocks && j < SlotCount(p) && block < SlotLimit(p) && pos + Min(bytesLeft, p.blockSize) <= |data| {
      var next, _, nBytes, _ := NextBlock(p, d, entry, path, data, j, nBlocks, pos, bytesLeft);
      MarkSlot(p, d, entry, j, block, next.image);
      WriteBlocksDataSlots(p, next, entry, path, data, j + 1, nBlocks, pos + nBytes, Wrap32(bytesLeft - p.blockSize));
    } else {
      BlocksStopped(p, d, entry, path, data, j, nBlocks, pos, bytesLeft);
    }
  }

  // ----- The extent loop -----

  /** An extent loop that ends without an error found a free entry for every extent that was due. */
  lemma ExtentsContinue(p: DiskParams, d: Disk, user: u8, cpmName: seq<u8>, path: seq<char>, data: seq<u8>, extent: nat, nExtends: nat, pos: nat, bytesLeft: u32, blocksLeft: u32)
    requires Sized(p) && Shaped(p, d) && |cpmName| == FILENAME_LEN + EXTENSION_LEN && extent < nExtends
    requires WriteExtents(p, d, user, cpmName, path, data, extent, nExtends, pos, bytesLeft, blocksLeft).error.None?
    ensures FreeEntryFrom(d.dir, 0) < |d.dir|
  {
  }

  /** A new entry, whose slots are all 0, keeps the invariant: block 0 is a directory block. */
  lemma NewEntryAllocated(p: DiskParams, d: Disk, i: nat, e: DirEntry)
    requires Shaped(p, d) && Allocated(p, d) && 0 < p.directoryBlocks && 0 < p.totalBlocks
    requires i < |d.dir| && WellFormed(e) && forall j :: 0 <= j < SlotCount(p) ==> Slot(p, e, j) == 0
    ensures Shaped(p, d.(dir := d.dir[i := e])) && Allocated(p, d.(dir := d.dir[i := e]))
  {
    var start := d.(dir := d.dir[i := e]);
    assert Marked(p, e, d.used);
    forall x | 0 <= x < |d.dir|
      ensures Marked(p, start.dir[x], start.used)
    {
      assert x != i ==> Marked(p, d.dir[x], d.used);
    }
  }

  /** One extent of the extent loop begun: its entry, and the block loop that fills it. */
  lemma NextExtent(p: DiskParams, d: Disk, user: u8, cpmName: seq<u8>, path: seq<char>, data: seq<u8>, extent: nat, nExtends: nat, pos: nat, bytesLeft: u32, blocksLeft: u32)
    returns (i: nat, start: Disk, r: Progress)
    requires Sized(p) && Shaped(p, d) && |cpmName| == FILENAME_LEN + EXTENSION_LEN
    requires extent < nExtends && FreeEntryFrom(d.dir, 0) < |d.dir|
    ensures i == FreeEntryFrom(d.dir, 0) && i < |d.dir| && IsFree(d.dir[i])
    ensures start == d.(dir := d.dir[i := NewEntry(p, user, cpmName, extent, bytesLeft)]) && Shaped(p, start)
    ensures r == WriteBlocks(p, start, i, path, data, 0, Min(blocksLeft, p.blocksPerExtend), pos, bytesLeft)
    ensures Shaped(p, r.disk) && |r.disk.dir| == |d.dir|
    ensures WriteExtents(p, d, user, cpmName, path, data, extent, nExtends, pos, bytesLeft, blocksLeft) ==
      if r.error.Some? then r
      else WriteExtents(p, r.disk, user, cpmName, path, data, extent + 1, nExtends, r.pos, r.bytesLeft, Wrap32(blocksLeft - p.blocksPerExtend))
  {
    i := FreeEntryFrom(d.dir, 0);
    start := d.(dir := d.dir[i := NewEntry(p, user, cpmName, extent, bytesLeft)]);
    r := WriteBlocks(p, start, i, path, data, 0, Min(blocksLeft, p.blocksPerExtend), pos, bytesLeft);
  }

  /** The extent loop only ever marks blocks, and every marked block keeps its bytes. */
  lemma {:induction false} WriteExtentsKeeps(p: DiskParams, d: Disk, user: u8, cpmName: seq<u8>, path: seq<char>, data: seq<u8>, extent: nat, nExtends: nat, pos: nat, bytesLeft: u32, blocksLeft: u32)
    requires Sized(p) && Shaped(p, d) && |cpmName| == FILENAME_LEN + EXTENSION_LEN
    ensures var r := WriteExtents(p, d, user, cpmName, path, data, extent, nExtends, pos, bytesLeft, blocksLeft).disk;
      && (forall c :: 0 <= c < p.totalBlocks && d.used[c] ==> r.used[c])
      && KeepsBlocks(p, d.used, d.image, r.image)
    decreases nExtends - extent
  {
    if extent < nExtends && FreeEntryFrom(d.dir, 0) < |d.dir| {
      var i, start, r1 := NextExtent(p, d, user, cpmName, path, data, extent, nExtends, pos, bytesLeft, blocksLeft);
      WriteBlocksKeeps(p, start, i, path, data, 0, Min(blocksLeft, p.blocksPerExtend), pos, bytesLeft);
      if r1.error.None? {
        WriteExtentsKeeps(p, r1.disk, user, cpmName, path, data, extent + 1, nExtends, r1.pos, r1.bytesLeft, Wrap32(blocksLeft - p.blocksPerExtend));
        var r := WriteExtents(p, r1.disk, user, cpmName, path, data, extent + 1, nExtends, r1.pos, r1.bytesLeft, Wrap32(blocksLeft - p.blocksPerExtend)).disk;
        KeepsTrans(p, d.used, r1.disk.used, d.image, r1.disk.image, r.image);
      }
    }
  }

  /**
   * The extent loop changes only entries that were free, each into an
   * entry of the file being written with an extent number from `extent`
   * on.
   */
  lemma {:induction false} WriteExtentsOnlyFree(p: DiskParams, d: Disk, user: u8, cpmName: seq<u8>, path: seq<char>, data: seq<u8>, extent: nat, nExtends: nat, pos: nat, bytesLeft: u32, blocksLeft: u32)
    requires Sized(p) && Shaped(p, d) && |cpmName| == FILENAME_LEN + EXTENSION_LEN && nExtends <= MAX_EXTENTS
    ensures var r := WriteExtents(p, d, user, cpmName, path, data, extent, nExtends, pos, bytesLeft, blocksLeft).disk;
      forall x :: 0 <= x < |d.dir| ==>
        r.dir[x] == d.dir[x] || (IsFree(d.dir[x]) && OwnedBy(r.dir[x], user, cpmName) && extent <= r.dir[x].extent as nat < nExtends)
    decreases nExtends - extent
  {
    if extent < nExtends && FreeEntryFrom(d.dir, 0) < |d.dir| {
      var i, start, r1 := NextExtent(p, d, user, cpmName, path, data, extent, nExtends, pos, bytesLeft, blocksLeft);
      WriteBlocksOnlySlots(p, start, i, path, data, 0, Min(blocksLeft, p.blocksPerExtend), pos, bytesLeft);
      assert extent % 0x100 == extent;
      assert OwnedBy(r1.disk.dir[i], user, cpmName) && r1.disk.dir[i].extent as nat == extent;
      if r1.error.None? {
        WriteExtentsOnlyFree(p, r1.disk, user, cpmName, path, data, extent + 1, nExtends, r1.pos, r1.bytesLeft, Wrap32(blocksLeft - p.blocksPerExtend));
        var r := WriteExtents(p, r1.disk, user, cpmName, path, data, extent + 1, nExtends, r1.pos, r1.bytesLeft, Wrap32(blocksLeft - p.blocksPerExtend)).disk;
        forall x | 0 <= x < |d.dir|
          ensures r.dir[x] == d.dir[x] || (IsFree(d.dir[x]) && OwnedBy(r.dir[x], user, cpmName) && extent <= r.dir[x].extent as nat < nExtends)
        {
          if x != i {
            assert r1.disk.dir[x] == d.dir[x];
          }
        }
      }
    }
  }

  /**
   * The extent loop keeps the allocation invariant, and the entries it
   * fills name only data blocks. A new entry's slots start at 0, which
   * the map holds as a directory block.
   */
  lemma {:induction false} WriteExtentsAllocated(p: DiskParams, d: Disk, user: u8, cpmName: seq<u8>, path: seq<char>, data: seq<u8>, extent: nat, nExtends: nat, pos: nat, bytesLeft: u32, blocksLeft: u32)
    requires Sized(p) && Shaped(p, d) && |cpmName| == FILENAME_LEN + EXTENSION_LEN && Allocated(p, d)
    requires 0 < p.directoryBlocks && 0 < p.totalBlocks
    ensures var r := WriteExtents(p, d, user, cpmName, path, data, extent, nExtends, pos, bytesLeft, blocksLeft).disk;
      && Allocated(p, r)
      && forall x :: 0 <= x < |d.dir| && r.dir[x] != d.dir[x] ==> DataSlots(p, r.dir[x])
    decreases nExtends - extent
  {
    if extent < nExtends && FreeEntryFrom(d.dir, 0) < |d.dir| {
      var i, start, r1 := NextExtent(p, d, user, cpmName, path, data, extent, nExtends, pos, bytesLeft, blocksLeft);
      var e := NewEntry(p, user, cpmName, extent, bytesLeft);
      assert forall j :: 0 <= j < SlotCount(p) ==> Slot(p, e, j) == 0;
      assert DataSlots(p, e);
      NewEntryAllocated(p, d, i, e);
      WriteBlocksAllocated(p, start, i, path, data, 0, Min(blocksLeft, p.blocksPerExtend), pos, bytesLeft);
      WriteBlocksDataSlots(p, start, i, path, data, 0, Min(blocksLeft, p.blocksPerExtend), pos, bytesLeft);
      WriteBlocksOnlySlots(p, start, i, path, data, 0, Min(blocksLeft, p.blocksPerExtend), pos, bytesLeft);
      if r1.error.None? {
        WriteExtentsAllocated(p, r1.disk, user, cpmName, path, data, extent + 1, nExtends, r1.pos, r1.bytesLeft, Wrap32(blocksLeft - p.blocksPerExtend));
      }
    }
  }

  // ----- One file, and the files of the command -----

  /** Copying one host file only marks blocks, keeps the marked blocks' bytes and keeps the invariant. */
  lemma CopyFileFrame(p: DiskParams, d: Disk, user: u8, cpmName: seq<u8>, path: seq<char>, file: HostFile)
    requires Sized(p) && Shaped(p, d) && |cpmName| == FILENAME_LEN + EXTENSION_LEN
    ensures var r := CopyFile(p, d, user, cpmName, path, file).disk;
      && (forall c :: 0 <= c < p.totalBlocks && d.used[c] ==> r.used[c])
      && KeepsBlocks(p, d.used, d.image, r.image)
      && forall x :: 0 <= x < |d.dir| ==> r.dir[x] == d.dir[x] || (IsFree(d.dir[x]) && OwnedBy(r.dir[x], user, cpmName))
    ensures Allocated(p, d) && 0 < p.directoryBlocks && 0 < p.totalBlocks ==>
      var r := CopyFile(p, d, user, cpmName, path, file).disk;
      && Allocated(p, r)
      && forall x :: 0 <= x < |d.dir| && r.dir[x] != d.dir[x] ==> DataSlots(p, r.dir[x])
  {
    var nExtends := ExtentsFor(p, file.size);
    if 0 < nExtends <= MAX_EXTENTS {
      var bytesLeft := Wrap32(file.size);
      var blocksLeft := BlocksFor(p, bytesLeft);
      WriteExtentsKeeps(p, d, user, cpmName, path, file.data, 0, nExtends, 0, bytesLeft, blocksLeft);
      WriteExtentsOnlyFree(p, d, user, cpmName, path, file.data, 0, nExtends, 0, bytesLeft, blocksLeft);
      if Allocated(p, d) && 0 < p.directoryBlocks && 0 < p.totalBlocks {
        WriteExtentsAllocated(p, d, user, cpmName, path, file.data, 0, nExtends, 0, bytesLeft, blocksLeft);
      }
    }
  }

  /**
   * Writing one file named on the command line only marks blocks, keeps
   * the marked blocks' bytes, keeps the invariant, and changes only free
   * entries.
   */
  lemma WriteFileFrame(p: DiskParams, d: Disk, user: u8, path: seq<char>, host: map<seq<char>, HostFile>)
    requires Sized(p) && Shaped(p, d) && NoNul(path)
    ensures var r := WriteFile(p, d, user, path, host).disk;
      && (forall c :: 0 <= c < p.totalBlocks && d.used[c] ==> r.used[c])
      && KeepsBlocks(p, d.used, d.image, r.image)
      && forall x :: 0 <= x < |d.dir| ==> r.dir[x] == d.dir[x] || IsFree(d.dir[x])
    ensures Allocated(p, d) && 0 < p.directoryBlocks && 0 < p.totalBlocks ==>
      var r := WriteFile(p, d, user, path, host).disk;
      && Allocated(p, r)
      && forall x :: 0 <= x < |d.dir| && r.dir[x] != d.dir[x] ==> DataSlots(p, r.dir[x])
  {
    match ConvertFileName(BaseName(path))
    case None =>
    case Some(cpmName) =>
      if !HasFile(d.dir, user, cpmName) && path in host {
        CopyFileFrame(p, d, user, cpmName, path, host[path]);
      }
  }

  /**
   * A file of a user other than the free mark that is on the disk keeps
   * its entries through a file written after it.
   */
  lemma WriteFileKeepsFile(p: DiskParams, d: Disk, user: u8, path: seq<char>, host: map<seq<char>, HostFile>, other: u8, name: seq<u8>)
    requires Sized(p) && Shaped(p, d) && NoNul(path)
    requires other != FORMAT_BYTE && HasFile(d.dir, other, name)
    ensures var r := WriteFile(p, d, user, path, host).disk;
      SameFile(d.dir, r.dir, other, name) && HasFile(r.dir, other, name)
  {
    match ConvertFileName(BaseName(path))
    case None =>
    case Some(cpmName) =>
      if !HasFile(d.dir, user, cpmName) && path in host {
        CopyFileFrame(p, d, user, cpmName, path, host[path]);
        var r := CopyFile(p, d, user, cpmName, path, host[path]).disk;
        var i :| 0 <= i < |d.dir| && OwnedBy(d.dir[i], other, name);
        assert OwnedBy(r.dir[i], other, name);
      }
  }

  /** One file of the command written without error, seen from the file loop. */
  lemma NextFile(p: DiskParams, d: Disk, user: u8, paths: seq<seq<char>>, host: map<seq<char>, HostFile>, i: nat) returns (next: Disk)
    requires Sized(p) && Shaped(p, d) && AllNoNul(paths) && i < |paths|
    requires WriteFile(p, d, user, paths[i], host).error.None?
    ensures next == WriteFile(p, d, user, paths[i], host).disk
    ensures Shaped(p, next) && |next.dir| == |d.dir|
    ensures WriteEach(p, d, user, paths, host, i) == WriteEach(p, next, user, paths, host, i + 1)
    ensures (forall c :: 0 <= c < p.totalBlocks && d.used[c] ==> next.used[c]) && KeepsBlocks(p, d.used, d.image, next.image)
    ensures Allocated(p, d) && 0 < p.directoryBlocks && 0 < p.totalBlocks ==> Allocated(p, next)
  {
    next := WriteFile(p, d, user, paths[i], host).disk;
    WriteFileFrame(p, d, user, paths[i], host);
  }

  /** The files from `i` on only mark blocks and keep the marked blocks' bytes. */
  lemma {:induction false} WriteEachKeeps(p: DiskParams, d: Disk, user: u8, paths: seq<seq<char>>, host: map<seq<char>, HostFile>, i: nat)
    requires Sized(p) && Shaped(p, d) && AllNoNul(paths) && i <= |paths|
    ensures var r := WriteEach(p, d, user, paths, host, i).disk;
      && (forall c :: 0 <= c < p.totalBlocks && d.used[c] ==> r.used[c])
      && KeepsBlocks(p, d.used, d.image, r.image)
    decreases |paths| - i
  {
    if i < |paths| && WriteFile(p, d, user, paths[i], host).error.None? {
      var next := NextFile(p, d, user, paths, host, i);
      WriteEachKeeps(p, next, user, paths, host, i + 1);
      var r := WriteEach(p, next, user, paths, host, i + 1).disk;
      KeepsTrans(p, d.used, next.used, d.image, next.image, r.image);
    } else if i < |paths| {
      WriteFileFrame(p, d, user, paths[i], host);
    }
  }

  /** The files from `i` on keep the invariant. */
  lemma {:induction false} WriteEachAllocated(p: DiskParams, d: Disk, user: u8, paths: seq<seq<char>>, host: map<seq<char>, HostFile>, i: nat)
    requires Sized(p) && Shaped(p, d) && AllNoNul(paths) && i <= |paths|
    requires Allocated(p, d) && 0 < p.directoryBlocks && 0 < p.totalBlocks
    ensures Allocated(p, WriteEach(p, d, user, paths, host, i).disk)
    decreases |paths| - i
  {
    if i < |paths| && WriteFile(p, d, user, paths[i], host).error.None? {
      var next := NextFile(p, d, user, paths, host, i);
      WriteEachAllocated(p, next, user, paths, host, i + 1);
    } else if i < |paths| {
      WriteFileFrame(p, d, user, paths[i], host);
    }
  }

  /** A file on the disk of a user other than the free mark keeps its entries through the files from `i` on. */
  lemma {:induction false} WriteEachKeepsFile(p: DiskParams, d: Disk, user: u8, paths: seq<seq<char>>, host: map<seq<char>, HostFile>, i: nat, other: u8, name: seq<u8>)
    requires Sized(p) && Shaped(p, d) && AllNoNul(paths) && i <= |paths|
    requires other != FORMAT_BYTE && HasFile(d.dir, other, name)
    ensures SameFile(d.dir, WriteEach(p, d, user, paths, host, i).disk.dir, other, name)
    decreases |paths| - i
  {
    if i < |paths| && WriteFile(p, d, user, paths[i], host).error.None? {
      var next := NextFile(p, d, user, paths, host, i);
      WriteFileKeepsFile(p, d, user, paths[i], host, other, name);
      WriteEachKeepsFile(p, next, user, paths, host, i + 1, other, name);
      SameFileChain(d.dir, next.dir, WriteEach(p, next, user, paths, host, i + 1).disk.dir, other, name);
    } else if i < |paths| {
      WriteFileKeepsFile(p, d, user, paths[i], host, other, name);
    }
  }

  lemma SameFileChain(dir1: seq<DirEntry>, dir2: seq<DirEntry>, dir3: seq<DirEntry>, user: u8, cpmName: seq<u8>)
    requires SameFile(dir1, dir2, user, cpmName) && SameFile(dir2, dir3, user, cpmName)
    ensures SameFile(dir1, dir3, user, cpmName)
  {
  }
}
