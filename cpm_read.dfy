/**
 * `cpmdisk read`: find the extents of a file in the directory, one extent
 * number after the other, and copy the sectors their blocks hold.
 */
module CpmRead {
  import opened Types
  import opened CpmDisk
  import opened CpmNames

  // ----- Searching the directory -----

  /** Entry `e` belongs to the file `cpmName` of user `user`, whatever its extent. */
  predicate OwnedBy(e: DirEntry, user: u8, cpmName: seq<u8>)
  {
    e.user == user && e.name == cpmName
  }

  /** The file has at least one entry. */
  predicate HasFile(dir: seq<DirEntry>, user: u8, cpmName: seq<u8>)
  {
    exists i :: 0 <= i < |dir| && OwnedBy(dir[i], user, cpmName)
  }

  /** Entry `e` is extent `extent` of the file `cpmName` of user `user`. */
  predicate Matches(e: DirEntry, user: u8, cpmName: seq<u8>, extent: nat)
  {
    OwnedBy(e, user, cpmName) && e.extent as nat == extent
  }

  function FindFrom(dir: seq<DirEntry>, user: u8, cpmName: seq<u8>, extent: nat, i: nat): (r: nat)
    requires i <= |dir|
    ensures i <= r <= |dir|
    ensures r < |dir| ==> Matches(dir[r], user, cpmName, extent)
    ensures forall k :: i <= k < r ==> !Matches(dir[k], user, cpmName, extent)
    decreases |dir| - i
  {
    if i == |dir| || Matches(dir[i], user, cpmName, extent) then i
    else FindFrom(dir, user, cpmName, extent, i + 1)
  }

  /** The first entry that is the wanted extent, or `|dir|` when there is none. */
  function FindEntry(dir: seq<DirEntry>, user: u8, cpmName: seq<u8>, extent: nat): (r: nat)
    ensures r <= |dir|
    ensures r < |dir| ==> Matches(dir[r], user, cpmName, extent)
    ensures forall k :: 0 <= k < r ==> !Matches(dir[k], user, cpmName, extent)
  {
    FindFrom(dir, user, cpmName, extent, 0)
  }

  /** The search loop over the directory entries. */
  method FindExtent(dir: seq<DirEntry>, user: u8, cpmName: seq<u8>, extent: nat) returns (i: nat)
    ensures i == FindEntry(dir, user, cpmName, extent)
  {
    i := 0;
    while i < |dir| && !Matches(dir[i], user, cpmName, extent)
      invariant i <= |dir|
      invariant FindFrom(dir, user, cpmName, extent, i) == FindEntry(dir, user, cpmName, extent)
    {
      i := i + 1;
    }
  }

  // ----- The data of one extent -----

  function Prepend(bytes: seq<u8>, r: Result<seq<u8>>): Result<seq<u8>>
  {
    match r
    case Ok(rest) => Ok(bytes + rest)
    case Err(x) => Err(x)
  }

  /** Whole sectors put in front of whole sectors make whole sectors. */
  lemma PrependSectors(bytes: seq<u8>, r: Result<seq<u8>>)
    requires |bytes| % SECTOR_SIZE == 0 && (r.Ok? ==> |r.value| % SECTOR_SIZE == 0)
    ensures Prepend(bytes, r).Ok? ==> |Prepend(bytes, r).value| % SECTOR_SIZE == 0
  {
    if r.Ok? {
      var q, m := |bytes| / SECTOR_SIZE, |r.value| / SECTOR_SIZE;
      assert |bytes + r.value| == (q + m) * SECTOR_SIZE;
    }
  }

  lemma PrependEmpty(r: Result<seq<u8>>)
    ensures Prepend([], r) == r
  {
    if r.Ok? {
      assert [] + r.value == r.value;
    }
  }

  lemma PrependTwice(a: seq<u8>, b: seq<u8>, r: Result<seq<u8>>)
    ensures Prepend(a, Prepend(b, r)) == Prepend(a + b, r)
  {
    if r.Ok? {
      assert a + (b + r.value) == (a + b) + r.value;
    }
  }

  /**
   * The bytes an extent describes, from block slot `j` on while
   * `sectorsLeft` sectors remain: every block number must be a data block
   * of the disk (an `assert` otherwise), and the last block gives only the
   * sectors that remain.
   */
  function ExtentData(p: DiskParams, image: seq<u8>, e: DirEntry, j: nat, sectorsLeft: nat): (r: Result<seq<u8>>)
    requires p.sectorsPerBlock > 0 && WellFormed(e)
    ensures r.Ok? ==> |r.value| == sectorsLeft * SECTOR_SIZE
    ensures r.Err? ==> r.error == Aborted || r.error.BlockUnreadable?
    decreases sectorsLeft
  {
    if sectorsLeft == 0 then Ok([])
    else if j >= SlotCount(p) then Err(Aborted)
    else
      var block := Slot(p, e, j);
      if block == 0 || block >= p.totalBlocks then Err(Aborted)
      else
        var n := if sectorsLeft >= p.sectorsPerBlock then p.sectorsPerBlock else sectorsLeft;
        match ReadAt(image, BlockOffset(p, block), n * SECTOR_SIZE)
        case None => Err(BlockUnreadable(block))
        case Some(bytes) => Prepend(bytes, ExtentData(p, image, e, j + 1, sectorsLeft - n))
  }

  /** One block of an extent read, the rest of the extent follows it. */
  lemma ExtentDataStep(p: DiskParams, image: seq<u8>, e: DirEntry, j: nat, sectorsLeft: nat, n: nat, bytes: seq<u8>)
    requires p.sectorsPerBlock > 0 && WellFormed(e) && sectorsLeft > 0 && j < SlotCount(p)
    requires 0 < Slot(p, e, j) < p.totalBlocks
    requires n == if sectorsLeft >= p.sectorsPerBlock then p.sectorsPerBlock else sectorsLeft
    requires ReadAt(image, BlockOffset(p, Slot(p, e, j)), n * SECTOR_SIZE) == Some(bytes)
    ensures ExtentData(p, image, e, j, sectorsLeft) == Prepend(bytes, ExtentData(p, image, e, j + 1, sectorsLeft - n))
  {
  }

  /** The blocks an extent uses are the first ceil(SectorCount / sectorsPerBlock) slots. */
  lemma BlockCountSpan(sectorCount: nat, sectorsPerBlock: nat, n: nat)
    requires sectorsPerBlock > 0
    ensures n < Div(sectorCount + sectorsPerBlock - 1, sectorsPerBlock) <==> Mul(n, sectorsPerBlock) < sectorCount
    ensures Mul(n + 1, sectorsPerBlock) == Mul(n, sectorsPerBlock) + sectorsPerBlock
  {
    var q := Div(sectorCount + sectorsPerBlock - 1, sectorsPerBlock);
    assert q * sectorsPerBlock <= sectorCount + sectorsPerBlock - 1 < q * sectorsPerBlock + sectorsPerBlock;
    if n < q {
      MulStep(n, q, sectorsPerBlock);
    } else {
      MulLe(q, n, sectorsPerBlock);
    }
  }

  /** `nBlockCount`: how many blocks of `sectorsPerBlock` sectors cover `sectorCount` sectors. */
  method BlockCount(sectorCount: nat, sectorsPerBlock: nat) returns (count: nat)
    requires sectorsPerBlock > 0
    ensures forall n: nat :: n < count <==> Mul(n, sectorsPerBlock) < sectorCount
  {
    count := Div(sectorCount + sectorsPerBlock - 1, sectorsPerBlock);
    forall n: nat ensures n < count <==> Mul(n, sectorsPerBlock) < sectorCount {
      BlockCountSpan(sectorCount, sectorsPerBlock, n);
    }
  }

  /** The block loop: `nBlockCount` blocks, each giving at most a block of sectors. */
  method ReadExtentBlocks(p: DiskParams, image: seq<u8>, e: DirEntry) returns (r: Result<seq<u8>>)
    requires p.sectorsPerBlock > 0 && WellFormed(e)
    ensures r == ExtentData(p, image, e, 0, e.sectorCount)
  {
    var sectorsLeft: int := e.sectorCount;
    var blockCount := BlockCount(e.sectorCount, p.sectorsPerBlock);
    var nBlock: nat := 0;
    var out: seq<u8> := [];
    ghost var rest := ExtentData(p, image, e, 0, e.sectorCount);
    PrependEmpty(rest);
    while nBlock < blockCount
      invariant sectorsLeft == e.sectorCount - Mul(nBlock, p.sectorsPerBlock)
      invariant nBlock < blockCount <==> sectorsLeft > 0
      invariant ExtentData(p, image, e, 0, e.sectorCount) == Prepend(out, rest)
      invariant sectorsLeft > 0 ==> rest == ExtentData(p, image, e, nBlock, sectorsLeft)
      invariant sectorsLeft <= 0 ==> rest == Ok([])
      decreases blockCount - nBlock
    {
      if nBlock >= SlotCount(p) {
        return Err(Aborted);
      }
      var block := Slot(p, e, nBlock);
      if block == 0 || block >= p.totalBlocks {
        return Err(Aborted);
      }
      var n := if sectorsLeft >= p.sectorsPerBlock then p.sectorsPerBlock else sectorsLeft;
      var bytes := ReadAt(image, BlockOffset(p, block), n * SECTOR_SIZE);
      if bytes.None? {
        return Err(BlockUnreadable(block));
      }
      ExtentDataStep(p, image, e, nBlock, sectorsLeft, n, bytes.value);
      PrependTwice(out, bytes.value, ExtentData(p, image, e, nBlock + 1, sectorsLeft - n));
      out := out + bytes.value;
      rest := ExtentData(p, image, e, nBlock + 1, sectorsLeft - n);
      BlockCountSpan(e.sectorCount, p.sectorsPerBlock, nBlock);
      nBlock, sectorsLeft := nBlock + 1, sectorsLeft - p.sectorsPerBlock;
    }
    assert out + [] == out;
    return Ok(out);
  }

  // ----- The extents of a file -----

  /** `m` copies of `k` added up: a product that the proofs unfold one factor at a time. */
  function Times(m: nat, k: nat): nat
  {
    if m == 0 then 0 else Times(m - 1, k) + k
  }

  /**
   * The file's data from extent number `extent` on. An extent that is
   * found is read in full; the next one is looked for only when this one
   * is full (`SectorCount == sectorsPerExtend`); a missing extent ends the
   * file, unless it is extent 0. The counter is a natural number, so
   * after extent 255 the search finds nothing and the file ends there.
   */
  function ReadExtents(p: DiskParams, dir: seq<DirEntry>, image: seq<u8>, user: u8, fileName: seq<char>, cpmName: seq<u8>, extent: nat): (r: Result<seq<u8>>)
    requires p.sectorsPerBlock > 0 && AllWellFormed(dir)
    ensures r.Ok? ==> |r.value| % SECTOR_SIZE == 0
    decreases 256 - extent
  {
    var i := FindEntry(dir, user, cpmName, extent);
    if i == |dir| then
      if extent == 0 then Err(FileNotFound(fileName)) else Ok([])
    else
      var e := dir[i];
      if e.sectorCount == 0 then Err(Aborted)
      else
        match ExtentData(p, image, e, 0, e.sectorCount)
        case Err(x) => Err(x)
        case Ok(bytes) =>
          if e.sectorCount as nat == p.sectorsPerExtend then
            var rest := ReadExtents(p, dir, image, user, fileName, cpmName, extent + 1);
            PrependSectors(bytes, rest);
            Prepend(bytes, rest)
          else Ok(bytes)
  }

  /**
   * The read reports a missing file exactly when extent 0 is missing, and
   * gives no data exactly when the extent it starts from is missing.
   */
  lemma {:induction false} ReadExtentsOutcome(p: DiskParams, dir: seq<DirEntry>, image: seq<u8>, user: u8, fileName: seq<char>, cpmName: seq<u8>, extent: nat)
    requires p.sectorsPerBlock > 0 && AllWellFormed(dir)
    ensures var r := ReadExtents(p, dir, image, user, fileName, cpmName, extent);
      && (r == Err(FileNotFound(fileName)) <==> extent == 0 && FindEntry(dir, user, cpmName, 0) == |dir|)
      && (r.Ok? ==> (|r.value| == 0 <==> FindEntry(dir, user, cpmName, extent) == |dir|))
    decreases 256 - extent
  {
    var i := FindEntry(dir, user, cpmName, extent);
    if i < |dir| && dir[i].sectorCount > 0 && ExtentData(p, image, dir[i], 0, dir[i].sectorCount).Ok? && dir[i].sectorCount as nat == p.sectorsPerExtend {
      ReadExtentsOutcome(p, dir, image, user, fileName, cpmName, extent + 1);
    }
  }

  /** One step of the extent loop: a found extent whose blocks could be read. */
  lemma ReadExtentsStep(p: DiskParams, dir: seq<DirEntry>, image: seq<u8>, user: u8, fileName: seq<char>, cpmName: seq<u8>, extent: nat, bytes: seq<u8>)
    requires p.sectorsPerBlock > 0 && AllWellFormed(dir)
    requires FindEntry(dir, user, cpmName, extent) < |dir|
    requires var e := dir[FindEntry(dir, user, cpmName, extent)];
      e.sectorCount > 0 && ExtentData(p, image, e, 0, e.sectorCount) == Ok(bytes)
    ensures var e := dir[FindEntry(dir, user, cpmName, extent)];
      ReadExtents(p, dir, image, user, fileName, cpmName, extent) ==
        if e.sectorCount as nat == p.sectorsPerExtend then Prepend(bytes, ReadExtents(p, dir, image, user, fileName, cpmName, extent + 1))
        else Ok(bytes)
  {
  }

  /**
   * The same loop with the counter as the tool declares it, an `unsigned
   * char`: after extent 255 it wraps to 0. A full extent 255 makes the
   * search find extent 0 again, and the check that no output file is open
   * yet fails; a partial extent 255 leaves the counter at 0, which the tool
   * reports as a file that was not found.
   */
  function ReadExtentsAsWritten(p: DiskParams, dir: seq<DirEntry>, image: seq<u8>, user: u8, fileName: seq<char>, cpmName: seq<u8>, count: nat): (r: Result<seq<u8>>)
    requires p.sectorsPerBlock > 0 && AllWellFormed(dir) && count <= 256
    ensures r.Ok? ==> |r.value| % SECTOR_SIZE == 0
    decreases 256 - count
  {
    var extent := LowByte(count);
    var i := FindEntry(dir, user, cpmName, extent);
    if i == |dir| then
      if extent == 0 then Err(FileNotFound(fileName)) else Ok([])
    else if extent == 0 && count > 0 then Err(Aborted)
    else
      var e := dir[i];
      if e.sectorCount == 0 then Err(Aborted)
      else
        match ExtentData(p, image, e, 0, e.sectorCount)
        case Err(x) => Err(x)
        case Ok(bytes) =>
          if e.sectorCount as nat == p.sectorsPerExtend then
            var rest := ReadExtentsAsWritten(p, dir, image, user, fileName, cpmName, count + 1);
            PrependSectors(bytes, rest);
            Prepend(bytes, rest)
          else if LowByte(count + 1) == 0 then Err(FileNotFound(fileName))
          else Ok(bytes)
  }

  /** The value an `unsigned char` holds after counting up to `count` from 0. */
  function LowByte(count: nat): (r: nat)
    requires count <= 256
    ensures r == count % 0x100
  {
    if count == 256 then 0 else count
  }

  /** A file without an extent 255 reads the same with either counter. */
  lemma {:induction false} CountersAgreeBelow255(p: DiskParams, dir: seq<DirEntry>, image: seq<u8>, user: u8, fileName: seq<char>, cpmName: seq<u8>, extent: nat)
    requires p.sectorsPerBlock > 0 && AllWellFormed(dir) && extent <= 255
    requires FindEntry(dir, user, cpmName, 255) == |dir|
    ensures ReadExtentsAsWritten(p, dir, image, user, fileName, cpmName, extent) == ReadExtents(p, dir, image, user, fileName, cpmName, extent)
    decreases 256 - extent
  {
    var i := FindEntry(dir, user, cpmName, extent);
    if i < |dir| {
      assert extent < 255;
      var e := dir[i];
      if e.sectorCount > 0 && ExtentData(p, image, e, 0, e.sectorCount).Ok? && e.sectorCount as nat == p.sectorsPerExtend {
        CountersAgreeBelow255(p, dir, image, user, fileName, cpmName, extent + 1);
      }
    }
  }

  /**
   * A file with all 256 extents, the first 255 of them full, cannot be
   * read with the byte counter, though the natural-number counter reads
   * it (the tool's own write command stores such files).
   */
  lemma {:induction false} ByteCounterFailsOn256Extents(p: DiskParams, dir: seq<DirEntry>, image: seq<u8>, user: u8, fileName: seq<char>, cpmName: seq<u8>, extent: nat)
    requires p.sectorsPerBlock > 0 && AllWellFormed(dir) && extent <= 255
    requires forall k :: extent <= k <= 255 ==> FindEntry(dir, user, cpmName, k) < |dir|
    requires forall k :: extent <= k < 255 ==> dir[FindEntry(dir, user, cpmName, k)].sectorCount as nat == p.sectorsPerExtend
    requires FindEntry(dir, user, cpmName, 0) < |dir|
    requires ReadExtents(p, dir, image, user, fileName, cpmName, extent).Ok?
    ensures ReadExtentsAsWritten(p, dir, image, user, fileName, cpmName, extent).Err?
    decreases 256 - extent
  {
    var i, bytes := ExtentReadParts(p, dir, image, user, fileName, cpmName, extent);
    if extent == 255 {
      AsWrittenLast(p, dir, image, user, fileName, cpmName, bytes);
    } else {
      var next := extent + 1;
      ByteCounterFailsOn256Extents(p, dir, image, user, fileName, cpmName, next);
      AsWrittenStep(p, dir, image, user, fileName, cpmName, extent, bytes);
    }
  }

  /** What a successful read of a found extent says about that extent. */
  lemma ExtentReadParts(p: DiskParams, dir: seq<DirEntry>, image: seq<u8>, user: u8, fileName: seq<char>, cpmName: seq<u8>, extent: nat) returns (i: nat, bytes: seq<u8>)
    requires p.sectorsPerBlock > 0 && AllWellFormed(dir)
    requires FindEntry(dir, user, cpmName, extent) < |dir|
    requires ReadExtents(p, dir, image, user, fileName, cpmName, extent).Ok?
    ensures i == FindEntry(dir, user, cpmName, extent) && i < |dir| && dir[i].sectorCount > 0
    ensures ExtentData(p, image, dir[i], 0, dir[i].sectorCount) == Ok(bytes)
    ensures dir[i].sectorCount as nat == p.sectorsPerExtend ==> ReadExtents(p, dir, image, user, fileName, cpmName, extent + 1).Ok?
  {
    i := FindEntry(dir, user, cpmName, extent);
    bytes := ExtentData(p, image, dir[i], 0, dir[i].sectorCount).value;
  }

  /** Below extent 255 a full extent is followed by the next with the byte counter too. */
  lemma AsWrittenStep(p: DiskParams, dir: seq<DirEntry>, image: seq<u8>, user: u8, fileName: seq<char>, cpmName: seq<u8>, count: nat, bytes: seq<u8>)
    requires p.sectorsPerBlock > 0 && AllWellFormed(dir) && count < 255
    requires FindEntry(dir, user, cpmName, count) < |dir|
    requires var e := dir[FindEntry(dir, user, cpmName, count)];
      e.sectorCount as nat == p.sectorsPerExtend && e.sectorCount > 0 && ExtentData(p, image, e, 0, e.sectorCount) == Ok(bytes)
    ensures ReadExtentsAsWritten(p, dir, image, user, fileName, cpmName, count) ==
      Prepend(bytes, ReadExtentsAsWritten(p, dir, image, user, fileName, cpmName, count + 1))
  {
  }

  /** Extent 255 fails with the byte counter whenever extent 0 exists. */
  lemma AsWrittenLast(p: DiskParams, dir: seq<DirEntry>, image: seq<u8>, user: u8, fileName: seq<char>, cpmName: seq<u8>, bytes: seq<u8>)
    requires p.sectorsPerBlock > 0 && AllWellFormed(dir)
    requires FindEntry(dir, user, cpmName, 255) < |dir| && FindEntry(dir, user, cpmName, 0) < |dir|
    requires var e := dir[FindEntry(dir, user, cpmName, 255)];
      e.sectorCount > 0 && ExtentData(p, image, e, 0, e.sectorCount) == Ok(bytes)
    ensures ReadExtentsAsWritten(p, dir, image, user, fileName, cpmName, 255).Err?
  {
  }

  /** Two directories in which the file has the same entries at the same places. */
  predicate SameFile(dir1: seq<DirEntry>, dir2: seq<DirEntry>, user: u8, cpmName: seq<u8>)
  {
    && |dir1| == |dir2|
    && forall i :: 0 <= i < |dir1| ==>
         (OwnedBy(dir1[i], user, cpmName) <==> OwnedBy(dir2[i], user, cpmName))
         && (OwnedBy(dir1[i], user, cpmName) ==> dir1[i] == dir2[i])
  }

  lemma {:induction false} FindFromSame(dir1: seq<DirEntry>, dir2: seq<DirEntry>, user: u8, cpmName: seq<u8>, extent: nat, i: nat)
    requires SameFile(dir1, dir2, user, cpmName) && i <= |dir1|
    ensures FindFrom(dir1, user, cpmName, extent, i) == FindFrom(dir2, user, cpmName, extent, i)
    decreases |dir1| - i
  {
    if i < |dir1| {
      FindFromSame(dir1, dir2, user, cpmName, extent, i + 1);
    }
  }

  /**
   * A file reads the same from two directories in which it has the same
   * entries: the other entries do not matter.
   */
  lemma {:induction false} ReadExtentsSame(p: DiskParams, dir1: seq<DirEntry>, dir2: seq<DirEntry>, image: seq<u8>, user: u8, fileName: seq<char>, cpmName: seq<u8>, extent: nat)
    requires p.sectorsPerBlock > 0 && AllWellFormed(dir1) && AllWellFormed(dir2)
    requires SameFile(dir1, dir2, user, cpmName)
    ensures ReadExtents(p, dir1, image, user, fileName, cpmName, extent) == ReadExtents(p, dir2, image, user, fileName, cpmName, extent)
    decreases 256 - extent
  {
    FindFromSame(dir1, dir2, user, cpmName, extent, 0);
    var i := FindEntry(dir1, user, cpmName, extent);
    if i < |dir1| && extent < 255 {
      ReadExtentsSame(p, dir1, dir2, image, user, fileName, cpmName, extent + 1);
    }
  }

  /**
   * With the byte counter, a read from extent `count` on that does not
   * fail ends in whole, non-empty sectors when it starts at 0; a file is
   * reported missing when extent 0 is, and otherwise only when extent 255
   * exists or the counter has already wrapped.
   */
  lemma {:induction false} ReadExtentsAsWrittenOutcome(p: DiskParams, dir: seq<DirEntry>, image: seq<u8>, user: u8, fileName: seq<char>, cpmName: seq<u8>, count: nat)
    requires p.sectorsPerBlock > 0 && AllWellFormed(dir) && count <= 256
    ensures var r := ReadExtentsAsWritten(p, dir, image, user, fileName, cpmName, count);
      && (count == 0 && FindEntry(dir, user, cpmName, 0) == |dir| ==> r == Err(FileNotFound(fileName)))
      && (r == Err(FileNotFound(fileName)) ==>
           (count == 0 && FindEntry(dir, user, cpmName, 0) == |dir|) || count == 256 || FindEntry(dir, user, cpmName, 255) < |dir|)
      && (count == 0 && r.Ok? ==> |r.value| > 0)
    decreases 256 - count
  {
    var extent := LowByte(count);
    var i := FindEntry(dir, user, cpmName, extent);
    if i < |dir| && !(extent == 0 && count > 0) {
      var e := dir[i];
      if e.sectorCount > 0 && ExtentData(p, image, e, 0, e.sectorCount).Ok? && e.sectorCount as nat == p.sectorsPerExtend {
        ReadExtentsAsWrittenOutcome(p, dir, image, user, fileName, cpmName, count + 1);
      }
    }
  }

  /**
   * A read with the natural-number counter whose data is shorter than the
   * extents left before extent 255 would hold never reaches extent 255,
   * so the byte counter reads the same.
   */
  lemma {:induction false} ShortFileCountersAgree(p: DiskParams, dir: seq<DirEntry>, image: seq<u8>, user: u8, fileName: seq<char>, cpmName: seq<u8>, extent: nat, data: seq<u8>)
    requires p.sectorsPerBlock > 0 && AllWellFormed(dir) && extent <= 255
    requires ReadExtents(p, dir, image, user, fileName, cpmName, extent) == Ok(data)
    requires |data| <= Times(255 - extent, p.sectorsPerExtend * SECTOR_SIZE)
    ensures ReadExtentsAsWritten(p, dir, image, user, fileName, cpmName, extent) == Ok(data)
    decreases 256 - extent
  {
    var i := FindEntry(dir, user, cpmName, extent);
    if i < |dir| {
      var e := dir[i];
      var bytes := ExtentData(p, image, e, 0, e.sectorCount).value;
      assert |bytes| == e.sectorCount as nat * SECTOR_SIZE;
      if extent == 255 {
        assert false;
      }
      if e.sectorCount as nat == p.sectorsPerExtend {
        var rest := ReadExtents(p, dir, image, user, fileName, cpmName, extent + 1);
        assert data == bytes + rest.value;
        ShortFileCountersAgree(p, dir, image, user, fileName, cpmName, extent + 1, rest.value);
      }
    }
  }

  /**
   * A file reads the same from two directories in which it has the same
   * entries, with the byte counter too.
   */
  lemma {:induction false} ReadExtentsAsWrittenSame(p: DiskParams, dir1: seq<DirEntry>, dir2: seq<DirEntry>, image: seq<u8>, user: u8, fileName: seq<char>, cpmName: seq<u8>, count: nat)
    requires p.sectorsPerBlock > 0 && AllWellFormed(dir1) && AllWellFormed(dir2) && count <= 256
    requires SameFile(dir1, dir2, user, cpmName)
    ensures ReadExtentsAsWritten(p, dir1, image, user, fileName, cpmName, count) == ReadExtentsAsWritten(p, dir2, image, user, fileName, cpmName, count)
    decreases 256 - count
  {
    var extent := LowByte(count);
    FindFromSame(dir1, dir2, user, cpmName, extent, 0);
    var i := FindEntry(dir1, user, cpmName, extent);
    if i < |dir1| && count < 256 {
      ReadExtentsAsWrittenSame(p, dir1, dir2, image, user, fileName, cpmName, count + 1);
    }
  }

  // ----- Reading the files named on the command line -----

  /**
   * One file as the read command reads it: its name converted, then its
   * extents from extent 0 on, counted in an `unsigned char`.
   */
  function ReadFile(p: DiskParams, dir: seq<DirEntry>, image: seq<u8>, user: u8, fileName: seq<char>): (r: Result<seq<u8>>)
    requires p.sectorsPerBlock > 0 && AllWellFormed(dir) && NoNul(fileName)
    ensures ConvertFileName(fileName).None? ==> r == Err(InvalidFilename(fileName))
  {
    match ConvertFileName(fileName)
    case None => Err(InvalidFilename(fileName))
    case Some(cpmName) => ReadExtentsAsWritten(p, dir, image, user, fileName, cpmName, 0)
  }

  /** One file read with the corrected, natural-number extent counter. */
  function ReadFileCorrected(p: DiskParams, dir: seq<DirEntry>, image: seq<u8>, user: u8, fileName: seq<char>): (r: Result<seq<u8>>)
    requires p.sectorsPerBlock > 0 && AllWellFormed(dir) && NoNul(fileName)
    ensures ConvertFileName(fileName).None? ==> r == Err(InvalidFilename(fileName))
  {
    match ConvertFileName(fileName)
    case None => Err(InvalidFilename(fileName))
    case Some(cpmName) => ReadExtents(p, dir, image, user, fileName, cpmName, 0)
  }

  /**
   * A name the converter refuses is reported invalid; a valid one whose
   * extent 0 is missing is reported missing, and a valid one reported
   * missing has no extent 0 or has an extent 255; a file read is never
   * empty and is whole sectors; a file without an extent 255 reads as the
   * corrected read reads it.
   */
  lemma ReadFileOutcome(p: DiskParams, dir: seq<DirEntry>, image: seq<u8>, user: u8, fileName: seq<char>)
    requires p.sectorsPerBlock > 0 && AllWellFormed(dir) && NoNul(fileName)
    ensures var r := ReadFile(p, dir, image, user, fileName);
      && (ConvertFileName(fileName).None? ==> r == Err(InvalidFilename(fileName)))
      && (ConvertFileName(fileName).Some? ==>
           var cpmName := ConvertFileName(fileName).value;
           && (FindEntry(dir, user, cpmName, 0) == |dir| ==> r == Err(FileNotFound(fileName)))
           && (r == Err(FileNotFound(fileName)) ==> FindEntry(dir, user, cpmName, 0) == |dir| || FindEntry(dir, user, cpmName, 255) < |dir|)
           && (FindEntry(dir, user, cpmName, 255) == |dir| ==> r == ReadFileCorrected(p, dir, image, user, fileName)))
      && (r.Ok? ==> |r.value| > 0 && |r.value| % SECTOR_SIZE == 0)
  {
    if ConvertFileName(fileName).Some? {
      var cpmName := ConvertFileName(fileName).value;
      ReadExtentsAsWrittenOutcome(p, dir, image, user, fileName, cpmName, 0);
      if FindEntry(dir, user, cpmName, 255) == |dir| {
        CountersAgreeBelow255(p, dir, image, user, fileName, cpmName, 0);
      }
    }
  }

  /**
   * The corrected read reports a missing file exactly when extent 0 is
   * missing, and a file it reads is never empty and is whole sectors.
   */
  lemma ReadFileCorrectedOutcome(p: DiskParams, dir: seq<DirEntry>, image: seq<u8>, user: u8, fileName: seq<char>)
    requires p.sectorsPerBlock > 0 && AllWellFormed(dir) && NoNul(fileName)
    ensures var r := ReadFileCorrected(p, dir, image, user, fileName);
      && (ConvertFileName(fileName).Some? ==>
           (r == Err(FileNotFound(fileName)) <==> FindEntry(dir, user, ConvertFileName(fileName).value, 0) == |dir|))
      && (r.Ok? ==> |r.value| > 0 && |r.value| % SECTOR_SIZE == 0)
  {
    if ConvertFileName(fileName).Some? {
      ReadExtentsOutcome(p, dir, image, user, fileName, ConvertFileName(fileName).value, 0);
    }
  }

  /**
   * A file the corrected read gives, of no more bytes than 255 full
   * extents hold, is read alike by the command.
   */
  lemma ReadFileAgrees(p: DiskParams, dir: seq<DirEntry>, image: seq<u8>, user: u8, fileName: seq<char>, data: seq<u8>)
    requires p.sectorsPerBlock > 0 && AllWellFormed(dir) && NoNul(fileName)
    requires ReadFileCorrected(p, dir, image, user, fileName) == Ok(data)
    requires |data| <= Times(255, p.sectorsPerExtend * SECTOR_SIZE)
    ensures ReadFile(p, dir, image, user, fileName) == Ok(data)
  {
    var cpmName := ConvertFileName(fileName).value;
    ShortFileCountersAgree(p, dir, image, user, fileName, cpmName, 0, data);
  }

  /** One step of the byte-counter loop: a found extent, not a repeat of extent 0, whose blocks could be read. */
  lemma AsWrittenFound(p: DiskParams, dir: seq<DirEntry>, image: seq<u8>, user: u8, fileName: seq<char>, cpmName: seq<u8>, count: nat, bytes: seq<u8>)
    requires p.sectorsPerBlock > 0 && AllWellFormed(dir) && count < 256
    requires FindEntry(dir, user, cpmName, LowByte(count)) < |dir| && !(LowByte(count) == 0 && count > 0)
    requires var e := dir[FindEntry(dir, user, cpmName, LowByte(count))];
      e.sectorCount > 0 && ExtentData(p, image, e, 0, e.sectorCount) == Ok(bytes)
    ensures var e := dir[FindEntry(dir, user, cpmName, LowByte(count))];
      ReadExtentsAsWritten(p, dir, image, user, fileName, cpmName, count) ==
        if e.sectorCount as nat == p.sectorsPerExtend then Prepend(bytes, ReadExtentsAsWritten(p, dir, image, user, fileName, cpmName, count + 1))
        else if LowByte(count + 1) == 0 then Err(FileNotFound(fileName))
        else Ok(bytes)
  {
  }

  /**
   * The extent loop of the read command, for one file name, with its
   * `unsigned char` extent counter and the check that the output file is
   * opened only once.
   */
  method ReadOneFile(p: DiskParams, dir: seq<DirEntry>, image: seq<u8>, user: u8, fileName: seq<char>) returns (r: Result<seq<u8>>)
    requires p.sectorsPerBlock > 0 && AllWellFormed(dir) && NoNul(fileName)
    ensures r == ReadFile(p, dir, image, user, fileName)
  {
    var ok, cpmName := ConvertFileNameInPlace(fileName);
    if !ok {
      return Err(InvalidFilename(fileName));
    }
    var nExtend: nat := 0;
    var outFileOpen := false;
    var out: seq<u8> := [];
    var more := true;
    ghost var count: nat := 0;
    ghost var rest := ReadExtentsAsWritten(p, dir, image, user, fileName, cpmName, 0);
    PrependEmpty(rest);
    while more
      invariant count <= 256 && nExtend == LowByte(count) && (outFileOpen <==> count > 0)
      invariant ReadExtentsAsWritten(p, dir, image, user, fileName, cpmName, 0) == Prepend(out, rest)
      invariant more ==> rest == ReadExtentsAsWritten(p, dir, image, user, fileName, cpmName, count)
      invariant !more && nExtend > 0 ==> rest == Ok([])
      invariant !more && nExtend == 0 ==> rest == Err(FileNotFound(fileName))
      decreases more, 256 - count
    {
      var i := FindExtent(dir, user, cpmName, nExtend);
      if i == |dir| {
        more := false;
      } else {
        if nExtend == 0 && outFileOpen {
          return Err(Aborted);
        }
        outFileOpen := true;
        var e := dir[i];
        if e.sectorCount == 0 {
          return Err(Aborted);
        }
        var bytes := ReadExtentBlocks(p, image, e);
        if bytes.Err? {
          return Err(bytes.error);
        }
        AsWrittenFound(p, dir, image, user, fileName, cpmName, count, bytes.value);
        PrependTwice(out, bytes.value, ReadExtentsAsWritten(p, dir, image, user, fileName, cpmName, count + 1));
        PrependTwice(out, bytes.value, Ok([]));
        assert bytes.value + [] == bytes.value;
        out := out + bytes.value;
        nExtend := if nExtend == 255 then 0 else nExtend + 1;
        count := count + 1;
        if e.sectorCount as nat == p.sectorsPerExtend {
          rest := ReadExtentsAsWritten(p, dir, image, user, fileName, cpmName, count);
        } else {
          more := false;
          rest := if nExtend == 0 then Err(FileNotFound(fileName)) else Ok([]);
        }
      }
    }
    if nExtend == 0 {
      return Err(FileNotFound(fileName));
    }
    assert out + [] == out;
    return Ok(out);
  }

  /** What the read command leaves behind: the host files it saved, in order, and the error that stopped it. */
  datatype ReadOutcome = ReadOutcome(saved: seq<seq<u8>>, error: Option<ToolError>)

  predicate AllNoNul(names: seq<seq<char>>)
  {
    forall i :: 0 <= i < |names| ==> NoNul(names[i])
  }

  /** A run of reads that stops at the first one that fails. */
  function FirstFailure(results: seq<Result<seq<u8>>>): (r: ReadOutcome)
    ensures |r.saved| <= |results|
  {
    if results == [] then ReadOutcome([], None)
    else
      match results[0]
      case Err(x) => ReadOutcome([], Some(x))
      case Ok(data) =>
        var rest := FirstFailure(results[1..]);
        ReadOutcome([data] + rest.saved, rest.error)
  }

  /**
   * The saved files are the first results, in order; all are saved when
   * there is no error, and otherwise the error is the first failed result.
   */
  lemma {:induction false} FirstFailureMeaning(results: seq<Result<seq<u8>>>)
    ensures var r := FirstFailure(results);
      && (forall k :: 0 <= k < |r.saved| ==> results[k] == Ok(r.saved[k]))
      && (r.error.None? <==> |r.saved| == |results|)
      && (r.error.Some? ==> results[|r.saved|] == Err(r.error.value))
  {
    if results != [] && results[0].Ok? {
      FirstFailureMeaning(results[1..]);
    }
  }

  /** Every name read against the same directory. */
  function ReadAll(p: DiskParams, dir: seq<DirEntry>, image: seq<u8>, user: u8, names: seq<seq<char>>): (r: seq<Result<seq<u8>>>)
    requires p.sectorsPerBlock > 0 && AllWellFormed(dir) && AllNoNul(names)
    ensures |r| == |names| && forall k :: 0 <= k < |names| ==> r[k] == ReadFile(p, dir, image, user, names[k])
  {
    seq(|names|, k requires 0 <= k < |names| => ReadFile(p, dir, image, user, names[k]))
  }

  /** `cpmdisk read name...`: at least one name, a readable directory, then every file. */
  function ReadCommand(p: DiskParams, image: seq<u8>, user: u8, names: seq<seq<char>>): (r: ReadOutcome)
    requires p.sectorsPerBlock > 0 && AllNoNul(names)
    ensures names == [] ==> r == ReadOutcome([], Some(MissingFilename))
    ensures ReadDirectory(p, image).None? && names != [] ==> r == ReadOutcome([], Some(DirectoryUnreadable))
    ensures ReadDirectory(p, image).Some? && names != [] ==> r == FirstFailure(ReadAll(p, ReadDirectory(p, image).value, image, user, names))
  {
    if names == [] then ReadOutcome([], Some(MissingFilename))
    else
      match ReadDirectory(p, image)
      case None => ReadOutcome([], Some(DirectoryUnreadable))
      case Some(dir) => FirstFailure(ReadAll(p, dir, image, user, names))
  }

  /** The file-name loop: each name read in turn until one fails. */
  method ReadNames(p: DiskParams, dir: seq<DirEntry>, image: seq<u8>, user: u8, names: seq<seq<char>>) returns (r: ReadOutcome)
    requires p.sectorsPerBlock > 0 && AllWellFormed(dir) && AllNoNul(names)
    ensures r == FirstFailure(ReadAll(p, dir, image, user, names))
  {
    ghost var results := ReadAll(p, dir, image, user, names);
    var saved: seq<seq<u8>> := [];
    var i := 0;
    assert results[0..] == results;
    while i < |names|
      invariant i <= |names|
      invariant FirstFailure(results) == ReadOutcome(saved + FirstFailure(results[i..]).saved, FirstFailure(results[i..]).error)
    {
      var data := ReadOneFile(p, dir, image, user, names[i]);
      assert results[i..][0] == data && results[i..][1..] == results[i + 1..];
      if data.Err? {
        return ReadOutcome(saved, Some(data.error));
      }
      ghost var rest := FirstFailure(results[i + 1..]);
      assert saved + ([data.value] + rest.saved) == (saved + [data.value]) + rest.saved;
      saved := saved + [data.value];
      i := i + 1;
    }
    assert saved + [] == saved;
    return ReadOutcome(saved, None);
  }

  /** The read command: at least one name, the directory read once, then the names. */
  method DoRead(p: DiskParams, image: seq<u8>, user: u8, names: seq<seq<char>>) returns (r: ReadOutcome)
    requires p.sectorsPerBlock > 0 && AllNoNul(names)
    ensures r == ReadCommand(p, image, user, names)
  {
    if |names| == 0 {
      return ReadOutcome([], Some(MissingFilename));
    }
    var loaded := ReadDirectory(p, image);
    if loaded.None? {
      return ReadOutcome([], Some(DirectoryUnreadable));
    }
    r := ReadNames(p, loaded.value, image, user, names);
  }
}
