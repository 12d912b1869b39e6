/**
 * `cpmdisk write` followed by `cpmdisk read`, end to end: every file a
 * successful write command copies into the image reads back as its bytes
 * followed by `^Z` up to the end of its last sector, whatever files the
 * same command copies after it.
 */
module CpmRoundTrip {
  import opened Types
  import opened CpmDisk
  import opened CpmNames
  import opened CpmRead
  import opened CpmWrite
  import opened CpmAlloc
  import opened CpmWriteBack

  // ----- The counts the copy starts from -----

  /** `(size + k - 1) / k` units of `k` bytes hold `size` bytes, and one unit fewer does not. */
  lemma CeilingCount(size: nat, k: nat)
    requires 0 < k && 0 < size
    ensures var n := (size + k - 1) / k; 0 < n && Times(n - 1, k) < size <= Times(n, k)
  {
    var m := size + k - 1;
    var n := m / k;
    assert m == n * k + m % k;
    assert n * k > m - k >= 0;
    TimesIsMul(n, k);
    TimesIsMul(n - 1, k);
    assert (n - 1) * k == n * k - k;
  }

  lemma DivBelow(x: nat, k: nat)
    requires x < k
    ensures x / k == 0
  {
    var q := x / k;
    assert x == q * k + x % k;
    if q > 0 {
      MulLe(1, q, k);
    }
  }

  /**
   * A file the copy accepts (one to 256 extents) is not empty, its size
   * fits the `unsigned` counters with room for the rounding, and the
   * extent count is the fewest that hold it.
   */
  lemma CopyExtentCount(p: DiskParams, size: nat)
    requires Layout(p) && 0 < ExtentsFor(p, size) <= MAX_EXTENTS
    ensures 0 < size && size + p.extendSize < 0x1_0000_0000 && Wrap32(size) == size
    ensures var n := ExtentsFor(p, size); Times(n - 1, p.extendSize) < size <= Times(n, p.extendSize)
  {
    var n := ExtentsFor(p, size);
    if size == 0 {
      DivBelow(p.extendSize - 1, p.extendSize);
    }
    CeilingCount(size, p.extendSize);
    TimesMono(n, MAX_EXTENTS, p.extendSize);
    TimesIsMul(MAX_EXTENTS, p.extendSize);
  }

  /** The block count the copy starts from is the fewest blocks that hold the file. */
  lemma CopyBlockCount(p: DiskParams, size: u32)
    requires Layout(p) && 0 < size && size as int + p.extendSize < 0x1_0000_0000
    ensures var blocks := BlocksFor(p, size);
      0 < blocks < 0x1_0000_0000 && Times(blocks - 1, p.blockSize) < size as int <= Times(blocks, p.blockSize)
  {
    TimesMono(1, p.blocksPerExtend, p.blockSize);
    assert Times(1, p.blockSize) == p.blockSize;
    var sum := size + p.blockSize - 1;
    assert Wrap32(sum) == sum;
    var blocks := BlocksFor(p, size);
    assert blocks == sum / p.blockSize;
    CeilingCount(size, p.blockSize);
    QuotientBounds(sum, p.blockSize);
  }

  // ----- One file -----

  /**
   * A file copied without error onto a disk that had no file of its name
   * reads back from extent 0 on as its `size` bytes padded with `^Z`; the
   * host data held at least that many bytes.
   */
  lemma CopyFileReadsBack(p: DiskParams, d: Disk, user: u8, fileName: seq<char>, cpmName: seq<u8>, path: seq<char>, file: HostFile)
    requires Layout(p) && Shaped(p, d) && Allocated(p, d) && |cpmName| == FILENAME_LEN + EXTENSION_LEN && user != FORMAT_BYTE
    requires !HasFile(d.dir, user, cpmName)
    requires CopyFile(p, d, user, cpmName, path, file).error.None?
    ensures var r := CopyFile(p, d, user, cpmName, path, file).disk;
      && file.size <= |file.data|
      && ReadExtents(p, r.dir, r.image, user, fileName, cpmName, 0) == Ok(Padded(file.data[..file.size]))
  {
    var n, bytes, blocks := CopyArguments(p, file.size);
    var fin := WriteExtents(p, d, user, cpmName, path, file.data, 0, n, 0, bytes, blocks);
    assert CopyFile(p, d, user, cpmName, path, file).disk == fin.disk;
    ExtentLoopReadsBack(p, d, user, fileName, cpmName, path, file.data, n, bytes, blocks, fin);
    assert file.data[0..0 + bytes] == file.data[..file.size];
  }

  /** The extent loop of a copy, run from extent 0 without error, leaves the file reading back from extent 0. */
  lemma ExtentLoopReadsBack(p: DiskParams, d: Disk, user: u8, fileName: seq<char>, cpmName: seq<u8>, path: seq<char>, data: seq<u8>,
                            n: nat, bytes: u32, blocks: u32, fin: Progress)
    requires Layout(p) && Shaped(p, d) && Allocated(p, d) && |cpmName| == FILENAME_LEN + EXTENSION_LEN && user != FORMAT_BYTE
    requires !HasFile(d.dir, user, cpmName) && 0 < n <= MAX_EXTENTS && bytes as int + 127 < 0x1_0000_0000
    requires Times(n - 1, p.extendSize) < bytes as int <= Times(n, p.extendSize)
    requires 0 < blocks && Times(blocks - 1, p.blockSize) < bytes as int <= Times(blocks, p.blockSize)
    requires fin == WriteExtents(p, d, user, cpmName, path, data, 0, n, 0, bytes, blocks) && fin.error.None?
    ensures 0 + bytes as int <= |data|
    ensures ReadExtents(p, fin.disk.dir, fin.disk.image, user, fileName, cpmName, 0) == Ok(Padded(data[0..0 + bytes]))
  {
    NoEntryNoExtent(d.dir, user, cpmName);
    var e0 := FirstExtentBound(p, n, bytes);
    assert ExtentsEndIn(p, d, user, cpmName, path, data, e0, n, 0, bytes, blocks, fin);
    WriteExtentsReadsBack(p, d, user, fileName, cpmName, path, data, e0, n, 0, bytes, blocks, fin);
    assert TailReadsBack(p, fin.disk, user, fileName, cpmName, 0, data, 0, bytes);
  }

  /**
   * The counters the copy of an accepted file starts from: the extent
   * count, the size in `unsigned` (which keeps its value) and the block
   * count, each the fewest that hold the file.
   */
  lemma CopyArguments(p: DiskParams, size: nat) returns (n: nat, bytes: u32, blocks: u32)
    requires Layout(p) && 0 < ExtentsFor(p, size) <= MAX_EXTENTS
    ensures n == ExtentsFor(p, size) && bytes == Wrap32(size) && blocks == BlocksFor(p, bytes)
    ensures 0 < n <= MAX_EXTENTS && bytes == size && bytes as int + 127 < 0x1_0000_0000
    ensures Times(n - 1, p.extendSize) < bytes as int <= Times(n, p.extendSize)
    ensures 0 < blocks && Times(blocks - 1, p.blockSize) < bytes as int <= Times(blocks, p.blockSize)
  {
    n := ExtentsFor(p, size);
    CopyExtentCount(p, size);
    bytes := size;
    CopyBlockCount(p, bytes);
    blocks := BlocksFor(p, bytes);
  }

  /** The extent bound of the loop's first step, stated at the loop's starting extent 0. */
  lemma FirstExtentBound(p: DiskParams, n: nat, bytes: u32) returns (e0: nat)
    requires 0 < n && Times(n - 1, p.extendSize) < bytes as int <= Times(n, p.extendSize)
    ensures e0 == 0 && e0 < n
    ensures Times(n - e0 - 1, p.extendSize) < bytes as int <= Times(n - e0, p.extendSize)
  {
    e0 := 0;
  }

  /** A file with no entry: no entry of the directory is one of its. */
  lemma NoEntryNoExtent(dir: seq<DirEntry>, user: u8, cpmName: seq<u8>)
    requires !HasFile(dir, user, cpmName)
    ensures forall x :: 0 <= x < |dir| ==> !OwnedBy(dir[x], user, cpmName)
  {
  }

  /**
   * The file `name` of `user`, stored under `cpmName`, reads back from
   * the disk as `bytes`, and every entry it has names only data blocks.
   */
  ghost predicate ReadsBackAs(p: DiskParams, d: Disk, user: u8, name: seq<char>, cpmName: seq<u8>, bytes: seq<u8>)
    requires Sized(p) && AllWellFormed(d.dir) && NoNul(name)
  {
    && ConvertFileName(name) == Some(cpmName)
    && HasFile(d.dir, user, cpmName)
    && (forall x :: 0 <= x < |d.dir| && OwnedBy(d.dir[x], user, cpmName) ==> DataSlots(p, d.dir[x]))
    && ReadFileCorrected(p, d.dir, d.image, user, name) == Ok(bytes)
  }

  /** What reading back a host file copied whole gives: its bytes, then `^Z` up to a whole sector. */
  function PaddedContents(f: HostFile): seq<u8>
    requires f.size <= |f.data|
  {
    Padded(f.data[..f.size])
  }

  /** A file named on the command line that was written without error was copied under its converted name. */
  lemma WriteFileCopied(p: DiskParams, d: Disk, user: u8, path: seq<char>, host: map<seq<char>, HostFile>) returns (cpmName: seq<u8>)
    requires Sized(p) && Shaped(p, d) && NoNul(path)
    requires WriteFile(p, d, user, path, host).error.None?
    ensures ConvertFileName(BaseName(path)) == Some(cpmName) && |cpmName| == FILENAME_LEN + EXTENSION_LEN
    ensures !HasFile(d.dir, user, cpmName) && path in host
    ensures WriteFile(p, d, user, path, host) == CopyFile(p, d, user, cpmName, path, host[path])
  {
    cpmName := ConvertFileName(BaseName(path)).value;
  }

  /**
   * One file named on the command line, written without error: the host
   * file exists, and its last path component read back from the disk
   * gives its bytes padded with `^Z`. Every entry of the file names only
   * data blocks.
   */
  lemma WriteFileReadsBack(p: DiskParams, d: Disk, user: u8, path: seq<char>, host: map<seq<char>, HostFile>) returns (cpmName: seq<u8>)
    requires Layout(p) && Shaped(p, d) && Allocated(p, d) && NoNul(path) && user != FORMAT_BYTE
    requires WriteFile(p, d, user, path, host).error.None?
    ensures path in host && host[path].size <= |host[path].data| && NoNul(BaseName(path))
    ensures ReadsBackAs(p, WriteFile(p, d, user, path, host).disk, user, BaseName(path), cpmName, PaddedContents(host[path]))
  {
    cpmName := WriteFileCopied(p, d, user, path, host);
    CopiedReadsBack(p, d, user, BaseName(path), cpmName, path, host[path]);
  }

  /**
   * A host file copied without error under the converted form of `name`
   * onto a disk that had no file of that name reads back as its bytes
   * padded with `^Z`, and names only data blocks.
   */
  lemma CopiedReadsBack(p: DiskParams, d: Disk, user: u8, name: seq<char>, cpmName: seq<u8>, path: seq<char>, file: HostFile)
    requires Layout(p) && Shaped(p, d) && Allocated(p, d) && NoNul(name) && user != FORMAT_BYTE
    requires ConvertFileName(name) == Some(cpmName) && !HasFile(d.dir, user, cpmName)
    requires CopyFile(p, d, user, cpmName, path, file).error.None?
    ensures file.size <= |file.data|
    ensures ReadsBackAs(p, CopyFile(p, d, user, cpmName, path, file).disk, user, name, cpmName, PaddedContents(file))
  {
    CopyFileReadsBack(p, d, user, name, cpmName, path, file);
    CopyFileFrame(p, d, user, cpmName, path, file);
    var r := CopyFile(p, d, user, cpmName, path, file).disk;
    ReadFileIs(p, r.dir, r.image, user, name, cpmName);
    var first := FindEntry(r.dir, user, cpmName, 0);
    assert first < |r.dir| && OwnedBy(r.dir[first], user, cpmName);
    forall x | 0 <= x < |r.dir| && OwnedBy(r.dir[x], user, cpmName)
      ensures DataSlots(p, r.dir[x])
    {
      assert !OwnedBy(d.dir[x], user, cpmName);
    }
  }

  // ----- Blocks that keep their bytes -----

  /** Every block a slot of `e` names (slot 0 aside) has in `b` the bytes it has in `a`. */
  predicate SlotsKept(p: DiskParams, e: DirEntry, a: seq<u8>, b: seq<u8>)
    requires WellFormed(e)
  {
    forall j :: 0 <= j < SlotCount(p) && Slot(p, e, j) != 0 ==> SameBlock(p, Slot(p, e, j), a, b)
  }

  /** An extent whose blocks keep their bytes reads the same from both images. */
  lemma {:induction false} ExtentDataAgrees(p: DiskParams, a: seq<u8>, b: seq<u8>, e: DirEntry, j: nat, sectorsLeft: nat)
    requires Sized(p) && WellFormed(e) && |a| <= |b| && SlotsKept(p, e, a, b)
    requires ExtentData(p, a, e, j, sectorsLeft).Ok?
    ensures ExtentData(p, b, e, j, sectorsLeft) == ExtentData(p, a, e, j, sectorsLeft)
    decreases sectorsLeft
  {
    if sectorsLeft > 0 {
      var block := Slot(p, e, j);
      var n := if sectorsLeft >= p.sectorsPerBlock then p.sectorsPerBlock else sectorsLeft;
      var offset := BlockOffset(p, block);
      assert SameBlock(p, block, a, b);
      assert b[offset..offset + n * SECTOR_SIZE] == a[offset..offset + n * SECTOR_SIZE];
      ExtentDataAgrees(p, a, b, e, j + 1, sectorsLeft - n);
    }
  }

  /** A file whose every entry keeps its blocks' bytes reads the same from both images. */
  lemma {:induction false} ReadExtentsAgree(p: DiskParams, dir: seq<DirEntry>, a: seq<u8>, b: seq<u8>, user: u8, fileName: seq<char>, cpmName: seq<u8>, extent: nat)
    requires Sized(p) && AllWellFormed(dir) && |a| <= |b|
    requires forall x :: 0 <= x < |dir| && OwnedBy(dir[x], user, cpmName) ==> SlotsKept(p, dir[x], a, b)
    requires ReadExtents(p, dir, a, user, fileName, cpmName, extent).Ok?
    ensures ReadExtents(p, dir, b, user, fileName, cpmName, extent) == ReadExtents(p, dir, a, user, fileName, cpmName, extent)
    decreases 256 - extent
  {
    var i := FindEntry(dir, user, cpmName, extent);
    if i < |dir| {
      var e := dir[i];
      ExtentDataAgrees(p, a, b, e, 0, e.sectorCount as nat);
      if e.sectorCount as nat == p.sectorsPerExtend {
        ReadExtentsAgree(p, dir, a, b, user, fileName, cpmName, extent + 1);
      }
    }
  }

  /** An entry in use whose blocks are all marked keeps them through images that keep the marked blocks. */
  lemma MarkedSlotsKept(p: DiskParams, e: DirEntry, keep: seq<bool>, a: seq<u8>, b: seq<u8>)
    requires WellFormed(e) && !IsFree(e) && Marked(p, e, keep) && KeepsBlocks(p, keep, a, b)
    ensures SlotsKept(p, e, a, b)
  {
  }

  /** Writing the directory back leaves every data block as it was. */
  lemma DirectoryKeepsData(p: DiskParams, image: seq<u8>, dir: seq<DirEntry>, e: DirEntry)
    requires Valid(p) && AllWellFormed(dir) && |dir| == p.directoryEntries && WellFormed(e) && DataSlots(p, e)
    ensures |image| <= |WriteDirectory(p, image, dir)|
    ensures SlotsKept(p, e, image, WriteDirectory(p, image, dir))
  {
    var out := WriteDirectory(p, image, dir);
    var end := p.reservedBytes + |EncodeDirectory(dir)|;
    forall j | 0 <= j < SlotCount(p) && Slot(p, e, j) != 0
      ensures SameBlock(p, Slot(p, e, j), image, out)
    {
      var c := Slot(p, e, j);
      BlockOffsetFormula(p, c);
      MulLe(p.directoryBlocks, c, p.blockSize);
      assert end <= BlockOffset(p, c);
    }
  }

  // ----- The files of one command -----

  /**
   * The files from `i` on written without error: the file named `k`-th
   * reads back from the last disk as its bytes padded with `^Z`.
   */
  lemma {:induction false} WriteEachReadsBack(p: DiskParams, d: Disk, user: u8, paths: seq<seq<char>>, host: map<seq<char>, HostFile>, i: nat, k: nat)
    returns (cpmName: seq<u8>)
    requires Layout(p) && Shaped(p, d) && Allocated(p, d) && AllNoNul(paths) && i <= k < |paths| && user != FORMAT_BYTE
    requires WriteEach(p, d, user, paths, host, i).error.None?
    ensures paths[k] in host && host[paths[k]].size <= |host[paths[k]].data| && NoNul(BaseName(paths[k]))
    ensures ReadsBackAs(p, WriteEach(p, d, user, paths, host, i).disk, user, BaseName(paths[k]), cpmName, PaddedContents(host[paths[k]]))
    decreases k - i, 1
  {
    if i == k {
      cpmName := WrittenNowReadsBack(p, d, user, paths, host, k);
    } else {
      cpmName := EarlierStepReadsBack(p, d, user, paths, host, i, k);
    }
  }

  /** A step of the loop before step `k` passes the claim on to the steps after it. */
  lemma {:induction false} EarlierStepReadsBack(p: DiskParams, d: Disk, user: u8, paths: seq<seq<char>>, host: map<seq<char>, HostFile>, i: nat, k: nat)
    returns (cpmName: seq<u8>)
    requires Layout(p) && Shaped(p, d) && Allocated(p, d) && AllNoNul(paths) && i < k < |paths| && user != FORMAT_BYTE
    requires WriteEach(p, d, user, paths, host, i).error.None?
    ensures paths[k] in host && host[paths[k]].size <= |host[paths[k]].data| && NoNul(BaseName(paths[k]))
    ensures ReadsBackAs(p, WriteEach(p, d, user, paths, host, i).disk, user, BaseName(paths[k]), cpmName, PaddedContents(host[paths[k]]))
    decreases k - i, 0
  {
    var i1 := i + 1;
    assert i1 <= k;
    EachGoesOn(p, d, user, paths, host, i);
    var next := NextFile(p, d, user, paths, host, i);
    cpmName := WriteEachReadsBack(p, next, user, paths, host, i1, k);
    var fin := WriteEach(p, next, user, paths, host, i1).disk;
    assert WriteEach(p, d, user, paths, host, i).disk == fin;
    assert ReadsBackAs(p, fin, user, BaseName(paths[k]), cpmName, PaddedContents(host[paths[k]]));
  }

  /** The file written by step `k` of the loop survives the steps after it. */
  lemma WrittenNowReadsBack(p: DiskParams, d: Disk, user: u8, paths: seq<seq<char>>, host: map<seq<char>, HostFile>, k: nat)
    returns (cpmName: seq<u8>)
    requires Layout(p) && Shaped(p, d) && Allocated(p, d) && AllNoNul(paths) && k < |paths| && user != FORMAT_BYTE
    requires WriteEach(p, d, user, paths, host, k).error.None?
    ensures paths[k] in host && host[paths[k]].size <= |host[paths[k]].data| && NoNul(BaseName(paths[k]))
    ensures ReadsBackAs(p, WriteEach(p, d, user, paths, host, k).disk, user, BaseName(paths[k]), cpmName, PaddedContents(host[paths[k]]))
  {
    EachGoesOn(p, d, user, paths, host, k);
    var next := NextFile(p, d, user, paths, host, k);
    cpmName := WriteFileReadsBack(p, d, user, paths[k], host);
    FileSurvives(p, next, user, paths, host, k + 1, BaseName(paths[k]), cpmName, PaddedContents(host[paths[k]]));
  }

  /** The file loop ends without error only when each file it reaches is written without error. */
  lemma EachGoesOn(p: DiskParams, d: Disk, user: u8, paths: seq<seq<char>>, host: map<seq<char>, HostFile>, i: nat)
    requires Sized(p) && Shaped(p, d) && AllNoNul(paths) && i < |paths|
    requires WriteEach(p, d, user, paths, host, i).error.None?
    ensures WriteFile(p, d, user, paths[i], host).error.None?
  {
  }

  /**
   * A file of a user other than the free mark, whose entries name only
   * data blocks, reads the same after the files from `i` on.
   */
  lemma FileSurvives(p: DiskParams, d: Disk, user: u8, paths: seq<seq<char>>, host: map<seq<char>, HostFile>, i: nat,
                     name: seq<char>, cpmName: seq<u8>, bytes: seq<u8>)
    requires Layout(p) && Shaped(p, d) && Allocated(p, d) && AllNoNul(paths) && i <= |paths| && user != FORMAT_BYTE && NoNul(name)
    requires ReadsBackAs(p, d, user, name, cpmName, bytes)
    ensures ReadsBackAs(p, WriteEach(p, d, user, paths, host, i).disk, user, name, cpmName, bytes)
  {
    var r := WriteEach(p, d, user, paths, host, i).disk;
    WriteEachKeepsFile(p, d, user, paths, host, i, user, cpmName);
    WriteEachKeeps(p, d, user, paths, host, i);
    forall x | 0 <= x < |d.dir| && OwnedBy(d.dir[x], user, cpmName)
      ensures SlotsKept(p, d.dir[x], d.image, r.image)
    {
      assert Marked(p, d.dir[x], d.used);
      MarkedSlotsKept(p, d.dir[x], d.used, d.image, r.image);
    }
    ReadFileIs(p, d.dir, d.image, user, name, cpmName);
    ReadExtentsAgree(p, d.dir, d.image, r.image, user, name, cpmName, 0);
    ReadExtentsSame(p, d.dir, r.dir, r.image, user, name, cpmName, 0);
    ReadFileIs(p, r.dir, r.image, user, name, cpmName);
    var y :| 0 <= y < |d.dir| && OwnedBy(d.dir[y], user, cpmName);
    assert OwnedBy(r.dir[y], user, cpmName);
    assert HasFile(r.dir, user, cpmName);
    assert forall x :: 0 <= x < |r.dir| && OwnedBy(r.dir[x], user, cpmName) ==> DataSlots(p, r.dir[x]);
    assert ReadFileCorrected(p, r.dir, r.image, user, name) == Ok(bytes);
  }

  /** A name the converter accepts is read from extent 0 on. */
  lemma ReadFileIs(p: DiskParams, dir: seq<DirEntry>, image: seq<u8>, user: u8, name: seq<char>, cpmName: seq<u8>)
    requires p.sectorsPerBlock > 0 && AllWellFormed(dir) && NoNul(name) && ConvertFileName(name) == Some(cpmName)
    ensures ReadFileCorrected(p, dir, image, user, name) == ReadExtents(p, dir, image, user, name, cpmName, 0)
  {
  }

  /** A write command that ends without error wrote every file onto the disk it read, then the directory. */
  lemma WriteCommandParts(p: DiskParams, image: seq<u8>, user: u8, paths: seq<seq<char>>, host: map<seq<char>, HostFile>)
    returns (d: Disk)
    requires Layout(p) && AllNoNul(paths)
    requires WriteCommand(p, image, user, paths, host).error.None?
    ensures paths != []
    ensures Shaped(p, d) && Allocated(p, d) && |d.dir| == p.directoryEntries
    ensures WriteEach(p, d, user, paths, host, 0).error.None?
    ensures var w := WriteEach(p, d, user, paths, host, 0).disk;
      WriteCommand(p, image, user, paths, host).image == WriteDirectory(p, w.image, w.dir)
  {
    var dir := ReadDirectory(p, image).value;
    d := Disk(dir, BlockMap(p, dir).value, image);
    BlockMapAllocated(p, dir, image);
  }

  /**
   * The `k`-th file of a file loop that ended without error reads back
   * with the corrected extent counter, once the directory is written, as
   * its bytes padded with `^Z`, however many extents it has.
   */
  lemma WrittenFileReads(p: DiskParams, d: Disk, user: u8, paths: seq<seq<char>>, host: map<seq<char>, HostFile>, k: nat, out: seq<u8>)
    requires Layout(p) && Valid(p) && Shaped(p, d) && Allocated(p, d) && |d.dir| == p.directoryEntries
    requires AllNoNul(paths) && k < |paths| && user != FORMAT_BYTE
    requires WriteEach(p, d, user, paths, host, 0).error.None?
    requires var w := WriteEach(p, d, user, paths, host, 0).disk; out == WriteDirectory(p, w.image, w.dir)
    ensures paths[k] in host && host[paths[k]].size <= |host[paths[k]].data| && NoNul(BaseName(paths[k]))
    ensures ReadFileCorrected(p, WriteEach(p, d, user, paths, host, 0).disk.dir, out, user, BaseName(paths[k])) == Ok(PaddedContents(host[paths[k]]))
  {
    var w := WriteEach(p, d, user, paths, host, 0).disk;
    var name := BaseName(paths[k]);
    var cpmName := WriteEachReadsBack(p, d, user, paths, host, 0, k);
    assert Shaped(p, w);
    forall x | 0 <= x < |w.dir| && OwnedBy(w.dir[x], user, cpmName)
      ensures WellFormed(w.dir[x]) && SlotsKept(p, w.dir[x], w.image, out)
    {
      DirectoryKeepsData(p, w.image, w.dir, w.dir[x]);
    }
    assert |w.image| <= |out|;
    ReadFileIs(p, w.dir, w.image, user, name, cpmName);
    ReadExtentsAgree(p, w.dir, w.image, out, user, name, cpmName, 0);
    ReadFileIs(p, w.dir, out, user, name, cpmName);
  }

  /**
   * The `k`-th file of a file loop that ended without error, if it holds
   * no more than 255 extents' worth of bytes, reads back with the byte
   * counter too.
   */
  lemma ShortWrittenFileReads(p: DiskParams, d: Disk, user: u8, paths: seq<seq<char>>, host: map<seq<char>, HostFile>, k: nat, out: seq<u8>)
    requires Layout(p) && Valid(p) && Shaped(p, d) && Allocated(p, d) && |d.dir| == p.directoryEntries
    requires AllNoNul(paths) && k < |paths| && user != FORMAT_BYTE
    requires WriteEach(p, d, user, paths, host, 0).error.None?
    requires var w := WriteEach(p, d, user, paths, host, 0).disk; out == WriteDirectory(p, w.image, w.dir)
    requires paths[k] in host ==> host[paths[k]].size <= Times(255, p.extendSize)
    ensures paths[k] in host && host[paths[k]].size <= |host[paths[k]].data| && NoNul(BaseName(paths[k]))
    ensures ReadFile(p, WriteEach(p, d, user, paths, host, 0).disk.dir, out, user, BaseName(paths[k])) == Ok(PaddedContents(host[paths[k]]))
  {
    WrittenFileReads(p, d, user, paths, host, k, out);
    var f := host[paths[k]];
    PaddedWithinExtents(p, f.data[..f.size]);
    ReadFileAgrees(p, WriteEach(p, d, user, paths, host, 0).disk.dir, out, user, BaseName(paths[k]), PaddedContents(f));
  }

  /**
   * `cpmdisk write` without error, then `cpmdisk read` of the last path
   * components of the files it was given, in the same order: every file
   * of at most 255 extents' worth of bytes is saved, as its bytes padded
   * with `^Z` to a whole sector. (A longer file, which the write accepts
   * up to 256 extents, defeats the read's byte-wide extent counter.)
   */
  lemma WriteThenRead(p: DiskParams, image: seq<u8>, user: u8, paths: seq<seq<char>>, host: map<seq<char>, HostFile>, names: seq<seq<char>>)
    requires Consistent(p) && AllNoNul(paths) && user != FORMAT_BYTE
    requires WriteCommand(p, image, user, paths, host).error.None?
    requires forall k :: 0 <= k < |paths| && paths[k] in host ==> host[paths[k]].size <= Times(255, p.extendSize)
    requires |names| == |paths| && forall k :: 0 <= k < |paths| ==> names[k] == BaseName(paths[k])
    ensures AllNoNul(names)
    ensures forall k :: 0 <= k < |paths| ==> paths[k] in host && host[paths[k]].size <= |host[paths[k]].data|
    ensures var r := ReadCommand(p, WriteCommand(p, image, user, paths, host).image, user, names);
      && r.error.None? && |r.saved| == |paths|
      && forall k :: 0 <= k < |paths| ==> r.saved[k] == Padded(host[paths[k]].data[..host[paths[k]].size])
  {
    ConsistentLayout(p);
    var d := WriteCommandParts(p, image, user, paths, host);
    var w := WriteEach(p, d, user, paths, host, 0).disk;
    var out := WriteCommand(p, image, user, paths, host).image;
    DirectoryWriteRead(p, w.image, w.dir);
    forall k | 0 <= k < |paths|
      ensures paths[k] in host && host[paths[k]].size <= |host[paths[k]].data| && NoNul(names[k])
      ensures ReadFile(p, w.dir, out, user, names[k]) == Ok(PaddedContents(host[paths[k]]))
    {
      ShortWrittenFileReads(p, d, user, paths, host, k, out);
    }
    var expected := ContentsOf(paths, host);
    AllSaved(p, w.dir, out, user, names, expected);
    assert ReadCommand(p, out, user, names) == ReadOutcome(expected, None);
  }

  /** Bytes that 255 extents hold still fit them once padded to a whole sector. */
  lemma PaddedWithinExtents(p: DiskParams, bytes: seq<u8>)
    requires Layout(p) && |bytes| <= Times(255, p.extendSize)
    ensures |Padded(bytes)| <= Times(255, p.sectorsPerExtend * SECTOR_SIZE)
  {
    TimesSectors(255, p.sectorsPerExtend);
    assert p.sectorsPerExtend * SECTOR_SIZE == 128 * p.sectorsPerExtend;
    var m := Times(255, p.sectorsPerExtend);
    var r := Padded(bytes);
    var q := |r| / 128;
    assert |r| == 128 * q;
    assert 128 * q < 128 * m + 128;
  }

  /** What `cpmdisk read` saves for each host file copied whole. */
  function ContentsOf(paths: seq<seq<char>>, host: map<seq<char>, HostFile>): (r: seq<seq<u8>>)
    requires forall k :: 0 <= k < |paths| ==> paths[k] in host && host[paths[k]].size <= |host[paths[k]].data|
    ensures |r| == |paths| && forall k :: 0 <= k < |paths| ==> r[k] == Padded(host[paths[k]].data[..host[paths[k]].size])
  {
    seq(|paths|, k requires 0 <= k < |paths| => PaddedContents(host[paths[k]]))
  }

  /** Names that each read without error: the read loop saves them all, in order, and stops on none. */
  lemma AllSaved(p: DiskParams, dir: seq<DirEntry>, image: seq<u8>, user: u8, names: seq<seq<char>>, expected: seq<seq<u8>>)
    requires p.sectorsPerBlock > 0 && AllWellFormed(dir) && AllNoNul(names) && |expected| == |names|
    requires forall k :: 0 <= k < |names| ==> ReadFile(p, dir, image, user, names[k]) == Ok(expected[k])
    ensures FirstFailure(ReadAll(p, dir, image, user, names)) == ReadOutcome(expected, None)
  {
    var results := ReadAll(p, dir, image, user, names);
    var r := FirstFailure(results);
    FirstFailureMeaning(results);
    if r.error.Some? {
      assert false;
    }
    assert r.saved == expected;
  }
}
