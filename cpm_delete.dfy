/**
 * `cpmdisk delete`: every directory entry of each named file is marked
 * free; the directory goes back to the image only when every name was
 * found.
 */
module CpmDelete {
  import opened Types
  import opened CpmDisk
  import opened CpmNames
  import opened CpmRead

  /** An entry after deleting the file `cpmName` of `user`. */
  function Freed(e: DirEntry, user: u8, cpmName: seq<u8>): DirEntry
  {
    if OwnedBy(e, user, cpmName) then e.(user := FORMAT_BYTE) else e
  }

  function FreeEntries(dir: seq<DirEntry>, user: u8, cpmName: seq<u8>): (r: seq<DirEntry>)
    ensures |r| == |dir|
    ensures AllWellFormed(dir) ==> AllWellFormed(r)
  {
    seq(|dir|, i requires 0 <= i < |dir| => Freed(dir[i], user, cpmName))
  }

  /** The names from `i` on, deleted one after the other; an invalid or missing name stops it. */
  function DeleteEach(dir: seq<DirEntry>, user: u8, names: seq<seq<char>>, i: nat): (r: Result<seq<DirEntry>>)
    requires AllNoNul(names) && i <= |names|
    ensures r.Ok? ==> |r.value| == |dir| && (AllWellFormed(dir) ==> AllWellFormed(r.value))
    decreases |names| - i
  {
    if i == |names| then Ok(dir)
    else
      match ConvertFileName(names[i])
      case None => Err(InvalidFilename(names[i]))
      case Some(cpmName) =>
        if !HasFile(dir, user, cpmName) then Err(FileNotFound(names[i]))
        else DeleteEach(FreeEntries(dir, user, cpmName), user, names, i + 1)
  }

  /** `cpmdisk delete name...`: the image changes only when every name was deleted. */
  function DeleteCommand(p: DiskParams, image: seq<u8>, user: u8, names: seq<seq<char>>): (r: ImageOutcome)
    requires AllNoNul(names)
    ensures r.error.Some? ==> r.image == image
  {
    if names == [] then ImageOutcome(image, Some(MissingFilename))
    else
      match ReadDirectory(p, image)
      case None => ImageOutcome(image, Some(DirectoryUnreadable))
      case Some(dir) =>
        match DeleteEach(dir, user, names, 0)
        case Err(x) => ImageOutcome(image, Some(x))
        case Ok(newDir) => ImageOutcome(WriteDirectory(p, image, newDir), None)
  }

  // ----- The loops -----

  /** The entry loop for one name, marking entries free in the directory buffer. */
  method MarkFree(directory: array<DirEntry>, user: u8, cpmName: seq<u8>) returns (found: bool)
    modifies directory
    ensures directory[..] == FreeEntries(old(directory[..]), user, cpmName)
    ensures found <==> HasFile(old(directory[..]), user, cpmName)
  {
    found := false;
    var n := 0;
    while n < directory.Length
      invariant 0 <= n <= directory.Length
      invariant forall i :: 0 <= i < n ==> directory[i] == Freed(old(directory[i]), user, cpmName)
      invariant forall i :: n <= i < directory.Length ==> directory[i] == old(directory[i])
      invariant found <==> exists i :: 0 <= i < n && OwnedBy(old(directory[i]), user, cpmName)
    {
      if directory[n].user == user && directory[n].name == cpmName {
        directory[n] := directory[n].(user := FORMAT_BYTE);
        found := true;
      }
      n := n + 1;
    }
    assert directory[..] == FreeEntries(old(directory[..]), user, cpmName);
  }

  /** The delete command with the directory held in an array that is updated in place. */
  method DoDelete(p: DiskParams, image: seq<u8>, user: u8, names: seq<seq<char>>) returns (r: ImageOutcome)
    requires AllNoNul(names)
    ensures r == DeleteCommand(p, image, user, names)
  {
    if |names| == 0 {
      return ImageOutcome(image, Some(MissingFilename));
    }
    var loaded := ReadDirectory(p, image);
    if loaded.None? {
      return ImageOutcome(image, Some(DirectoryUnreadable));
    }
    var dir := loaded.value;
    var directory := new DirEntry[|dir|](i requires 0 <= i < |dir| => dir[i]);
    assert directory[..] == dir;
    var k := 0;
    while k < |names|
      invariant k <= |names|
      invariant AllWellFormed(directory[..])
      invariant DeleteEach(dir, user, names, 0) == DeleteEach(directory[..], user, names, k)
    {
      var ok, cpmName := ConvertFileNameInPlace(names[k]);
      if !ok {
        return ImageOutcome(image, Some(InvalidFilename(names[k])));
      }
      var found := MarkFree(directory, user, cpmName);
      if !found {
        return ImageOutcome(image, Some(FileNotFound(names[k])));
      }
      k := k + 1;
    }
    return ImageOutcome(WriteDirectory(p, image, directory[..]), None);
  }

  // ----- What deleting does -----

  /** After freeing its entries the file is gone, provided the user number is not the free mark. */
  lemma FreedFileGone(dir: seq<DirEntry>, user: u8, cpmName: seq<u8>)
    requires user != FORMAT_BYTE
    ensures !HasFile(FreeEntries(dir, user, cpmName), user, cpmName)
  {
  }

  /** Freeing one file keeps every entry of every other file of the user. */
  lemma FreeingKeepsOthers(dir: seq<DirEntry>, user: u8, cpmName: seq<u8>, other: seq<u8>)
    requires user != FORMAT_BYTE && other != cpmName
    ensures SameFile(dir, FreeEntries(dir, user, cpmName), user, other)
    ensures HasFile(FreeEntries(dir, user, cpmName), user, other) <==> HasFile(dir, user, other)
  {
    var r := FreeEntries(dir, user, cpmName);
    if HasFile(dir, user, other) {
      var i :| 0 <= i < |dir| && OwnedBy(dir[i], user, other);
      assert OwnedBy(r[i], user, other);
    }
  }

  /** Deleting only ever frees entries: no entry comes to belong to a file it did not belong to. */
  lemma {:induction false} DeleteEachOnlyFrees(dir: seq<DirEntry>, user: u8, names: seq<seq<char>>, i: nat, cpmName: seq<u8>)
    requires AllNoNul(names) && i <= |names|
    requires DeleteEach(dir, user, names, i).Ok?
    ensures forall j :: 0 <= j < |dir| && OwnedBy(DeleteEach(dir, user, names, i).value[j], user, cpmName) ==>
      OwnedBy(dir[j], user, cpmName)
    decreases |names| - i
  {
    if i < |names| {
      var freed := FreeEntries(dir, user, ConvertFileName(names[i]).value);
      DeleteEachOnlyFrees(freed, user, names, i + 1, cpmName);
    }
  }

  /** A successful delete leaves no entry of any of the named files. */
  lemma {:induction false} DeleteEachRemoves(dir: seq<DirEntry>, user: u8, names: seq<seq<char>>, i: nat, k: nat)
    requires AllNoNul(names) && i <= k < |names| && user != FORMAT_BYTE
    requires DeleteEach(dir, user, names, i).Ok?
    ensures ConvertFileName(names[k]).Some?
    ensures !HasFile(DeleteEach(dir, user, names, i).value, user, ConvertFileName(names[k]).value)
    decreases |names| - i
  {
    var freed := FreeEntries(dir, user, ConvertFileName(names[i]).value);
    if k == i {
      var cpmName := ConvertFileName(names[k]).value;
      FreedFileGone(dir, user, cpmName);
      DeleteEachOnlyFrees(freed, user, names, i + 1, cpmName);
    } else {
      DeleteEachRemoves(freed, user, names, i + 1, k);
    }
  }

  lemma SameFileTrans(dir1: seq<DirEntry>, dir2: seq<DirEntry>, dir3: seq<DirEntry>, user: u8, cpmName: seq<u8>)
    requires SameFile(dir1, dir2, user, cpmName) && SameFile(dir2, dir3, user, cpmName)
    ensures SameFile(dir1, dir3, user, cpmName)
  {
  }

  /** A successful delete keeps every entry of every file it was not asked to delete. */
  lemma {:induction false} DeleteEachKeeps(dir: seq<DirEntry>, user: u8, names: seq<seq<char>>, i: nat, other: seq<u8>)
    requires AllNoNul(names) && i <= |names| && user != FORMAT_BYTE
    requires DeleteEach(dir, user, names, i).Ok?
    requires forall k :: i <= k < |names| ==> ConvertFileName(names[k]) != Some(other)
    ensures SameFile(dir, DeleteEach(dir, user, names, i).value, user, other)
    decreases |names| - i
  {
    if i < |names| {
      var cpmName := ConvertFileName(names[i]).value;
      var freed := FreeEntries(dir, user, cpmName);
      FreeingKeepsOthers(dir, user, cpmName, other);
      DeleteEachKeeps(freed, user, names, i + 1, other);
      SameFileTrans(dir, freed, DeleteEach(dir, user, names, i).value, user, other);
    }
  }

  /**
   * A file that was not named reads from the directory left by a
   * successful delete exactly as it read before.
   */
  lemma OtherFileReadsSame(p: DiskParams, dir: seq<DirEntry>, image: seq<u8>, user: u8, names: seq<seq<char>>, fileName: seq<char>)
    requires p.sectorsPerBlock > 0 && AllWellFormed(dir) && AllNoNul(names) && NoNul(fileName) && user != FORMAT_BYTE
    requires DeleteEach(dir, user, names, 0).Ok?
    requires forall k :: 0 <= k < |names| ==> ConvertFileName(names[k]) != ConvertFileName(fileName)
    ensures ReadFile(p, DeleteEach(dir, user, names, 0).value, image, user, fileName) == ReadFile(p, dir, image, user, fileName)
  {
    match ConvertFileName(fileName)
    case None =>
    case Some(cpmName) =>
      var newDir := DeleteEach(dir, user, names, 0).value;
      DeleteEachKeeps(dir, user, names, 0, cpmName);
      ReadExtentsAsWrittenSame(p, dir, newDir, image, user, fileName, cpmName, 0);
  }

  /** Deleting never touches the entries of another user. */
  lemma {:induction false} DeleteKeepsOtherUsers(dir: seq<DirEntry>, user: u8, names: seq<seq<char>>, i: nat)
    requires AllNoNul(names) && i <= |names|
    requires DeleteEach(dir, user, names, i).Ok?
    ensures forall j :: 0 <= j < |dir| && dir[j].user != user ==> DeleteEach(dir, user, names, i).value[j] == dir[j]
    decreases |names| - i
  {
    if i < |names| {
      var cpmName := ConvertFileName(names[i]).value;
      DeleteKeepsOtherUsers(FreeEntries(dir, user, cpmName), user, names, i + 1);
    }
  }

  /**
   * After a successful delete command, the directory read back from the
   * image has no entry of any named file, and reading one of them
   * reports it missing.
   */
  lemma DeletedFilesNotFound(p: DiskParams, image: seq<u8>, user: u8, names: seq<seq<char>>, k: nat)
    requires AllNoNul(names) && user != FORMAT_BYTE && p.sectorsPerBlock > 0
    requires DeleteCommand(p, image, user, names).error.None? && k < |names|
    ensures var newImage := DeleteCommand(p, image, user, names).image;
      && ReadDirectory(p, newImage).Some?
      && ReadFile(p, ReadDirectory(p, newImage).value, newImage, user, names[k]) == Err(FileNotFound(names[k]))
  {
    var dir := ReadDirectory(p, image).value;
    var newDir := DeleteEach(dir, user, names, 0).value;
    DeleteEachRemoves(dir, user, names, 0, k);
    DirectoryWriteRead(p, image, newDir);
    ReadFileOutcome(p, newDir, DeleteCommand(p, image, user, names).image, user, names[k]);
  }
}
