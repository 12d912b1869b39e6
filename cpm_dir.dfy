/**
 * `cpmdisk dir`: the directory entries are read one by one; extent 0 of
 * every file of the selected user is listed by name, five names to a line,
 * each name left-aligned in a 12-character column.
 */
module CpmDir {
  import opened Types
  import opened CpmDisk
  import opened CpmNames

  const FILES_PER_LINE: nat := 5
  const COLUMN_WIDTH: nat := 12

  /** What `dir` prints to standard output, and the error that cut it short, if any. */
  datatype Listing = Listing(text: seq<char>, error: Option<ToolError>)

  /** The names found by the entry loop, and whether it got through every entry. */
  datatype Scan = Scan(names: seq<seq<char>>, complete: bool)

  /** Entry `n` as one `fread` of 32 bytes after the reserved tracks gets it. */
  function EntryAt(p: DiskParams, image: seq<u8>, n: nat): (r: Option<DirEntry>)
    ensures r.Some? <==> p.reservedBytes + ENTRY_SIZE * n + ENTRY_SIZE <= |image|
  {
    match ReadAt(image, p.reservedBytes + ENTRY_SIZE * n, ENTRY_SIZE)
    case None => None
    case Some(b) => Some(DecodeEntry(b))
  }

  /** The entries that are listed: the user's, and only the first extent of each file. */
  predicate Listed(e: DirEntry, user: u8)
  {
    e.user == user && e.extent == 0
  }

  /** The entry loop from entry `n` on; a failing read ends it early. */
  function ListFrom(p: DiskParams, image: seq<u8>, user: u8, n: nat): (r: Scan)
    requires n <= p.directoryEntries
    decreases p.directoryEntries - n
  {
    if n == p.directoryEntries then Scan([], true)
    else
      match EntryAt(p, image, n)
      case None => Scan([], false)
      case Some(e) =>
        var rest := ListFrom(p, image, user, n + 1);
        if Listed(e, user) then Scan([DisplayName(e.name)] + rest.names, rest.complete) else rest
  }

  /** `printf("%-12s", name)`. */
  function Pad(name: seq<char>): (r: seq<char>)
    ensures |r| == if |name| < COLUMN_WIDTH then COLUMN_WIDTH else |name|
    ensures r[..|name|] == name && forall i :: |name| <= i < |r| ==> r[i] == ' '
  {
    if |name| < COLUMN_WIDTH then name + seq(COLUMN_WIDTH - |name|, _ => ' ') else name
  }

  /** What follows the name in column `column`: two spaces, or the end of the line. */
  function Separator(column: nat): seq<char>
  {
    if column + 1 < FILES_PER_LINE then "  " else "\n"
  }

  /** The names laid out in columns, the first one going into column `column`. */
  function Columns(names: seq<seq<char>>, column: nat): seq<char>
    requires column < FILES_PER_LINE
  {
    if names == [] then []
    else Pad(names[0]) + Separator(column) + Columns(names[1..], NextColumn(column))
  }

  /** The newline that ends a line left incomplete. */
  function Closing(column: nat): seq<char>
  {
    if column != 0 then "\n" else []
  }

  /** `cpmdisk dir`: an argument is refused; a failed read keeps what was printed before it. */
  function DirCommand(p: DiskParams, image: seq<u8>, user: u8, args: seq<seq<char>>): (r: Listing)
    ensures args != [] ==> r == Listing([], Some(UnexpectedArgument))
  {
    if args != [] then Listing([], Some(UnexpectedArgument))
    else
      var scan := ListFrom(p, image, user, 0);
      if scan.complete then Listing(Columns(scan.names, 0) + Closing(ColumnAfter(scan.names, 0)), None)
      else Listing(Columns(scan.names, 0), Some(DirectoryUnreadable))
  }

  // ----- The loop -----

  /** The column after the one `column` is in. */
  function NextColumn(column: nat): (r: nat)
    requires column < FILES_PER_LINE
    ensures r < FILES_PER_LINE
  {
    if column + 1 < FILES_PER_LINE then column + 1 else 0
  }

  /** One more name goes into the column the earlier names left off at. */
  lemma {:induction false} ColumnsSnoc(a: seq<seq<char>>, name: seq<char>, column: nat)
    requires column < FILES_PER_LINE
    ensures Columns(a + [name], column) == Columns(a, column) + Pad(name) + Separator(ColumnAfter(a, column))
    decreases |a|
  {
    if a == [] {
      assert a + [name] == [name];
      assert [name][1..] == [];
    } else {
      assert (a + [name])[1..] == a[1..] + [name];
      ColumnsSnoc(a[1..], name, NextColumn(column));
    }
  }

  /** The column the next name goes into after the names `a` were laid out from `column`. */
  function ColumnAfter(a: seq<seq<char>>, column: nat): (r: nat)
    requires column < FILES_PER_LINE
    ensures r < FILES_PER_LINE
    decreases |a|
  {
    if a == [] then column else ColumnAfter(a[1..], NextColumn(column))
  }

  lemma {:induction false} ColumnAfterSnoc(a: seq<seq<char>>, name: seq<char>, column: nat)
    requires column < FILES_PER_LINE
    ensures ColumnAfter(a + [name], column) == NextColumn(ColumnAfter(a, column))
    decreases |a|
  {
    if a == [] {
      assert a + [name] == [name];
      assert [name][1..] == [];
    } else {
      assert (a + [name])[1..] == a[1..] + [name];
      ColumnAfterSnoc(a[1..], name, NextColumn(column));
    }
  }

  /** One turn of the entry loop, seen from the names shown so far. */
  lemma ListFromStep(p: DiskParams, image: seq<u8>, user: u8, n: nat, shown: seq<seq<char>>)
    requires n < p.directoryEntries
    ensures var here := ListFrom(p, image, user, n);
      EntryAt(p, image, n).None? ==> Scan(shown + here.names, here.complete) == Scan(shown, false)
    ensures var here, next := ListFrom(p, image, user, n), ListFrom(p, image, user, n + 1);
      EntryAt(p, image, n).Some? && !Listed(EntryAt(p, image, n).value, user) ==>
      Scan(shown + here.names, here.complete) == Scan(shown + next.names, next.complete)
    ensures var here, next := ListFrom(p, image, user, n), ListFrom(p, image, user, n + 1);
      EntryAt(p, image, n).Some? && Listed(EntryAt(p, image, n).value, user) ==>
      Scan(shown + here.names, here.complete)
        == Scan((shown + [DisplayName(EntryAt(p, image, n).value.name)]) + next.names, next.complete)
  {
    var here, next := ListFrom(p, image, user, n), ListFrom(p, image, user, n + 1);
    match EntryAt(p, image, n)
    case None =>
      assert shown + [] == shown;
    case Some(e) =>
      if Listed(e, user) {
        var name := DisplayName(e.name);
        assert shown + ([name] + next.names) == (shown + [name]) + next.names;
      }
  }

  /** `text` and `nFile` are what laying out the names `shown` from column 0 gives. */
  ghost predicate Shown(shown: seq<seq<char>>, text: seq<char>, nFile: nat)
  {
    nFile < FILES_PER_LINE && text == Columns(shown, 0) && nFile == ColumnAfter(shown, 0)
  }

  /** Showing one more name appends it, padded, and moves to the next column. */
  lemma ShowOne(shown: seq<seq<char>>, name: seq<char>, text: seq<char>, nFile: nat)
    requires Shown(shown, text, nFile)
    ensures Shown(shown + [name], text + Pad(name) + Separator(nFile), NextColumn(nFile))
  {
    ColumnsSnoc(shown, name, 0);
    ColumnAfterSnoc(shown, name, 0);
  }

  /** The entry loop of the listing, with the column counter `nFile`; it stops at a failed read. */
  method ListEntries(p: DiskParams, image: seq<u8>, user: u8) returns (text: seq<char>, nFile: nat, complete: bool)
    ensures var scan := ListFrom(p, image, user, 0);
      && complete == scan.complete
      && text == Columns(scan.names, 0) && nFile == ColumnAfter(scan.names, 0)
  {
    text, nFile := [], 0;
    ghost var shown: seq<seq<char>> := [];
    ghost var whole := ListFrom(p, image, user, 0);
    ghost var rest := whole;
    var nEntry: nat := 0;
    while nEntry < p.directoryEntries
      invariant nEntry <= p.directoryEntries && rest == ListFrom(p, image, user, nEntry)
      invariant whole == Scan(shown + rest.names, rest.complete)
      invariant Shown(shown, text, nFile)
    {
      var entry := EntryAt(p, image, nEntry);
      ghost var after := ListFrom(p, image, user, nEntry + 1);
      ListFromStep(p, image, user, nEntry, shown);
      if entry.None? {
        assert whole == Scan(shown, false);
        return text, nFile, false;
      }
      var e := entry.value;
      if Listed(e, user) {
        var name := DisplayName(e.name);
        assert whole == Scan((shown + [name]) + after.names, after.complete);
        ShowOne(shown, name, text, nFile);
        text := text + Pad(name) + Separator(nFile);
        nFile := NextColumn(nFile);
        shown := shown + [name];
      } else {
        assert whole == Scan(shown + after.names, after.complete);
      }
      rest := after;
      nEntry := nEntry + 1;
    }
    assert shown + [] == shown;
    complete := true;
  }

  /** The `dir` command: the entry loop, then the newline that ends an incomplete last line. */
  method DoDir(p: DiskParams, image: seq<u8>, user: u8, args: seq<seq<char>>) returns (r: Listing)
    ensures r == DirCommand(p, image, user, args)
  {
    if |args| > 0 {
      return Listing([], Some(UnexpectedArgument));
    }
    var text, nFile, complete := ListEntries(p, image, user);
    if !complete {
      return Listing(text, Some(DirectoryUnreadable));
    }
    if nFile != 0 {
      text := text + "\n";
    }
    return Listing(text, None);
  }

  // ----- What the listing shows -----

  /** The names of the listed entries of a directory, in directory order. */
  function ShownNames(dir: seq<DirEntry>, user: u8): (r: seq<seq<char>>)
    requires AllWellFormed(dir)
    ensures |r| <= |dir|
  {
    if dir == [] then []
    else if Listed(dir[0], user) then [DisplayName(dir[0].name)] + ShownNames(dir[1..], user)
    else ShownNames(dir[1..], user)
  }

  /** A name is shown exactly when some listed entry carries it. */
  lemma {:induction false} ShownNamesMeaning(dir: seq<DirEntry>, user: u8, name: seq<char>)
    requires AllWellFormed(dir)
    ensures name in ShownNames(dir, user) <==>
      exists i :: 0 <= i < |dir| && Listed(dir[i], user) && DisplayName(dir[i].name) == name
  {
    if dir != [] {
      ShownNamesMeaning(dir[1..], user, name);
      if name in ShownNames(dir[1..], user) {
        var i :| 1 <= i + 1 < |dir| && Listed(dir[1..][i], user) && DisplayName(dir[1..][i].name) == name;
        assert Listed(dir[i + 1], user) && DisplayName(dir[i + 1].name) == name;
      }
      forall i | 0 < i < |dir| && Listed(dir[i], user) && DisplayName(dir[i].name) == name
        ensures name in ShownNames(dir[1..], user)
      {
        assert dir[1..][i - 1] == dir[i];
      }
    }
  }

  /** The entry loop gets through every entry exactly when the image holds the whole directory. */
  lemma {:induction false} ListFromComplete(p: DiskParams, image: seq<u8>, user: u8, n: nat)
    requires n <= p.directoryEntries
    ensures ListFrom(p, image, user, n).complete <==>
      n == p.directoryEntries || p.reservedBytes + ENTRY_SIZE * p.directoryEntries <= |image|
    decreases p.directoryEntries - n
  {
    if n < p.directoryEntries {
      ListFromComplete(p, image, user, n + 1);
    }
  }

  /** Entry by entry, the loop reads what `ReadDirectory` reads in one go. */
  lemma {:induction false} ListFromDirectory(p: DiskParams, image: seq<u8>, user: u8, n: nat)
    requires n <= p.directoryEntries && ReadDirectory(p, image).Some?
    ensures ListFrom(p, image, user, n) == Scan(ShownNames(ReadDirectory(p, image).value[n..], user), true)
    decreases p.directoryEntries - n
  {
    var dir := ReadDirectory(p, image).value;
    if n < p.directoryEntries {
      var bytes := ReadAt(image, p.reservedBytes, p.directoryEntries * ENTRY_SIZE).value;
      var at := p.reservedBytes + ENTRY_SIZE * n;
      assert bytes == image[p.reservedBytes..p.reservedBytes + p.directoryEntries * ENTRY_SIZE];
      assert dir == DecodeDirectory(bytes);
      assert ENTRY_SIZE * n + ENTRY_SIZE <= ENTRY_SIZE * p.directoryEntries;
      var fromDirectory := bytes[ENTRY_SIZE * n..ENTRY_SIZE * n + ENTRY_SIZE];
      var fromImage := image[at..at + ENTRY_SIZE];
      forall k | 0 <= k < ENTRY_SIZE ensures fromDirectory[k] == fromImage[k] {
        assert bytes[ENTRY_SIZE * n + k] == image[p.reservedBytes + (ENTRY_SIZE * n + k)];
      }
      assert fromDirectory == fromImage;
      assert EntryAt(p, image, n) == Some(dir[n]);
      assert dir[n..][1..] == dir[n + 1..];
      ListFromDirectory(p, image, user, n + 1);
    } else {
      assert dir[n..] == [];
    }
  }

  /**
   * A listing succeeds exactly when the directory can be read, and then
   * it shows the names of the user's first extents in directory order,
   * ending with a complete line.
   */
  lemma DirListsDirectory(p: DiskParams, image: seq<u8>, user: u8)
    requires p.directoryEntries > 0
    ensures DirCommand(p, image, user, []).error.None? <==> ReadDirectory(p, image).Some?
    ensures ReadDirectory(p, image).Some? ==>
      var names := ShownNames(ReadDirectory(p, image).value, user);
      DirCommand(p, image, user, []).text == Columns(names, 0) + Closing(ColumnAfter(names, 0))
  {
    ListFromComplete(p, image, user, 0);
    if ReadDirectory(p, image).Some? {
      ListFromDirectory(p, image, user, 0);
      assert ReadDirectory(p, image).value[0..] == ReadDirectory(p, image).value;
    }
  }

  // ----- The layout -----

  function Newlines(s: seq<char>): nat
  {
    if s == [] then 0 else (if s[0] == '\n' then 1 else 0) + Newlines(s[1..])
  }

  lemma {:induction false} NewlinesAppend(a: seq<char>, b: seq<char>)
    ensures Newlines(a + b) == Newlines(a) + Newlines(b)
    decreases |a|
  {
    if a == [] {
      assert a + b == b;
    } else {
      assert (a + b)[1..] == a[1..] + b;
      NewlinesAppend(a[1..], b);
    }
  }

  predicate NoNewline(s: seq<char>)
  {
    forall i :: 0 <= i < |s| ==> s[i] != '\n'
  }

  lemma {:induction false} NoNewlineCount(s: seq<char>)
    requires NoNewline(s)
    ensures Newlines(s) == 0
    decreases |s|
  {
    if s != [] {
      NoNewlineCount(s[1..]);
    }
  }

  /** Laying out names that hold no newline ends a line each time the last column is filled. */
  lemma {:induction false} ColumnsLines(names: seq<seq<char>>, column: nat)
    requires column < FILES_PER_LINE
    requires forall k :: 0 <= k < |names| ==> NoNewline(names[k])
    ensures 5 * Newlines(Columns(names, column)) + ColumnAfter(names, column) == column + |names|
    decreases |names|
  {
    if names != [] {
      var padded := Pad(names[0]);
      assert NoNewline(padded) by {
        forall i | 0 <= i < |padded| ensures padded[i] != '\n' {
          if i < |names[0]| {
            assert padded[i] == padded[..|names[0]|][i];
          }
        }
      }
      NoNewlineCount(padded);
      NewlinesAppend(padded, Separator(column));
      NewlinesAppend(padded + Separator(column), Columns(names[1..], NextColumn(column)));
      ColumnsLines(names[1..], NextColumn(column));
      SeparatorLines(column);
    }
  }

  lemma SeparatorLines(column: nat)
    ensures Newlines(Separator(column)) == if column + 1 < FILES_PER_LINE then 0 else 1
  {
    var s := Separator(column);
    if column + 1 < FILES_PER_LINE {
      assert s == "  " && s[1..] == " " && s[1..][1..] == [];
      assert Newlines(s[1..][1..]) == 0;
      assert Newlines(s[1..]) == 0;
    } else {
      assert s == "\n" && s[1..] == [];
    }
  }

  lemma ClosingLines(column: nat)
    ensures Newlines(Closing(column)) == if column != 0 then 1 else 0
  {
    if column != 0 {
      assert Closing(column)[1..] == [];
    }
  }

  /** A complete listing of names without newlines has one line per five names, rounded up. */
  lemma ListingLines(names: seq<seq<char>>)
    requires forall k :: 0 <= k < |names| ==> NoNewline(names[k])
    ensures var lines := Newlines(Columns(names, 0) + Closing(ColumnAfter(names, 0)));
      |names| <= FILES_PER_LINE * lines < |names| + FILES_PER_LINE
  {
    ColumnsLines(names, 0);
    NewlinesAppend(Columns(names, 0), Closing(ColumnAfter(names, 0)));
    ClosingLines(ColumnAfter(names, 0));
  }
}
