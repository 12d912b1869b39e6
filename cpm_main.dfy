/**
 * The command line of cpmdisk: the options that set the image file, the
 * user number and the six disk parameters, the geometry derived from them,
 * the choice of command, and the `init` command that creates a formatted
 * image. Arguments are C strings without their terminating NUL.
 */
module CpmMain {
  import opened Types
  import opened CpmDisk
  import opened CpmNames
  import opened CpmRead
  import opened CpmWrite
  import opened CpmWriteBack
  import opened CpmRoundTrip

  type Arg = seq<char>

  /** Why `main` stops before running a command; every one ends with exit status 1. */
  datatype UsageError =
    | Usage
    | CommandExpected(command: Arg)
    | InvalidOption(option: Arg)
    | OptionRequiresParameter(option: Arg)
    | InvalidOptionParameter(option: Arg, parameter: Arg)
    | InconsistentGeometry

  datatype Checked<T> = Accepted(value: T) | Refused(error: UsageError)

  predicate StartsWithDash(a: Arg)
  {
    |a| > 0 && a[0] == '-'
  }

  // ----- strtoul in base 10 -----

  /** `ULONG_MAX` of a 64-bit host. */
  const ULONG_MAX: nat := 0xFFFF_FFFF_FFFF_FFFF

  /** `isspace` in the C locale: space, tab, newline, vertical tab, form feed, carriage return. */
  predicate IsSpace(c: char)
  {
    c == ' ' || '\t' <= c <= '\r'
  }

  predicate IsDigit(c: char)
  {
    '0' <= c <= '9'
  }

  predicate AllDigits(s: seq<char>)
  {
    forall k :: 0 <= k < |s| ==> IsDigit(s[k])
  }

  /** The index of the first character at or after `i` that is not white space. */
  function SkipSpaces(s: seq<char>, i: nat): (j: nat)
    requires i <= |s|
    ensures i <= j <= |s|
    ensures forall k :: i <= k < j ==> IsSpace(s[k])
    ensures j < |s| ==> !IsSpace(s[j])
    decreases |s| - i
  {
    if i < |s| && IsSpace(s[i]) then SkipSpaces(s, i + 1) else i
  }

  /** The index of the first character at or after `i` that is not a digit. */
  function DigitsEnd(s: seq<char>, i: nat): (j: nat)
    requires i <= |s|
    ensures i <= j <= |s|
    ensures forall k :: i <= k < j ==> IsDigit(s[k])
    ensures j < |s| ==> !IsDigit(s[j])
    decreases |s| - i
  {
    if i < |s| && IsDigit(s[i]) then DigitsEnd(s, i + 1) else i
  }

  /** The number a string of decimal digits denotes. */
  function DecimalValue(digits: seq<char>): nat
    requires AllDigits(digits)
  {
    if digits == [] then 0
    else DecimalValue(digits[..|digits| - 1]) * 10 + (digits[|digits| - 1] as int - '0' as int)
  }

  /** What `strtoul` returns, and the index it leaves in `pEnd`. */
  datatype Conversion = Conversion(value: nat, end: nat)

  /**
   * `strtoul(s, &pEnd, 10)`: white space, an optional sign, then digits.
   * Without digits nothing is converted and `pEnd` points at the start;
   * a value beyond `ULONG_MAX` gives `ULONG_MAX`; a minus sign negates
   * the value modulo 2^64.
   */
  function StrToUL(s: Arg): (r: Conversion)
    ensures r.end <= |s| && r.value <= ULONG_MAX
  {
    var i := SkipSpaces(s, 0);
    var signed := i < |s| && (s[i] == '+' || s[i] == '-');
    var start := if signed then i + 1 else i;
    var end := DigitsEnd(s, start);
    if end == start then Conversion(0, 0)
    else
      var n := DecimalValue(s[start..end]);
      if n > ULONG_MAX then Conversion(ULONG_MAX, end)
      else if signed && s[i] == '-' && n > 0 then Conversion(ULONG_MAX + 1 - n, end)
      else Conversion(n, end)
  }

  /**
   * `GetOptionNumber`: the parameter after an option must be there, must
   * not start with '-', must be read by `strtoul` to its end and must lie
   * in `[lo, hi]`.
   */
  function GetOptionNumber(params: seq<Arg>, lo: nat, hi: nat, option: Arg): (r: Checked<nat>)
  {
    if |params| == 0 || StartsWithDash(params[0]) then Refused(OptionRequiresParameter(option))
    else
      var c := StrToUL(params[0]);
      if c.end < |params[0]| || !(lo <= c.value <= hi) then Refused(InvalidOptionParameter(option, params[0]))
      else Accepted(c.value)
  }

  /** An accepted value lies in the range, from a parameter that is there and does not start with '-'. */
  lemma OptionNumberInRange(params: seq<Arg>, lo: nat, hi: nat, option: Arg)
    requires GetOptionNumber(params, lo, hi, option).Accepted?
    ensures var v := GetOptionNumber(params, lo, hi, option).value;
      lo <= v <= hi && |params| > 0 && !StartsWithDash(params[0])
  {
  }

  /** A missing parameter, or one that starts with '-', is refused as missing. */
  lemma OptionNumberMissing(params: seq<Arg>, lo: nat, hi: nat, option: Arg)
    requires |params| == 0 || StartsWithDash(params[0])
    ensures GetOptionNumber(params, lo, hi, option) == Refused(OptionRequiresParameter(option))
  {
  }

  /** A parameter of plain digits is accepted exactly when the number it denotes is in range. */
  lemma {:induction false} OptionNumberDigits(params: seq<Arg>, lo: nat, hi: nat, option: Arg)
    requires |params| > 0 && |params[0]| > 0 && AllDigits(params[0]) && hi < ULONG_MAX
    ensures GetOptionNumber(params, lo, hi, option) ==
      if lo <= DecimalValue(params[0]) <= hi then Accepted(DecimalValue(params[0]))
      else Refused(InvalidOptionParameter(option, params[0]))
  {
    var s := params[0];
    assert SkipSpaces(s, 0) == 0;
    assert DigitsEnd(s, 0) == |s| by {
      DigitsRun(s, 0);
    }
    assert s[0..|s|] == s;
  }

  lemma {:induction false} DigitsRun(s: seq<char>, i: nat)
    requires i <= |s| && forall k :: i <= k < |s| ==> IsDigit(s[k])
    ensures DigitsEnd(s, i) == |s|
    decreases |s| - i
  {
    if i < |s| {
      DigitsRun(s, i + 1);
    }
  }

  /**
   * An accepted parameter holds nothing but white space, signs and
   * digits: any other character stops `strtoul` before the end.
   */
  lemma OptionNumberCharacters(params: seq<Arg>, lo: nat, hi: nat, option: Arg)
    requires GetOptionNumber(params, lo, hi, option).Accepted?
    ensures forall k :: 0 <= k < |params[0]| ==>
      IsSpace(params[0][k]) || params[0][k] == '+' || params[0][k] == '-' || IsDigit(params[0][k])
  {
    var s := params[0];
    var i := SkipSpaces(s, 0);
    var start := if i < |s| && (s[i] == '+' || s[i] == '-') then i + 1 else i;
    var end := DigitsEnd(s, start);
    assert StrToUL(s).end == |s|;
    if end == start {
      assert |s| == 0;
    } else {
      assert end == |s|;
    }
  }

  /** The decimal spelling of a number, without leading zeros. */
  function Decimal(v: nat): (s: seq<char>)
    ensures |s| > 0 && AllDigits(s) && (|s| > 1 ==> s[0] != '0')
  {
    if v < 10 then [('0' as int + v) as char] else Decimal(v / 10) + [('0' as int + v % 10) as char]
  }

  lemma {:induction false} DecimalRoundTrip(v: nat)
    ensures DecimalValue(Decimal(v)) == v
  {
    if v >= 10 {
      DecimalRoundTrip(v / 10);
      var s := Decimal(v);
      assert s[..|s| - 1] == Decimal(v / 10);
    }
  }

  /** Every number in the range, written out in decimal, is accepted as itself. */
  lemma OptionNumberRoundTrip(v: nat, lo: nat, hi: nat, option: Arg, rest: seq<Arg>)
    requires lo <= v <= hi < ULONG_MAX
    ensures GetOptionNumber([Decimal(v)] + rest, lo, hi, option) == Accepted(v)
  {
    DecimalRoundTrip(v);
    OptionNumberDigits([Decimal(v)] + rest, lo, hi, option);
  }

  /** An empty parameter reads as 0, so it is accepted exactly where 0 is in range. */
  lemma EmptyParameterReadsZero(params: seq<Arg>, lo: nat, hi: nat, option: Arg)
    requires |params| > 0 && params[0] == ""
    ensures GetOptionNumber(params, lo, hi, option) ==
      if lo == 0 then Accepted(0) else Refused(InvalidOptionParameter(option, ""))
  {
  }

  // ----- Options -----

  /** The settings the options change: `ToolParam` and the six configured fields of `DiskParam`. */
  datatype Settings = Settings(
    imageName: Arg,
    user: nat,
    tracks: nat,
    reservedTracks: nat,
    sectorsPerTrack: nat,
    blockSize: nat,
    extendSize: nat,
    directoryEntries: nat)

  const DEFAULT_SETTINGS: Settings := Settings("cpmdisk.bin", 0, 80, 2, 80, 2 * KBYTE, 16 * KBYTE, 128)

  predicate SettingsInRange(s: Settings)
  {
    OptionRanges(s.tracks, s.reservedTracks, s.sectorsPerTrack, s.blockSize, s.extendSize, s.directoryEntries)
    && s.user <= 15
  }

  lemma DefaultsInRange()
    ensures SettingsInRange(DEFAULT_SETTINGS)
  {
  }

  /** The range of each numeric option; the block and extent sizes are counted in KiB. */
  function Bounds(letter: char): (r: Option<(nat, nat)>)
  {
    match letter
    case 't' => Some((20, 160))
    case 'r' => Some((0, 20))
    case 's' => Some((8, 160))
    case 'b' => Some((1, 16))
    case 'e' => Some((8, 256))
    case 'd' => Some((32, 2048))
    case 'u' => Some((0, 15))
    case _ => None
  }

  /** The field a numeric option sets. */
  function SetNumber(s: Settings, letter: char, v: nat): (r: Settings)
    requires Bounds(letter).Some?
  {
    match letter
    case 't' => s.(tracks := v)
    case 'r' => s.(reservedTracks := v)
    case 's' => s.(sectorsPerTrack := v)
    case 'b' => s.(blockSize := KBYTE * v)
    case 'e' => s.(extendSize := KBYTE * v)
    case 'd' => s.(directoryEntries := v)
    case 'u' => s.(user := v)
  }

  /** A value in its option's range keeps every setting in range. */
  lemma SetNumberInRange(s: Settings, letter: char, v: nat)
    requires SettingsInRange(s) && Bounds(letter).Some? && Bounds(letter).value.0 <= v <= Bounds(letter).value.1
    ensures SettingsInRange(SetNumber(s, letter, v))
  {
    assert (KBYTE * v) % KBYTE == 0;
  }

  /** Where the options end, and what they set. */
  datatype Parse = Parse(settings: Settings, next: nat)

  /**
   * The option loop of `main` from argument `i` on: it runs while the
   * next argument starts with '-'; each option is '-' and one letter,
   * and every option but `-f` takes a number.
   */
  function Options(args: seq<Arg>, i: nat, s: Settings): (r: Checked<Parse>)
    requires i <= |args| && SettingsInRange(s)
    ensures r.Accepted? ==> SettingsInRange(r.value.settings) && i <= r.value.next <= |args|
    ensures r.Accepted? ==> r.value.next == |args| || !StartsWithDash(args[r.value.next])
    decreases |args| - i
  {
    if i == |args| || !StartsWithDash(args[i]) then Accepted(Parse(s, i))
    else
      var option := args[i];
      if |option| != 2 then Refused(InvalidOption(option))
      else if option[1] == 'f' then
        if i + 1 == |args| || StartsWithDash(args[i + 1]) then Refused(OptionRequiresParameter(option))
        else Options(args, i + 2, s.(imageName := args[i + 1]))
      else if Bounds(option[1]).None? then Refused(InvalidOption(option))
      else
        var (lo, hi) := Bounds(option[1]).value;
        match GetOptionNumber(args[i + 1..], lo, hi, option)
        case Refused(e) => Refused(e)
        case Accepted(v) =>
          OptionNumberInRange(args[i + 1..], lo, hi, option);
          SetNumberInRange(s, option[1], v);
          Options(args, i + 2, SetNumber(s, option[1], v))
  }

  /** The option loop as `main` runs it, updating the settings one option at a time. */
  method ParseOptions(args: seq<Arg>, start: nat) returns (r: Checked<Parse>)
    requires start <= |args|
    ensures r == (DefaultsInRange(); Options(args, start, DEFAULT_SETTINGS))
  {
    DefaultsInRange();
    var s := DEFAULT_SETTINGS;
    var i := start;
    while i < |args| && StartsWithDash(args[i])
      invariant start <= i <= |args| && SettingsInRange(s)
      invariant Options(args, i, s) == Options(args, start, DEFAULT_SETTINGS)
      decreases |args| - i
    {
      var option := args[i];
      if |option| != 2 {
        return Refused(InvalidOption(option));
      }
      var letter := option[1];
      if letter == 'f' {
        if i + 1 == |args| || StartsWithDash(args[i + 1]) {
          return Refused(OptionRequiresParameter(option));
        }
        s := s.(imageName := args[i + 1]);
      } else {
        var bounds := Bounds(letter);
        if bounds.None? {
          return Refused(InvalidOption(option));
        }
        var number := GetOptionNumber(args[i + 1..], bounds.value.0, bounds.value.1, option);
        if number.Refused? {
          return Refused(number.error);
        }
        OptionNumberInRange(args[i + 1..], bounds.value.0, bounds.value.1, option);
        SetNumberInRange(s, letter, number.value);
        s := SetNumber(s, letter, number.value);
      }
      i := i + 2;
    }
    return Accepted(Parse(s, i));
  }

  // ----- Geometry and command -----

  /** The disk parameters `main` derives from the settings. */
  function Geometry(s: Settings): (p: DiskParams)
    requires SettingsInRange(s)
    ensures Valid(p)
  {
    CalculatedIsValid(s.tracks, s.reservedTracks, s.sectorsPerTrack, s.blockSize, s.extendSize, s.directoryEntries);
    Calculate(s.tracks, s.reservedTracks, s.sectorsPerTrack, s.blockSize, s.extendSize, s.directoryEntries)
  }

  datatype Command = Init | Dir | Read | Write | Delete

  /** The `strcmp` chain that picks the command. */
  function CommandNamed(name: Arg): (r: Option<Command>)
    ensures r == Some(Init) <==> name == "init"
    ensures r == Some(Dir) <==> name == "dir"
    ensures r == Some(Read) <==> name == "read"
    ensures r == Some(Write) <==> name == "write"
    ensures r == Some(Delete) <==> name == "delete"
  {
    if name == "init" then Some(Init)
    else if name == "dir" then Some(Dir)
    else if name == "read" then Some(Read)
    else if name == "write" then Some(Write)
    else if name == "delete" then Some(Delete)
    else None
  }

  /** What `main` hands to the command: the image file name, the user, the geometry and the remaining arguments. */
  datatype Invocation = Invocation(command: Command, imageName: Arg, user: u8, params: DiskParams, args: seq<Arg>)

  /**
   * `main` up to the call of the command, for the arguments after the
   * program name: the command word, then the options, then the geometry;
   * an unknown command word is refused only after the options are read.
   */
  function CommandLine(args: seq<Arg>): (r: Checked<Invocation>)
    ensures r.Accepted? ==> Valid(r.value.params) && r.value.user <= 15
    ensures r.Accepted? && AllNoNul(args) ==> AllNoNul(r.value.args)
  {
    if |args| == 0 then Refused(Usage)
    else if StartsWithDash(args[0]) then Refused(CommandExpected(args[0]))
    else
      DefaultsInRange();
      match Options(args, 1, DEFAULT_SETTINGS)
      case Refused(e) => Refused(e)
      case Accepted(parse) =>
        var params := Geometry(parse.settings);
        match CommandNamed(args[0])
        case None => Refused(Usage)
        case Some(command) => Accepted(Invocation(command, parse.settings.imageName, parse.settings.user, params, args[parse.next..]))
  }

  /** `main`'s parse of its arguments, with the option loop as a loop. */
  method ParseCommandLine(args: seq<Arg>) returns (r: Checked<Invocation>)
    ensures r == CommandLine(args)
  {
    if |args| == 0 {
      return Refused(Usage);
    }
    if StartsWithDash(args[0]) {
      return Refused(CommandExpected(args[0]));
    }
    var parse := ParseOptions(args, 1);
    if parse.Refused? {
      return Refused(parse.error);
    }
    var params := Geometry(parse.value.settings);
    var command := CommandNamed(args[0]);
    if command.None? {
      return Refused(Usage);
    }
    return Accepted(Invocation(command.value, parse.value.settings.imageName, parse.value.settings.user, params, args[parse.value.next..]));
  }

  /** Without options every command runs on `cpmdisk.bin`, user 0 and the default disk. */
  lemma NoOptionsUseDefaults(args: seq<Arg>)
    requires |args| > 0 && CommandNamed(args[0]).Some? && (|args| == 1 || !StartsWithDash(args[1]))
    ensures CommandLine(args) == Accepted(Invocation(CommandNamed(args[0]).value, "cpmdisk.bin", 0, DEFAULT_PARAMS, args[1..]))
  {
    DefaultsInRange();
    assert Options(args, 1, DEFAULT_SETTINGS) == Accepted(Parse(DEFAULT_SETTINGS, 1));
  }

  /** The options are read up to the first argument that does not start with '-'; the command gets the rest. */
  lemma CommandGetsRest(args: seq<Arg>)
    requires CommandLine(args).Accepted?
    ensures var rest := CommandLine(args).value.args;
      |rest| < |args| && rest == args[|args| - |rest|..] && (rest == [] || !StartsWithDash(rest[0]))
  {
    DefaultsInRange();
    var parse := Options(args, 1, DEFAULT_SETTINGS).value;
    assert CommandLine(args).value.args == args[parse.next..];
  }

  // ----- Options that break the format -----

  /** One numeric option: the settings it leaves, and the options after its parameter. */
  lemma NumberOptionStep(args: seq<Arg>, i: nat, s: Settings, letter: char, v: nat)
    requires i + 1 < |args| && SettingsInRange(s) && args[i] == ['-', letter] && Bounds(letter).Some?
    requires GetOptionNumber(args[i + 1..], Bounds(letter).value.0, Bounds(letter).value.1, args[i]) == Accepted(v)
    ensures SettingsInRange(SetNumber(s, letter, v))
    ensures Options(args, i, s) == Options(args, i + 2, SetNumber(s, letter, v))
  {
    OptionNumberInRange(args[i + 1..], Bounds(letter).value.0, Bounds(letter).value.1, args[i]);
    SetNumberInRange(s, letter, v);
  }

  /** A parameter of two digits. */
  lemma TwoDigits(params: seq<Arg>, lo: nat, hi: nat, option: Arg, a: char, b: char)
    requires |params| > 0 && params[0] == [a, b] && IsDigit(a) && IsDigit(b) && hi < ULONG_MAX
    requires var v := (a as int - '0' as int) * 10 + (b as int - '0' as int); lo <= v <= hi
    ensures GetOptionNumber(params, lo, hi, option) == Accepted((a as int - '0' as int) * 10 + (b as int - '0' as int))
  {
    var s := params[0];
    assert AllDigits(s);
    assert s[..1] == [a] && [a][..0] == [];
    assert AllDigits([a]);
    assert DecimalValue([a]) == a as int - '0' as int;
    assert DecimalValue(s) == DecimalValue([a]) * 10 + (b as int - '0' as int);
    OptionNumberDigits(params, lo, hi, option);
  }

  /** A parameter of one digit. */
  lemma OneDigit(params: seq<Arg>, lo: nat, hi: nat, option: Arg, a: char)
    requires |params| > 0 && params[0] == [a] && IsDigit(a) && hi < ULONG_MAX && lo <= a as int - '0' as int <= hi
    ensures GetOptionNumber(params, lo, hi, option) == Accepted(a as int - '0' as int)
  {
    assert AllDigits(params[0]);
    assert params[0][..0] == [];
    OptionNumberDigits(params, lo, hi, option);
  }

  /**
   * `-b 4 -e 32` is accepted: an extent of 256 sectors, which its 8 blocks
   * fill and its 16 byte-wide slots can name, but whose full extents the
   * byte-wide SectorCount records as 0 sectors.
   */
  lemma WideExtentAccepted()
    ensures var r := CommandLine(["write", "-b", "4", "-e", "32", "FILE"]);
      && r.Accepted? && r.value.params.sectorsPerExtend == 256 && r.value.params.totalBlocks == 195
      && r.value.params.blocksPerExtend == 8 && SlotCount(r.value.params) == 16
      && !Consistent(r.value.params)
      && NewEntry(r.value.params, 0, seq(11, _ => 0x20), 0, 32 * KBYTE).sectorCount == 0
  {
    var args: seq<Arg> := ["write", "-b", "4", "-e", "32", "FILE"];
    DefaultsInRange();
    OneDigit(args[2..], 1, 16, "-b", '4');
    NumberOptionStep(args, 1, DEFAULT_SETTINGS, 'b', 4);
    var s1 := DEFAULT_SETTINGS.(blockSize := 4 * KBYTE);
    TwoDigits(args[4..], 8, 256, "-e", '3', '2');
    NumberOptionStep(args, 3, s1, 'e', 32);
    var s2 := s1.(extendSize := 32 * KBYTE);
    assert Options(args, 5, s2) == Accepted(Parse(s2, 5));
    assert Geometry(s2) == Calculate(80, 2, 80, 4 * KBYTE, 32 * KBYTE, 128);
  }

  /** `-b 16 -e 8` is accepted: an extent smaller than a block, so no block per extent. */
  lemma NoBlockPerExtentAccepted()
    ensures var r := CommandLine(["write", "-b", "16", "-e", "8", "FILE"]);
      && r.Accepted? && r.value.params.blocksPerExtend == 0 && !Consistent(r.value.params)
  {
    var args: seq<Arg> := ["write", "-b", "16", "-e", "8", "FILE"];
    DefaultsInRange();
    TwoDigits(args[2..], 1, 16, "-b", '1', '6');
    NumberOptionStep(args, 1, DEFAULT_SETTINGS, 'b', 16);
    var s1 := DEFAULT_SETTINGS.(blockSize := 16 * KBYTE);
    OneDigit(args[4..], 8, 256, "-e", '8');
    NumberOptionStep(args, 3, s1, 'e', 8);
    var s2 := s1.(extendSize := 8 * KBYTE);
    assert Options(args, 5, s2) == Accepted(Parse(s2, 5));
    assert Geometry(s2) == Calculate(80, 2, 80, 16 * KBYTE, 8 * KBYTE, 128);
  }

  /**
   * `-t 20 -r 20` is accepted: every track is reserved, so the disk has no
   * block at all, yet the directory still needs two, which the write
   * command marks in a block map of no flags.
   */
  lemma DirectoryBeyondBlockMapAccepted()
    ensures var r := CommandLine(["write", "-t", "20", "-r", "20", "FILE"]);
      && r.Accepted? && r.value.params.totalBlocks == 0 && r.value.params.directoryBlocks == 2
      && !Consistent(r.value.params)
  {
    var args: seq<Arg> := ["write", "-t", "20", "-r", "20", "FILE"];
    DefaultsInRange();
    TwoDigits(args[2..], 20, 160, "-t", '2', '0');
    NumberOptionStep(args, 1, DEFAULT_SETTINGS, 't', 20);
    var s1 := DEFAULT_SETTINGS.(tracks := 20);
    TwoDigits(args[4..], 0, 20, "-r", '2', '0');
    NumberOptionStep(args, 3, s1, 'r', 20);
    var s2 := s1.(reservedTracks := 20);
    assert Options(args, 5, s2) == Accepted(Parse(s2, 5));
    assert Geometry(s2) == Calculate(20, 20, 80, 2 * KBYTE, 16 * KBYTE, 128);
  }

  /** The command line with the combinations refused for which the directory cannot describe an extent. */
  function CheckedCommandLine(args: seq<Arg>): (r: Checked<Invocation>)
    ensures r.Accepted? ==> Consistent(r.value.params) && Sized(r.value.params) && r.value.user != FORMAT_BYTE
    ensures r.Accepted? && AllNoNul(args) ==> AllNoNul(r.value.args)
  {
    match CommandLine(args)
    case Refused(e) => Refused(e)
    case Accepted(inv) =>
      ValidIsSized(inv.params);
      if Consistent(inv.params) then Accepted(inv) else Refused(InconsistentGeometry)
  }

  /**
   * Every `write` the checked command line lets through saves files that
   * `read` gives back, padded with ^Z to a whole sector, as long as none
   * needs all 256 extents.
   */
  lemma {:induction false} CheckedWriteThenRead(args: seq<Arg>, inv: Invocation, image: seq<u8>, host: map<seq<char>, HostFile>, names: seq<seq<char>>)
    requires CheckedCommandLine(args) == Accepted(inv) && AllNoNul(args) && inv.command == Write
    requires WriteCommand(inv.params, image, inv.user, inv.args, host).error.None?
    requires forall k :: 0 <= k < |inv.args| && inv.args[k] in host ==> host[inv.args[k]].size <= Times(255, inv.params.extendSize)
    requires |names| == |inv.args| && forall k :: 0 <= k < |names| ==> names[k] == BaseName(inv.args[k])
    ensures AllNoNul(names)
    ensures forall k :: 0 <= k < |names| ==> inv.args[k] in host && host[inv.args[k]].size <= |host[inv.args[k]].data|
    ensures var r := ReadCommand(inv.params, WriteCommand(inv.params, image, inv.user, inv.args, host).image, inv.user, names);
      && r.error.None? && |r.saved| == |names|
      && forall k :: 0 <= k < |names| ==> r.saved[k] == Padded(host[inv.args[k]].data[..host[inv.args[k]].size])
  {
    WriteThenRead(inv.params, image, inv.user, inv.args, host, names);
  }

  /** The checked command line refuses only what the format cannot hold, and the default disk is not refused. */
  lemma CheckedRefusesOnlyInconsistent(args: seq<Arg>)
    ensures CommandLine(args).Accepted? && Consistent(CommandLine(args).value.params) ==>
      CheckedCommandLine(args) == CommandLine(args)
    ensures CommandLine(args).Accepted? && !Consistent(CommandLine(args).value.params) ==>
      CheckedCommandLine(args) == Refused(InconsistentGeometry)
    ensures CommandLine(args).Refused? ==> CheckedCommandLine(args) == CommandLine(args)
    ensures CommandLine(args).Accepted? && CommandLine(args).value.params == DEFAULT_PARAMS ==>
      CheckedCommandLine(args).Accepted?
  {
    DefaultGeometry();
  }

  // ----- init -----

  /** `n` sectors filled with the format byte 0xE5, one `fwrite` of the sector buffer each. */
  function Formatted(n: nat): (r: seq<u8>)
  {
    if n == 0 then [] else Formatted(n - 1) + seq(SECTOR_SIZE, _ => FORMAT_BYTE)
  }

  lemma {:induction false} FormattedBytes(n: nat)
    ensures |Formatted(n)| == n * SECTOR_SIZE
    ensures forall k :: 0 <= k < |Formatted(n)| ==> Formatted(n)[k] == FORMAT_BYTE
  {
    if n > 0 {
      FormattedBytes(n - 1);
    }
  }

  /**
   * `DoInit`: no further argument, no existing image file, a file that can
   * be created, then every sector of the disk written with 0xE5.
   */
  method DoInit(p: DiskParams, args: seq<Arg>, imageExists: bool, canCreate: bool) returns (r: Result<seq<u8>>)
    ensures |args| > 0 ==> r == Err(UnexpectedArgument)
    ensures |args| == 0 && imageExists ==> r == Err(ImageExists)
    ensures |args| == 0 && !imageExists && !canCreate ==> r == Err(CannotCreate)
    ensures |args| == 0 && !imageExists && canCreate ==> r == Ok(Formatted(p.totalSectors))
  {
    if |args| > 0 {
      return Err(UnexpectedArgument);
    }
    if imageExists {
      return Err(ImageExists);
    }
    if !canCreate {
      return Err(CannotCreate);
    }
    var sectorBuffer := new u8[SECTOR_SIZE](_ => FORMAT_BYTE);
    var image: seq<u8> := [];
    var nSector: nat := 0;
    while nSector < p.totalSectors
      invariant nSector <= p.totalSectors
      invariant image == Formatted(nSector)
    {
      assert sectorBuffer[..] == seq(SECTOR_SIZE, _ => FORMAT_BYTE);
      image := image + sectorBuffer[..];
      nSector := nSector + 1;
    }
    return Ok(image);
  }

  /** A freshly created disk has every directory entry free. */
  lemma FreshDirectoryIsEmpty(s: Settings)
    requires SettingsInRange(s) && Consistent(Geometry(s))
    ensures var p := Geometry(s);
      var dir := ReadDirectory(p, Formatted(p.totalSectors));
      && dir.Some? && |dir.value| == p.directoryEntries
      && forall i :: 0 <= i < |dir.value| ==> IsFree(dir.value[i])
  {
    var p := Geometry(s);
    var image := Formatted(p.totalSectors);
    FormattedBytes(p.totalSectors);
    BlocksFitDisk(s.tracks, s.reservedTracks, s.sectorsPerTrack, s.blockSize, s.extendSize, s.directoryEntries);
    MulLe(p.directoryBlocks, p.totalBlocks, p.blockSize);
    assert p.reservedBytes + p.directoryEntries * ENTRY_SIZE <= |image|;
    var bytes := image[p.reservedBytes..p.reservedBytes + p.directoryEntries * ENTRY_SIZE];
    var dir := DecodeDirectory(bytes);
    forall i | 0 <= i < |dir| ensures IsFree(dir[i]) {
      assert dir[i].user == bytes[ENTRY_SIZE * i];
    }
  }
}
