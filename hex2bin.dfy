/**
 * hex2bin: converts an Intel HEX file into a flat binary image. Data records
 * are stored into a 64 KiB memory; the image written out runs from the lowest
 * address written to the highest, padded so that it ends on a 128-byte
 * boundary.
 *
 * A line is the text `fgets` returns (its newline included when present); the
 * file is the sequence of its lines.
 */
module Hex2Bin {
  import opened Types

  const MAX_ADDRESS: nat := 0xFFFF
  const OUTPUT_RECORD_SIZE: nat := 128
  const CTRL_Z: char := 26 as char

  // ----- Hexadecimal digits -----

  predicate IsHexDigit(c: char)
  {
    ('0' <= c <= '9') || ('A' <= c <= 'F') || ('a' <= c <= 'f')
  }

  function DigitValue(c: char): (d: nat)
    requires IsHexDigit(c)
    ensures d < 16
  {
    if '0' <= c <= '9' then c as int - '0' as int
    else if 'A' <= c <= 'F' then c as int - 'A' as int + 10
    else c as int - 'a' as int + 10
  }

  /** The upper-case digit for `d`. */
  function DigitChar(d: nat): (c: char)
    requires d < 16
    ensures IsHexDigit(c) && DigitValue(c) == d
  {
    if d < 10 then ('0' as int + d) as char else ('A' as int + d - 10) as char
  }

  predicate HexAt(line: seq<char>, from: nat, to: nat)
  {
    to <= |line| && forall i :: from <= i < to ==> IsHexDigit(line[i])
  }

  /** The byte spelled by the two digits at `at`, as `%2X` reads it. */
  function ByteAt(line: seq<char>, at: nat): (b: u8)
    requires HexAt(line, at, at + 2)
  {
    DigitValue(line[at]) * 16 + DigitValue(line[at + 1])
  }

  /** Two upper-case digits for a byte. */
  function HexByte(b: u8): (s: seq<char>)
    ensures |s| == 2 && HexAt(s, 0, 2) && ByteAt(s, 0) == b
  {
    [DigitChar(b / 16), DigitChar(b % 16)]
  }

  /** The character that ends a C string. */
  const NUL: char := 0 as char

  predicate IsSpace(c: char)
  {
    c == ' ' || c == '\t' || c == '\n' || c == '\r' || c == 11 as char || c == 12 as char
  }

  // ----- One record -----

  function Sum(bytes: seq<u8>): nat
  {
    if bytes == [] then 0 else bytes[0] + Sum(bytes[1..])
  }

  /**
   * The checksum a record must carry: the two's complement of the 8-bit sum
   * of its length, address bytes, type and data.
   */
  function CheckSum(length: u8, address: u16, recordType: u8, data: seq<u8>): (cs: u8)
    ensures (length + address % 0x100 + address / 0x100 + recordType + Sum(data) + cs) % 0x100 == 0
  {
    var total := length + address % 0x100 + address / 0x100 + recordType + Sum(data);
    var low := total % 0x100;
    var cs := if low == 0 then 0 else 0x100 - low;
    LowByteShift(total, cs);
    cs
  }

  /** A record is accepted exactly when all its bytes, checksum included, sum to 0 modulo 256. */
  lemma CheckSumIffZeroSum(length: u8, address: u16, recordType: u8, data: seq<u8>, cs: u8)
    ensures cs == CheckSum(length, address, recordType, data)
      <==> (length + address % 0x100 + address / 0x100 + recordType + Sum(data) + cs) % 0x100 == 0
  {
    var total := length + address % 0x100 + address / 0x100 + recordType + Sum(data);
    var low := total % 0x100;
    assert CheckSum(length, address, recordType, data) == (0x100 - low) % 0x100;
    LowByteShift(total, cs);
    ComplementPairs(low, cs);
  }

  /** Only the low byte of a sum matters to its remainder modulo 256. */
  lemma LowByteShift(total: nat, cs: nat)
    ensures (total + cs) % 0x100 == (total % 0x100 + cs) % 0x100
  {
    var q := total / 0x100;
    assert total == q * 0x100 + total % 0x100;
  }

  /** Two bytes sum to 0 modulo 256 exactly when one is the two's complement of the other. */
  lemma ComplementPairs(low: u8, cs: u8)
    ensures cs == (0x100 - low) % 0x100 <==> (low + cs) % 0x100 == 0
  {
    if low == 0 {
      assert (0x100 - low) % 0x100 == 0;
    } else {
      assert (0x100 - low) % 0x100 == 0x100 - low;
    }
  }

  /** The guard of hex2bin.c as written: a 32-bit wrap test that no header can trigger. */
  predicate OverflowGuardAsWritten(length: u8, address: u16)
  {
    length > 0 && (address + length - 1) % 0x1_0000_0000 < address
  }

  lemma AsWrittenGuardNeverFires(length: u8, address: u16)
    ensures !OverflowGuardAsWritten(length, address)
  {
  }

  /** A two-byte record at 0xFFFF passes the guard although its second byte lies beyond memory. */
  lemma AsWrittenGuardAdmitsOverrun()
    ensures !OverflowGuardAsWritten(2, 0xFFFF)
    ensures 0xFFFF + 2 - 1 > MAX_ADDRESS
  {
  }

  /** The guard as intended: the record's last byte lies beyond the 64 KiB memory. */
  predicate OverflowGuard(length: u8, address: u16)
  {
    length > 0 && address + length - 1 > MAX_ADDRESS
  }

  lemma GuardAcceptsExactlyFittingRecords(length: u8, address: u16)
    ensures !OverflowGuard(length, address) <==> address + length <= MAX_ADDRESS + 1 || length == 0
  {
  }

  datatype LineError =
    | InvalidHeader | InvalidType | AddressOverflow | InvalidData | InvalidChecksum | UnexpectedCharacter

  /** What one line of the file says. */
  datatype Line =
    | EndOfData
    | DataRecord(address: u16, bytes: seq<u8>)
    | BadLine(error: LineError)

  /** The decoded header: ':' then two digits of length, four of address, two of type. */
  predicate HeaderOk(line: seq<char>)
  {
    |line| >= 9 && line[0] == ':' && HexAt(line, 1, 9)
  }

  /** The data bytes spelled by `count` digit pairs starting at column 9. */
  function DataBytes(line: seq<char>, count: nat): (data: seq<u8>)
    requires HexAt(line, 9, 9 + 2 * count)
    ensures |data| == count
    ensures forall k :: 0 <= k < count ==> data[k] == ByteAt(line, 9 + 2 * k)
  {
    seq(count, k requires 0 <= k < count => ByteAt(line, 9 + 2 * k))
  }

  /** The checks that follow the header of a type-0 record, in the converter's order. */
  function ParseData(line: seq<char>, length: u8, address: u16): (r: Line)
    ensures r.DataRecord? ==> r.address == address && |r.bytes| == length
    ensures r.DataRecord? ==> address + length <= MAX_ADDRESS + 1
  {
    if OverflowGuard(length, address) then BadLine(AddressOverflow)
    else if !HexAt(line, 9, 11 + 2 * length) then BadLine(InvalidData)
    else
      var data := DataBytes(line, length);
      var end := 11 + 2 * length;
      if ByteAt(line, 9 + 2 * length) != CheckSum(length, address, 0, data) then BadLine(InvalidChecksum)
      else if end < |line| && !IsSpace(line[end]) && line[end] != NUL then BadLine(UnexpectedCharacter)
      else DataRecord(address, data)
  }

  /**
   * After a correct checksum the record is taken exactly when the line ends
   * there, as a string (a NUL) or as text (white space or nothing more).
   */
  lemma TrailerEndsRecord(line: seq<char>, length: u8, address: u16)
    requires !OverflowGuard(length, address) && HexAt(line, 9, 11 + 2 * length)
    requires ByteAt(line, 9 + 2 * length) == CheckSum(length, address, 0, DataBytes(line, length))
    ensures ParseData(line, length, address) == DataRecord(address, DataBytes(line, length)) <==>
      11 + 2 * length == |line| || IsSpace(line[11 + 2 * length]) || line[11 + 2 * length] == NUL
    ensures ParseData(line, length, address) == BadLine(UnexpectedCharacter) <==>
      !(11 + 2 * length == |line| || IsSpace(line[11 + 2 * length]) || line[11 + 2 * length] == NUL)
  {
  }

  /** The checks of one line, in the order the converter makes them. */
  function ParseLine(line: seq<char>): (r: Line)
    ensures r.DataRecord? ==> HeaderOk(line) && |r.bytes| == ByteAt(line, 1) && ByteAt(line, 7) == 0
    ensures r.DataRecord? ==> r.address + |r.bytes| <= MAX_ADDRESS + 1
  {
    if |line| > 0 && line[0] == CTRL_Z then EndOfData
    else if !HeaderOk(line) then BadLine(InvalidHeader)
    else
      var recordType := ByteAt(line, 7);
      if recordType == 1 then EndOfData
      else if recordType != 0 then BadLine(InvalidType)
      else ParseData(line, ByteAt(line, 1), ByteAt(line, 3) * 0x100 + ByteAt(line, 5))
  }

  // ----- Writing a record, for the round trip -----

  function EncodeBytes(bytes: seq<u8>): (s: seq<char>)
    ensures |s| == 2 * |bytes|
  {
    if bytes == [] then [] else HexByte(bytes[0]) + EncodeBytes(bytes[1..])
  }

  lemma {:induction false} EncodeBytesAt(bytes: seq<u8>, k: nat)
    requires k < |bytes|
    ensures HexAt(EncodeBytes(bytes), 2 * k, 2 * k + 2)
    ensures ByteAt(EncodeBytes(bytes), 2 * k) == bytes[k]
  {
    if k > 0 {
      EncodeBytesAt(bytes[1..], k - 1);
      var tail := EncodeBytes(bytes[1..]);
      assert EncodeBytes(bytes) == HexByte(bytes[0]) + tail;
      assert EncodeBytes(bytes)[2 * k] == tail[2 * (k - 1)];
      assert EncodeBytes(bytes)[2 * k + 1] == tail[2 * (k - 1) + 1];
    } else {
      assert EncodeBytes(bytes)[..2] == HexByte(bytes[0]);
    }
  }

  /** Reading two digits is unaffected by text before or after them. */
  lemma ByteAtConcat(p: seq<char>, q: seq<char>, at: nat)
    ensures HexAt(p, at, at + 2) ==> HexAt(p + q, at, at + 2) && ByteAt(p + q, at) == ByteAt(p, at)
    ensures HexAt(q, at, at + 2) ==> HexAt(p + q, |p| + at, |p| + at + 2) && ByteAt(p + q, |p| + at) == ByteAt(q, at)
  {
    if HexAt(q, at, at + 2) {
      assert (p + q)[|p| + at] == q[at] && (p + q)[|p| + at + 1] == q[at + 1];
    }
  }

  /** The nine characters of a data record's header. */
  function Header(length: u8, address: u16): (h: seq<char>)
    ensures |h| == 9 && h[0] == ':' && HexAt(h, 1, 9)
    ensures ByteAt(h, 1) == length && ByteAt(h, 3) == address / 0x100
    ensures ByteAt(h, 5) == address % 0x100 && ByteAt(h, 7) == 0
  {
    var h := [':'] + HexByte(length) + HexByte(address / 0x100) + HexByte(address % 0x100) + HexByte(0);
    assert h[1..3] == HexByte(length) && h[3..5] == HexByte(address / 0x100);
    assert h[5..7] == HexByte(address % 0x100) && h[7..9] == HexByte(0);
    h
  }

  /** A data record as an Intel HEX writer spells it, newline included. */
  function EncodeRecord(address: u16, bytes: seq<u8>): (line: seq<char>)
    requires |bytes| < 0x100
    ensures |line| == 12 + 2 * |bytes|
  {
    Header(|bytes|, address) + EncodeBytes(bytes) + HexByte(CheckSum(|bytes|, address, 0, bytes)) + ['\n']
  }

  /** The header of an encoded record reads back as its length, address and type 0. */
  lemma RecordHeaderReads(address: u16, bytes: seq<u8>)
    requires |bytes| < 0x100
    ensures HeaderOk(EncodeRecord(address, bytes))
    ensures ByteAt(EncodeRecord(address, bytes), 1) == |bytes| && ByteAt(EncodeRecord(address, bytes), 7) == 0
    ensures ByteAt(EncodeRecord(address, bytes), 3) * 0x100 + ByteAt(EncodeRecord(address, bytes), 5) == address
  {
    var head := Header(|bytes|, address);
    var rest := EncodeBytes(bytes) + HexByte(CheckSum(|bytes|, address, 0, bytes)) + ['\n'];
    var line := EncodeRecord(address, bytes);
    assert line == head + rest;
    forall i | 1 <= i < 9 ensures IsHexDigit(line[i]) {
      assert line[i] == head[i];
    }
    ByteAtConcat(head, rest, 1);
    ByteAtConcat(head, rest, 3);
    ByteAtConcat(head, rest, 5);
    ByteAtConcat(head, rest, 7);
  }

  /** The data digits of an encoded record read back as its bytes. */
  lemma RecordDataReads(address: u16, bytes: seq<u8>)
    requires |bytes| < 0x100
    ensures HexAt(EncodeRecord(address, bytes), 9, 9 + 2 * |bytes|)
    ensures DataBytes(EncodeRecord(address, bytes), |bytes|) == bytes
  {
    var n := |bytes|;
    var head := Header(n, address);
    var body := EncodeBytes(bytes);
    var tail := HexByte(CheckSum(n, address, 0, bytes)) + ['\n'];
    var line := EncodeRecord(address, bytes);
    assert line == head + (body + tail);
    forall k | 0 <= k < n
      ensures HexAt(line, 9 + 2 * k, 11 + 2 * k) && ByteAt(line, 9 + 2 * k) == bytes[k]
    {
      EncodeBytesAt(bytes, k);
      ByteAtConcat(body, tail, 2 * k);
      ByteAtConcat(head, body + tail, 2 * k);
    }
    forall i | 9 <= i < 9 + 2 * n ensures IsHexDigit(line[i]) {
      var k := (i - 9) / 2;
      assert i == 9 + 2 * k || i == 10 + 2 * k;
    }
  }

  /** The checksum digits and the newline of an encoded record. */
  lemma RecordTrailerReads(address: u16, bytes: seq<u8>)
    requires |bytes| < 0x100
    ensures HexAt(EncodeRecord(address, bytes), 9 + 2 * |bytes|, 11 + 2 * |bytes|)
    ensures ByteAt(EncodeRecord(address, bytes), 9 + 2 * |bytes|) == CheckSum(|bytes|, address, 0, bytes)
    ensures EncodeRecord(address, bytes)[11 + 2 * |bytes|] == '\n'
  {
    var n := |bytes|;
    var front := Header(n, address) + EncodeBytes(bytes);
    var tail := HexByte(CheckSum(n, address, 0, bytes)) + ['\n'];
    assert EncodeRecord(address, bytes) == front + tail;
    ByteAtConcat(HexByte(CheckSum(n, address, 0, bytes)), ['\n'], 0);
    ByteAtConcat(front, tail, 0);
  }

  /** Every data record that fits in memory reads back as itself. */
  lemma EncodeRecordRoundTrip(address: u16, bytes: seq<u8>)
    requires |bytes| < 0x100 && address + |bytes| <= MAX_ADDRESS + 1
    ensures ParseLine(EncodeRecord(address, bytes)) == DataRecord(address, bytes)
  {
    var n := |bytes|;
    var line := EncodeRecord(address, bytes);
    RecordHeaderReads(address, bytes);
    RecordDataReads(address, bytes);
    RecordTrailerReads(address, bytes);
    assert HexAt(line, 9, 11 + 2 * n);
    assert ParseData(line, n, address) == DataRecord(address, bytes);
  }

  // ----- The 64 KiB memory and the address range -----

  /** Memory contents with the lowest and highest address written so far. */
  datatype Loaded = Loaded(mem: seq<u8>, lowest: nat, highest: nat)

  function Initial(): Loaded
  {
    Loaded(seq(MAX_ADDRESS + 1, _ => 0), MAX_ADDRESS, 0)
  }

  /** Every nonzero byte lies inside the tracked range, and the range lies inside memory. */
  ghost predicate Tracked(st: Loaded)
  {
    && |st.mem| == MAX_ADDRESS + 1
    && st.lowest <= MAX_ADDRESS && st.highest <= MAX_ADDRESS
    && forall a :: 0 <= a < |st.mem| && st.mem[a] != 0 ==> st.lowest <= a <= st.highest
  }

  /** Store one byte, widening the range to include its address. */
  function Poke(st: Loaded, address: nat, b: u8): (r: Loaded)
    requires address < |st.mem|
    ensures |r.mem| == |st.mem|
  {
    Loaded(st.mem[address := b],
           if address < st.lowest then address else st.lowest,
           if address > st.highest then address else st.highest)
  }

  /** Store a record's bytes at consecutive addresses. */
  function Store(st: Loaded, address: nat, bytes: seq<u8>): (r: Loaded)
    requires address + |bytes| <= |st.mem|
    ensures |r.mem| == |st.mem|
    decreases |bytes|
  {
    if bytes == [] then st else Store(Poke(st, address, bytes[0]), address + 1, bytes[1..])
  }

  lemma {:induction false} StoreKeepsTracked(st: Loaded, address: nat, bytes: seq<u8>)
    requires Tracked(st) && address + |bytes| <= |st.mem|
    ensures Tracked(Store(st, address, bytes))
    decreases |bytes|
  {
    if bytes != [] {
      var next := Poke(st, address, bytes[0]);
      assert Tracked(next) by {
        forall a | 0 <= a < |next.mem| && next.mem[a] != 0 ensures next.lowest <= a <= next.highest {
          if a != address {
            assert next.mem[a] == st.mem[a];
          }
        }
      }
      StoreKeepsTracked(next, address + 1, bytes[1..]);
    }
  }

  /**
   * A stored record: its bytes sit at consecutive addresses, every other
   * address keeps its byte, and the range grows to cover the record.
   */
  lemma {:induction false} StoreWrites(st: Loaded, address: nat, bytes: seq<u8>)
    requires address + |bytes| <= |st.mem|
    ensures forall k :: 0 <= k < |bytes| ==> Store(st, address, bytes).mem[address + k] == bytes[k]
    ensures forall a :: 0 <= a < |st.mem| && !(address <= a < address + |bytes|) ==>
      Store(st, address, bytes).mem[a] == st.mem[a]
    ensures bytes != [] ==> Store(st, address, bytes).lowest == (if address < st.lowest then address else st.lowest)
    ensures bytes != [] ==>
      Store(st, address, bytes).highest == (if address + |bytes| - 1 > st.highest then address + |bytes| - 1 else st.highest)
    ensures bytes == [] ==> Store(st, address, bytes) == st
    decreases |bytes|
  {
    if bytes != [] {
      var next := Poke(st, address, bytes[0]);
      StoreWrites(next, address + 1, bytes[1..]);
      var r := Store(st, address, bytes);
      assert r == Store(next, address + 1, bytes[1..]);
      forall k | 0 <= k < |bytes| ensures r.mem[address + k] == bytes[k] {
        if k > 0 {
          assert r.mem[(address + 1) + (k - 1)] == bytes[1..][k - 1];
        }
      }
    }
  }

  // ----- The whole file -----

  datatype ConvertError = Line(error: LineError) | NoDataRange

  datatype Outcome =
    | Failure(error: ConvertError, lineNumber: nat)
    | Success(lowest: nat, highest: nat, image: seq<u8>)

  /** The highest address after padding: the last address of its 128-byte record. */
  function Padded(highest: nat): (r: nat)
    ensures highest <= r < highest + OUTPUT_RECORD_SIZE
    ensures (r + 1) % OUTPUT_RECORD_SIZE == 0
  {
    highest + (OUTPUT_RECORD_SIZE - highest % OUTPUT_RECORD_SIZE - 1)
  }

  /** Padding never leaves memory, and the image length is a multiple of 128 exactly when the lowest address is aligned. */
  lemma PaddingStaysInMemory(lowest: nat, highest: nat)
    requires highest <= MAX_ADDRESS && lowest <= Padded(highest)
    ensures Padded(highest) <= MAX_ADDRESS
    ensures (Padded(highest) + 1 - lowest) % OUTPUT_RECORD_SIZE == 0 <==> lowest % OUTPUT_RECORD_SIZE == 0
  {
  }

  /**
   * The end of the conversion as written: the padded range is cut out of
   * memory, and the `assert` that the lowest address lies strictly below
   * the padded highest one stops the converter otherwise.
   */
  function FinishAsWritten(st: Loaded, lines: nat): (r: Outcome)
    requires Tracked(st)
    ensures r.Success? ==> r.lowest < r.highest <= MAX_ADDRESS && |r.image| == r.highest + 1 - r.lowest
    ensures r.Success? ==> r.lowest == st.lowest && r.highest == Padded(st.highest)
    ensures r.Success? ==> forall a :: 0 <= a <= MAX_ADDRESS ==>
      st.mem[a] == (if r.lowest <= a <= r.highest then r.image[a - r.lowest] else 0)
    ensures r.Failure? <==> st.lowest >= Padded(st.highest)
  {
    var highest := Padded(st.highest);
    if st.lowest < highest then
      PaddingStaysInMemory(st.lowest, st.highest);
      Success(st.lowest, highest, st.mem[st.lowest..highest + 1])
    else Failure(NoDataRange, lines)
  }

  /** One data byte at 0x7F: the padded range is 0x7F..0x7F, which the written check refuses. */
  lemma AsWrittenRefusesOneByteImage()
    ensures Tracked(Store(Initial(), 0x7F, [0xAA]))
    ensures FinishAsWritten(Store(Initial(), 0x7F, [0xAA]), 1).Failure?
    ensures Finish(Store(Initial(), 0x7F, [0xAA]), 1) == Success(0x7F, 0x7F, [0xAA])
  {
    var st := Store(Initial(), 0x7F, [0xAA]);
    StoreKeepsTracked(Initial(), 0x7F, [0xAA]);
    StoreWrites(Initial(), 0x7F, [0xAA]);
    assert st.mem[0x7F..0x80] == [0xAA];
  }

  /** The corrected end of the conversion: refuse only an empty range, else cut the padded range out of memory. */
  function Finish(st: Loaded, lines: nat): (r: Outcome)
    requires Tracked(st)
    ensures r.Success? ==> r.lowest <= r.highest <= MAX_ADDRESS && |r.image| == r.highest + 1 - r.lowest
    ensures r.Success? ==> forall a :: 0 <= a <= MAX_ADDRESS ==>
      st.mem[a] == (if r.lowest <= a <= r.highest then r.image[a - r.lowest] else 0)
    ensures r.Failure? <==> st.lowest > Padded(st.highest)
  {
    var highest := Padded(st.highest);
    if st.lowest <= highest then
      PaddingStaysInMemory(st.lowest, st.highest);
      Success(st.lowest, highest, st.mem[st.lowest..highest + 1])
    else Failure(NoDataRange, lines)
  }

  /** No data record at all leaves the range empty, and the conversion fails. */
  lemma EmptyFileHasNoRange()
    ensures Finish(Initial(), 0) == Failure(NoDataRange, 0)
    ensures FinishAsWritten(Initial(), 0) == Failure(NoDataRange, 0)
  {
  }

  /** The written end and the corrected one differ only when the padded range is a single byte. */
  lemma FinishAgrees(st: Loaded, lines: nat)
    requires Tracked(st) && st.lowest != Padded(st.highest)
    ensures FinishAsWritten(st, lines) == Finish(st, lines)
  {
  }

  /** Lines `from..` of the file applied to the memory loaded so far. */
  function Scan(lines: seq<seq<char>>, from: nat, st: Loaded): (r: Outcome)
    requires from <= |lines| && Tracked(st)
    ensures r.Success? ==> r.lowest < r.highest <= MAX_ADDRESS && |r.image| == r.highest + 1 - r.lowest
    ensures r.Success? ==> (r.highest + 1) % OUTPUT_RECORD_SIZE == 0
    ensures r.Failure? ==> from <= r.lineNumber <= |lines|
    decreases |lines| - from
  {
    if from == |lines| then FinishAsWritten(st, from)
    else match ParseLine(lines[from])
      case EndOfData => FinishAsWritten(st, from + 1)
      case BadLine(e) => Failure(Line(e), from + 1)
      case DataRecord(address, bytes) =>
        StoreKeepsTracked(st, address, bytes);
        Scan(lines, from + 1, Store(st, address, bytes))
  }

  /** The conversion of a whole file. */
  function Converted(lines: seq<seq<char>>): (r: Outcome)
    ensures r.Success? ==> r.lowest < r.highest <= MAX_ADDRESS && |r.image| == r.highest + 1 - r.lowest
    ensures r.Success? ==> (r.highest + 1) % OUTPUT_RECORD_SIZE == 0
    ensures r.Failure? ==> r.lineNumber <= |lines|
  {
    Scan(lines, 0, Initial())
  }

  /** The usual end-of-file record. */
  lemma EndOfFileRecord()
    ensures ParseLine(":00000001FF\n") == EndOfData
  {
    var eof := ":00000001FF\n";
    assert HexAt(eof, 1, 9);
    assert ByteAt(eof, 7) == 1;
  }

  /**
   * A file of one record and an end-of-file record converts to that
   * record, padded with zeros, except for a single byte at the last
   * address of a 128-byte record, which the written check refuses.
   */
  lemma SingleRecordFile(address: u16, bytes: seq<u8>)
    requires 0 < |bytes| < 0x100 && address + |bytes| <= MAX_ADDRESS + 1
    ensures var r := Converted([EncodeRecord(address, bytes), ":00000001FF\n"]);
      && (r.Failure? <==> |bytes| == 1 && address as nat % OUTPUT_RECORD_SIZE == OUTPUT_RECORD_SIZE - 1)
      && (r.Success? ==>
           && r.lowest == address && r.highest == Padded(address + |bytes| - 1)
           && |bytes| <= |r.image| && r.image[..|bytes|] == bytes
           && forall k :: |bytes| <= k < |r.image| ==> r.image[k] == 0)
  {
    var st := SingleRecordScan(address, bytes);
    if st.lowest != Padded(st.highest) {
      FinishAgrees(st, 2);
      SingleRecordImage(st, address, bytes);
    }
  }

  /** Finishing after the one record gives that record, padded with zeros. */
  lemma SingleRecordImage(st: Loaded, address: nat, bytes: seq<u8>)
    requires Tracked(st) && 0 < |bytes| && st.lowest == address && st.highest == address + |bytes| - 1
    requires forall k :: 0 <= k < |bytes| ==> st.mem[address + k] == bytes[k]
    requires forall a :: 0 <= a < |st.mem| && !(address <= a < address + |bytes|) ==> st.mem[a] == 0
    ensures var r := Finish(st, 2);
      && r.Success? && r.lowest == address && r.highest == Padded(address + |bytes| - 1)
      && |bytes| <= |r.image| && r.image[..|bytes|] == bytes
      && forall k :: |bytes| <= k < |r.image| ==> r.image[k] == 0
  {
    var highest := FinishRange(st, 2);
    var image := st.mem[address..highest + 1];
    forall k | 0 <= k < |image|
      ensures image[k] == if k < |bytes| then bytes[k] else 0
    {
      assert image[k] == st.mem[address + k];
    }
  }

  /** A non-empty range is written out from its lowest to its padded highest address. */
  lemma FinishRange(st: Loaded, lines: nat) returns (highest: nat)
    requires Tracked(st) && st.lowest <= st.highest
    ensures highest == Padded(st.highest) && st.highest <= highest <= MAX_ADDRESS
    ensures Finish(st, lines) == Success(st.lowest, highest, st.mem[st.lowest..highest + 1])
  {
    highest := Padded(st.highest);
    PaddingStaysInMemory(st.lowest, st.highest);
  }

  /** The two lines store the record and then finish with the memory it leaves. */
  lemma SingleRecordScan(address: u16, bytes: seq<u8>) returns (st: Loaded)
    requires 0 < |bytes| < 0x100 && address + |bytes| <= MAX_ADDRESS + 1
    ensures Tracked(st) && st.lowest == address && st.highest == address + |bytes| - 1
    ensures forall k :: 0 <= k < |bytes| ==> st.mem[address + k] == bytes[k]
    ensures forall a :: 0 <= a < |st.mem| && !(address <= a < address + |bytes|) ==> st.mem[a] == 0
    ensures Converted([EncodeRecord(address, bytes), ":00000001FF\n"]) == FinishAsWritten(st, 2)
  {
    var lines := [EncodeRecord(address, bytes), ":00000001FF\n"];
    EncodeRecordRoundTrip(address, bytes);
    EndOfFileRecord();
    st := Store(Initial(), address, bytes);
    StoreKeepsTracked(Initial(), address, bytes);
    StoreWrites(Initial(), address, bytes);
    assert Scan(lines, 1, st) == FinishAsWritten(st, 2);
    assert Converted(lines) == Scan(lines, 1, st);
  }

  /** Store one record into the memory array, widening the tracked range byte by byte. */
  method StoreRecord(memory: array<u8>, lowest: nat, highest: nat, address: nat, bytes: seq<u8>)
    returns (newLowest: nat, newHighest: nat)
    requires memory.Length == MAX_ADDRESS + 1 && address + |bytes| <= memory.Length
    requires lowest <= MAX_ADDRESS && highest <= MAX_ADDRESS
    modifies memory
    ensures newLowest <= MAX_ADDRESS && newHighest <= MAX_ADDRESS
    ensures Loaded(memory[..], newLowest, newHighest) == Store(Loaded(old(memory[..]), lowest, highest), address, bytes)
  {
    ghost var before := Loaded(memory[..], lowest, highest);
    newLowest, newHighest := lowest, highest;
    var k := 0;
    while k < |bytes|
      invariant 0 <= k <= |bytes| && newLowest <= MAX_ADDRESS && newHighest <= MAX_ADDRESS
      invariant Store(before, address, bytes) == Store(Loaded(memory[..], newLowest, newHighest), address + k, bytes[k..])
    {
      var a := address + k;
      if a < newLowest {
        newLowest := a;
      }
      if a > newHighest {
        newHighest := a;
      }
      memory[a] := bytes[k];
      k := k + 1;
    }
  }

  /** Copy the inclusive range `lowest..highest` of the memory out, byte by byte. */
  method CopyRange(memory: array<u8>, lowest: nat, highest: nat) returns (image: seq<u8>)
    requires lowest <= highest < memory.Length
    ensures image == memory[lowest..highest + 1]
  {
    image := [];
    var a := lowest;
    while a <= highest
      invariant lowest <= a <= highest + 1
      invariant image == memory[lowest..a]
    {
      image := image + [memory[a]];
      a := a + 1;
    }
  }

  /**
   * The converter: load every data record into a zeroed 64 KiB memory while
   * tracking the lowest and highest address, stop at an end-of-file record
   * or ^Z, then copy the padded range out once the check that it holds
   * more than one byte has passed.
   */
  method Convert(lines: seq<seq<char>>) returns (r: Outcome)
    ensures r == Converted(lines)
  {
    var memory := new u8[MAX_ADDRESS + 1](_ => 0);
    var lowest: nat, highest: nat := MAX_ADDRESS, 0;
    assert memory[..] == Initial().mem;
    var i := 0;
    var lineCount := |lines|;
    while i < |lines|
      invariant 0 <= i <= |lines| && lowest <= MAX_ADDRESS && highest <= MAX_ADDRESS
      invariant Tracked(Loaded(memory[..], lowest, highest))
      invariant Converted(lines) == Scan(lines, i, Loaded(memory[..], lowest, highest))
      invariant lineCount == |lines|
      decreases |lines| - i
    {
      var line := ParseLine(lines[i]);
      if line.EndOfData? {
        assert Converted(lines) == FinishAsWritten(Loaded(memory[..], lowest, highest), i + 1);
        lineCount := i + 1;
        break;
      } else if line.BadLine? {
        return Failure(Line(line.error), i + 1);
      }
      StoreKeepsTracked(Loaded(memory[..], lowest, highest), line.address, line.bytes);
      lowest, highest := StoreRecord(memory, lowest, highest, line.address, line.bytes);
      i := i + 1;
    }
    ghost var st := Loaded(memory[..], lowest, highest);
    assert Converted(lines) == FinishAsWritten(st, lineCount);
    highest := highest + (OUTPUT_RECORD_SIZE - highest % OUTPUT_RECORD_SIZE - 1);
    if !(lowest < highest) {
      return Failure(NoDataRange, lineCount);
    }
    PaddingStaysInMemory(lowest, st.highest);
    var image := CopyRange(memory, lowest, highest);
    r := Success(lowest, highest, image);
  }
}
