/**
 * The console device: a one-byte key buffer (0 means empty) filled by the
 * keyboard and emptied by the CPU's reads, plus the character output stream.
 * The tty / USB keyboard and screen drivers are abstracted: a key that the
 * device delivers is a parameter, and characters written are appended to
 * `output`.
 */
module Console {
  import opened Types

  const LF: u8 := 0x0A
  const CR: u8 := 0x0D
  const BS: u8 := 0x08
  const DEL: u8 := 0x7F

  /** What `GetChar` hands to CP/M for a received byte: LF becomes CR, DEL becomes BS. */
  function Translate(c: u8): (r: u8)
    ensures r != LF && r != DEL
    ensures c != LF && c != DEL ==> r == c
    ensures c == LF ==> r == CR
    ensures c == DEL ==> r == BS
  {
    var t := if c == LF then CR else c;
    if t == DEL then BS else t
  }

  /** The key buffer after the keyboard handler has seen `keys` in order. */
  function BufferAfterKeys(buf: u8, keys: seq<u8>): u8
    decreases |keys|
  {
    if keys == [] then buf
    else BufferAfterKeys(if buf == 0 then keys[0] else buf, keys[1..])
  }

  /** A pending key survives any number of further key presses. */
  lemma {:induction false} PendingKeyIsKept(buf: u8, keys: seq<u8>)
    requires buf != 0
    ensures BufferAfterKeys(buf, keys) == buf
    decreases |keys|
  {
    if keys != [] {
      PendingKeyIsKept(buf, keys[1..]);
    }
  }

  /** Into an empty buffer, the first non-zero key pressed is the one kept. */
  lemma {:induction false} FirstKeyWins(keys: seq<u8>, i: nat)
    requires i < |keys| && keys[i] != 0
    requires forall j :: 0 <= j < i ==> keys[j] == 0
    ensures BufferAfterKeys(0, keys) == keys[i]
    decreases i
  {
    if i == 0 {
      PendingKeyIsKept(keys[0], keys[1..]);
    } else {
      FirstKeyWins(keys[1..], i - 1);
    }
  }

  /** Outcome of the host build's non-blocking poll of stdin in `GetStatus`. */
  datatype Poll = SelectFailed | Timeout | ReadFailed | Received(key: u8)

  class Console {
    /** `m_ucCharBuf`: the pending key, 0 when none. */
    var charBuf: u8
    /** Every byte `PutChar` has written to the screen, in order. */
    var output: seq<u8>

    constructor ()
      ensures charBuf == 0 && output == []
    {
      charBuf := 0;
      output := [];
    }

    method PutChar(c: u8)
      modifies this
      ensures output == old(output) + [c] && charBuf == old(charBuf)
    {
      output := output + [c];
    }

    /** Circle build: a key is available exactly when the buffer is non-zero; nothing is consumed. */
    method GetStatus() returns (available: bool)
      ensures available <==> charBuf != 0
    {
      available := charBuf != 0;
    }

    /**
     * Host build: with an empty buffer, polls stdin once; a received byte is
     * stored and reported as available (even a 0 byte), a failed read clears
     * the buffer.
     */
    method GetStatusHost(poll: Poll) returns (available: bool)
      modifies this
      ensures old(charBuf) != 0 ==> available && charBuf == old(charBuf)
      ensures old(charBuf) == 0 ==> available == poll.Received? && charBuf == (if poll.Received? then poll.key else 0)
      ensures output == old(output)
    {
      if charBuf == 0 {
        match poll {
          case SelectFailed => return false;
          case Timeout => return false;
          case ReadFailed => charBuf := 0; return false;
          case Received(k) => charBuf := k;
        }
      }
      available := true;
    }

    /**
     * Take the pending key, or `key` (the next byte the device delivers) when
     * none is pending; the buffer is empty afterwards.
     */
    method GetChar(key: u8) returns (c: u8)
      modifies this
      ensures c == Translate(if old(charBuf) != 0 then old(charBuf) else key)
      ensures charBuf == 0 && output == old(output)
    {
      if charBuf == 0 {
        charBuf := key;
      }
      var result := charBuf;
      charBuf := 0;
      c := Translate(result);
    }

    /** The keyboard interrupt: stores the first byte of the key string only into an empty buffer. */
    method KeyPressedHandler(s: seq<u8>)
      modifies this
      ensures charBuf == BufferAfterKeys(old(charBuf), [if s == [] then 0 else s[0]])
      ensures old(charBuf) != 0 ==> charBuf == old(charBuf)
      ensures output == old(output)
    {
      if charBuf == 0 {
        charBuf := if s == [] then 0 else s[0];
      }
    }
  }
}
