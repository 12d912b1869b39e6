/**
 * The Z80 address space: one global 64 KiB byte array, a reset vector poked
 * at construction, the system image loaded at MEM_CCP, and DMA windows into
 * it for the disk ports.
 */
module Z80Memory {
  import opened Types
  import opened Config

  /** The three bytes the constructor pokes at address 0: `JP MEM_BIOS`. */
  const JP_OPCODE: u8 := 0xC3

  function ResetVector(): (r: seq<u8>)
    ensures r == [0xC3, 0x00, 0xF2]
  {
    [JP_OPCODE, MEM_BIOS % 0x100, MEM_BIOS / 0x100]
  }

  /**
   * `GetDMAPointer` as written: the wrap test `usAddress + usLength < usAddress`
   * is evaluated after promotion to `int`, where it is never true.
   */
  function DMAWindowAsWritten(address: u16, length: u16): (r: Option<u16>)
    ensures r.Some? ==> r.value == address
  {
    if address + length < address then None else Some(address)
  }

  /** As written the null branch is unreachable: every window is handed out. */
  lemma AsWrittenNeverRefuses(address: u16, length: u16)
    ensures DMAWindowAsWritten(address, length) == Some(address)
  {
  }

  /** A sector transfer at DMA address 0xFFF0 is handed a window that runs past the array. */
  lemma AsWrittenOverrunsMemory()
    ensures DMAWindowAsWritten(0xFFF0, SECTOR_SIZE) == Some(0xFFF0)
    ensures 0xFFF0 + SECTOR_SIZE > Z80_RAM_SIZE
  {
  }

  /**
   * `GetDMAPointer` as intended: the start of a window of `length` bytes at
   * `address`, or None when the window would wrap past 0xFFFF.
   */
  function DMAWindow(address: u16, length: u16): (r: Option<u16>)
    ensures r.Some? <==> address + length <= Z80_RAM_SIZE
    ensures r.Some? ==> r.value == address && r.value + length <= Z80_RAM_SIZE
  {
    if address + length > Z80_RAM_SIZE then None else Some(address)
  }

  /** The two agree exactly on the windows that fit. */
  lemma DMAWindowRefinesAsWritten(address: u16, length: u16)
    ensures DMAWindow(address, length).Some? ==> DMAWindow(address, length) == DMAWindowAsWritten(address, length)
  {
  }

  /** A system image of SYSTEM_MINSIZE .. SYSTEM_MAXSIZE bytes at MEM_CCP ends below 0x10000 and covers the BIOS entry. */
  lemma SystemImageFits(size: nat)
    requires SYSTEM_MINSIZE <= size <= SYSTEM_MAXSIZE
    ensures MEM_CCP + size <= Z80_RAM_SIZE
    ensures MEM_CCP + size > MEM_BIOS
  {
  }

  class Memory {
    /** The global `memory[]` array. */
    var mem: array<u8>

    ghost predicate Valid() reads this { mem.Length == Z80_RAM_SIZE }

    /** Static storage starts zeroed; the constructor pokes `JP MEM_BIOS` at 0..2. */
    constructor ()
      ensures Valid() && fresh(mem)
      ensures mem[..3] == ResetVector()
      ensures forall i :: 3 <= i < Z80_RAM_SIZE ==> mem[i] == 0
    {
      var m := new u8[Z80_RAM_SIZE](_ => 0);
      var v := ResetVector();
      m[0] := v[0];
      m[1] := v[1];
      m[2] := v[2];
      mem := m;
    }

    /**
     * Load the system image file at MEM_CCP: reads up to SYSTEM_MAXSIZE bytes
     * and fails when fewer than SYSTEM_MINSIZE were read (the bytes read stay
     * in memory even then).
     */
    method Initialize(file: Option<seq<u8>>) returns (ok: bool)
      requires Valid()
      modifies mem
      ensures file.None? ==> !ok && mem[..] == old(mem[..])
      ensures file.Some? ==>
        var n := if |file.value| < SYSTEM_MAXSIZE then |file.value| else SYSTEM_MAXSIZE;
        && ok == (n >= SYSTEM_MINSIZE)
        && mem[..] == old(mem[..])[..MEM_CCP] + file.value[..n] + old(mem[..])[MEM_CCP + n..]
    {
      if file.None? {
        return false;
      }
      var data := file.value;
      var n := if |data| < SYSTEM_MAXSIZE then |data| else SYSTEM_MAXSIZE;
      forall i | MEM_CCP <= i < MEM_CCP + n {
        mem[i] := data[i - MEM_CCP];
      }
      ok := n >= SYSTEM_MINSIZE;
    }
  }
}
