/**
 * The Z80 CPU's data model as declared in z80.h: register pairs with byte
 * and word views, the F register split into seven tracked bits plus a
 * separate carry, the contents of the four precomputed flag tables, the
 * interrupt state and the per-address breakpoint table. The instruction
 * interpreter itself is not part of this model.
 */
module Z80Registers {
  import opened Types

  /** A 16-bit register addressable as a word or as its high and low bytes. */
  datatype RegisterPair = RegisterPair(hi: u8, lo: u8)
  {
    /** The word view: the high byte is always bits 8..15. */
    function Word(): u16 { hi * 0x100 + lo }

    function WithHi(v: u8): (r: RegisterPair)
      ensures r.hi == v && r.lo == lo
    {
      this.(hi := v)
    }

    function WithLo(v: u8): (r: RegisterPair)
      ensures r.lo == v && r.hi == hi
    {
      this.(lo := v)
    }
  }

  /** The pair whose word view is `w`. */
  function PairOf(w: u16): (p: RegisterPair)
    ensures p.Word() == w
  {
    RegisterPair(w / 0x100, w % 0x100)
  }

  /** Byte and word views are one store: each determines the other. */
  lemma PairViewsAgree(p: RegisterPair, w: u16)
    ensures PairOf(p.Word()) == p
    ensures PairOf(w).hi == w / 0x100 && PairOf(w).lo == w % 0x100
  {
  }

  /** Writing one half changes the word by exactly that byte's weight. */
  lemma HalfWriteChangesWord(p: RegisterPair, v: u8)
    ensures p.WithHi(v).Word() == v * 0x100 + p.lo
    ensures p.WithLo(v).Word() == p.hi * 0x100 + v
  {
  }

  // ----- Flag bits of the F register -----

  const CARRY_MASK: bv8 := 0x01
  const ADDSUB_MASK: bv8 := 0x02
  const PARITY_MASK: bv8 := 0x04
  const OVERFLOW_MASK: bv8 := 0x04   // alias of PARITY_MASK
  const BIT3_MASK: bv8 := 0x08
  const HALFCARRY_MASK: bv8 := 0x10
  const BIT5_MASK: bv8 := 0x20
  const ZERO_MASK: bv8 := 0x40
  const SIGN_MASK: bv8 := 0x80

  const FLAG_53_MASK: bv8 := BIT5_MASK | BIT3_MASK
  const FLAG_SZ_MASK: bv8 := SIGN_MASK | ZERO_MASK
  const FLAG_SZHN_MASK: bv8 := FLAG_SZ_MASK | HALFCARRY_MASK | ADDSUB_MASK
  const FLAG_SZP_MASK: bv8 := FLAG_SZ_MASK | PARITY_MASK
  const FLAG_SZHP_MASK: bv8 := FLAG_SZP_MASK | HALFCARRY_MASK

  /** One flag of the F register. */
  datatype Flag = Carry | AddSub | ParOver | Bit3 | HalfCarry | Bit5 | Zero | Sign

  function Mask(f: Flag): bv8
  {
    match f
    case Carry => CARRY_MASK
    case AddSub => ADDSUB_MASK
    case ParOver => PARITY_MASK
    case Bit3 => BIT3_MASK
    case HalfCarry => HALFCARRY_MASK
    case Bit5 => BIT5_MASK
    case Zero => ZERO_MASK
    case Sign => SIGN_MASK
  }

  /** The eight masks are distinct single bits that together cover the F byte; overflow aliases parity. */
  lemma FlagMasksPartitionF(f: Flag, g: Flag)
    ensures f != g ==> Mask(f) & Mask(g) == 0
    ensures Mask(f) != 0 && Mask(f) & (Mask(f) - 1) == 0
    ensures CARRY_MASK | ADDSUB_MASK | PARITY_MASK | BIT3_MASK
            | HALFCARRY_MASK | BIT5_MASK | ZERO_MASK | SIGN_MASK == 0xFF
    ensures OVERFLOW_MASK == PARITY_MASK
  {
  }

  lemma CompositeMaskValues()
    ensures FLAG_53_MASK == 0x28 && FLAG_SZ_MASK == 0xC0 && FLAG_SZHN_MASK == 0xD2
    ensures FLAG_SZP_MASK == 0xC4 && FLAG_SZHP_MASK == 0xD4
  {
  }

  // ----- The four precomputed flag tables -----

  /** Number of set bits among the low `n` bits of `v`. */
  function PopCount(v: bv8, n: nat): nat
    requires n <= 8
  {
    if n == 0 then 0 else (if v & 1 != 0 then 1 else 0) + PopCount(v >> 1, n - 1)
  }

  /** An even number of the eight bits is set. */
  predicate EvenParity(v: bv8) { PopCount(v, 8) % 2 == 0 }

  /** Sign, zero, bit 5 and bit 3 of a result; every other bit clear. */
  function SZ53(v: bv8): bv8
  {
    (v & (SIGN_MASK | FLAG_53_MASK)) | (if v == 0 then ZERO_MASK else 0)
  }

  /** An entry of one of the four tables: `withParity` selects the `pn` tables, `sub` the sub tables. */
  function TableEntry(v: bv8, withParity: bool, sub: bool): bv8
  {
    SZ53(v) | (if withParity && EvenParity(v) then PARITY_MASK else 0) | (if sub then ADDSUB_MASK else 0)
  }

  /** `sz53n_addTable`: ADDSUB clear, parity not computed. */
  function SZ53nAdd(v: bv8): bv8 { TableEntry(v, false, false) }
  /** `sz53pn_addTable`: ADDSUB clear, parity computed. */
  function SZ53pnAdd(v: bv8): bv8 { TableEntry(v, true, false) }
  /** `sz53n_subTable`: ADDSUB set, parity not computed. */
  function SZ53nSub(v: bv8): bv8 { TableEntry(v, false, true) }
  /** `sz53pn_subTable`: ADDSUB set, parity computed. */
  function SZ53pnSub(v: bv8): bv8 { TableEntry(v, true, true) }

  /**
   * What the tables hold: sign is bit 7 of the result, zero is set exactly for
   * 0, bits 5 and 3 are copied, ADDSUB separates the add from the sub tables,
   * only the `pn` tables carry parity, and half-carry and carry are always 0.
   */
  lemma FlagTableContents(v: bv8)
    ensures SZ53nAdd(v) & SIGN_MASK == v & SIGN_MASK
    ensures SZ53nAdd(v) & ZERO_MASK != 0 <==> v == 0
    ensures SZ53nAdd(v) & FLAG_53_MASK == v & FLAG_53_MASK
    ensures SZ53nAdd(v) & ADDSUB_MASK == 0 && SZ53pnAdd(v) & ADDSUB_MASK == 0
    ensures SZ53nSub(v) & ADDSUB_MASK != 0 && SZ53pnSub(v) & ADDSUB_MASK != 0
    ensures SZ53nAdd(v) & PARITY_MASK == 0 && SZ53nSub(v) & PARITY_MASK == 0
    ensures SZ53pnAdd(v) & PARITY_MASK != 0 <==> EvenParity(v)
    ensures SZ53pnSub(v) & PARITY_MASK != 0 <==> EvenParity(v)
    ensures (SZ53nAdd(v) | SZ53pnAdd(v) | SZ53nSub(v) | SZ53pnSub(v)) & (HALFCARRY_MASK | CARRY_MASK) == 0
    ensures SZ53pnAdd(v) & !PARITY_MASK == SZ53nAdd(v) && SZ53nSub(v) & !ADDSUB_MASK == SZ53nAdd(v)
  {
  }

  // ----- The F register -----

  /** `getFlags`: the seven tracked bits with the separate carry in bit 0. */
  function FlagsOf(sz5h3pn: bv8, carry: bool): bv8
  {
    sz5h3pn | (if carry then CARRY_MASK else 0)
  }

  /** The two halves of F that `setFlags` stores. */
  function TrackedBits(f: bv8): bv8 { f & !CARRY_MASK }
  function CarryBit(f: bv8): bool { f & CARRY_MASK != 0 }

  /** Splitting F and recombining it is the identity in both directions. */
  lemma FlagsRoundTrip(f: bv8, sz5h3pn: bv8, carry: bool)
    ensures FlagsOf(TrackedBits(f), CarryBit(f)) == f
    ensures sz5h3pn & CARRY_MASK == 0 ==>
      TrackedBits(FlagsOf(sz5h3pn, carry)) == sz5h3pn && CarryBit(FlagsOf(sz5h3pn, carry)) == carry
  {
  }

  // ----- The refresh register -----

  /** `getRegR`: the 7-bit counter with the separately held bit 7 on top. */
  function RValue(regR: u8, bit7: bool): u8
  {
    regR % 0x80 + (if bit7 then 0x80 else 0)
  }

  /** Incrementing the 8-bit counter `k` times never disturbs bit 7 of R. */
  lemma RefreshKeepsBit7(regR: u8, bit7: bool, k: nat)
    ensures (RValue((regR + k) % 0x100, bit7) >= 0x80) == bit7
    ensures RValue((regR + k) % 0x100, bit7) % 0x80 == (regR + k) % 0x80
  {
    var r := (regR + k) % 0x100;
    assert r % 0x80 == (regR + k) % 0x80;
  }

  // ----- The IY macros of z80.h as written -----

  /** `REG_IY`, `REG_IYh`, `REG_IYl` expand to `regHL`, not `regIY`. */
  function IYViewAsWritten(regHL: RegisterPair, regIY: RegisterPair): RegisterPair { regHL }

  /** Storing through `REG_IYh` as written: (new HL, new IY). */
  function SetIYhAsWritten(regHL: RegisterPair, regIY: RegisterPair, v: u8): (RegisterPair, RegisterPair)
  {
    (regHL.WithHi(v), regIY)
  }

  /**
   * Whenever HL and IY hold different words (HL = 0 and IY = 0x1234, say),
   * `REG_IY` reads HL's word, and writing `REG_IYh` changes H and leaves IY as it was.
   */
  lemma IYMacrosAliasHL(regHL: RegisterPair, regIY: RegisterPair, v: u8)
    requires regHL.Word() != regIY.Word()
    ensures IYViewAsWritten(regHL, regIY).Word() != regIY.Word()
    ensures SetIYhAsWritten(regHL, regIY, v).0.hi == v
    ensures SetIYhAsWritten(regHL, regIY, v).1 == regIY
  {
  }

  /** `REG_IY` as intended: the IY pair. */
  function IYView(regHL: RegisterPair, regIY: RegisterPair): (r: RegisterPair)
    ensures r.Word() == regIY.Word()
  {
    regIY
  }

  // ----- The CPU state -----

  datatype IntMode = IM0 | IM1 | IM2

  const ADDRESS_SPACE: nat := 0x1_0000

  class Z80 {
    var regA: u8
    /** Sign, zero, 5, half-carry, 3, parity and ADDSUB; bit 0 is always clear. */
    var sz5h3pnFlags: bv8
    /** The carry flag, kept apart from the other flags. */
    var carryFlag: bool
    var regBC: RegisterPair
    var regBCx: RegisterPair
    var regDE: RegisterPair
    var regDEx: RegisterPair
    var regHL: RegisterPair
    var regHLx: RegisterPair
    /** Whether F was modified by the current and by the previous instruction. */
    var flagQ: bool
    var lastFlagQ: bool
    var regAFx: RegisterPair
    var regPC: u16
    var regIX: RegisterPair
    var regIY: RegisterPair
    var regSP: u16
    var regI: u8
    /** The refresh counter; only its low 7 bits are visible. */
    var regR: u8
    var regRbit7: bool
    var ffIFF1: bool
    var ffIFF2: bool
    /** An EI whose one-instruction delay has not yet elapsed. */
    var pendingEI: bool
    var activeNMI: bool
    var activeINT: bool
    var modeINT: IntMode
    var halted: bool
    var pinReset: bool
    /** The hidden address latch. */
    var memptr: u16

    /** One flag per address: notify before executing the instruction there. */
    const breakpointAt: array<bool>

    ghost predicate Valid()
      reads this
    {
      && sz5h3pnFlags & CARRY_MASK == 0
      && breakpointAt.Length == ADDRESS_SPACE
    }

    /**
     * Construction: the interrupt fields take the defaults of their
     * declarations and no breakpoint is set.
     */
    constructor ()
      ensures Valid()
      ensures !ffIFF1 && !ffIFF2 && !pendingEI && !activeNMI && !activeINT && !halted && !pinReset
      ensures modeINT == IM0
      ensures forall a: u16 :: !breakpointAt[a]
      ensures fresh(breakpointAt)
    {
      ffIFF1, ffIFF2, pendingEI, activeNMI, activeINT := false, false, false, false, false;
      modeINT := IM0;
      halted, pinReset := false, false;
      regA, sz5h3pnFlags, carryFlag := 0, 0, false;
      var zero := RegisterPair(0, 0);
      regBC, regBCx, regDE, regDEx := zero, zero, zero, zero;
      regHL, regHLx, regAFx, regIX, regIY := zero, zero, zero, zero, zero;
      flagQ, lastFlagQ := false, false;
      regPC, regSP, regI, regR, regRbit7, memptr := 0, 0, 0, 0, false, 0;
      var table := new bool[ADDRESS_SPACE];
      forall a | 0 <= a < ADDRESS_SPACE {
        table[a] := false;
      }
      breakpointAt := table;
    }

    // ----- The F and R registers -----

    /** `getFlags`. */
    function Flags(): bv8 reads this { FlagsOf(sz5h3pnFlags, carryFlag) }

    /** `setFlags`: afterwards `getFlags` returns exactly the byte stored. */
    method SetFlags(f: bv8)
      requires Valid()
      modifies this`sz5h3pnFlags, this`carryFlag
      ensures Valid() && Flags() == f
      ensures regA == old(regA) && regR == old(regR) && regRbit7 == old(regRbit7)
    {
      sz5h3pnFlags, carryFlag := TrackedBits(f), CarryBit(f);
      FlagsRoundTrip(f, 0, false);
    }

    /** `getRegR`. */
    function RegR(): u8 reads this { RValue(regR, regRbit7) }

    /** `setRegR`: afterwards `getRegR` returns exactly the byte stored. */
    method SetRegR(v: u8)
      modifies this`regR, this`regRbit7
      ensures RegR() == v
      ensures regA == old(regA) && regI == old(regI) && Flags() == old(Flags())
    {
      regR, regRbit7 := v % 0x80, v >= 0x80;
    }

    /** `getPairIR`: I in the high byte, R in the low byte. */
    function PairIR(): (r: u16)
      reads this
      ensures r / 0x100 == regI && r % 0x100 == RegR()
    {
      RegisterPair(regI, RegR()).Word()
    }

    // ----- Interrupt state -----

    method SetIFF1(state: bool) modifies this`ffIFF1 ensures ffIFF1 == state && ffIFF2 == old(ffIFF2) { ffIFF1 := state; }
    method SetIFF2(state: bool) modifies this`ffIFF2 ensures ffIFF2 == state && ffIFF1 == old(ffIFF1) { ffIFF2 := state; }
    method SetNMI(nmi: bool) modifies this`activeNMI ensures activeNMI == nmi && ffIFF1 == old(ffIFF1) && ffIFF2 == old(ffIFF2) { activeNMI := nmi; }
    /** The NMI line is edge triggered: a pulse leaves a pending request. */
    method TriggerNMI() modifies this`activeNMI ensures activeNMI { activeNMI := true; }
    /** The INT line is level triggered. */
    method SetINTLine(intLine: bool) modifies this`activeINT ensures activeINT == intLine { activeINT := intLine; }
    method SetIM(mode: IntMode) modifies this`modeINT ensures modeINT == mode && ffIFF1 == old(ffIFF1) && ffIFF2 == old(ffIFF2) { modeINT := mode; }
    method SetHalted(state: bool) modifies this`halted ensures halted == state && ffIFF1 == old(ffIFF1) && ffIFF2 == old(ffIFF2) { halted := state; }
    /** A reset requested through the /RESET pin. */
    method SetPinReset() modifies this`pinReset ensures pinReset && ffIFF1 == old(ffIFF1) && ffIFF2 == old(ffIFF2) { pinReset := true; }
    method SetPendingEI(state: bool) modifies this`pendingEI ensures pendingEI == state && ffIFF1 == old(ffIFF1) && ffIFF2 == old(ffIFF2) { pendingEI := state; }

    // ----- Breakpoints -----

    function IsBreakpoint(address: u16): bool
      reads this, breakpointAt
      requires Valid()
    {
      breakpointAt[address]
    }

    /** Set the flag of one address; every other address keeps its flag. */
    method SetBreakpoint(address: u16, state: bool)
      requires Valid()
      modifies breakpointAt
      ensures IsBreakpoint(address) == state
      ensures forall a: u16 :: a != address ==> IsBreakpoint(a) == old(IsBreakpoint(a))
    {
      breakpointAt[address] := state;
    }

    method ResetBreakpoints()
      requires Valid()
      modifies breakpointAt
      ensures forall a: u16 :: !IsBreakpoint(a)
    {
      forall a | 0 <= a < ADDRESS_SPACE {
        breakpointAt[a] := false;
      }
    }
  }
}
