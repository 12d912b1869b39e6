/**
 * The emulated machine's I/O ports: console status/input/output, the disk
 * controller registers (track, sector, DMA address, status) and the control
 * port. Only the low 8 bits of a port number are decoded.
 */
module Z80Ports {
  import opened Types
  import opened Config
  import Z80Memory
  import Console
  import RamDisk

  // Console
  const PortConsoleStatus: u8 := 0x00    // in
  const PortConsoleInput: u8 := 0x01     // in
  const PortConsoleOutput: u8 := 0x02    // out
  const PORT_CONSOLE_EMPTY: u8 := 0x00
  const PORT_CONSOLE_FULL: u8 := 0x01

  // Disk
  const PortDiskTrack: u8 := 0x10        // out
  const PortDiskSector: u8 := 0x11       // out
  const PortDiskDMALow: u8 := 0x12       // out
  const PortDiskDMAHigh: u8 := 0x13      // out
  const PortDiskOperation: u8 := 0x14    // out
  const PORT_DISK_READ: u8 := 0x01
  const PORT_DISK_WRITE: u8 := 0x02
  const PortDiskStatus: u8 := 0x15       // in
  const PORT_DISK_STATUS_OK: u8 := 0x00
  const PORT_DISK_STATUS_ERROR: u8 := 0x01

  // Control
  const PortControl: u8 := 0xE0          // out
  const PORT_CONTROL_SAVE: u8 := 0x53    // 'S'
  const PORT_CONTROL_QUIT: u8 := 0x51    // 'Q'

  /** The port number the device decodes: `usPort &= 0xFF`. */
  function DecodePort(port: u16): (r: u8)
    ensures (port - r) % 0x100 == 0
  {
    port % 0x100
  }

  /** The high byte of a port number (the B register of an `OUT (C)`) never selects a device. */
  lemma PortDecodingIgnoresHighByte(high: u8, low: u8)
    ensures DecodePort(high * 0x100 + low) == low
  {
  }

  /** The DMA address after a write to the DMA-low port: only the low byte is replaced. */
  function WithDMALow(dma: u16, value: u8): (r: u16)
    ensures Hi(r) == Hi(dma) && Lo(r) == value
  {
    (dma / 0x100) * 0x100 + value
  }

  /** The DMA address after a write to the DMA-high port: only the high byte is replaced. */
  function WithDMAHigh(dma: u16, value: u8): (r: u16)
    ensures Hi(r) == value && Lo(r) == Lo(dma)
  {
    value * 0x100 + dma % 0x100
  }

  /** Writing L to DMA-low and then H to DMA-high (or the other way round) gives H*256 + L. */
  lemma DMAAddressFromBytes(dma: u16, low: u8, high: u8)
    ensures WithDMAHigh(WithDMALow(dma, low), high) == high * 0x100 + low
    ensures WithDMALow(WithDMAHigh(dma, high), low) == high * 0x100 + low
  {
  }

  /** The RAM disk sector a disk operation addresses. */
  function DiskSectorNumber(track: u8, sector: u8): (n: nat)
    ensures n == SECTORS_PER_TRACK * track + sector
    ensures n < 0x1FF_FFFF
    ensures RamDisk.AcceptsAsWritten(n) <==> RamDisk.ValidSector(n)
  {
    RamDisk.AsWrittenAgreesBelowWrap(SECTORS_PER_TRACK * track + sector);
    SECTORS_PER_TRACK * track + sector
  }

  /** A request the control port passes to a collaborator outside this model. */
  datatype ControlRequest = NoRequest | SaveDisk | Shutdown

  /** The control port's decoding of a written value. */
  function ControlRequestOf(value: u8): (r: ControlRequest)
    ensures r == SaveDisk <==> value == 'S' as int
    ensures r == Shutdown <==> value == 'Q' as int
  {
    if value == PORT_CONTROL_SAVE then SaveDisk
    else if value == PORT_CONTROL_QUIT then Shutdown
    else NoRequest
  }

  class Z80Ports {
    const memory: Z80Memory.Memory
    const console: Console.Console
    const ramDisk: RamDisk.RAMDisk

    var diskTrack: u8
    var diskSector: u8
    var dmaAddress: u16
    /** `m_bDiskStatus`: true after a successful disk operation. */
    var diskStatus: bool

    ghost predicate Valid()
      reads this, memory, ramDisk
    {
      memory.Valid() && ramDisk.Valid() && memory.mem != ramDisk.buffer
    }

    constructor (memory: Z80Memory.Memory, console: Console.Console, ramDisk: RamDisk.RAMDisk)
      requires memory.Valid() && ramDisk.Valid() && memory.mem != ramDisk.buffer
      ensures Valid()
      ensures this.memory == memory && this.console == console && this.ramDisk == ramDisk
      ensures diskTrack == 0 && diskSector == 0 && dmaAddress == 0x80 && !diskStatus
    {
      this.memory := memory;
      this.console := console;
      this.ramDisk := ramDisk;
      diskTrack := 0;
      diskSector := 0;
      dmaAddress := 0x80;
      diskStatus := false;
    }

    /**
     * Read a port. `key` is the byte the console delivers if a console input
     * finds its buffer empty. Unknown ports read 0xFF.
     */
    method PortInput(port: u16, key: u8) returns (v: u8)
      requires Valid()
      modifies console
      ensures var p := DecodePort(port);
        && (p == PortConsoleStatus ==>
              v == (if old(console.charBuf) != 0 then PORT_CONSOLE_FULL else PORT_CONSOLE_EMPTY)
              && console.charBuf == old(console.charBuf))
        && (p == PortConsoleInput ==>
              v == Console.Translate(if old(console.charBuf) != 0 then old(console.charBuf) else key)
              && console.charBuf == 0)
        && (p == PortDiskStatus ==>
              v == (if diskStatus then PORT_DISK_STATUS_OK else PORT_DISK_STATUS_ERROR))
        && (p != PortConsoleStatus && p != PortConsoleInput && p != PortDiskStatus ==> v == 0xFF)
        && (p != PortConsoleInput ==> console.charBuf == old(console.charBuf))
      ensures console.output == old(console.output)
    {
      var p := DecodePort(port);
      if p == PortConsoleStatus {
        var available := console.GetStatus();
        v := if available then PORT_CONSOLE_FULL else PORT_CONSOLE_EMPTY;
      } else if p == PortConsoleInput {
        v := console.GetChar(key);
      } else if p == PortDiskStatus {
        v := if diskStatus then PORT_DISK_STATUS_OK else PORT_DISK_STATUS_ERROR;
      } else {
        v := 0xFF;
      }
    }

    /**
     * Write a port. Disk operations transfer one sector between the RAM disk
     * and the 128-byte DMA window of memory; the control port's save and quit
     * requests are returned to the caller.
     */
    method PortOutput(port: u16, value: u8) returns (request: ControlRequest)
      requires Valid()
      modifies this, console, memory.mem, ramDisk.buffer
      ensures Valid()
      ensures var p := DecodePort(port);
        && request == (if p == PortControl then ControlRequestOf(value) else NoRequest)
        && console.output == old(console.output) + (if p == PortConsoleOutput then [value] else [])
        && console.charBuf == old(console.charBuf)
        && diskTrack == (if p == PortDiskTrack then value else old(diskTrack))
        && diskSector == (if p == PortDiskSector then value else old(diskSector))
        && dmaAddress == (if p == PortDiskDMALow then WithDMALow(old(dmaAddress), value)
                          else if p == PortDiskDMAHigh then WithDMAHigh(old(dmaAddress), value)
                          else old(dmaAddress))
        && (p != PortDiskOperation ==> diskStatus == old(diskStatus))
        && (p != PortDiskOperation || value != PORT_DISK_READ ==> memory.mem[..] == old(memory.mem[..]))
        && (p != PortDiskOperation || value != PORT_DISK_WRITE ==> ramDisk.buffer[..] == old(ramDisk.buffer[..]))
      ensures DecodePort(port) == PortDiskOperation ==>
        var sector := DiskSectorNumber(diskTrack, diskSector);
        var window := Z80Memory.DMAWindow(dmaAddress, SECTOR_SIZE);
        && diskStatus == (window.Some? && (value == PORT_DISK_READ || value == PORT_DISK_WRITE)
                          && RamDisk.ValidSector(sector))
        && (diskStatus && value == PORT_DISK_READ ==>
              memory.mem[..] == old(memory.mem[..])[..dmaAddress]
                                + RamDisk.SectorOf(ramDisk.buffer[..], sector)
                                + old(memory.mem[..])[dmaAddress + SECTOR_SIZE..])
        && (!diskStatus ==> memory.mem[..] == old(memory.mem[..]))
        && (diskStatus && value == PORT_DISK_WRITE ==>
              ramDisk.buffer[..] == RamDisk.WithSector(old(ramDisk.buffer[..]), sector,
                                                       memory.mem[dmaAddress..dmaAddress + SECTOR_SIZE]))
        && (!diskStatus ==> ramDisk.buffer[..] == old(ramDisk.buffer[..]))
    {
      request := NoRequest;
      var p := DecodePort(port);
      if p == PortConsoleOutput {
        console.PutChar(value);
      } else if p == PortDiskTrack {
        diskTrack := value;
      } else if p == PortDiskSector {
        diskSector := value;
      } else if p == PortDiskDMALow {
        dmaAddress := WithDMALow(dmaAddress, value);
      } else if p == PortDiskDMAHigh {
        dmaAddress := WithDMAHigh(dmaAddress, value);
      } else if p == PortDiskOperation {
        diskStatus := false;
        var window := Z80Memory.DMAWindow(dmaAddress, SECTOR_SIZE);
        if window.Some? {
          var sector := DiskSectorNumber(diskTrack, diskSector);
          if value == PORT_DISK_READ {
            diskStatus := ramDisk.Read(sector, memory.mem, dmaAddress);
            if diskStatus {
              assert memory.mem[..] == old(memory.mem[..])[..dmaAddress]
                                       + memory.mem[dmaAddress..dmaAddress + SECTOR_SIZE]
                                       + old(memory.mem[..])[dmaAddress + SECTOR_SIZE..];
            } else {
              assert memory.mem[..] == old(memory.mem[..]);
            }
          } else if value == PORT_DISK_WRITE {
            diskStatus := ramDisk.Write(sector, memory.mem, dmaAddress);
          }
        }
      } else if p == PortControl {
        request := ControlRequestOf(value);
      }
    }
  }
}
