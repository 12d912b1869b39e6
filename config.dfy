/** The build-time constants of the emulated machine (config.h). */
module Config {

  // Disk image
  const SECTOR_SIZE: nat := 128
  const TRACK_COUNT: nat := 80
  const SECTORS_PER_TRACK: nat := 80

  const TRACK_SIZE: nat := SECTOR_SIZE * SECTORS_PER_TRACK
  const SECTOR_COUNT: nat := TRACK_COUNT * SECTORS_PER_TRACK
  const DISK_SIZE: nat := SECTOR_SIZE * SECTOR_COUNT

  // System load addresses
  const MEM_CCP: nat := 0xDC00
  const MEM_BDOS: nat := 0xE400
  const MEM_BIOS: nat := 0xF200

  // System size
  const SYSTEM_MINSIZE: nat := MEM_BIOS - MEM_CCP + SECTOR_SIZE
  const SYSTEM_MAXSIZE: nat := 0x10000 - MEM_CCP

  /** Size of the Z80 address space backing `memory[]`. */
  const Z80_RAM_SIZE: nat := 0x10000
}
