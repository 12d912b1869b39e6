/**
 * The RAM disk: the whole CP/M disk image held in one byte buffer of
 * DISK_SIZE bytes, read and written one 128-byte sector at a time.
 */
module RamDisk {
  import opened Types
  import opened Config

  /** Byte offset of a sector in the disk buffer. */
  function SectorOffset(sector: nat): nat { sector * SECTOR_SIZE }

  /** The sectors `Read` and `Write` accept: exactly 0 .. SECTOR_COUNT-1. */
  predicate ValidSector(sector: nat) { SectorOffset(sector) + SECTOR_SIZE <= DISK_SIZE }

  lemma ValidSectorsAreTheSectorCount(sector: nat)
    ensures ValidSector(sector) <==> sector < SECTOR_COUNT
    ensures ValidSector(sector) <==> sector <= 6399
  {
    if sector >= SECTOR_COUNT {
      assert SectorOffset(sector) >= SECTOR_COUNT * SECTOR_SIZE;
    }
  }

  /** The 128 bytes of one sector of a disk image. */
  function SectorOf(disk: seq<u8>, sector: nat): (r: seq<u8>)
    requires |disk| == DISK_SIZE && ValidSector(sector)
    ensures |r| == SECTOR_SIZE
    ensures forall k :: 0 <= k < SECTOR_SIZE ==> r[k] == disk[sector * SECTOR_SIZE + k]
  {
    disk[SectorOffset(sector)..SectorOffset(sector) + SECTOR_SIZE]
  }

  /** A disk image with one sector replaced and every other byte kept. */
  function WithSector(disk: seq<u8>, sector: nat, data: seq<u8>): (r: seq<u8>)
    requires |disk| == DISK_SIZE && ValidSector(sector) && |data| == SECTOR_SIZE
    ensures |r| == DISK_SIZE
    ensures forall i :: 0 <= i < DISK_SIZE ==>
      r[i] == if sector * SECTOR_SIZE <= i < sector * SECTOR_SIZE + SECTOR_SIZE
              then data[i - sector * SECTOR_SIZE] else disk[i]
  {
    disk[..SectorOffset(sector)] + data + disk[SectorOffset(sector) + SECTOR_SIZE..]
  }

  /** Reading back a sector that was just written yields the written bytes. */
  lemma {:induction false} ReadAfterWrite(disk: seq<u8>, sector: nat, data: seq<u8>)
    requires |disk| == DISK_SIZE && ValidSector(sector) && |data| == SECTOR_SIZE
    ensures SectorOf(WithSector(disk, sector, data), sector) == data
  {
    var r := SectorOf(WithSector(disk, sector, data), sector);
    forall k | 0 <= k < SECTOR_SIZE ensures r[k] == data[k] { }
  }

  /** Writing one sector leaves every other sector as it was. */
  lemma {:induction false} WriteKeepsOtherSectors(disk: seq<u8>, sector: nat, data: seq<u8>, other: nat)
    requires |disk| == DISK_SIZE && ValidSector(sector) && |data| == SECTOR_SIZE
    requires ValidSector(other) && other != sector
    ensures SectorOf(WithSector(disk, sector, data), other) == SectorOf(disk, other)
  {
    var w := WithSector(disk, sector, data);
    forall k | 0 <= k < SECTOR_SIZE ensures SectorOf(w, other)[k] == SectorOf(disk, other)[k] {
      var i := other * SECTOR_SIZE + k;
      if other < sector {
        assert (other + 1) * SECTOR_SIZE <= sector * SECTOR_SIZE;
      } else {
        assert (sector + 1) * SECTOR_SIZE <= other * SECTOR_SIZE;
      }
      assert !(sector * SECTOR_SIZE <= i < sector * SECTOR_SIZE + SECTOR_SIZE);
    }
  }

  // ----- The range check as the C code computes it, in 32-bit unsigned -----

  /** `nSector * SECTOR_SIZE` computed in 32-bit `unsigned`. */
  function OffsetAsWritten(sector: u32): u32 { (sector * SECTOR_SIZE) % 0x1_0000_0000 }

  /** The test `nOffset + SECTOR_SIZE > DISK_SIZE` is false, again in 32-bit `unsigned`. */
  predicate AcceptsAsWritten(sector: u32)
  {
    (OffsetAsWritten(sector) + SECTOR_SIZE) % 0x1_0000_0000 <= DISK_SIZE
  }

  /**
   * The 32-bit check accepts sector 0x2000000, whose offset wraps to 0 so that
   * it aliases sector 0, and sector 0x1FFFFFF, whose offset lies 4 GiB - 128
   * bytes past the start of an 819200-byte buffer.
   */
  lemma AsWrittenAcceptsWrappedSectors()
    ensures AcceptsAsWritten(0x200_0000) && OffsetAsWritten(0x200_0000) == 0
    ensures !ValidSector(0x200_0000)
    ensures AcceptsAsWritten(0x1FF_FFFF) && OffsetAsWritten(0x1FF_FFFF) + SECTOR_SIZE > DISK_SIZE
  {
    ValidSectorsAreTheSectorCount(0x200_0000);
  }

  /**
   * Below 2^25 - 1 neither the multiplication nor the addition wraps, so the
   * check as written and `ValidSector` agree; the port device never passes a
   * sector number above 80 * 255 + 255.
   */
  lemma {:induction false} AsWrittenAgreesBelowWrap(sector: u32)
    requires sector < 0x1FF_FFFF
    ensures AcceptsAsWritten(sector) <==> ValidSector(sector)
  {
    assert sector * SECTOR_SIZE + SECTOR_SIZE < 0x1_0000_0000;
    assert OffsetAsWritten(sector) == SectorOffset(sector);
  }

  class RAMDisk {
    /** `m_pBuffer`: the disk image. */
    var buffer: array<u8>

    ghost predicate Valid() reads this { buffer.Length == DISK_SIZE }

    /** The buffer starts zeroed; `Initialize` loads the image file. */
    constructor ()
      ensures Valid() && fresh(buffer)
      ensures forall i :: 0 <= i < DISK_SIZE ==> buffer[i] == 0
    {
      buffer := new u8[DISK_SIZE](_ => 0);
    }

    /**
     * Load the disk image file (`fread` of SECTOR_COUNT sectors): fails when
     * the file is missing or shorter than DISK_SIZE; a longer file is cut.
     */
    method Initialize(file: Option<seq<u8>>) returns (ok: bool)
      requires Valid()
      modifies buffer
      ensures ok <==> file.Some? && |file.value| >= DISK_SIZE
      ensures ok ==> buffer[..] == file.value[..DISK_SIZE]
    {
      if file.None? || |file.value| < DISK_SIZE {
        return false;
      }
      var data := file.value;
      forall i | 0 <= i < DISK_SIZE {
        buffer[i] := data[i];
      }
      ok := true;
    }

    /**
     * Copy sector `sector` into `dest[at..at+128]` (the DMA window). Returns
     * false and copies nothing when the sector is out of range.
     */
    method Read(sector: nat, dest: array<u8>, at: nat) returns (ok: bool)
      requires Valid() && dest != buffer && at + SECTOR_SIZE <= dest.Length
      modifies dest
      ensures ok <==> ValidSector(sector)
      ensures ok ==> dest[at..at + SECTOR_SIZE] == SectorOf(buffer[..], sector)
      ensures forall i :: 0 <= i < dest.Length && !(ok && at <= i < at + SECTOR_SIZE) ==>
        dest[i] == old(dest[i])
    {
      if !ValidSector(sector) {
        return false;
      }
      var offset := SectorOffset(sector);
      forall i | at <= i < at + SECTOR_SIZE {
        dest[i] := buffer[offset + i - at];
      }
      ok := true;
    }

    /**
     * Copy `src[at..at+128]` over sector `sector`. Returns false and leaves
     * the disk unchanged when the sector is out of range.
     */
    method Write(sector: nat, src: array<u8>, at: nat) returns (ok: bool)
      requires Valid() && src != buffer && at + SECTOR_SIZE <= src.Length
      modifies buffer
      ensures Valid()
      ensures ok <==> ValidSector(sector)
      ensures ok ==> buffer[..] == WithSector(old(buffer[..]), sector, src[at..at + SECTOR_SIZE])
      ensures !ok ==> buffer[..] == old(buffer[..])
    {
      if !ValidSector(sector) {
        return false;
      }
      var offset := SectorOffset(sector);
      forall i | offset <= i < offset + SECTOR_SIZE {
        buffer[i] := src[at + i - offset];
      }
      ok := true;
    }

    /** `Save` writes the whole buffer to the image file: its contents. */
    method Save() returns (file: seq<u8>)
      requires Valid()
      ensures file == buffer[..] && |file| == DISK_SIZE
    {
      file := buffer[..];
    }
  }
}
