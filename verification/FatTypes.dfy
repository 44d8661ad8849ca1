// Types and limits shared by the FAT modules: bytes, 512-byte sectors, result codes.

module FatTypes {

  import opened Basics

  // Sector size: the configuration fixes FF_MIN_SS == FF_MAX_SS == 512.
  const SS: int := 512

  type Sector = s: seq<byte> | |s| == SS witness seq(SS, _ => 0)

  datatype FResult = FR_OK | FR_DISK_ERR | FR_INT_ERR | FR_DENIED | FR_NOT_ENOUGH_CORE

  // The value get_fat and create_chain report for a failure of the disk.
  const DISK_ERROR: int := 0xFFFF_FFFF

  // The sector number of a window that holds nothing: (LBA_t)0 - 1 on 64 bits.
  const LBA_MODULUS: int := 0x1_0000_0000_0000_0000
  const NO_SECTOR: int := LBA_MODULUS - 1

  // An unsigned difference tells whether a is among the n numbers from b on.
  lemma UnsignedDifference(a: nat, b: nat, n: nat)
    requires a < LBA_MODULUS && b + n <= LBA_MODULUS
    ensures (a - b) % LBA_MODULUS < n <==> b <= a < b + n
  {
  }
}
