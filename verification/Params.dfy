/** Constants of kernel/param.h, kernel/fs.h and kernel/riscv.h that several modules use. */
module Params {

  const MAXOPBLOCKS := 10
  const LOGBLOCKS := 3 * MAXOPBLOCKS
  const NBUF := 3 * MAXOPBLOCKS
  const NPROC := 64

  const BSIZE := 1024
  const NDIRECT := 12
  const NINDIRECT := 256  // BSIZE / sizeof(uint)
  const MAXFILE := 268    // NDIRECT + NINDIRECT

  const PGSIZE := 0x1000
  const MAXVA := 0x40_0000_0000
  const MAXVPN := 0x400_0000  // MAXVA / PGSIZE

  const U32 := 0x1_0000_0000
  const U64 := 0x1_0000_0000_0000_0000
}
