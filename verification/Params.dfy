/** The kernel's sizes, as in param.h. */
module Params {
  const NPROC: int := 64  // processes
  const MAXOPBLOCKS: int := 10  // blocks that one file-system operation may log
  const LOGSIZE: int := MAXOPBLOCKS * 3  // blocks in a transaction
  const NBUF: int := MAXOPBLOCKS * 3  // buffers in the cache
  const FSSIZE: int := 2000  // blocks on the disk
}
