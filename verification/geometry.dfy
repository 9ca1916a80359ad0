/** Derivation of the image geometry from the image size, the computational
    part of `writeBootRecord` in cab_format.cpp. */
module Geometry {
  import opened Bytes
  import opened BootRecords

  /** Bytes in one block: one sector of 512 bytes. */
  const BLOCK_SIZE: nat := (SECTORS_PER_BLOCK * BYTES_PER_SECTOR) as nat

  /** Blocks of the image one bitmap block can describe, one bit each. */
  const BLOCKS_PER_BITMAP_BLOCK: nat := 8 * BLOCK_SIZE

  /** Number of whole blocks in an image of `diskSize` bytes; the bytes of a
      trailing partial block are never used. */
  function TotalBlocks(diskSize: u32): (t: u32)
    ensures t * BLOCK_SIZE <= diskSize < (t + 1) * BLOCK_SIZE
  {
    diskSize / (BYTES_PER_SECTOR * SECTORS_PER_BLOCK)
  }

  /** Bitmap size as the C++ code computes it: both divisions are on
      `unsigned int`, so `ceil` receives an integer and the result is the
      floor of `totalBlocks / 4096`. */
  function BitmapBlocksAsWritten(totalBlocks: u32): (b: u32)
    ensures b * BLOCKS_PER_BITMAP_BLOCK <= totalBlocks < (b + 1) * BLOCKS_PER_BITMAP_BLOCK
  {
    (totalBlocks / 8) / (BYTES_PER_SECTOR * SECTORS_PER_BLOCK)
  }

  /** Bitmap size as intended: the fewest blocks whose bits cover every
      block of the image. */
  function BitmapBlocks(totalBlocks: u32): (b: u32)
    ensures totalBlocks <= b * BLOCKS_PER_BITMAP_BLOCK
    ensures b == 0 || (b - 1) * BLOCKS_PER_BITMAP_BLOCK < totalBlocks
  {
    (totalBlocks + BLOCKS_PER_BITMAP_BLOCK - 1) / BLOCKS_PER_BITMAP_BLOCK
  }

  /** The boot record `writeBootRecord` fills in for an image of `diskSize`
      bytes (with the bitmap size rounded up, and zero padding). */
  function WriteBootRecord(diskSize: u32): (r: BootRecord)
    ensures r.WellSized()
    ensures r.sectorsPerBlock == SECTORS_PER_BLOCK && r.bytesPerSector == BYTES_PER_SECTOR
    ensures r.nRootEntries == N_ROOT_ENTRIES
    ensures r.totalBlocks * BLOCK_SIZE <= diskSize < (r.totalBlocks + 1) * BLOCK_SIZE
    ensures r.totalBlocks <= r.bitmapSizeInBlocks * BLOCKS_PER_BITMAP_BLOCK
    ensures r.bitmapSizeInBlocks == 0 || (r.bitmapSizeInBlocks - 1) * BLOCKS_PER_BITMAP_BLOCK < r.totalBlocks
    ensures diskSize >= BLOCK_SIZE ==> r.bitmapSizeInBlocks >= 1
  {
    var total := TotalBlocks(diskSize);
    BootRecord(
      SECTORS_PER_BLOCK,
      BYTES_PER_SECTOR,
      total,
      BitmapBlocks(total),
      N_ROOT_ENTRIES,
      seq(PADDING_SIZE, _ => 0))
  }

  /** With the size computed as written, a 1 MiB image gets a bitmap of no
      blocks at all, although it has 2048 blocks to describe; rounding up
      gives the one block that is needed. */
  lemma BitmapFloorOneMiB()
    ensures TotalBlocks(1048576) == 2048
    ensures BitmapBlocksAsWritten(2048) == 0
    ensures BitmapBlocksAsWritten(2048) * BLOCKS_PER_BITMAP_BLOCK < 2048
    ensures BitmapBlocks(2048) == 1
  {
  }

  /** As written, every image whose block count is not a multiple of 4096
      has blocks the bitmap cannot describe. */
  lemma BitmapFloorMissesBlocks(totalBlocks: u32)
    requires totalBlocks % BLOCKS_PER_BITMAP_BLOCK != 0
    ensures BitmapBlocksAsWritten(totalBlocks) * BLOCKS_PER_BITMAP_BLOCK < totalBlocks
    ensures BitmapBlocksAsWritten(totalBlocks) < BitmapBlocks(totalBlocks)
  {
  }
}
