/** Format-time initialisation of the bitmap (`BitMap::format` and its
    three region fills in cab_format.cpp): the boot record block and the
    bitmap's own blocks are reserved, the bits past the image's last block
    are made unreachable, and the blocks in between are left free. */
module Formatter {
  import opened Bytes
  import opened BootRecords
  import opened Geometry
  import opened Bitmap

  /** `1 + bitmap_size_in_blocks`, an `unsigned int` sum: the boot record
      block plus the bitmap's own blocks. */
  function ReservedBlocks(record: BootRecord): (n: u32)
    ensures record.bitmapSizeInBlocks + 1 < TWO_TO_THE_32 ==> n == 1 + record.bitmapSizeInBlocks
  {
    Wrap32(1 + record.bitmapSizeInBlocks)
  }

  /** What `format` needs: every bit index its three loops visit lies
      inside the buffer, and the downward loop of `fillNonReachableBlocks`
      stops. With `total_blocks == 0` that `size_t` loop counter never
      drops below the bound; with no addressable bits it starts at the
      largest `size_t`. */
  predicate Formattable(bm: BitMap) {
    && bm.Valid()
    && 1 <= bm.record.totalBlocks
    && 1 <= bm.addressableBits
    && ReservedBlocks(bm.record) <= 8 * |bm.buffer|
    && (ReservedBlocks(bm.record) < bm.record.totalBlocks ==> bm.record.totalBlocks <= 8 * |bm.buffer|)
  }

  /** `fillReservedBlocks`: sets every bit of `[0, 1 + bitmap_size_in_blocks)`. */
  function FillReservedBlocks(bm: BitMap): (r: BitMap)
    requires ReservedBlocks(bm.record) <= 8 * |bm.buffer|
    ensures r.record == bm.record && r.addressableBits == bm.addressableBits
    ensures |r.buffer| == |bm.buffer|
    ensures forall j | 0 <= j < 8 * |bm.buffer| ::
      GetBit(r.buffer, j) == if j < ReservedBlocks(bm.record) then 1 else GetBit(bm.buffer, j)
  {
    bm.(buffer := SetRange(bm.buffer, 0, ReservedBlocks(bm.record), 1))
  }

  /** `fillNonReachableBlocks`: sets every bit of
      `[total_blocks, addressable_bits)`, walking down from the top. */
  function FillNonReachableBlocks(bm: BitMap): (r: BitMap)
    requires bm.Valid() && 1 <= bm.record.totalBlocks && 1 <= bm.addressableBits
    ensures r.record == bm.record && r.addressableBits == bm.addressableBits
    ensures |r.buffer| == |bm.buffer|
    ensures forall j | 0 <= j < 8 * |bm.buffer| ::
      GetBit(r.buffer, j)
        == if bm.record.totalBlocks <= j < bm.addressableBits then 1 else GetBit(bm.buffer, j)
  {
    bm.(buffer := SetRangeDown(bm.buffer, bm.record.totalBlocks, bm.addressableBits, 1))
  }

  /** `defaultUsableToZero`: calls `setBit(i, 0)` for every block between
      the reserved ones and `total_blocks`. Since `setBit` only ORs, this
      writes nothing: the usable region is free afterwards only if it was
      free before. */
  function DefaultUsableToZero(bm: BitMap): (r: BitMap)
    requires ReservedBlocks(bm.record) < bm.record.totalBlocks ==> bm.record.totalBlocks <= 8 * |bm.buffer|
    ensures r == bm
  {
    bm.(buffer := SetRange(bm.buffer, ReservedBlocks(bm.record), bm.record.totalBlocks, 0))
  }

  /** `format`: the three fills in order. Reserved and unreachable bits are
      set; every other bit keeps its value. */
  function Format(bm: BitMap): (r: BitMap)
    requires Formattable(bm)
    ensures r.record == bm.record && r.addressableBits == bm.addressableBits
    ensures |r.buffer| == |bm.buffer|
    ensures forall j | 0 <= j < 8 * |bm.buffer| ::
      GetBit(r.buffer, j)
        == if j < ReservedBlocks(bm.record) || bm.record.totalBlocks <= j < bm.addressableBits
           then 1 else GetBit(bm.buffer, j)
  {
    DefaultUsableToZero(FillNonReachableBlocks(FillReservedBlocks(bm)))
  }

  /** Formatting an already formatted bitmap changes nothing. */
  lemma FormatIdempotent(bm: BitMap)
    requires Formattable(bm)
    ensures Formattable(Format(bm))
    ensures Format(Format(bm)) == Format(bm)
  {
    var once := Format(bm);
    // The reserved and unreachable bits of `once` are all set, so the two
    // fills rewrite nothing, and the third never writes.
    SetRangeAlreadySet(once.buffer, 0, ReservedBlocks(once.record), 1);
    assert FillReservedBlocks(once) == once;
    SetRangeDownAlreadySet(once.buffer, once.record.totalBlocks, once.addressableBits, 1);
    assert FillNonReachableBlocks(once) == once;
  }

  /** The bitmap built for an image of at least one block has room for a
      bit for every block of the image. */
  lemma BitmapCoversImage(diskSize: u32)
    requires diskSize >= BLOCK_SIZE
    ensures var record := WriteBootRecord(diskSize);
      var bm := New(record);
      && bm.addressableBits == 8 * |bm.buffer| == record.bitmapSizeInBlocks * BLOCKS_PER_BITMAP_BLOCK
      && record.totalBlocks <= bm.addressableBits
      && ReservedBlocks(record) == 1 + record.bitmapSizeInBlocks
      && Formattable(bm)
  {
    var record := WriteBootRecord(diskSize);
    assert record.totalBlocks < 0x80_0000;
    assert record.bitmapSizeInBlocks <= 0x800;
    assert record.bitmapSizeInBlocks * record.sectorsPerBlock * record.bytesPerSector * 8
        == record.bitmapSizeInBlocks * BLOCKS_PER_BITMAP_BLOCK;
  }

  /** Formatting the fresh bitmap of an image of at least one block leaves
      the boot record block and the bitmap's blocks reserved, the blocks of
      the image after them free, and the bits past the image's last block
      unreachable. The free region is zero only because the buffer starts
      zeroed. */
  lemma FormatFreshImage(diskSize: u32)
    requires diskSize >= BLOCK_SIZE
    ensures var record := WriteBootRecord(diskSize);
      var bm := New(record);
      && Formattable(bm)
      && var r := Format(bm);
      && r.addressableBits == 8 * |r.buffer|
      && (forall j | 0 <= j < r.addressableBits ::
            GetBit(r.buffer, j) == if j < 1 + record.bitmapSizeInBlocks || record.totalBlocks <= j then 1 else 0)
  {
    BitmapCoversImage(diskSize);
  }

  /** A 1 MiB image: 2048 blocks and one bitmap block, so blocks 0 and 1
      are reserved and block 2 is the first free one. */
  lemma FormatOneMiB()
    ensures var record := WriteBootRecord(1048576);
      && record.totalBlocks == 2048 && record.bitmapSizeInBlocks == 1
      && var bm := New(record);
      && Formattable(bm)
      && GetBit(Format(bm).buffer, 0) == 1
      && GetBit(Format(bm).buffer, 1) == 1
      && GetBit(Format(bm).buffer, 2) == 0
      && GetBit(Format(bm).buffer, 2047) == 0
      && GetBit(Format(bm).buffer, 2048) == 1
  {
    var record := WriteBootRecord(1048576);
    assert record.totalBlocks == 2048;
    assert record.bitmapSizeInBlocks == 1;
    FormatFreshImage(1048576);
    var r := Format(New(record));
    assert r.addressableBits == 4096;
    assert GetBit(r.buffer, 0) == 1;
    assert GetBit(r.buffer, 1) == 1;
    assert GetBit(r.buffer, 2) == 0;
    assert GetBit(r.buffer, 2047) == 0;
    assert GetBit(r.buffer, 2048) == 1;
  }
}
