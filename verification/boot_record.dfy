/** The 512-byte boot record in the first block of a CAB image: five
    `unsigned int` fields followed by 492 bytes of padding, packed with no
    gaps, and read back by copying the first 512 bytes of the image. */
module BootRecords {
  import opened Bytes
  import opened Wrappers

  const SECTORS_PER_BLOCK: u32 := 1
  const BYTES_PER_SECTOR: u32 := 512
  const N_ROOT_ENTRIES: u32 := 1024

  const BOOT_RECORD_SIZE: nat := 512
  const PADDING_SIZE: nat := 492

  datatype BootRecord = BootRecord(
    sectorsPerBlock: u32,
    bytesPerSector: u32,
    totalBlocks: u32,
    bitmapSizeInBlocks: u32,
    nRootEntries: u32,
    padding: seq<byte>)
  {
    /** The padding array has its declared length of 492 bytes. */
    predicate WellSized() {
      |padding| == PADDING_SIZE
    }
  }

  /** The bytes of a boot record as the image holds them. */
  function Encode(r: BootRecord): (bytes: seq<byte>)
    requires r.WellSized()
    ensures |bytes| == BOOT_RECORD_SIZE
    ensures bytes[0..4] == EncodeU32(r.sectorsPerBlock)
    ensures bytes[4..8] == EncodeU32(r.bytesPerSector)
    ensures bytes[8..12] == EncodeU32(r.totalBlocks)
    ensures bytes[12..16] == EncodeU32(r.bitmapSizeInBlocks)
    ensures bytes[16..20] == EncodeU32(r.nRootEntries)
    ensures bytes[20..] == r.padding
  {
    EncodeU32(r.sectorsPerBlock) + EncodeU32(r.bytesPerSector) + EncodeU32(r.totalBlocks)
    + EncodeU32(r.bitmapSizeInBlocks) + EncodeU32(r.nRootEntries) + r.padding
  }

  /** The boot record read from the start of an image. An image shorter
      than one record gives `None`: the read fails and the record's contents
      are indeterminate. */
  function Decode(image: seq<byte>): (r: Option<BootRecord>)
    ensures r.Some? <==> |image| >= BOOT_RECORD_SIZE
    ensures r.Some? ==> r.value.WellSized()
    ensures r.Some? ==> EncodeU32(r.value.sectorsPerBlock) == image[0..4]
    ensures r.Some? ==> EncodeU32(r.value.bytesPerSector) == image[4..8]
    ensures r.Some? ==> EncodeU32(r.value.totalBlocks) == image[8..12]
    ensures r.Some? ==> EncodeU32(r.value.bitmapSizeInBlocks) == image[12..16]
    ensures r.Some? ==> EncodeU32(r.value.nRootEntries) == image[16..20]
    ensures r.Some? ==> r.value.padding == image[20..BOOT_RECORD_SIZE]
  {
    if |image| < BOOT_RECORD_SIZE then None
    else
      EncodeDecodeU32(image[0..4]);
      EncodeDecodeU32(image[4..8]);
      EncodeDecodeU32(image[8..12]);
      EncodeDecodeU32(image[12..16]);
      EncodeDecodeU32(image[16..20]);
      Some(BootRecord(
      DecodeU32(image[0..4]),
      DecodeU32(image[4..8]),
      DecodeU32(image[8..12]),
      DecodeU32(image[12..16]),
      DecodeU32(image[16..20]),
      image[20..BOOT_RECORD_SIZE]))
  }

  /** Reading back a written boot record recovers all five fields and the
      padding, whatever follows it in the image. */
  lemma DecodeEncode(r: BootRecord, rest: seq<byte>)
    requires r.WellSized()
    ensures Decode(Encode(r) + rest) == Some(r)
  {
    var image := Encode(r) + rest;
    assert image[0..4] == EncodeU32(r.sectorsPerBlock);
    assert image[4..8] == EncodeU32(r.bytesPerSector);
    assert image[8..12] == EncodeU32(r.totalBlocks);
    assert image[12..16] == EncodeU32(r.bitmapSizeInBlocks);
    assert image[16..20] == EncodeU32(r.nRootEntries);
    assert image[20..BOOT_RECORD_SIZE] == r.padding;
    DecodeEncodeU32(r.sectorsPerBlock);
    DecodeEncodeU32(r.bytesPerSector);
    DecodeEncodeU32(r.totalBlocks);
    DecodeEncodeU32(r.bitmapSizeInBlocks);
    DecodeEncodeU32(r.nRootEntries);
  }

  /** Writing back a record read from an image reproduces the image's first
      512 bytes exactly. */
  lemma EncodeDecode(image: seq<byte>)
    requires |image| >= BOOT_RECORD_SIZE
    ensures Encode(Decode(image).value) == image[..BOOT_RECORD_SIZE]
  {
    var r := Decode(image).value;
    EncodeDecodeU32(image[0..4]);
    EncodeDecodeU32(image[4..8]);
    EncodeDecodeU32(image[8..12]);
    EncodeDecodeU32(image[12..16]);
    EncodeDecodeU32(image[16..20]);
    var e := Encode(r);
    assert e[0..4] == image[0..4];
    assert e[4..8] == image[4..8];
    assert e[8..12] == image[8..12];
    assert e[12..16] == image[12..16];
    assert e[16..20] == image[16..20];
    assert e[20..] == image[20..BOOT_RECORD_SIZE];
    assert forall k | 0 <= k < BOOT_RECORD_SIZE :: e[k] == image[k] by {
      forall k | 0 <= k < BOOT_RECORD_SIZE
        ensures e[k] == image[k]
      {
        if k < 4 { assert e[k] == e[0..4][k]; }
        else if k < 8 { assert e[k] == e[4..8][k - 4]; }
        else if k < 12 { assert e[k] == e[8..12][k - 8]; }
        else if k < 16 { assert e[k] == e[12..16][k - 12]; }
        else if k < 20 { assert e[k] == e[16..20][k - 16]; }
        else { assert e[k] == e[20..][k - 20]; }
      }
    }
  }
}
