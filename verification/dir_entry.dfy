/** The 32-byte root-directory entry of a CAB image: a 4-byte first block,
    a 4-byte file size, a 1-byte file type and a 23-byte name, packed. */
module DirEntries {
  import opened Bytes
  import opened BootRecords
  import opened Geometry

  /** The two values of `file_type`. No operation of the core inspects the
      type: the lookup matches on the name alone. */
  const DIRECTORY_TYPE: byte := 1
  const BINARY_TYPE: byte := 0

  const ENTRY_SIZE: nat := 32
  const NAME_SIZE: nat := 23

  /** Blocks the root directory occupies: 1024 entries of 32 bytes. */
  const DIR_SIZE_IN_BLOCKS: nat := (N_ROOT_ENTRIES as nat * ENTRY_SIZE) / (SECTORS_PER_BLOCK * BYTES_PER_SECTOR) as nat

  datatype DirEntry = DirEntry(
    firstBlock: u32,
    fileSizeInBytes: u32,
    fileType: byte,
    fileName: seq<byte>)
  {
    /** The name array has its declared length of 23 bytes. */
    predicate WellSized() {
      |fileName| == NAME_SIZE
    }
  }

  /** The root directory fills a whole number of blocks, 64 of them. */
  lemma RootDirectoryBlocks()
    ensures DIR_SIZE_IN_BLOCKS == 64
    ensures DIR_SIZE_IN_BLOCKS * BLOCK_SIZE == N_ROOT_ENTRIES as nat * ENTRY_SIZE
  {
  }

  /** The bytes of an entry as the image holds them. */
  function Encode(e: DirEntry): (bytes: seq<byte>)
    requires e.WellSized()
    ensures |bytes| == ENTRY_SIZE
    ensures bytes[0..4] == EncodeU32(e.firstBlock)
    ensures bytes[4..8] == EncodeU32(e.fileSizeInBytes)
    ensures bytes[8] == e.fileType
    ensures bytes[9..] == e.fileName
  {
    EncodeU32(e.firstBlock) + EncodeU32(e.fileSizeInBytes) + [e.fileType] + e.fileName
  }

  /** The entry held in 32 bytes of the directory region. */
  function Decode(bytes: seq<byte>): (e: DirEntry)
    requires |bytes| == ENTRY_SIZE
    ensures e.WellSized()
    ensures EncodeU32(e.firstBlock) == bytes[0..4]
    ensures EncodeU32(e.fileSizeInBytes) == bytes[4..8]
    ensures e.fileType == bytes[8]
    ensures e.fileName == bytes[9..]
  {
    EncodeDecodeU32(bytes[0..4]);
    EncodeDecodeU32(bytes[4..8]);
    DirEntry(DecodeU32(bytes[0..4]), DecodeU32(bytes[4..8]), bytes[8], bytes[9..])
  }

  /** `dir_entry()`: the value-initialised entry, whose bytes are all zero. */
  function EmptyEntry(): (e: DirEntry)
    ensures e.WellSized()
    ensures Encode(e) == seq(ENTRY_SIZE, _ => 0)
  {
    var e := DirEntry(0, 0, 0, seq(NAME_SIZE, _ => 0));
    assert EncodeU32(0) == [0, 0, 0, 0];
    assert Encode(e) == seq(ENTRY_SIZE, _ => 0);
    e
  }

  /** Reading back a written entry recovers every field. */
  lemma DecodeEncode(e: DirEntry)
    requires e.WellSized()
    ensures Decode(Encode(e)) == e
  {
    var bytes := Encode(e);
    DecodeEncodeU32(e.firstBlock);
    DecodeEncodeU32(e.fileSizeInBytes);
  }

  /** Writing back an entry read from 32 bytes reproduces those bytes. */
  lemma EncodeDecode(bytes: seq<byte>)
    requires |bytes| == ENTRY_SIZE
    ensures Encode(Decode(bytes)) == bytes
  {
    EncodeDecodeU32(bytes[0..4]);
    EncodeDecodeU32(bytes[4..8]);
    var e := Encode(Decode(bytes));
    assert e[0..4] == bytes[0..4];
    assert e[4..8] == bytes[4..8];
    assert e[9..] == bytes[9..];
    assert forall k | 0 <= k < ENTRY_SIZE :: e[k] == bytes[k] by {
      forall k | 0 <= k < ENTRY_SIZE
        ensures e[k] == bytes[k]
      {
        if k < 4 { assert e[k] == e[0..4][k]; }
        else if k < 8 { assert e[k] == e[4..8][k - 4]; }
        else if k > 8 { assert e[k] == e[9..][k - 9]; }
      }
    }
  }
}
