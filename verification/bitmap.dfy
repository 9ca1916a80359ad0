/** The free-space bitmap of a CAB image: a byte buffer read as a vector of
    bits, one per block, numbered from the most significant bit of each byte
    (bit `i` is bit `7 - i % 8` of byte `i / 8`). A set bit marks a block as
    unavailable. This is the `BitMap` class the three programs share. */
module Bitmap {
  import opened Bytes
  import opened BootRecords

  /** `(b & (0b10000000 >> offset)) >> (7 - offset)`: bit `offset` of `b`,
      counted from the most significant end, as 0 or 1. */
  function ByteBit(b: byte, offset: nat): (r: byte)
    requires offset < 8
    ensures r <= 1
  {
    Bit(b, 7 - offset)
  }

  /** `b | ((value << 7) >> offset)` in `unsigned char` arithmetic. The
      shift by 7 keeps only the lowest bit of `value`, so the mask is bit
      `offset` or nothing; OR-ing in a single bit adds its weight when the
      bit is clear and changes nothing when it is set. */
  function OrBit(b: byte, offset: nat, value: byte): (r: byte)
    requires offset < 8
  {
    if value % 2 == 0 || ByteBit(b, offset) == 1 then b
    else
      AddedPowerBound(b, 7 - offset, 8);
      b + Pow2(7 - offset)
  }

  /** `b` with bit `offset` replaced by the lowest bit of `value`. */
  function AssignByteBit(b: byte, offset: nat, value: byte): (r: byte)
    requires offset < 8
  {
    if value % 2 == 1 then OrBit(b, offset, value)
    else if ByteBit(b, offset) == 1 then
      BitOfSubtractedPower(b, 7 - offset, 0);
      b - Pow2(7 - offset)
    else b
  }

  lemma OrBitEffect(b: byte, offset: nat, value: byte, other: nat)
    requires offset < 8 && other < 8
    ensures ByteBit(OrBit(b, offset, value), other)
         == if other == offset && value % 2 == 1 then 1 else ByteBit(b, other)
    ensures value % 2 == 0 ==> OrBit(b, offset, value) == b
  {
    if value % 2 == 1 && ByteBit(b, offset) == 0 {
      BitOfAddedPower(b, 7 - offset, 7 - other);
    }
  }

  lemma AssignByteBitEffect(b: byte, offset: nat, value: byte, other: nat)
    requires offset < 8 && other < 8
    ensures ByteBit(AssignByteBit(b, offset, value), other)
         == if other == offset then value % 2 else ByteBit(b, other)
  {
    if value % 2 == 1 {
      OrBitEffect(b, offset, value, other);
    } else if ByteBit(b, offset) == 1 {
      BitOfSubtractedPower(b, 7 - offset, 7 - other);
    }
  }

  /** A byte is determined by its eight bits. */
  lemma ByteExtensionality(x: byte, y: byte)
    requires forall offset | 0 <= offset < 8 :: ByteBit(x, offset) == ByteBit(y, offset)
    ensures x == y
  {
    forall q | 0 <= q < 8
      ensures Bit(x, q) == Bit(y, q)
    {
      assert ByteBit(x, 7 - q) == ByteBit(y, 7 - q);
    }
    BitsDetermine(x, y, 8);
  }

  /** `getBit`: bit `i` of the buffer, 0 (free) or 1 (unavailable). */
  function GetBit(buffer: seq<byte>, i: nat): (r: byte)
    requires i < 8 * |buffer|
    ensures r == 0 || r == 1
    ensures r == buffer[i / 8] / Pow2(7 - i % 8) % 2
  {
    BitIsQuotient(buffer[i / 8], 7 - i % 8);
    ByteBit(buffer[i / 8], i % 8)
  }

  /** A bit index within a byte buffer lies in the byte `i / 8`. */
  lemma SameByte(i: nat, j: nat)
    requires i / 8 == j / 8 && i % 8 == j % 8
    ensures i == j
  {
  }

  /** A buffer is determined by its length and its bits. */
  lemma BufferExtensionality(a: seq<byte>, b: seq<byte>)
    requires |a| == |b|
    requires forall j | 0 <= j < 8 * |a| :: GetBit(a, j) == GetBit(b, j)
    ensures a == b
  {
    forall k | 0 <= k < |a|
      ensures a[k] == b[k]
    {
      forall offset | 0 <= offset < 8
        ensures ByteBit(a[k], offset) == ByteBit(b[k], offset)
      {
        var j := 8 * k + offset;
        assert j / 8 == k && j % 8 == offset;
        assert GetBit(a, j) == GetBit(b, j);
      }
      ByteExtensionality(a[k], b[k]);
    }
  }

  /** `setBit`: ORs the lowest bit of `value` into bit `i`. It can set a
      bit but never clear one, so with an even `value` it writes nothing. */
  function SetBit(buffer: seq<byte>, i: nat, value: byte): (r: seq<byte>)
    requires i < 8 * |buffer|
    ensures |r| == |buffer|
    ensures forall j | 0 <= j < 8 * |buffer| ::
      GetBit(r, j) == if j == i && value % 2 == 1 then 1 else GetBit(buffer, j)
    ensures forall j | 0 <= j < 8 * |buffer| :: GetBit(buffer, j) == 1 ==> GetBit(r, j) == 1
    ensures value % 2 == 0 ==> r == buffer
  {
    var k := i / 8;
    var r := buffer[k := OrBit(buffer[k], i % 8, value)];
    forall j | 0 <= j < 8 * |buffer|
      ensures GetBit(r, j) == if j == i && value % 2 == 1 then 1 else GetBit(buffer, j)
    {
      if j / 8 == k {
        OrBitEffect(buffer[k], i % 8, value, j % 8);
        if j % 8 == i % 8 {
          SameByte(i, j);
        }
      }
    }
    OrBitEffect(buffer[k], i % 8, value, 0);
    r
  }

  /** A read-modify-write setter that stores the lowest bit of `value` at
      bit `i`, clearing it when `value` is even. The shared `BitMap` class
      has no such operation; it is the repair of `setBit` that freeing
      blocks would need. */
  function AssignBit(buffer: seq<byte>, i: nat, value: byte): (r: seq<byte>)
    requires i < 8 * |buffer|
    ensures |r| == |buffer|
    ensures forall j | 0 <= j < 8 * |buffer| ::
      GetBit(r, j) == if j == i then value % 2 else GetBit(buffer, j)
  {
    var k := i / 8;
    var r := buffer[k := AssignByteBit(buffer[k], i % 8, value)];
    forall j | 0 <= j < 8 * |buffer|
      ensures GetBit(r, j) == if j == i then value % 2 else GetBit(buffer, j)
    {
      if j / 8 == k {
        AssignByteBitEffect(buffer[k], i % 8, value, j % 8);
        if j % 8 == i % 8 {
          SameByte(i, j);
        }
      }
    }
    r
  }

  /** `setBit(i, value)` for `i = lo, lo + 1, ..., hi - 1`, in that order:
      the loop of `writeBits`, `fillReservedBlocks` and
      `defaultUsableToZero`. */
  function SetRange(buffer: seq<byte>, lo: nat, hi: nat, value: byte): (r: seq<byte>)
    requires lo < hi ==> hi <= 8 * |buffer|
    ensures |r| == |buffer|
    ensures forall j | 0 <= j < 8 * |buffer| ::
      GetBit(r, j) == if lo <= j < hi && value % 2 == 1 then 1 else GetBit(buffer, j)
    ensures value % 2 == 0 ==> r == buffer
    decreases hi - lo
  {
    if lo >= hi then buffer
    else SetRange(SetBit(buffer, lo, value), lo + 1, hi, value)
  }

  /** `setBit(i, value)` for `i = hi - 1, hi - 2, ..., lo`, in that order:
      the downward loop of `fillNonReachableBlocks`. */
  function SetRangeDown(buffer: seq<byte>, lo: nat, hi: nat, value: byte): (r: seq<byte>)
    requires lo < hi ==> hi <= 8 * |buffer|
    ensures |r| == |buffer|
    ensures forall j | 0 <= j < 8 * |buffer| ::
      GetBit(r, j) == if lo <= j < hi && value % 2 == 1 then 1 else GetBit(buffer, j)
    decreases hi - lo
  {
    if lo >= hi then buffer
    else SetRangeDown(SetBit(buffer, hi - 1, value), lo, hi - 1, value)
  }

  /** Setting a range of bits that are all set already changes nothing. */
  lemma SetRangeAlreadySet(buffer: seq<byte>, lo: nat, hi: nat, value: byte)
    requires lo < hi ==> hi <= 8 * |buffer|
    requires forall j | lo <= j < hi :: GetBit(buffer, j) == 1
    ensures SetRange(buffer, lo, hi, value) == buffer
  {
    BufferExtensionality(SetRange(buffer, lo, hi, value), buffer);
  }

  /** The same for the downward fill. */
  lemma SetRangeDownAlreadySet(buffer: seq<byte>, lo: nat, hi: nat, value: byte)
    requires lo < hi ==> hi <= 8 * |buffer|
    requires forall j | lo <= j < hi :: GetBit(buffer, j) == 1
    ensures SetRangeDown(buffer, lo, hi, value) == buffer
  {
    BufferExtensionality(SetRangeDown(buffer, lo, hi, value), buffer);
  }

  /** The in-memory bitmap: the boot record it was built from, the number
      of addressable bits, and the byte buffer. */
  datatype BitMap = BitMap(record: BootRecord, addressableBits: nat, buffer: seq<byte>)
  {
    /** Every addressable bit lies inside the buffer. */
    predicate Valid() {
      addressableBits <= 8 * |buffer|
    }
  }

  /** The constructor from a boot record: a zeroed buffer of
      `bitmap_size_in_blocks * sectors_per_block * bytes_per_sector` bytes
      and eight addressable bits per byte, both products computed in
      `unsigned int` arithmetic. */
  function New(record: BootRecord): (bm: BitMap)
    ensures bm.record == record && bm.Valid()
    ensures |bm.buffer| == Wrap32(record.bitmapSizeInBlocks * record.sectorsPerBlock * record.bytesPerSector)
    ensures forall j | 0 <= j < 8 * |bm.buffer| :: GetBit(bm.buffer, j) == 0
    ensures bm.addressableBits == Wrap32(8 * |bm.buffer|)
    ensures record.bitmapSizeInBlocks * record.sectorsPerBlock * record.bytesPerSector * 8 < TWO_TO_THE_32 ==>
      bm.addressableBits == 8 * |bm.buffer| == record.bitmapSizeInBlocks * record.sectorsPerBlock * record.bytesPerSector * 8
  {
    var bytes := Wrap32(record.bitmapSizeInBlocks * record.sectorsPerBlock * record.bytesPerSector);
    BitMap(record, Wrap32(bytes * 8), seq(bytes, _ => 0))
  }

  /** `writeBits(first, size, value)`: `setBit(i, value)` for every `i` in
      `[first, first + size)`. */
  function WriteBits(bm: BitMap, first: nat, size: nat, value: byte): (r: BitMap)
    requires size > 0 ==> first + size <= 8 * |bm.buffer|
    ensures r.record == bm.record && r.addressableBits == bm.addressableBits
    ensures |r.buffer| == |bm.buffer|
    ensures forall j | 0 <= j < 8 * |bm.buffer| ::
      GetBit(r.buffer, j) == if first <= j < first + size && value % 2 == 1 then 1 else GetBit(bm.buffer, j)
  {
    bm.(buffer := SetRange(bm.buffer, first, first + size, value))
  }
}
