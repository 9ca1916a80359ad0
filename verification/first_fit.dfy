/** First-fit search for a run of free blocks (`BitMap::getFirstBlock` in
    cab_file_taker.cpp), as written and with its start tracking repaired. */
module FirstFit {
  import opened Bytes
  import opened Wrappers
  import opened BootRecords
  import opened Geometry
  import opened Bitmap
  import opened Formatter

  /** The value `getFirstBlock` returns when it finds no run. */
  const OUT_OF_FREE_SPACE: nat := 0

  /** Bits `[start, start + count)` are addressable and all free. */
  predicate FreeRun(bm: BitMap, start: nat, count: nat)
    requires bm.Valid()
  {
    && start + count <= bm.addressableBits
    && forall j | start <= j < start + count :: GetBit(bm.buffer, j) == 0
  }

  /** Bit 0, the boot record's block, is addressable and marked
      unavailable, as `format` leaves it. */
  predicate BlockZeroReserved(bm: BitMap) {
    && bm.Valid()
    && 1 <= bm.addressableBits
    && GetBit(bm.buffer, 0) == 1
  }

  /** The loop of `getFirstBlock` from iteration `i`, with `firstCurrent`
      and `found` the values of `first_current` and
      `contiguous_blocks_found`. `first_current == 0` stands for "no run
      started", so a run starting at bit 0 is lost track of at bit 1. */
  function Scan(bm: BitMap, blockAmount: nat, i: nat, firstCurrent: nat, found: nat): (r: nat)
    requires bm.Valid() && i <= bm.addressableBits
    decreases bm.addressableBits - i
  {
    if i == bm.addressableBits then OUT_OF_FREE_SPACE
    else
      var bit := GetBit(bm.buffer, i);
      var first := if firstCurrent == 0 then i else firstCurrent;
      var found' := if bit == 0 then found + 1 else 0;
      var first' := if bit == 0 then first else 0;
      if found' == blockAmount then first' else Scan(bm, blockAmount, i + 1, first', found')
  }

  /** What `getFirstBlock(blockAmount)` returns. */
  function FirstBlockAsWritten(bm: BitMap, blockAmount: nat): (r: nat)
    requires bm.Valid()
  {
    Scan(bm, blockAmount, 0, 0, 0)
  }

  /** `getFirstBlock`, as written. When bit 0 is reserved and at least one
      block is asked for, a nonzero result starts the first run of
      `blockAmount` free addressable bits, and `OUT_OF_FREE_SPACE` means
      there is no such run. */
  method GetFirstBlock(bm: BitMap, blockAmount: nat) returns (r: nat)
    requires bm.Valid()
    ensures r == FirstBlockAsWritten(bm, blockAmount)
    ensures blockAmount >= 1 && BlockZeroReserved(bm) && r != OUT_OF_FREE_SPACE ==>
      FreeRun(bm, r, blockAmount) && forall s: nat | s < r :: !FreeRun(bm, s, blockAmount)
    ensures blockAmount >= 1 && BlockZeroReserved(bm) ==>
      (r == OUT_OF_FREE_SPACE <==> forall s: nat :: !FreeRun(bm, s, blockAmount))
  {
    ghost var sane := blockAmount >= 1 && BlockZeroReserved(bm);
    var addressFirstBlock := OUT_OF_FREE_SPACE;
    var firstCurrent := 0;
    var found := 0;
    var i := 0;
    while i < bm.addressableBits
      invariant i <= bm.addressableBits
      invariant Scan(bm, blockAmount, 0, 0, 0) == Scan(bm, blockAmount, i, firstCurrent, found)
      invariant sane ==> found <= i && found < blockAmount
      invariant sane ==> (found == 0 ==> firstCurrent == 0) && (found > 0 ==> 1 <= firstCurrent == i - found)
      invariant sane ==> forall j | i - found <= j < i :: GetBit(bm.buffer, j) == 0
      invariant sane && found < i ==> GetBit(bm.buffer, i - found - 1) == 1
      invariant sane ==> forall s: nat | s + blockAmount <= i :: !FreeRun(bm, s, blockAmount)
    {
      var bit := GetBit(bm.buffer, i);
      if firstCurrent == 0 {
        firstCurrent := i;
      }
      if bit == 0 {
        found := found + 1;
      } else {
        found := 0;
        firstCurrent := 0;
      }
      if found == blockAmount {
        addressFirstBlock := firstCurrent;
        break;
      }
      if sane {
        forall s: nat | s + blockAmount == i + 1
          ensures !FreeRun(bm, s, blockAmount)
        {
          if bit == 0 {
            assert GetBit(bm.buffer, i - found) == 1;
          } else {
            assert GetBit(bm.buffer, i) == 1;
          }
        }
      }
      i := i + 1;
    }
    r := addressFirstBlock;
  }

  /** With bit 0 free, the sentinel makes `getFirstBlock` report a run that
      is not free: on a fresh one-block bitmap with only bit 2 set, two
      blocks are answered with 1, whereas the first free pair starts at 0
      and bit 2 is taken. */
  lemma FirstBlockMisreportsRunAtZero()
    ensures var bm := WriteBits(New(BootRecord(1, 512, 1, 1, 1024, seq(PADDING_SIZE, _ => 0))), 2, 1, 1);
      && bm.addressableBits == 4096
      && FirstBlockAsWritten(bm, 2) == 1
      && !FreeRun(bm, 1, 2)
      && FreeRun(bm, 0, 2)
  {
    var bm := WriteBits(New(BootRecord(1, 512, 1, 1, 1024, seq(PADDING_SIZE, _ => 0))), 2, 1, 1);
    assert GetBit(bm.buffer, 0) == 0;
    assert GetBit(bm.buffer, 1) == 0;
    assert GetBit(bm.buffer, 2) == 1;
    assert Scan(bm, 2, 1, 0, 1) == 1;
  }

  /** First-fit search with the start of the run tracked explicitly and
      "no run" reported as `None`: the first run of `blockAmount` free
      addressable bits, wherever it starts, bit 0 included. */
  method FindFirstFit(bm: BitMap, blockAmount: nat) returns (r: Option<nat>)
    requires bm.Valid()
    ensures r.Some? ==> FreeRun(bm, r.value, blockAmount)
    ensures r.Some? ==> forall s: nat | s < r.value :: !FreeRun(bm, s, blockAmount)
    ensures r.None? <==> forall s: nat :: !FreeRun(bm, s, blockAmount)
  {
    if blockAmount == 0 {
      assert FreeRun(bm, 0, 0);
      return Some(0);
    }
    var found := 0;
    var i := 0;
    while i < bm.addressableBits
      invariant i <= bm.addressableBits
      invariant found <= i && found < blockAmount
      invariant forall j | i - found <= j < i :: GetBit(bm.buffer, j) == 0
      invariant found < i ==> GetBit(bm.buffer, i - found - 1) == 1
      invariant forall s: nat | s + blockAmount <= i :: !FreeRun(bm, s, blockAmount)
    {
      if GetBit(bm.buffer, i) == 0 {
        found := found + 1;
        if found == blockAmount {
          assert FreeRun(bm, i + 1 - blockAmount, blockAmount);
          return Some(i + 1 - blockAmount);
        }
        forall s: nat | s + blockAmount == i + 1
          ensures !FreeRun(bm, s, blockAmount)
        {
          assert GetBit(bm.buffer, i - found) == 1;
        }
      } else {
        found := 0;
        forall s: nat | s + blockAmount == i + 1
          ensures !FreeRun(bm, s, blockAmount)
        {
          assert GetBit(bm.buffer, i) == 1;
        }
      }
      i := i + 1;
    }
    return None;
  }

  /** On a freshly formatted 1 MiB image a request for two blocks gets
      blocks 2 and 3, the first after the boot record and the bitmap, and
      marking them used leaves block 4 free. */
  lemma FirstFitOneMiB()
    ensures var blank := New(WriteBootRecord(1048576));
      && Formattable(blank)
      && var bm := Format(blank);
      && bm.Valid()
      && FirstBlockAsWritten(bm, 2) == 2
      && var after := WriteBits(bm, 2, 2, 1);
      && GetBit(after.buffer, 1) == 1
      && GetBit(after.buffer, 2) == 1
      && GetBit(after.buffer, 3) == 1
      && GetBit(after.buffer, 4) == 0
  {
    FormatFreshImage(1048576);
    FormatOneMiB();
    var bm := Format(New(WriteBootRecord(1048576)));
    assert bm.addressableBits == 4096;
    assert GetBit(bm.buffer, 0) == 1;
    assert GetBit(bm.buffer, 1) == 1;
    assert GetBit(bm.buffer, 2) == 0;
    assert GetBit(bm.buffer, 3) == 0;
    assert GetBit(bm.buffer, 4) == 0;
    assert Scan(bm, 2, 3, 2, 1) == 2;
    assert Scan(bm, 2, 2, 0, 0) == 2;
    assert Scan(bm, 2, 1, 0, 0) == 2;
  }
}
