# CAB image format: block allocation and on-disk layout

A Dafny model of the core of the CAB flat-file image format: how the
geometry is derived from the image size, the 512-byte boot record, the
free-space bitmap that the three programs (`cab_format`, `cab_file_writer`,
`cab_file_taker`) each carry as a `BitMap` class, the first-fit search for
a run of free blocks, the 32-byte root-directory entry and the lookup of a
file by name.

The bitmap is a byte buffer read as a bit vector, most significant bit
first: bit `i` is bit `7 - i % 8` of byte `i / 8`, and a set bit marks a
block unavailable. Records are immutable values and every operation is a
pure function, except the two first-fit searches, which are loops with
invariants.

Modules, one per concept:

- `Bytes` (bytes.dfy): `unsigned char` and `unsigned int` values, 32-bit
  wrap-around, the bits of a number, little-endian `unsigned int` codec.
- `BootRecords` (boot_record.dfy): the boot record, its constants, encode and
  decode.
- `Geometry` (geometry.dfy): the pure part of `writeBootRecord`.
- `Bitmap` (bitmap.dfy): `getBit`, `setBit`, `writeBits`, the constructor.
- `Formatter` (format.dfy): `format` and its three region fills.
- `FirstFit` (first_fit.dfy): `getFirstBlock`.
- `DirEntries` (dir_entry.dfy): the directory entry and its codec.
- `RootDirectory` (root_dir.dfy): `searchFile`.
- `Wrappers` (wrappers.dfy): `Option`.

Modelling decisions:

- Integer widths are explicit. `unsigned int` is `u32`. The constructor's
  buffer length and addressable-bit count are `unsigned int` products, and
  `1 + bitmap_size_in_blocks` is an `unsigned int` sum. All three are reduced
  modulo 2^32 (`Wrap32`). `size_t` loop counters never wrap for the sizes
  involved. The one `size_t` wrap that matters, the downward loop of
  `fillNonReachableBlocks`, is excluded by `Formattable`.
- Fixed-width records are explicit byte encodings, not memory images. The
  programs copy each record's memory to and from the image, so fields are
  in the host's native byte order, fixed in the model as little-endian.
- `setBit` ORs a one-bit mask into the byte, as written. It can set a bit
  but never clear one. `Bitmap.AssignBit` is a separate read-modify-write
  setter that can also clear. No other part of the model uses it.
- The C++ programs use 0 both as a real index and as "nothing found". The
  model keeps the code's behaviour in `GetFirstBlock` and `SearchFile`. It
  also gives versions that return an `Option` (`FindFirstFit`,
  `SearchFileCorrected`); see Findings.
- The code has no check that rejects images too small for the layout, no
  setter that can clear a bit, no directory-slot allocator and no file
  writer, so the model has none of these either (`Bitmap.AssignBit` is a
  separate repaired setter).
- The boot record has five `unsigned int` fields; sectors per block and
  bytes per sector are stored separately.

## Model

| member | source | states |
|---|---|---|
| Bytes.DecodeEncodeU32 | cab_format.cpp:13-18 | reading back the four bytes stored for an `unsigned int` field gives the field |
| Bytes.EncodeDecodeU32 | cab_file_taker.cpp:234 | any four bytes read from the image re-encode to themselves |
| BootRecords.Encode | cab_format.cpp:13-21 | the record is exactly 512 bytes: the five fields at offsets 0, 4, 8, 12, 16, four bytes each, then the 492 padding bytes |
| BootRecords.Decode | cab_file_taker.cpp:231-237 | a record is read iff the image holds at least 512 bytes; its five fields are the `unsigned int`s whose encodings are bytes 0-3, 4-7, 8-11, 12-15 and 16-19, and its padding is bytes 20-511 |
| BootRecords.DecodeEncode | cab_file_taker.cpp:231-237 | reading the first 512 bytes of an image that starts with a written record gives back all five fields and the padding, whatever follows |
| BootRecords.EncodeDecode | cab_format.cpp:118 | writing back a record read from an image reproduces the image's first 512 bytes |
| Geometry.TotalBlocks | cab_format.cpp:114 | the block count is the number of whole 512-byte blocks in the image: `t * 512 <= size < (t + 1) * 512`, so trailing bytes are dropped |
| Geometry.BitmapBlocksAsWritten | cab_format.cpp:115 | the size as written is the floor of `total_blocks / 4096` |
| Geometry.BitmapBlocks | cab_format.cpp:115 | the intended size is the fewest blocks whose bits cover every block: `total <= b * 4096` and `(b - 1) * 4096 < total` |
| Geometry.WriteBootRecord | cab_format.cpp:107-121 | one sector of 512 bytes per block, 1024 root entries, truncated block count, a bitmap covering every block with no spare block, and at least one bitmap block for a one-block image |
| Geometry.BitmapFloorOneMiB | cab_format.cpp:115 | for a 1 MiB image (2048 blocks) the size as written is 0 bitmap blocks, which cover none of the 2048 blocks; rounding up gives 1 |
| Geometry.BitmapFloorMissesBlocks | cab_format.cpp:115 | as written, every block count that is not a multiple of 4096 leaves blocks without a bit |
| Bitmap.GetBit | cab_file_writer.cpp:67-75 | `getBit(i)` is 0 or 1, namely bit `7 - i % 8` of byte `i / 8` (the byte divided by `2^(7 - i % 8)`, modulo 2) |
| Bitmap.SetBit | cab_file_writer.cpp:77-88 | after `setBit(i, v)` with odd `v` bit `i` reads 1; every other bit and the length are unchanged; no set bit is cleared; with even `v` the buffer is unchanged |
| Bitmap.AssignBit | cab_file_writer.cpp:77-88 | the repaired setter leaves the lowest bit of `v` at bit `i`, clearing it for even `v`, and changes no other bit |
| Bitmap.SetRange | cab_file_writer.cpp:96-99 | the upward `setBit` loop over `[lo, hi)` sets exactly the bits of that range when the value is odd and leaves all others; with an even value it changes nothing |
| Bitmap.SetRangeDown | cab_format.cpp:82-84 | the downward `setBit` loop from `hi - 1` to `lo` sets exactly the bits of `[lo, hi)` and leaves all others |
| Bitmap.SetRangeAlreadySet | cab_format.cpp:74-76 | setting a range whose bits are all set already leaves the buffer unchanged |
| Bitmap.SetRangeDownAlreadySet | cab_format.cpp:82-84 | walking down over a range whose bits are all set already leaves the buffer unchanged |
| Bitmap.New | cab_format.cpp:26-31 | the constructor's buffer has `bitmap_size * spb * bps` bytes (in `unsigned int` arithmetic), all bits zero, and the addressable bit count is 8 per byte reduced modulo 2^32; without overflow exactly 8 addressable bits per byte |
| Bitmap.WriteBits | cab_file_writer.cpp:94-100 | `writeBits(first, n, 1)` sets every bit of `[first, first + n)` and leaves all bits outside it, the record and the addressable-bit count unchanged |
| Formatter.FillReservedBlocks | cab_format.cpp:70-77 | every bit of `[0, 1 + bitmap_size_in_blocks)` is set, all others unchanged |
| Formatter.FillNonReachableBlocks | cab_format.cpp:79-85 | every bit of `[total_blocks, addressable_bits)` is set, all others unchanged |
| Formatter.DefaultUsableToZero | cab_format.cpp:87-94 | because `setBit(i, 0)` writes nothing, the usable-region pass leaves the bitmap unchanged |
| Formatter.Format | cab_format.cpp:33-37 | after `format` the reserved and unreachable regions are set and every other bit keeps its value; the length, record and addressable count are unchanged |
| Formatter.FormatIdempotent | cab_format.cpp:33-37 | formatting a formatted bitmap changes nothing |
| Formatter.BitmapCoversImage | cab_format.cpp:26-31 | for the geometry of an image of at least one block, the bitmap has `bitmap_size * 4096` addressable bits, at least `total_blocks` of them, and satisfies what `format` needs |
| Formatter.FormatFreshImage | cab_format.cpp:33-94 | formatting the fresh bitmap of such an image leaves bits `[0, 1 + bitmap_size)` and `[total_blocks, addressable_bits)` set and every other addressable bit clear |
| Formatter.FormatOneMiB | cab_format.cpp:70-94 | a formatted 1 MiB image has 2048 blocks and one bitmap block; bits 0, 1 and 2048 are set, bits 2 and 2047 clear |
| FirstFit.GetFirstBlock | cab_file_taker.cpp:111-143 | with bit 0 set and `k >= 1`, a nonzero result `r` starts a run of `k` free addressable bits and no earlier start does, and the result is `OUT_OF_FREE_SPACE` (0) exactly when no such run exists |
| FirstFit.FirstBlockMisreportsRunAtZero | cab_file_taker.cpp:120-123 | on a bitmap built from a one-block record with only bit 2 set (so bit 0 free), `k = 2` gives 1, which is not a free run, although the run at 0 is |
| FirstFit.FindFirstFit | cab_file_taker.cpp:111-143 | the repaired search returns the first start of a run of `k` free addressable bits, bit 0 included, and `None` exactly when there is none |
| FirstFit.FirstFitOneMiB | cab_file_taker.cpp:111-143 | on a freshly formatted 1 MiB image two blocks are found at block 2; marking them used sets bits 2 and 3 and leaves bit 4 free |
| DirEntries.RootDirectoryBlocks | cab_file_writer.cpp:11-15 | the root directory of 1024 entries of 32 bytes fills exactly 64 blocks |
| DirEntries.Encode | cab_file_writer.cpp:27-32 | an entry is exactly 32 bytes: first block at 0, size at 4, type at 8, the 23 name bytes from 9 |
| DirEntries.Decode | cab_file_taker.cpp:29-35 | the entry held in 32 bytes: the first block is the u32 whose encoding is bytes 0-3, the size the one whose encoding is bytes 4-7, the type is byte 8 and the name bytes 9-31 |
| DirEntries.EmptyEntry | cab_file_taker.cpp:223 | the value-initialised `dir_entry()` is the entry whose 32 bytes are all zero |
| DirEntries.DecodeEncode | cab_file_writer.cpp:27-32 | decoding an encoded entry gives back all four fields |
| DirEntries.EncodeDecode | cab_file_writer.cpp:27-32 | re-encoding an entry decoded from 32 bytes gives those bytes |
| RootDirectory.CString | cab_file_taker.cpp:215 | the name taken from the array is its longest NUL-free prefix, stopping at the first NUL |
| RootDirectory.FindByName | cab_file_taker.cpp:213-220 | the scan stops at the first of the first `n_root_entries` entries whose name equals the query, and finds nothing iff no entry matches |
| RootDirectory.SearchFile | cab_file_taker.cpp:208-229 | if the first match is at index `i > 0` the result is `entries[i]`; if nothing matches, or entry 0 is the first match, the result is the empty entry |
| RootDirectory.SearchFileCorrected | cab_file_taker.cpp:208-229 | the repaired lookup returns the first matching entry, slot 0 included, and `None` iff nothing matches |
| RootDirectory.SearchFileAgreesAwayFromZero | cab_file_taker.cpp:223-228 | when entry 0 does not match, the lookup as written equals the repaired one with the empty entry for "not found" |
| RootDirectory.SearchFileLosesEntryZero | cab_file_taker.cpp:223 | a file whose entry sits in slot 0 is answered with the empty entry, while the repaired lookup finds it |

## Left out

- The `main` functions, with their argument handling and console output. This includes the image name passed as the file name at cab_file_taker.cpp:247.
- Stream I/O is not modelled. This covers `getDiskSize`, the stream-reading `BitMap` constructor, `loadBufferFromImage` and `loadRootDir`, and the seek, read and write calls in `readBootRecord` and `writeBootRecord`. The byte buffers these produce are inputs to the model. `getDiskSize` is modelled only by taking the image size as an `unsigned int`.
- `loadRootDir`'s `malloc` and its read of `N_ROOT_ENTRIES` bytes instead of `N_ROOT_ENTRIES` entries. The rest of the array is uninitialised memory. The model takes the entries as given.
- `writeBitMap` formats a bitmap and discards it without writing anything. `getBuffer` and `getAdressableBits` are plain accessors: the `buffer` and `addressableBits` fields.
- Floating-point `ceil`. The intended size is integer ceiling division (`Geometry.BitmapBlocks`). The size as written is the integer floor (`Geometry.BitmapBlocksAsWritten`).
- Geometry.WriteBootRecord: the padding is zero. The source writes the padding of an uninitialised stack struct, whose contents are unspecified. The bitmap size stored is the rounded-up `Geometry.BitmapBlocks`, not the floor that cab_format.cpp:115 computes (`Geometry.BitmapBlocksAsWritten`; see Findings).
- BootRecords.Encode, DirEntries.Encode: fields are little-endian. On a big-endian host the source stores each `unsigned int` byte-reversed.
- RootDirectory.SearchFile, RootDirectory.SearchFileCorrected, RootDirectory.FindByName: require the record's `n_root_entries` to be at most the number of entries given. In the source the loop bound comes from the boot record read off the image while the array holds 1024 entries, and a larger count reads past the array, which is undefined behaviour.
- Bitmap.GetBit, Bitmap.SetBit: require the index to lie inside the buffer. The source does no range check, and an index outside the buffer is undefined behaviour there.
- Bitmap.WriteBits: `first_bit + size` is not reduced modulo 2^64. It would only wrap for ranges far beyond any buffer.
- Formatter.Format: requires `Formattable`. That is at least one block, at least one addressable bit, and every index the three loops touch inside the buffer. With `total_blocks == 0` the source's `size_t` down-loop never terminates, and with no addressable bits it starts at the largest `size_t`.
- FirstFit.GetFirstBlock: its correctness is stated only when bit 0 is set and at least one block is requested. Otherwise the sentinel can misreport, as `FirstBlockMisreportsRunAtZero` shows.
- RootDirectory.CString: a name array with no NUL in its 23 bytes is taken whole. In the source, `std::string` keeps reading past the array into the next entry.
- The model has no directory-slot allocator, no entry writer and no file writer, because the code has none. cab_file_writer.cpp's `main` is empty.

## Findings

| source | as written | input that shows it | evidently intended | confidence | as-written member | corrected member |
|---|---|---|---|---|---|---|
| cab_format.cpp:115 | `ceil` is applied to a quotient of `unsigned int` divisions, so the bitmap size is `floor(total_blocks / 4096)` | a 1 MiB image: 2048 blocks, 0 bitmap blocks (`Geometry.BitmapFloorOneMiB`) | the fewest bitmap blocks covering every block, `ceil(total_blocks / 4096)` | high; not executed | Geometry.BitmapBlocksAsWritten | Geometry.BitmapBlocks |
| cab_file_taker.cpp:120-123 | `first_current == 0` means "no run started", so a run starting at bit 0 is re-started at bit 1 | a fresh one-block bitmap with only bit 2 set, two blocks: result 1, but bit 2 is used (`FirstFit.FirstBlockMisreportsRunAtZero`) | the start of the first free run, with "none" kept apart from index 0 | high: a formatted bitmap has bit 0 set, but `writeBitMap` (cab_format.cpp:123-129) never writes the formatted buffer to the image, so a bitmap loaded from a zero-filled image has bit 0 clear; not executed | FirstFit.GetFirstBlock | FirstFit.FindFirstFit |
| cab_file_taker.cpp:223 | `index == 0` stands both for "not found" and for "found at slot 0" | a file whose entry is in slot 0 is answered with the empty entry (`RootDirectory.SearchFileLosesEntryZero`) | return the entry in slot 0 when it matches | high; not executed | RootDirectory.SearchFile | RootDirectory.SearchFileCorrected |
