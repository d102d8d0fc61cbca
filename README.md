# Substrate header decoder — a Dafny model

`substrate.py` reads the first record of a cell-simulation save file. The file
starts as a Java object-serialization stream: `STREAM_MAGIC` and
`STREAM_VERSION`, which the program checks as one 4-byte constant `AC ED 00 05`, then one
short block-data record (`TC_BLOCKDATA` `0x77`, a one-byte length, that many
bytes). This is the `blockdatashort` production of section 6.4.1 of the Java
Object Serialization Specification, with the constants of section 6.4.2. The
block's payload is the *substrate*, the simulation's environment settings:

- a big-endian int32 version (95 is the supported one);
- the fields `>1d 2i 7d 1i`, whose last int is `cell_type_count`;
- `cell_type_count + 1` one-byte booleans: one spawn flag per cell type, then
  `contaminate_with_random_cells`;
- a fixed tail `3d 1? 1d 2i 3d 1? 1f 1? 2d 1? 1f`.

The values are paired in order with 48 field names. Whatever follows the
block in the file is a compressed payload.

The model is split into modules:

- `Wire` (`wire.dfy`): bytes as the integers 0..255, big-endian int32 decoding
  and its inverse, and the ways decoding aborts (`Error`).
- `StructFormat` (`struct_format.dfy`): the part of Python's `struct` that is
  used, in `>` mode. A format is a typed list of `(count, code)` groups for
  `?`, `i`, `f` and `d`. `CalcSize` and `Count` are `calcsize` and the number of
  values. `Unpack` decodes item after item with no padding. Packing is the
  reference inverse for the round trip.
- `Stream` (`stream.dfy`): the file handle and the `BytesIO` as a `ByteReader`
  class whose `pos` field is the cursor. `Read(n)` behaves like Python's
  `read(n)`: up to `n` bytes, fewer at the end, never an error.
  `ReadSize`/`ReadInt`/`ReadStruct` are `read_size`/`read_int`/`read_struct`,
  each proved equal to a pure function of the buffer and the starting
  position (`ReadSizeAt`, …).
- `BlockData` (`block_data.dfy`): `get_substrate_bytes` as a method over the
  reader, its declarative meaning `SubstrateBlock`, and the seek offset of
  line 69.
- `Substrate` (`substrate.dfy`): `parse_substrate` as a method over the
  reader. `SubstrateParams` is its meaning by absolute offsets (version in
  bytes 0..4, prefix in 4..80, the rest from 80). `SubstrateMap` is that list
  zipped with the names.

Error handling follows the code:

- `exit()` on a bad magic or tag becomes `Failure(MissingMagic)` or
  `Failure(NotBlockData(tag))`.
- `ord` of an empty read becomes `MissingLength`.
- `struct.unpack` on a short read becomes `ShortRead(wanted, got)`.
- A `cell_type_count` below -1 puts a negative count into the format string.
  `struct` rejects that string, and the model returns `BadFormat(count)`.
- A version other than 95 only prints a message, so decoding goes on and the
  version is stored as read.

The 48 names cover exactly the 48 values produced when `cell_type_count` is
18. For any other count, `zip` pairs the names after the spawn flags with
values of other fields, or drops values. The model reproduces this: see
`Substrate.SubstrateEntries` and `Substrate.EighteenCellTypes`.

## Model

| member | source | states |
|---|---|---|
| Wire.BeInt32 | substrate.py:11 | `>i` yields an int32, negative exactly when the first byte has its top bit set |
| Wire.DecodeEncodeInt32 | substrate.py:11 | every int32 packed as `>i` reads back as itself |
| Wire.EncodeDecodeInt32 | substrate.py:11 | every four bytes are the `>i` packing of the int they read as |
| StructFormat.Codes | substrate.py:35-37 | a format expands to exactly as many item codes as `unpack` yields values |
| StructFormat.CodesMeasure | substrate.py:35-37 | `calcsize` equals the sum of the widths of the items: `>` adds no padding |
| StructFormat.FormatAppend | substrate.py:35-37 | codes, size and value count of a concatenated format are the concatenation and sums of the parts |
| StructFormat.DecodeItem | substrate.py:37 | each decoded item is of its code's kind; an `i` item is an int32 |
| StructFormat.UnpackFrom | substrate.py:37 | decoding a run of codes yields exactly one value per code |
| StructFormat.Unpack | substrate.py:37 | `unpack` of a `calcsize`-long buffer yields one value per repetition in the format |
| StructFormat.UnpackAt | substrate.py:37 | the i-th value is decoded from the bytes that start after the widths of the items before it |
| StructFormat.OffsetInRun | substrate.py:37 | inside a leading run of one code, item k starts k widths in |
| StructFormat.UnpackInRun | substrate.py:37 | the k-th value of a leading run is decoded from the k-th slot of the run |
| StructFormat.OffsetOfLast | substrate.py:37 | the last item ends exactly at the end of the buffer |
| StructFormat.UnpackFits | substrate.py:37 | every unpacked value is of its code's kind |
| StructFormat.UnpackShift | substrate.py:37 | unpacking does not depend on the bytes before the start position |
| StructFormat.DecodeEncodeItem | substrate.py:37 | one packed item decodes back to the same value |
| StructFormat.UnpackPack | substrate.py:37 | unpacking a packed list of values gives back those values |
| Stream.Take | substrate.py:36 | `read(n)` returns at most n bytes from the cursor, exactly n when they exist, otherwise all that remain |
| Stream.ReadSizeAt | substrate.py:12 | `read_size` succeeds exactly when a byte remains and returns its unsigned value; otherwise it fails with `MissingLength` |
| Stream.ReadIntAt | substrate.py:11 | `read_int` succeeds exactly when four bytes remain, returns their big-endian int32 and advances by 4; otherwise `ShortRead(4, remaining)` |
| Stream.ReadStructAt | substrate.py:34-37 | `read_struct` succeeds exactly when `calcsize` bytes remain, returns their unpacked values and advances by `calcsize`; otherwise `ShortRead(calcsize, remaining)` |
| Stream.ByteReader.constructor | substrate.py:54 | a new reader is positioned at the start of the data |
| Stream.ByteReader.Read | substrate.py:36 | the chunk is `Take` at the old position and the cursor advances by its length |
| Stream.ByteReader.ReadSize | substrate.py:12 | the result is `ReadSizeAt` at the old position, and the cursor ends where it says |
| Stream.ByteReader.ReadInt | substrate.py:11 | the result is `ReadIntAt` at the old position, and the cursor ends where it says |
| Stream.ByteReader.ReadStruct | substrate.py:34-37 | the result is `ReadStructAt` at the old position, and the cursor ends where it says |
| BlockData.GetSubstrateBytes | substrate.py:14-32 | the payload is `SubstrateBlock` of the file; on success the cursor stops at `SeekOffset` of the payload |
| BlockData.MagicRequired | substrate.py:18-22 | a file that does not start with `AC ED 00 05` yields no data, only `MissingMagic` |
| BlockData.BlockTagRequired | substrate.py:24-28 | after the magic, any byte other than `0x77` (or none) fails with `NotBlockData` |
| BlockData.PayloadFollowsLength | substrate.py:29-30 | the payload is the bytes after the length byte: at most the declared length (so at most 255), and exactly that length when the file holds it |
| BlockData.SeekOffsetIsConsumed | substrate.py:69 | `4 + 1 + 1 + len(payload)` is exactly the number of bytes the block reader consumed |
| BlockData.Frame | substrate.py:7-8 | the frame of a payload is `SeekOffset(payload)` bytes long |
| BlockData.FrameRoundTrip | substrate.py:14-32 | a framed payload followed by any bytes reads back as that payload and consumes exactly the frame |
| BlockData.FileSplits | substrate.py:68-70 | a complete block splits the file into its frame and the bytes read after the seek; a block cut short leaves nothing after the seek |
| Substrate.SuffixFormat | substrate.py:62 | the second format exists exactly when `cell_type_count >= -1`; otherwise it fails with `BadFormat(cell_type_count + 1)` |
| Substrate.Zip | substrate.py:63 | `zip` pairs the i-th name with the i-th value and has as many pairs as the shorter list |
| Substrate.ParseSubstrate | substrate.py:44-63 | reading through the cursor gives exactly `SubstrateMap(data)`, and on success the cursor stops at `4 + 76 + (cell_type_count + 1) + 92`, the end `SubstrateParams` (and so `SubstrateLayout`) gives |
| Substrate.SubstrateOutcome | substrate.py:55-62 | each way decoding ends: short version, short prefix, count below -1, short second read, or all values in place |
| Substrate.PrefixRead | substrate.py:60 | after the version, the prefix read takes bytes 4..80 or fails with `ShortRead(76, remaining)` |
| Substrate.SuffixRead | substrate.py:62 | after the prefix, the second read takes `cell_type_count + 93` bytes from offset 80 or fails with `ShortRead` |
| Substrate.PrefixSize | substrate.py:60 | `calcsize('>1d 2i 7d 1i')` is 76 |
| Substrate.TailSize | substrate.py:62 | the fixed tail of the second format spans 92 bytes |
| Substrate.SuffixSplit | substrate.py:62 | the second format is `cell_type_count + 1` booleans followed by the fixed tail |
| Substrate.SuffixSize | substrate.py:62 | the second format spans `(cell_type_count + 1) + 92` bytes |
| Substrate.SuffixCount | substrate.py:62 | the second format yields `(cell_type_count + 1) + 17` values |
| Substrate.SuffixCodes | substrate.py:62 | the first `cell_type_count + 1` codes of the second format are all `?` |
| Substrate.PrefixEndsWithInt | substrate.py:60-61 | the prefix yields 11 values, the last being the int in its last four bytes: `params[-1]` is `cell_type_count` |
| Substrate.BooleanAt | substrate.py:62 | the k-th of the `cell_type_count + 1` booleans is "byte k of the second read is not zero" |
| Substrate.SubstrateSucceedsWhen | substrate.py:55-62 | decoding succeeds exactly when bytes 4..80 exist, `cell_type_count >= -1` and the `cell_type_count + 93` bytes from offset 80 exist |
| Substrate.SubstrateSuccess | substrate.py:59-62 | a successful decode is the version, the prefix values and the second read's values, ending at offset `173 + cell_type_count` |
| Substrate.SubstrateLayout | substrate.py:59-62 | a success consumes `4 + 76 + (cell_type_count + 1) + 92` bytes and yields `cell_type_count + 30` values, with the version first, the count at index 11 and one boolean per byte from offset 80 |
| Substrate.FieldNames | substrate.py:45-52 | there are 48 names, with `substrate_version`, `cell_type_count`, `spawn_phagocytes` and `contaminate_with_random_cells` at 0, 11, 12 and 30 |
| Substrate.SubstrateEntries | substrate.py:63 | the mapping has `min(48, cell_type_count + 30)` entries, pairing names and values in order; the version and the count are under their names |
| Substrate.EighteenCellTypes | substrate.py:45-63 | with `cell_type_count = 18` a record of 191 bytes or more decodes, and each of the 48 names gets exactly one value: the count maps to 18, and the 19 names from `spawn_phagocytes` to `contaminate_with_random_cells` map to the booleans it sized |
| Substrate.OnlyVersionFromHead | substrate.py:55-62 | two inputs that agree after byte 4 both fail or both succeed, with the same values after the version |
| Substrate.SameValuesAfterHead | substrate.py:55-62 | two successful decodes of inputs that agree after byte 4 have the same values after the version |
| Substrate.WithVersion | substrate.py:55 | replacing the first four bytes with the packing of `v` keeps the length and the rest and reads back as `v` |
| Substrate.VersionOnlyReported | substrate.py:55-59 | replacing the version with any int32 changes neither success nor any entry but the first, which holds the new version |
| Substrate.UnsupportedVersionIsKept | substrate.py:55-59 | a version other than 95 decodes as version 95 would, and is still stored under `substrate_version` |

## Left out

- Command-line and script plumbing are not modelled: `sys.argv`, opening the file twice, `seek` and the final `read()` (substrate.py:65-70). `GetSubstrateBytes` takes the file's bytes as a sequence. The seek position is `BlockData.SeekOffset`, and the bytes read after it are `BlockData.Compressed`.
- All printing is left out, as presentation only: the error messages (lines 21, 27), the version warning (line 57) and `print_substrate_params` (lines 39-42, 67). `exit()` is modelled as a `Failure` result.
- Gzip decompression is not modelled: the call is commented out, and the library is foreign code (lines 5, 72).
- `read_float` (line 10) is defined but never called, so it is not modelled.
- Floats and doubles are kept as their raw 4- and 8-byte big-endian words. Their IEEE-754 meaning is not modelled.
- Python's format-string parser is not modelled. Formats are typed lists of `(count, code)` groups built directly from the literal format strings. For a count below -1, `BadFormat` stands for the `struct.error` that `struct` raises; its message is not modelled.
- StructFormat.Unpack: it requires a buffer of exactly `calcsize` bytes. A shorter buffer, on which `struct.unpack` raises, is handled one level up in `Stream.ReadStructAt` as `ShortRead`.
- The `OrderedDict` is modelled as the ordered list of pairs that `zip` yields. That the 48 names are distinct, so that no pair overwrites another, is not proved.
- Java serialization beyond the one short block is not modelled, because this code does not handle it: no long block (`0x7A`), no further records.
