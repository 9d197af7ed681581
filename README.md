# PNG to PNM converter core, modelled in Dafny

This project models the byte-level core of `main.c`, a converter that reads an 8-bit,
non-interlaced PNG file and writes its pixels as a PGM (grey) or PPM (colour) bitmap. The
model follows the converter stage by stage:

- **CRC-32** (`crc.dfy`, module `Checksum`): `make_crc_table`, `update_crc` and `crc`. The
  table holds the reflected polynomial 0xEDB88320. The register starts at 0xFFFFFFFF and is
  inverted at the end (section 5.5 and annex D of the PNG specification). The C `unsigned long`
  arithmetic is modelled on `bv64`.
- **Chunk reader** (`utils.dfy`, `chunks.dfy`): `check_equal_array`, `make_int_chars4`,
  `change_type_chunk` and `read_chunk`. The file is a `seq<byte>` read from a cursor. A chunk is
  a big-endian length, a 4-byte tag, the data and a CRC. The CRC is enforced only for the
  critical kinds IHDR, IDAT and IEND.
- **Chunk assembler** (`assembler.dfy`): `read_all_chunks`, which joins payloads with
  `union_two` (in `utils.dfy`). The IDAT payloads are joined in order. PLTE may appear once. A
  repeated tRNS is appended and a repeated bKGD replaces the previous one. Unknown chunks are
  dropped, and reading stops right after IEND.
- **Structural checks of `main`** (`container.dfy`): the signature, the IHDR fields and the
  pixel sizes of each colour type, and the checks made after `read_all_chunks`.
- **Defilter** (`defilter.dfy`): `unfilter_png` reconstructs the rows in place in an `array`, row
  by row and byte by byte (section 9 of the PNG specification). It is proved against `Recon`,
  the recursive definition of the reconstructed image, and against the standard forward filter
  (`Filter`), which it undoes.
- **Background** (`background.dfy`): `change_background` writes a 3-byte `array`. The order is
  the command-line override, then bKGD (section 11.3.5.1 of the PNG specification), then the
  colour the caller started with.
- **Compositor** (`compositor.dfy`): `write_to_lines` fills the output `array` pixel by pixel in
  raster order while it advances `pos`. It is proved against `Output`, the concatenation of every
  pixel's output. The float alpha blend is a function parameter of type `Blend`.

`base.dfy` (module `PngBase`) holds the shared types (`byte`, `uint32`, `Option`, `Result`, and
`Error` with `DataInvalid` and `Unsupported`). It also holds the `ARR` macro as `Arr` and the row
arithmetic used by the defilter and the compositor.

Where the code and its published description disagree, the model follows the code:

- Without an override or a bKGD chunk the background stays black, and the alpha blend is
  still applied. `go_background` is computed but never read.
- Colour types outside {0, 2, 3, 4, 6} are not rejected. They keep one byte per pixel in and
  out, and `write_to_lines` writes nothing for them.
- The tRNS key of colour types 0 and 2 is compared on the low byte of each 16-bit sample only.
  Under colour type 0, every entry is compared, and the comparison goes on against the
  replaced value.

## Model

| member | source | states |
|---|---|---|
| Utils.CheckEqualArray | main.c:773-781 | true exactly when the first `n` bytes of both buffers agree |
| Utils.BigEndian | main.c:816-824 | a byte string read most significant byte first is below 256 to the power of its length |
| Utils.MakeIntChars4IsBigEndian | main.c:816-824 | the shift-and-or loop of `make_int_chars4` gives the big-endian value of the four bytes |
| Utils.DecodeEncode | main.c:816-830 | decoding the big-endian encoding of any 32-bit value gives the value back |
| Utils.EncodeDecode | main.c:816-830 | encoding the decoded value of any four bytes gives the bytes back |
| Utils.UnionTwo | main.c:832-847 | the copy loop returns the first buffer followed by the second |
| Checksum.RoundsBound | main.c:850-867 | the eight shift/xor rounds keep a value below 2^32 |
| Checksum.TableEntry | main.c:850-867 | every CRC table entry is below 2^32 |
| Checksum.MakeCrcTable | main.c:850-867 | every slot `n` of the table holds the eight-round value of `n` |
| Checksum.CrcRegisterAppend | main.c:869-879 | `update_crc` is a left fold: running it over `x ++ y` equals running it over `x` and then `y` |
| Checksum.CrcRegisterBound | main.c:869-879 | a register below 2^32 stays below 2^32 |
| Checksum.UpdateCrc | main.c:869-879 | the table-driven loop computes the register of the reference definition |
| Checksum.ChunkCrc | main.c:881-892 | the chunk CRC is the register over tag followed by data, started at 0xFFFFFFFF and inverted |
| Checksum.Crc | main.c:881-892 | `crc` returns the chunk CRC of tag and data |
| Checksum.ChunkCrcStreams | main.c:881-892 | the tag and the data can be fed to the register one after the other |
| Checksum.IendCrc | main.c:881-892 | the CRC of an IEND chunk with no data is 0xAE426082 |
| Chunks.KindOf | main.c:48-57 | the cast of `i` to `enum chunk_type` has enumerator value `i` |
| Chunks.FindTag | main.c:707-717 | the search from entry `i` returns the first matching known tag at or after `i`, else `Another` exactly when none matches |
| Chunks.ChangeTypeChunk | main.c:707-717 | `Another` exactly when the tag is not one of the six known tags, else the kind whose tag it is |
| Chunks.ChangeTypeChunkOfSignature | main.c:33-36 | each of the six known tags is classified as its own kind |
| Chunks.ParseChunkSpec | main.c:668-705 | a read succeeds exactly when all fields are present and, for IHDR, IDAT or IEND, the stored CRC matches; it then consumes 12 + len bytes and returns the big-endian length, the classified tag and the next len bytes |
| Chunks.ParseChunkAdvances | main.c:668-705 | a successful read moves the cursor at least 12 bytes and stays inside the input |
| Chunks.ReadChunk | main.c:668-705 | the field-by-field reader returns what the reference definition gives |
| Chunks.ReadChunkBody | main.c:682-704 | the data, CRC field and CRC check after the length and tag match the reference definition |
| Chunks.EncodeChunk | main.c:668-705 | an encoded chunk takes 12 bytes more than its data |
| Chunks.EncodedChunkFields | main.c:668-705 | the length, tag, data and CRC of an encoded chunk are where the reader looks for them |
| Chunks.ParseEncodedChunk | main.c:668-705 | reading an encoded chunk returns its kind and data and moves the cursor past it, and fails only on a CRC mismatch of a critical kind |
| Chunks.ParseSealedChunk | main.c:668-705 | a chunk carrying its own correct CRC is always read back |
| Chunks.TruncatedChunkFails | main.c:783-796 | input that ends anywhere inside a chunk makes the read fail with invalid data |
| Assembler.AssembleFrom | main.c:567-666 | the loop fails only with invalid data and, on success, stops after the cursor and inside the input |
| Assembler.ParseUntilEnd | main.c:579-649 | the chunks read end with the first IEND and contain no earlier IEND |
| Assembler.AbsorbAllOk | main.c:584-602 | absorbing chunks fails exactly on an IHDR or on a PLTE beyond the first, always with invalid data |
| Assembler.AbsorbAllValue | main.c:581-648 | IDAT payloads are appended in order, PLTE is kept, the last bKGD wins, tRNS payloads are appended, other chunks change nothing |
| Assembler.LastOfCount | main.c:620-640 | a last chunk of a kind exists exactly when the kind occurs |
| Assembler.AssembleFromSplit | main.c:579-649 | reading and absorbing chunk by chunk equals reading up to IEND and then absorbing |
| Assembler.ReadAllSpec | main.c:567-666 | `read_all_chunks` succeeds exactly when every chunk up to IEND is readable, none is IHDR and at most one is PLTE; it returns the joined IDAT data, PLTE, the last bKGD, the joined tRNS data and the cursor after IEND |
| Assembler.ReadAllChunks | main.c:567-666 | the do-while loop computes the reference result |
| Container.CheckSignature | main.c:123-135 | true exactly when the eight bytes are the PNG signature |
| Container.PixelSizesSpec | main.c:146-168 | known colour types get one byte per sample in and one or three channels out; other types get 1 and 1 |
| Container.CheckHeader | main.c:141-174 | a first chunk that is not IHDR is invalid data; bit depth other than 8 or a non-zero method byte is unsupported; otherwise width, height and colour type are the IHDR fields |
| Container.CheckBlocks | main.c:203-235 | the post-read checks pass exactly when nothing follows IEND, no tRNS comes with types 4 or 6, PLTE is present for type 3 and absent for 0 and 4, and its length is a multiple of 3; failures are invalid data |
| Container.DecodeContainer | main.c:123-235 | a successful decode has the signature and satisfies every post-read check |
| Container.ReadPng | main.c:114-235 | `main` up to the row buffer computes the reference result |
| Container.NoSignature | main.c:123-135 | a missing or wrong signature is invalid data |
| Container.FirstChunkNotHeader | main.c:141-145 | a first chunk of another kind is invalid data |
| Container.UnsupportedHeader | main.c:170-174 | an unsupported bit depth or method is reported as unsupported |
| Container.ErrorsAfterHeader | main.c:196-235 | after a good header every error is invalid data |
| Container.ParseChunkExtend | main.c:668-705 | appending bytes to the input does not change a successful chunk read |
| Container.AssembleFromExtend | main.c:567-666 | appending bytes does not change a successful run up to IEND |
| Container.TrailingBytes | main.c:203-208 | any byte after the IEND of an accepted file makes it invalid data |
| Defilter.PaethNearest | main.c:746-766 | the result is the neighbour nearest to a + b - c, ties going to a and then to b |
| Defilter.Mean | main.c:744 | the result is the mean of the two bytes rounded down |
| Defilter.PredictorCases | main.c:734-766 | Sub adds a, Up adds b, Average the rounded-down mean, Paeth the Paeth predictor, any other type nothing |
| Defilter.AllocationHoldsRows | main.c:238 | the allocated buffer holds all rows of stride `width * bytes_pixel + 1` |
| Defilter.ScanAt | main.c:724-766 | every byte the reconstruction has passed holds its filter type (column 0) or its reference reconstruction |
| Defilter.ScanNewest | main.c:731-766 | the byte just reconstructed equals the reference, read from already reconstructed neighbours |
| Defilter.UnfilteredCell | main.c:719-769 | after `unfilter_png` every filter-type byte is unchanged and every data byte holds its reference reconstruction |
| Defilter.UnfilteredData | main.c:729-766 | every data byte of every row holds `(filtered + predictor(a, b, c)) mod 256` over reconstructed neighbours |
| Defilter.UnfilteredFilterBytes | main.c:724-728 | filter-type bytes are never modified |
| Defilter.UnfilteredTail | main.c:719-769 | bytes after the last row are never modified |
| Defilter.UnknownFilterScan | main.c:724-766 | a row with filter type 0 or a type above 4 is reconstructed as its own bytes |
| Defilter.UnknownFilterRowKept | main.c:727-728 | skipping a row of filter type None leaves the buffer as visiting it would |
| Defilter.SubByte | main.c:736-765 | subtracting a prediction modulo 256 is undone by adding it back |
| Defilter.FilterAt | main.c:719-769 | the forward-filtered image keeps each filter-type byte and filters each data byte from the original neighbours |
| Defilter.FilterIsFiltered | main.c:719-769 | `Filter` meets the forward-filter relation on every row |
| Defilter.ReconOfFiltered | main.c:729-766 | reconstructing a forward-filtered image gives back every original data byte |
| Defilter.FilterRoundTrip | main.c:719-769 | `unfilter_png` applied to the forward filter of any image gives the image back |
| Defilter.UnfilterPng | main.c:719-769 | the buffer ends as the reference reconstruction of the old buffer |
| Defilter.UnfilterRowOrSkip | main.c:724-767 | one pass of the outer loop takes the buffer from the state before row `i` to the state before row `i + 1`, whether the row is skipped (None) or reconstructed |
| Defilter.UnfilterRow | main.c:729-767 | one row's loop takes the buffer from the state before row `i` to the state before row `i + 1` |
| Defilter.UnfilterByte | main.c:731-766 | reading a, b and c and adding the predictor updates exactly byte `j` of row `i` to its reconstruction |
| Defilter.Reconstruct | main.c:734-766 | the if-chain adds the filter type's predictor to the byte modulo 256 |
| Background.PaletteEntry | main.c:523-527 | palette entry `x` is bytes 3x, 3x + 1 and 3x + 2 of PLTE |
| Background.BkgdColour | main.c:545-564 | the bKGD colour is three bytes |
| Background.ChangedBackground | main.c:516-565 | the chosen background is three bytes; bKGD need be readable only when there is no override, the only case in which it is read |
| Background.OverrideBeatsBkgd | main.c:518-546 | `go_background` is set exactly when an override is given, and then bKGD makes no difference whatever it holds (short or naming no palette entry); three values give `[r, g, b]` and one value outside type 3 gives `[x, x, x]` |
| Background.DefaultBackground | main.c:379-381 | with no override and no bKGD the background stays black and `go_background` unset |
| Background.GreyStaysGrey | main.c:516-565 | under colour types 0 and 4 one value `x` gives `[x, x, x]`, bKGD without override gives three copies of its byte 1, neither keeps the start colour; so a grey start stays grey unless three values are given |
| Background.ColourBackground | main.c:516-565 | under colour types 2 and 6 one value `x` gives `[x, x, x]`, bKGD without override gives its bytes 1, 3 and 5, neither keeps the start colour |
| Background.PaletteBackground | main.c:518-563 | under colour type 3 one value `x` gives palette entry `x` when `x < length / 3` and keeps the start colour otherwise, bKGD without override gives the entry its byte 0 names, neither keeps the start colour; so the result is a palette entry or the start colour |
| Background.ChangeBackground | main.c:516-565 | the array and `go_background` end as the reference choice, for any bKGD payload when an override is given |
| Compositor.GreyKeyKeepsBackground | main.c:502-508 | once the sample is the background it stays the background through the remaining entries |
| Compositor.GreyKeyMeaning | main.c:497-511 | the type 0 key loop gives `background[0]` exactly when some 2-byte tRNS entry's byte 1 equals the sample, else the sample |
| Compositor.RgbKeyMeaning | main.c:480-492 | the type 2 key loop matches exactly when some 6-byte entry's bytes 1, 3 and 5 equal the pixel's red, green and blue |
| Compositor.PixelOut | main.c:443-511 | every pixel of a known colour type gives `bytes_pixel_out` bytes and one of another type gives none |
| Compositor.GreyPixel | main.c:497-511 | a grey pixel is replaced by `background[0]` exactly when a tRNS entry holds it |
| Compositor.RgbPixel | main.c:475-496 | a colour pixel is replaced by the background exactly when a tRNS entry holds it |
| Compositor.PalettePixel | main.c:454-474 | a palette sample with no tRNS entry gives its palette triple; one with a tRNS entry gives each palette channel, read as a signed `char`, blended with the background channel by that entry's alpha |
| Compositor.PaletteIndexInRange | main.c:456-459 | under colour type 3 each sample lies in the buffer and names a palette entry |
| Compositor.EmittedLength | main.c:439-513 | the output up to pixel `k` of row `i` takes `(i * width + k) * bytes_pixel_out` bytes, or none for an unknown type |
| Compositor.OutputLength | main.c:439-513 | `write_to_lines` writes `width * height * bytes_pixel_out` bytes for a known colour type and none otherwise |
| Compositor.NewestAt | main.c:439-513 | the output of a pixel follows everything written before it |
| Compositor.EmittedAt | main.c:439-513 | raster order: the output of pixel `k'` of row `i'` starts at `(i' * width + k') * bytes_pixel_out` |
| Compositor.OutputAt | main.c:439-513 | byte `(i * width + k) * bytes_pixel_out + c` of the output is byte `c` of the output of pixel `k` of row `i` |
| Compositor.Put | main.c:450 | `(*lines)[(*pos)++] = v` appends one byte to the output and advances `pos` |
| Compositor.KeyGrey | main.c:500-509 | the type 0 key loop gives `background[0]` exactly when some entry's byte 1 equals the sample |
| Compositor.KeyRgb | main.c:480-492 | the type 2 key loop gives the background exactly when some entry matches the pixel |
| Compositor.PutBlended | main.c:443-452 | types 4 and 6 append each colour sample blended with the background by the pixel's last (alpha) sample |
| Compositor.BlendedSample | main.c:443-452 | under colour types 4 and 6 output byte `it` of a pixel is colour sample `it` blended with background channel `it` by the alpha sample at column `j + bytes_pixel_out` |
| Compositor.PutPalette | main.c:454-474 | type 3 appends the palette triple, blended by the tRNS alpha when the index is below the tRNS length |
| Compositor.PutRgb | main.c:475-496 | type 2 appends the pixel or the background and leaves `j` on the pixel's last byte |
| Compositor.PutGrey | main.c:497-511 | type 0 appends the sample or `background[0]` |
| Compositor.PutPixel | main.c:443-511 | one pixel appends its output and leaves `j` on the pixel's last byte |
| Compositor.PutRow | main.c:441-512 | one row appends the output of its pixels in order |
| Compositor.WriteToLines | main.c:425-514 | the buffer starts with the whole output, the rest is unchanged, and `pos` ends after it, inside the buffer |

## Left out

- File and stream I/O (`fopen`, `fgetc`, `fwrite`, the PNM header) is not modelled. The input
  is a byte sequence and the model stops at the output pixel buffer. A read past the end of the
  file is the error path of the cursor model.
- Decompression of the joined IDAT data (zlib, libdeflate or ISA-L) is not modelled. The
  defilter starts from an arbitrary buffer of decompressed rows.
- The float alpha blend is the `Blend` parameter. No arithmetic result is claimed for it.
- Command-line handling (`argc` dispatch and `strtol`) is not modelled. The override arrives
  already parsed and cast to bytes as `Background.Override`.
- Allocation failures, `free`, the ignored return codes of `union_two` and the exit-code
  numbers are not modelled.
- Unsigned wrap-around of the size products in `main` is not modelled. The integers are
  unbounded, and the preconditions demand buffers large enough for the products.
- Container.CheckHeader requires an IHDR chunk to carry at least 13 data bytes, because the
  source reads them unchecked.
- Compositor.WriteToLines and Compositor.PaletteIndexInRange require every palette sample to
  name a palette entry, because the source reads the palette unchecked.
- Background.ChangeBackground requires, when no override is given, a bKGD payload long enough
  for its colour type and, under type 3, a palette index inside the palette, because the source
  then reads both unchecked. Under an override bKGD is not read and may hold anything.
- Defilter.UnfilterPng requires at least one byte per pixel. This holds for every colour type
  `main` produces.
- Chunks.ReadChunk: a declared length of 2^31 or more becomes a negative `int` in
  `read_nbytes_file` and `crc`. If the allocations succeed, the source then reads no data, takes
  the next four bytes as the CRC field, and computes the CRC over `4 + len` bytes, which is at
  most 3 (none, or the first 1 to 3 tag bytes). On success it returns a chunk of the declared
  length whose buffer is uninitialised, and the next read starts 12 bytes after the chunk's
  start. The model instead reads the declared number of bytes, and fails unless that many
  bytes follow.
- `read_all_chunks` stores the tRNS chunk through `(*in_blocks)[i]` while `main` reads
  `*in_blocks[i]`, so the slots alias. The model keeps one slot per kind, which is what the
  code evidently intends.
- `allocate_vector` sizes the row buffer as `bytes_pixel * (width * height + height)`. The
  model keeps only the rows that the defilter and the compositor address
  (Defilter.AllocationHoldsRows shows that they fit). The uninitialised remainder is not
  modelled.
- Compositor.PutBlended reads every byte through `Blend` and does not model the conversion of
  the `float` result to `char`.
