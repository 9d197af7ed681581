/** The structural part of `main`: the 8-byte signature, the IHDR chunk and its fields, the chunks
    up to IEND, and the checks made once they are all read. Decompression and everything after it
    work on the result. */
module Container {
  import opened PngBase
  import opened Utils
  import opened Checksum
  import opened Chunks
  import opened Assembler

  /** `PNG_SIGNATURE`: the first eight bytes of every PNG file (section 5.2 of the PNG specification). */
  const PngSignature: seq<byte> := [0x89, 0x50, 0x4E, 0x47, 0x0D, 0x0A, 0x1A, 0x0A]

  /** The comparison of the first eight bytes read with `PNG_SIGNATURE`. */
  function CheckSignature(signature: seq<byte>): (r: bool)
    requires |signature| == 8
    ensures r <==> signature == PngSignature
  {
    assert signature[..8] == signature && PngSignature[..8] == PngSignature;
    CheckEqualArray(8, signature, PngSignature)
  }

  /** The values `main` takes from the IHDR chunk. `bytesPixel` is the size of one pixel in the
      decompressed rows, `bytesPixelOut` its size in the PNM output. */
  datatype Header = Header(width: uint32, height: uint32, colorType: byte, bytesPixel: nat, bytesPixelOut: nat)

  /** `bytes_pixel` and `bytes_pixel_out` for a colour type; unknown colour types keep 1 and 1. */
  function PixelSizes(colorType: byte): (nat, nat) {
    if colorType == 2 then (3, 3)
    else if colorType == 3 then (1, 3)
    else if colorType == 4 then (2, 1)
    else if colorType == 6 then (4, 3)
    else (1, 1)
  }

  /** The colour types of section 11.2.2 of the PNG specification. */
  predicate KnownColorType(colorType: byte) {
    colorType in {0, 2, 3, 4, 6}
  }

  /** Samples per pixel of each colour type (table 11.1 of the PNG specification). */
  function Samples(colorType: byte): nat
    requires KnownColorType(colorType)
  {
    match colorType
    case 0 => 1
    case 2 => 3
    case 3 => 1
    case 4 => 2
    case 6 => 4
  }

  /** A grey image (types 0 and 4) becomes a one-channel PGM, anything else a three-channel PPM. */
  function OutputChannels(colorType: byte): nat {
    if colorType == 0 || colorType == 4 then 1 else 3
  }

  /** With 8-bit samples a pixel takes one byte per sample in the rows, and the PNM output keeps
      one byte per grey or colour channel and drops alpha. */
  lemma PixelSizesSpec(colorType: byte)
    ensures KnownColorType(colorType) ==>
              PixelSizes(colorType) == (Samples(colorType), OutputChannels(colorType))
    ensures !KnownColorType(colorType) ==> PixelSizes(colorType) == (1, 1)
  {
  }

  /** The IHDR checks of `main`: the first chunk must be an IHDR, and only bit depth 8 with
      compression, filter and interlace method 0 is supported. The first 13 data bytes are read
      without a length check, so an IHDR chunk must carry them. */
  function CheckHeader(ihdr: Chunk): (r: Result<Header>)
    requires ihdr.kind == IHDR ==> |ihdr.data| >= 13
    ensures r.Err? <==> ihdr.kind != IHDR || ihdr.data[8] != 8 || ihdr.data[10] != 0 || ihdr.data[11] != 0 || ihdr.data[12] != 0
    ensures r.Err? ==> (r.error == DataInvalid <==> ihdr.kind != IHDR)
    ensures r.Ok? ==> r.value.colorType == ihdr.data[9] &&
                      r.value.width == BigEndian(ihdr.data[0..4]) && r.value.height == BigEndian(ihdr.data[4..8]) &&
                      (r.value.bytesPixel, r.value.bytesPixelOut) == PixelSizes(ihdr.data[9])
  {
    if ihdr.kind != IHDR then Err(DataInvalid)
    else
      var width := MakeIntChars4(ihdr.data[0..4]);
      var height := MakeIntChars4(ihdr.data[4..8]);
      var colorType := ihdr.data[9];
      var (bytesPixel, bytesPixelOut) := PixelSizes(colorType);
      if ihdr.data[8] != 8 || ihdr.data[10] != 0 || ihdr.data[11] != 0 || ihdr.data[12] != 0 then Err(Unsupported)
      else
        MakeIntChars4IsBigEndian(ihdr.data[0..4]);
        MakeIntChars4IsBigEndian(ihdr.data[4..8]);
        Ok(Header(width, height, colorType, bytesPixel, bytesPixelOut))
  }

  /** What the structural checks hand to the rest of `main`. */
  datatype Png = Png(header: Header, blocks: Blocks)

  /** The input starts with the signature and a first chunk that can be read. */
  predicate FirstChunkReadable(input: seq<byte>) {
    |input| >= 8 && ParseChunk(input, 8).Ok?
  }

  /** The first chunk of the input, when there is one. */
  function FirstChunk(input: seq<byte>): Chunk
    requires FirstChunkReadable(input)
  {
    ParseChunk(input, 8).value.0
  }

  /** What the converter needs of its input: an IHDR chunk in first place holds at least the 13
      bytes that `main` reads from it. */
  predicate HeaderReadable(input: seq<byte>) {
    FirstChunkReadable(input) && FirstChunk(input).kind == IHDR ==> |FirstChunk(input).data| >= 13
  }

  /** The checks of `main` made after `read_all_chunks`, in their order: no byte after IEND, no tRNS
      with an alpha channel, a PLTE exactly where the colour type allows or demands it, and a PLTE
      made of whole triples. */
  function CheckBlocks(colorType: byte, blocks: Blocks, trailing: bool): (r: Result<Blocks>)
    ensures r.Err? ==> r.error == DataInvalid
    ensures r.Ok? <==>
              !trailing &&
              (colorType == 4 || colorType == 6 ==> blocks.trns.None?) &&
              (colorType == 0 || colorType == 4 ==> blocks.plte.None?) &&
              (colorType == 3 ==> blocks.plte.Some?) &&
              (blocks.plte.Some? ==> |blocks.plte.value| % 3 == 0)
  {
    if trailing then Err(DataInvalid)
    else if blocks.trns.Some? && (colorType == 4 || colorType == 6) then Err(DataInvalid)
    else if (blocks.plte.Some? && (colorType == 0 || colorType == 4)) || (blocks.plte.None? && colorType == 3) then Err(DataInvalid)
    else if blocks.plte.Some? && |blocks.plte.value| % 3 != 0 then Err(DataInvalid)
    else Ok(blocks)
  }

  /** `main` from the signature check up to the allocation of the row buffer: the header and the
      collected blocks of a structurally valid file, or the error it stops with. */
  function DecodeContainer(input: seq<byte>): (r: Result<Png>)
    requires HeaderReadable(input)
    ensures r.Ok? ==> |input| >= 8 && input[..8] == PngSignature
    ensures r.Ok? ==> var h := r.value.header; var b := r.value.blocks;
              (h.colorType == 3 ==> b.plte.Some?) &&
              (h.colorType == 0 || h.colorType == 4 ==> b.plte.None?) &&
              (h.colorType == 4 || h.colorType == 6 ==> b.trns.None?) &&
              (b.plte.Some? ==> |b.plte.value| % 3 == 0)
  {
    if |input| < 8 then Err(DataInvalid)
    else if !CheckSignature(input[..8]) then Err(DataInvalid)
    else
      match ParseChunk(input, 8)
      case Err(e) => Err(e)
      case Ok((ihdr, next)) =>
        match CheckHeader(ihdr)
        case Err(e) => Err(e)
        case Ok(header) =>
          ParseChunkAdvances(input, 8);
          match AssembleFrom(input, next, NoBlocks)
          case Err(e) => Err(e)
          case Ok((blocks, end)) =>
            match CheckBlocks(header.colorType, blocks, end != |input|)
            case Err(e) => Err(e)
            case Ok(blocks) => Ok(Png(header, blocks))
  }

  /** `main` up to the allocation of the row buffer: builds the CRC table, checks the signature,
      reads and checks the IHDR chunk, reads the remaining chunks and applies the final checks. */
  method ReadPng(input: seq<byte>) returns (r: Result<Png>)
    requires HeaderReadable(input)
    ensures r == DecodeContainer(input)
  {
    var crcTable := new bv64[256];
    MakeCrcTable(crcTable);
    if |input| < 8 {
      return Err(DataInvalid);
    }
    var signature := input[..8];
    if !CheckSignature(signature) {
      return Err(DataInvalid);
    }
    var ihdrRead := ReadChunk(input, 8, crcTable[..]);
    if ihdrRead.Err? {
      return Err(ihdrRead.error);
    }
    var (ihdr, next) := ihdrRead.value;
    var header := CheckHeader(ihdr);
    if header.Err? {
      return Err(header.error);
    }
    ParseChunkAdvances(input, 8);
    var assembled := ReadAllChunks(input, next, crcTable[..]);
    if assembled.Err? {
      return Err(assembled.error);
    }
    var (blocks, end) := assembled.value;
    var checked := CheckBlocks(header.value.colorType, blocks, end != |input|);
    if checked.Err? {
      return Err(checked.error);
    }
    r := Ok(Png(header.value, blocks));
  }

  /** A file that does not start with the eight signature bytes is refused as invalid data. */
  lemma NoSignature(input: seq<byte>)
    requires HeaderReadable(input)
    requires |input| < 8 || input[..8] != PngSignature
    ensures DecodeContainer(input) == Err(DataInvalid)
  {
  }

  /** A first chunk of any other kind than IHDR is refused as invalid data. */
  lemma FirstChunkNotHeader(input: seq<byte>)
    requires HeaderReadable(input) && |input| >= 8 && input[..8] == PngSignature
    requires FirstChunkReadable(input) && FirstChunk(input).kind != IHDR
    ensures DecodeContainer(input) == Err(DataInvalid)
  {
  }

  /** A bit depth other than 8, or a compression, filter or interlace method other than 0, is
      refused as unsupported, whatever follows the header. */
  lemma UnsupportedHeader(input: seq<byte>)
    requires HeaderReadable(input) && |input| >= 8 && input[..8] == PngSignature
    requires FirstChunkReadable(input) && FirstChunk(input).kind == IHDR
    requires var d := FirstChunk(input).data; d[8] != 8 || d[10] != 0 || d[11] != 0 || d[12] != 0
    ensures DecodeContainer(input) == Err(Unsupported)
  {
  }

  /** The only error the structural checks report after the header is invalid data. */
  lemma ErrorsAfterHeader(input: seq<byte>)
    requires HeaderReadable(input) && |input| >= 8 && input[..8] == PngSignature
    requires FirstChunkReadable(input) && CheckHeader(FirstChunk(input)).Ok?
    ensures DecodeContainer(input).Err? ==> DecodeContainer(input).error == DataInvalid
  {
  }

  /** Reading a chunk never looks past its CRC field, so bytes appended to the input do not change it. */
  lemma ParseChunkExtend(input: seq<byte>, pos: nat, more: seq<byte>)
    requires pos <= |input| && ParseChunk(input, pos).Ok?
    ensures ParseChunk(input + more, pos) == ParseChunk(input, pos)
  {
    var ext := input + more;
    ParseChunkSpec(input, pos);
    var len := DeclaredLength(input, pos);
    var tag := TagAt(input, pos);
    var cursor := pos + 8;
    assert cursor + len + 4 <= |input|;
    var data := input[cursor..cursor + len];
    var crcBytes := input[cursor + len..cursor + len + 4];
    assert ext[pos..pos + 4] == input[pos..pos + 4];
    assert ext[pos + 4..pos + 8] == tag;
    assert ext[cursor..cursor + len] == data;
    assert ext[cursor + len..cursor + len + 4] == crcBytes;
    assert ParseChunk(ext, pos) == ParseChunkBody(ext, cursor, len, tag);
    assert ParseChunk(input, pos) == ParseChunkBody(input, cursor, len, tag);
    ParseChunkBodyFields(ext, cursor, len, tag, data, MakeIntChars4(crcBytes));
    ParseChunkBodyFields(input, cursor, len, tag, data, MakeIntChars4(crcBytes));
  }

  /** The same for the whole run of chunks up to IEND. */
  lemma {:induction false} AssembleFromExtend(input: seq<byte>, pos: nat, s: Blocks, more: seq<byte>)
    requires pos <= |input| && AssembleFrom(input, pos, s).Ok?
    ensures AssembleFrom(input + more, pos, s) == AssembleFrom(input, pos, s)
    decreases |input| - pos
  {
    ParseChunkExtend(input, pos, more);
    var (c, next) := ParseChunk(input, pos).value;
    ParseChunkAdvances(input, pos);
    if c.kind != IEND {
      AssembleFromExtend(input, next, Absorb(s, c).value, more);
    }
  }

  /** Anything after the IEND chunk of a file that passes the checks makes it invalid. */
  lemma TrailingBytes(input: seq<byte>, more: seq<byte>)
    requires HeaderReadable(input) && DecodeContainer(input).Ok? && |more| > 0
    ensures HeaderReadable(input + more)
    ensures DecodeContainer(input + more) == Err(DataInvalid)
  {
    var ext := input + more;
    assert ext[..8] == input[..8];
    ParseChunkExtend(input, 8, more);
    var (ihdr, next) := ParseChunk(input, 8).value;
    ParseChunkAdvances(input, 8);
    AssembleFromExtend(input, next, NoBlocks, more);
  }
}
