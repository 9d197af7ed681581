/** Reading one chunk: a 4-byte big-endian length, a 4-byte type tag, the data and a 4-byte CRC
    (section 5.3 of the PNG specification), read from the input at a cursor position. */
module Chunks {
  import opened PngBase
  import opened Utils
  import opened Checksum

  /** `enum chunk_type`: the six chunk kinds the converter knows, and everything else. */
  datatype ChunkType = IHDR | IDAT | IEND | PLTE | tRNS | bKGD | Another {
    /** The enumerator's value. */
    function Index(): nat {
      match this
      case IHDR => 0
      case IDAT => 1
      case IEND => 2
      case PLTE => 3
      case tRNS => 4
      case bKGD => 5
      case Another => 6
    }

    /** The kinds whose CRC `read_chunk` enforces (`type < 3`). */
    predicate IsCritical() {
      Index() < 3
    }
  }

  const CountChunkTypes: nat := 7

  /** `PNG_CHUNKS_SIGNATURE`: the tags of the six known kinds, in enumerator order. */
  const PngChunksSignature: seq<seq<byte>> := [
    [0x49, 0x48, 0x44, 0x52], [0x49, 0x44, 0x41, 0x54], [0x49, 0x45, 0x4E, 0x44],
    [0x50, 0x4C, 0x54, 0x45], [0x74, 0x52, 0x4E, 0x53], [0x62, 0x4B, 0x47, 0x44]
  ]

  /** The cast `(enum chunk_type)i`. */
  function KindOf(i: nat): (k: ChunkType)
    requires i < CountChunkTypes
    ensures k.Index() == i
  {
    [IHDR, IDAT, IEND, PLTE, tRNS, bKGD, Another][i]
  }

  /** The search loop of `change_type_chunk` from entry `i` on. */
  function FindTag(tag: seq<byte>, i: nat): (k: ChunkType)
    requires |tag| == 4 && i < CountChunkTypes
    ensures k == Another <==> forall m :: i <= m < CountChunkTypes - 1 ==> PngChunksSignature[m] != tag
    ensures k != Another ==> i <= k.Index() < CountChunkTypes - 1 && PngChunksSignature[k.Index()] == tag
    decreases CountChunkTypes - i
  {
    if i == CountChunkTypes - 1 then Another
    else if CheckEqualArray(4, tag, PngChunksSignature[i]) then KindOf(i)
    else FindTag(tag, i + 1)
  }

  /** `change_type_chunk`: the kind whose tag is exactly `tag`, or `Another`. */
  function ChangeTypeChunk(tag: seq<byte>): (k: ChunkType)
    requires |tag| == 4
    ensures k == Another <==> tag !in PngChunksSignature
    ensures k != Another ==> PngChunksSignature[k.Index()] == tag
  {
    FindTag(tag, 0)
  }

  /** The tag of a known kind is classified as that kind: the table holds six distinct tags. */
  lemma ChangeTypeChunkOfSignature(i: nat)
    requires i < CountChunkTypes - 1
    ensures ChangeTypeChunk(PngChunksSignature[i]) == KindOf(i)
  {
    var k := ChangeTypeChunk(PngChunksSignature[i]);
    assert k != Another;
    assert PngChunksSignature[k.Index()] == PngChunksSignature[i];
  }

  /** `struct chunk`; its `length` is the size of `data`. */
  datatype Chunk = Chunk(kind: ChunkType, data: seq<byte>) {
    function Length(): nat {
      |data|
    }
  }

  /** The length field of a chunk starting at `pos`. */
  function DeclaredLength(input: seq<byte>, pos: nat): uint32
    requires pos + 4 <= |input|
  {
    MakeIntChars4(input[pos..pos + 4])
  }

  /** The type tag of a chunk starting at `pos`. */
  function TagAt(input: seq<byte>, pos: nat): (tag: seq<byte>)
    requires pos + 8 <= |input|
    ensures |tag| == 4
  {
    input[pos + 4..pos + 8]
  }

  /** Every field of the chunk starting at `pos` lies inside the input. */
  predicate Complete(input: seq<byte>, pos: nat) {
    pos + 8 <= |input| && pos + 12 + DeclaredLength(input, pos) <= |input|
  }

  /** The stored CRC of the complete chunk at `pos` matches the one computed over tag and data. */
  predicate CrcMatches(input: seq<byte>, pos: nat)
    requires Complete(input, pos)
  {
    var len := DeclaredLength(input, pos);
    MakeIntChars4(input[pos + 8 + len..pos + 12 + len]) == ChunkCrc(TagAt(input, pos), input[pos + 8..pos + 8 + len]) as int
  }

  /** What `read_chunk` computes from the input at cursor `pos`: the chunk and the cursor after it. */
  function ParseChunk(input: seq<byte>, pos: nat): (r: Result<(Chunk, nat)>)
    requires pos <= |input|
  {
    if |input| - pos < 4 then Err(DataInvalid)
    else if |input| - pos < 8 then Err(DataInvalid)
    else ParseChunkBody(input, pos + 8, MakeIntChars4(input[pos..pos + 4]), input[pos + 4..pos + 8])
  }

  /** The rest of `read_chunk` once the length `len` and the tag have been read and the cursor is at
      the data: the data, the stored CRC, and the CRC check of the critical kinds. */
  function ParseChunkBody(input: seq<byte>, cursor: nat, len: uint32, tag: seq<byte>): (r: Result<(Chunk, nat)>)
    requires cursor <= |input| && |tag| == 4
  {
    if |input| - cursor < len then Err(DataInvalid)
    else
      var data := input[cursor..cursor + len];
      if |input| - (cursor + len) < 4 then Err(DataInvalid)
      else
        var crc1 := MakeIntChars4(input[cursor + len..cursor + len + 4]);
        var kind := ChangeTypeChunk(tag);
        if crc1 != ChunkCrc(tag, data) as int && kind.IsCritical() then Err(DataInvalid)
        else Ok((Chunk(kind, data), cursor + len + 4))
  }

  /** A read succeeds exactly when every field is present and, for a critical kind, the stored CRC
      matches; it then returns the declared number of data bytes and the cursor after the CRC field. */
  lemma ParseChunkSpec(input: seq<byte>, pos: nat)
    requires pos <= |input|
    ensures var r := ParseChunk(input, pos);
            r.Ok? <==> Complete(input, pos) && (ChangeTypeChunk(TagAt(input, pos)).IsCritical() ==> CrcMatches(input, pos))
    ensures var r := ParseChunk(input, pos);
            r.Ok? ==>
              var (c, next) := r.value;
              c.Length() == DeclaredLength(input, pos) && next == pos + 12 + c.Length() &&
              c.kind == ChangeTypeChunk(TagAt(input, pos)) && c.data == input[pos + 8..next - 4]
  {
  }

  /** A successful read moves the cursor forward past at least the 12 bytes of fixed fields. */
  lemma ParseChunkAdvances(input: seq<byte>, pos: nat)
    requires pos <= |input| && ParseChunk(input, pos).Ok?
    ensures pos + 12 <= ParseChunk(input, pos).value.1 <= |input|
  {
  }

  /** The outcome of `read_chunk` once every field has been read, in terms of the fields. */
  lemma ParseChunkBodyFields(input: seq<byte>, cursor: nat, len: uint32, tag: seq<byte>, data: seq<byte>, crcField: uint32)
    requires cursor + len + 4 <= |input| && |tag| == 4
    requires data == input[cursor..cursor + len] && crcField == MakeIntChars4(input[cursor + len..cursor + len + 4])
    ensures ParseChunkBody(input, cursor, len, tag) ==
              if crcField != ChunkCrc(tag, data) as int && ChangeTypeChunk(tag).IsCritical() then Err(DataInvalid)
              else Ok((Chunk(ChangeTypeChunk(tag), data), cursor + len + 4))
  {
  }

  /** `read_chunk`: reads length, type, data and CRC field by field from the cursor and checks the
      CRC of the critical kinds. */
  method ReadChunk(input: seq<byte>, pos: nat, crcTable: seq<bv64>) returns (r: Result<(Chunk, nat)>)
    requires pos <= |input| && IsCrcTable(crcTable)
    ensures r == ParseChunk(input, pos)
  {
    var cursor: nat := pos;
    if |input| - cursor < 4 {
      return Err(DataInvalid);
    }
    var len := MakeIntChars4(input[cursor..cursor + 4]);
    cursor := cursor + 4;
    if |input| - cursor < 4 {
      return Err(DataInvalid);
    }
    var typeInp := input[cursor..cursor + 4];
    cursor := cursor + 4;
    r := ReadChunkBody(input, cursor, len, typeInp, crcTable);
  }

  /** The second half of `read_chunk`, once the length and the tag are in: the data, the stored CRC
      and the comparison against the CRC computed over tag and data. */
  method ReadChunkBody(input: seq<byte>, cursor: nat, len: uint32, typeInp: seq<byte>, crcTable: seq<bv64>)
    returns (r: Result<(Chunk, nat)>)
    requires cursor <= |input| && |typeInp| == 4 && IsCrcTable(crcTable)
    ensures r == ParseChunkBody(input, cursor, len, typeInp)
  {
    var kind := ChangeTypeChunk(typeInp);
    if |input| - cursor < len {
      return Err(DataInvalid);
    }
    var data := input[cursor..cursor + len];
    if |input| - (cursor + len) < 4 {
      return Err(DataInvalid);
    }
    var crc1 := MakeIntChars4(input[cursor + len..cursor + len + 4]);
    var crc2 := Crc(crcTable, typeInp, data);
    ParseChunkBodyFields(input, cursor, len, typeInp, data, crc1);
    if crc1 != crc2 as int && kind.Index() < 3 {
      return Err(DataInvalid);
    }
    r := Ok((Chunk(kind, data), cursor + len + 4));
  }

  /** The bytes of a chunk with the given tag, data and stored CRC field. */
  function EncodeChunk(tag: seq<byte>, data: seq<byte>, crc: seq<byte>): (bytes: seq<byte>)
    requires |tag| == 4 && |data| < 0x1_0000_0000 && |crc| == 4
    ensures |bytes| == 12 + |data|
  {
    IntToChars4(|data|) + tag + data + crc
  }

  /** The bytes of a chunk whose CRC field is the correct checksum. */
  function SealChunk(tag: seq<byte>, data: seq<byte>): seq<byte>
    requires |tag| == 4 && |data| < 0x1_0000_0000
  {
    EncodeChunk(tag, data, IntToChars4(ChunkCrc(tag, data) as int))
  }

  /** The fields of an encoded chunk sit where `read_chunk` looks for them. */
  lemma EncodedChunkFields(prefix: seq<byte>, tag: seq<byte>, data: seq<byte>, crc: seq<byte>, suffix: seq<byte>)
    requires |tag| == 4 && |data| < 0x1_0000_0000 && |crc| == 4
    ensures var input := prefix + EncodeChunk(tag, data, crc) + suffix;
            var p := |prefix|;
            p + 12 + |data| <= |input| && DeclaredLength(input, p) == |data| && TagAt(input, p) == tag &&
            input[p + 8..p + 8 + |data|] == data && input[p + 8 + |data|..p + 12 + |data|] == crc
  {
    var input := prefix + EncodeChunk(tag, data, crc) + suffix;
    var p := |prefix|;
    DecodeEncode(|data|);
    assert input == prefix + IntToChars4(|data|) + tag + data + crc + suffix;
    assert input[p..p + 4] == IntToChars4(|data|);
    assert input[p + 4..p + 8] == tag;
    assert input[p + 8..p + 8 + |data|] == data;
    assert input[p + 8 + |data|..p + 12 + |data|] == crc;
  }

  /** Reading an encoded chunk returns its kind and data and moves the cursor past it; a wrong CRC
      field is refused exactly for the critical kinds IHDR, IDAT and IEND. */
  lemma ParseEncodedChunk(prefix: seq<byte>, tag: seq<byte>, data: seq<byte>, crc: seq<byte>, suffix: seq<byte>)
    requires |tag| == 4 && |data| < 0x1_0000_0000 && |crc| == 4
    ensures var input := prefix + EncodeChunk(tag, data, crc) + suffix;
            ParseChunk(input, |prefix|) ==
              if ChangeTypeChunk(tag).IsCritical() && MakeIntChars4(crc) != ChunkCrc(tag, data) as int
              then Err(DataInvalid)
              else Ok((Chunk(ChangeTypeChunk(tag), data), |prefix| + 12 + |data|))
  {
    EncodedChunkFields(prefix, tag, data, crc, suffix);
  }

  /** A chunk sealed with its own checksum is always read back. */
  lemma ParseSealedChunk(prefix: seq<byte>, tag: seq<byte>, data: seq<byte>, suffix: seq<byte>)
    requires |tag| == 4 && |data| < 0x1_0000_0000
    ensures ParseChunk(prefix + SealChunk(tag, data) + suffix, |prefix|) ==
            Ok((Chunk(ChangeTypeChunk(tag), data), |prefix| + 12 + |data|))
  {
    DecodeEncode(ChunkCrc(tag, data) as int);
    ParseEncodedChunk(prefix, tag, data, IntToChars4(ChunkCrc(tag, data) as int), suffix);
  }

  /** No partial chunk is returned: input that ends anywhere inside a chunk makes the read fail. */
  lemma TruncatedChunkFails(input: seq<byte>, pos: nat, cut: nat)
    requires pos <= cut <= |input|
    requires ParseChunk(input, pos).Ok? && cut < ParseChunk(input, pos).value.1
    ensures ParseChunk(input[..cut], pos) == Err(DataInvalid)
  {
    var short := input[..cut];
    if pos + 8 <= cut {
      assert short[pos..pos + 4] == input[pos..pos + 4];
    }
  }
}
