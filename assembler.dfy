/** Collecting the chunks that follow the header: `read_all_chunks`. The IDAT payloads are joined in
    arrival order, PLTE may appear once, a repeated tRNS is appended to the stored one, a repeated bKGD
    replaces it, every other chunk is dropped, and reading stops right after IEND. */
module Assembler {
  import opened PngBase
  import opened Utils
  import opened Checksum
  import opened Chunks

  /** What `read_all_chunks` hands back through its out-pointers: the joined IDAT stream
      (`i_data`), the palette (`plte` / `plte_go`) and the bKGD and tRNS slots (`in_blocks` /
      `go_in_blocks`); `None` stands for a chunk that was not seen. */
  datatype Blocks = Blocks(idat: seq<byte>, plte: Option<seq<byte>>, bkgd: Option<seq<byte>>, trns: Option<seq<byte>>)

  /** The state before the first chunk is read. */
  const NoBlocks := Blocks([], None, None, None)

  /** The effect of one chunk on the collected blocks: one pass of the do-while body. */
  function Absorb(s: Blocks, c: Chunk): Result<Blocks> {
    match c.kind
    case IHDR => Err(DataInvalid)
    case PLTE => if s.plte.Some? then Err(DataInvalid) else Ok(s.(plte := Some(c.data)))
    case IDAT => Ok(s.(idat := s.idat + c.data))
    case bKGD => Ok(s.(bkgd := Some(c.data)))
    case tRNS => Ok(s.(trns := Some(s.trns.GetOr([]) + c.data)))
    case IEND | Another => Ok(s)
  }

  /** The do-while loop of `read_all_chunks` run from cursor `pos` with the blocks `s` collected so
      far: the blocks at the end and the cursor just after the IEND chunk. */
  function AssembleFrom(input: seq<byte>, pos: nat, s: Blocks): (r: Result<(Blocks, nat)>)
    requires pos <= |input|
    ensures r.Err? ==> r.error == DataInvalid
    ensures r.Ok? ==> pos < r.value.1 <= |input|
    decreases |input| - pos
  {
    match ParseChunk(input, pos)
    case Err(e) => Err(e)
    case Ok((c, next)) =>
      ParseChunkAdvances(input, pos);
      match Absorb(s, c)
      case Err(e) => Err(e)
      case Ok(s') => if c.kind == IEND then Ok((s', next)) else AssembleFrom(input, next, s')
  }

  /** The chunks read from `pos` up to and including the first IEND, and the cursor after it. */
  function ParseUntilEnd(input: seq<byte>, pos: nat): (r: Result<(seq<Chunk>, nat)>)
    requires pos <= |input|
    ensures r.Ok? ==>
              var (cs, end) := r.value;
              |cs| > 0 && cs[|cs| - 1].kind == IEND && (forall i :: 0 <= i < |cs| - 1 ==> cs[i].kind != IEND) &&
              pos < end <= |input|
    decreases |input| - pos
  {
    match ParseChunk(input, pos)
    case Err(e) => Err(e)
    case Ok((c, next)) =>
      ParseChunkAdvances(input, pos);
      if c.kind == IEND then Ok(([c], next))
      else
        match ParseUntilEnd(input, next)
        case Err(e) => Err(e)
        case Ok((cs, end)) => Ok(([c] + cs, end))
  }

  /** The blocks after absorbing the chunks `cs` one by one, from the left. */
  function AbsorbAll(s: Blocks, cs: seq<Chunk>): (r: Result<Blocks>)
    decreases |cs|
  {
    if cs == [] then Ok(s)
    else
      match Absorb(s, cs[0])
      case Err(e) => Err(e)
      case Ok(s') => AbsorbAll(s', cs[1..])
  }

  /** The number of chunks of kind `k` in `cs`. */
  function Count(cs: seq<Chunk>, k: ChunkType): nat
    decreases |cs|
  {
    if cs == [] then 0 else (if cs[0].kind == k then 1 else 0) + Count(cs[1..], k)
  }

  /** The data of every chunk of kind `k` in `cs`, joined in order. */
  function Payloads(cs: seq<Chunk>, k: ChunkType): seq<byte>
    decreases |cs|
  {
    if cs == [] then [] else (if cs[0].kind == k then cs[0].data else []) + Payloads(cs[1..], k)
  }

  /** The data of the last chunk of kind `k` in `cs`. */
  function LastOf(cs: seq<Chunk>, k: ChunkType): Option<seq<byte>>
    decreases |cs|
  {
    if cs == [] then None
    else
      var later := LastOf(cs[1..], k);
      if later.Some? then later else if cs[0].kind == k then Some(cs[0].data) else None
  }

  lemma {:induction false} LastOfCount(cs: seq<Chunk>, k: ChunkType)
    ensures LastOf(cs, k).Some? <==> Count(cs, k) > 0
    decreases |cs|
  {
    if cs != [] {
      LastOfCount(cs[1..], k);
    }
  }

  /** Absorbing a run of chunks fails exactly on an IHDR or on a PLTE beyond the first, and always
      with a data error. */
  lemma {:induction false} AbsorbAllOk(s: Blocks, cs: seq<Chunk>)
    ensures AbsorbAll(s, cs).Ok? <==>
              Count(cs, IHDR) == 0 && Count(cs, PLTE) + (if s.plte.Some? then 1 else 0) <= 1
    ensures AbsorbAll(s, cs).Err? ==> AbsorbAll(s, cs).error == DataInvalid
    decreases |cs|
  {
    if cs != [] {
      match Absorb(s, cs[0])
      case Err(e) =>
      case Ok(s') => AbsorbAllOk(s', cs[1..]);
    }
  }

  /** A successful run appends every IDAT payload, keeps the only PLTE, keeps the last bKGD and
      appends every tRNS payload to the stored one. */
  lemma {:induction false} AbsorbAllValue(s: Blocks, cs: seq<Chunk>)
    requires AbsorbAll(s, cs).Ok?
    ensures AbsorbAll(s, cs).value == Blocks(
              s.idat + Payloads(cs, IDAT),
              if Count(cs, PLTE) == 0 then s.plte else Some(Payloads(cs, PLTE)),
              if LastOf(cs, bKGD).Some? then LastOf(cs, bKGD) else s.bkgd,
              if Count(cs, tRNS) == 0 then s.trns else Some(s.trns.GetOr([]) + Payloads(cs, tRNS)))
    decreases |cs|
  {
    if cs != [] {
      var c, rest := cs[0], cs[1..];
      var s' := Absorb(s, c).value;
      AbsorbAllValue(s', rest);
      forall k: ChunkType | k != c.kind
        ensures Payloads(cs, k) == Payloads(rest, k)
      {
        assert Payloads(cs, k) == [] + Payloads(rest, k);
      }
      if c.kind == IDAT {
        assert s'.idat + Payloads(rest, IDAT) == s.idat + Payloads(cs, IDAT);
      } else if c.kind == tRNS {
        if Count(rest, tRNS) == 0 {
          PayloadsEmpty(rest, tRNS);
          assert Payloads(cs, tRNS) == c.data + [] == c.data;
        } else {
          assert s'.trns.GetOr([]) + Payloads(rest, tRNS) == s.trns.GetOr([]) + Payloads(cs, tRNS);
        }
      } else if c.kind == PLTE {
        AbsorbAllOk(s', rest);
        PayloadsEmpty(rest, PLTE);
        assert Payloads(cs, PLTE) == c.data + [] == c.data;
      }
    }
  }

  lemma {:induction false} PayloadsEmpty(cs: seq<Chunk>, k: ChunkType)
    requires Count(cs, k) == 0
    ensures Payloads(cs, k) == []
    decreases |cs|
  {
    if cs != [] {
      PayloadsEmpty(cs[1..], k);
    }
  }

  /** Reading chunk by chunk and absorbing as it goes gives the same result as reading every chunk up
      to IEND first and absorbing them afterwards; every failure is a data error. */
  lemma {:induction false} AssembleFromSplit(input: seq<byte>, pos: nat, s: Blocks)
    requires pos <= |input|
    ensures AssembleFrom(input, pos, s) ==
              match ParseUntilEnd(input, pos)
              case Err(_) => Err(DataInvalid)
              case Ok((cs, end)) =>
                match AbsorbAll(s, cs)
                case Err(_) => Err(DataInvalid)
                case Ok(s') => Ok((s', end))
    decreases |input| - pos
  {
    match ParseChunk(input, pos)
    case Err(e) =>
    case Ok((c, next)) =>
      match Absorb(s, c)
      case Err(e) =>
        AbsorbAllOk(s, [c]);
        if ParseUntilEnd(input, pos).Ok? {
          var cs := ParseUntilEnd(input, pos).value.0;
          assert cs[0] == c;
        }
      case Ok(s') =>
        if c.kind != IEND {
          AssembleFromSplit(input, next, s');
          if ParseUntilEnd(input, next).Ok? {
            var cs := ParseUntilEnd(input, next).value.0;
            assert ([c] + cs)[1..] == cs;
          }
        }
  }

  /** What `read_all_chunks` delivers, stated over the chunks between `pos` and the first IEND: it
      succeeds exactly when every chunk up to IEND is read, none of them is an IHDR and at most one is
      a PLTE; the IDAT stream is then the in-order join of every IDAT payload, bKGD is the last one
      seen, tRNS the join of every tRNS payload, and the cursor stands just after the IEND chunk. */
  lemma ReadAllSpec(input: seq<byte>, pos: nat)
    requires pos <= |input|
    ensures var r := AssembleFrom(input, pos, NoBlocks);
            r.Ok? <==>
              ParseUntilEnd(input, pos).Ok? &&
              Count(ParseUntilEnd(input, pos).value.0, IHDR) == 0 && Count(ParseUntilEnd(input, pos).value.0, PLTE) <= 1
    ensures var r := AssembleFrom(input, pos, NoBlocks);
            r.Ok? ==>
              var (cs, end) := ParseUntilEnd(input, pos).value;
              r.value == (Blocks(
                Payloads(cs, IDAT),
                if Count(cs, PLTE) == 0 then None else Some(Payloads(cs, PLTE)),
                LastOf(cs, bKGD),
                if Count(cs, tRNS) == 0 then None else Some(Payloads(cs, tRNS))), end)
  {
    AssembleFromSplit(input, pos, NoBlocks);
    if ParseUntilEnd(input, pos).Ok? {
      var cs := ParseUntilEnd(input, pos).value.0;
      AbsorbAllOk(NoBlocks, cs);
      if AbsorbAll(NoBlocks, cs).Ok? {
        AbsorbAllValue(NoBlocks, cs);
        assert NoBlocks.idat + Payloads(cs, IDAT) == Payloads(cs, IDAT);
        assert NoBlocks.trns.GetOr([]) + Payloads(cs, tRNS) == Payloads(cs, tRNS);
        LastOfCount(cs, bKGD);
      }
    }
  }

  /** `read_all_chunks`: reads chunk after chunk from the cursor, growing the IDAT buffer with
      `union_two`, storing PLTE once and filling the bKGD and tRNS slots, until IEND. */
  method ReadAllChunks(input: seq<byte>, pos: nat, crcTable: seq<bv64>) returns (r: Result<(Blocks, nat)>)
    requires pos <= |input| && IsCrcTable(crcTable)
    ensures r == AssembleFrom(input, pos, NoBlocks)
  {
    var blocks := NoBlocks;
    var cursor := pos;
    while true
      invariant pos <= cursor <= |input|
      invariant AssembleFrom(input, cursor, blocks) == AssembleFrom(input, pos, NoBlocks)
      decreases |input| - cursor
    {
      var read := ReadChunk(input, cursor, crcTable);
      if read.Err? {
        return Err(read.error);
      }
      var (chunk, next) := read.value;
      ghost var before := blocks;
      if chunk.kind == IHDR {
        return Err(DataInvalid);
      } else if chunk.kind == PLTE {
        if blocks.plte.Some? {
          return Err(DataInvalid);
        }
        blocks := blocks.(plte := Some(chunk.data));
      } else if chunk.kind == IDAT {
        var joined := UnionTwo(blocks.idat, chunk.data);
        blocks := blocks.(idat := joined);
      } else if chunk.kind == bKGD {
        blocks := blocks.(bkgd := Some(chunk.data));
      } else if chunk.kind == tRNS {
        if blocks.trns.None? {
          blocks := blocks.(trns := Some(chunk.data));
          assert chunk.data == [] + chunk.data;
        } else {
          var joined := UnionTwo(blocks.trns.value, chunk.data);
          blocks := blocks.(trns := Some(joined));
        }
      }
      assert Absorb(before, chunk) == Ok(blocks);
      ParseChunkAdvances(input, cursor);
      cursor := next;
      if chunk.kind == IEND {
        return Ok((blocks, cursor));
      }
    }
  }
}
