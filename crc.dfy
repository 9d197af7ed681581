/** The chunk checksum: the reflected CRC-32 of section 5.5 and Annex D of the PNG specification
    (ISO/IEC 15948), computed as the converter does with a 256-entry table of `unsigned long`
    (modelled as 64-bit words). */
module Checksum {
  import opened PngBase

  /** The reflected generator polynomial 0xEDB88320. */
  const Polynomial: bv64 := 0xEDB8_8320
  /** The initial register value and final XOR mask, 0xFFFFFFFF. */
  const Mask32: bv64 := 0xFFFF_FFFF

  /** `k` rounds of the bit-serial shift register started at `c` (the inner loop of `make_crc_table`). */
  function Rounds(c: bv64, k: nat): bv64
    decreases k
  {
    if k == 0 then c
    else Rounds(if c & 1 == 1 then Polynomial ^ (c >> 1) else c >> 1, k - 1)
  }

  /** A register that starts within 32 bits stays within 32 bits. */
  lemma {:induction false} RoundsBound(c: bv64, k: nat)
    requires c <= Mask32
    ensures Rounds(c, k) <= Mask32
    decreases k
  {
    if k > 0 {
      var next := if c & 1 == 1 then Polynomial ^ (c >> 1) else c >> 1;
      assert next <= Mask32;
      RoundsBound(next, k - 1);
    }
  }

  /** Entry `n` of `crc_table`: the byte `n` shifted through the register eight times. */
  function TableEntry(n: bv8): (r: bv64)
    ensures r <= Mask32
  {
    RoundsBound(n as bv64, 8);
    Rounds(n as bv64, 8)
  }

  /** `t` holds exactly what `make_crc_table` stores. */
  ghost predicate IsCrcTable(t: seq<bv64>) {
    |t| == 256 && forall n: bv8 :: t[n as int] == TableEntry(n)
  }

  /** `make_crc_table`: fills the 256 entries in place. */
  method MakeCrcTable(crcTable: array<bv64>)
    requires crcTable.Length == 256
    modifies crcTable
    ensures IsCrcTable(crcTable[..])
  {
    var n := 0;
    while n < 256
      invariant 0 <= n <= 256
      invariant forall m: bv8 :: m as int < n ==> crcTable[m as int] == TableEntry(m)
    {
      var c: bv64 := (n as bv8) as bv64;
      var k := 0;
      while k < 8
        invariant 0 <= k <= 8
        invariant Rounds(c, 8 - k) == TableEntry(n as bv8)
      {
        if c & 1 == 1 {
          c := Polynomial ^ (c >> 1);
        } else {
          c := c >> 1;
        }
        k := k + 1;
      }
      crcTable[n] := c;
      n := n + 1;
    }
  }

  /** The table index `(c ^ b) & 0xff` for register `c` and input byte `b`. */
  function TableIndex(c: bv64, b: bv8): bv8 {
    ((c ^ (b as bv64)) & 0xFF) as bv8
  }

  /** One byte through the table-driven register: `c = crc_table[(c ^ b) & 0xff] ^ (c >> 8)`. */
  function Step(c: bv64, b: bv8): bv64 {
    TableEntry(TableIndex(c, b)) ^ (c >> 8)
  }

  /** The register after feeding `buf` into it, one byte at a time, from the value `c`. */
  function CrcRegister(c: bv64, buf: seq<bv8>): bv64
    decreases |buf|
  {
    if |buf| == 0 then c
    else Step(CrcRegister(c, buf[..|buf| - 1]), buf[|buf| - 1])
  }

  /** The register is a left fold: feeding `x ++ y` equals feeding `x`, then `y`. */
  lemma {:induction false} CrcRegisterAppend(c: bv64, x: seq<bv8>, y: seq<bv8>)
    ensures CrcRegister(c, x + y) == CrcRegister(CrcRegister(c, x), y)
    decreases |y|
  {
    if |y| == 0 {
      assert x + y == x;
    } else {
      var y' := y[..|y| - 1];
      assert (x + y)[..|x + y| - 1] == x + y';
      CrcRegisterAppend(c, x, y');
    }
  }

  /** A register within 32 bits stays within 32 bits, whatever bytes are fed. */
  lemma {:induction false} CrcRegisterBound(c: bv64, buf: seq<bv8>)
    requires c <= Mask32
    ensures CrcRegister(c, buf) <= Mask32
    decreases |buf|
  {
    if |buf| > 0 {
      CrcRegisterBound(c, buf[..|buf| - 1]);
      var prev := CrcRegister(c, buf[..|buf| - 1]);
      var entry := TableEntry(TableIndex(prev, buf[|buf| - 1]));
      assert entry <= Mask32 && prev >> 8 <= Mask32;
    }
  }

  /** `update_crc`: feeds `buf` into the register through the table. */
  method UpdateCrc(crcTable: seq<bv64>, crc: bv64, buf: seq<bv8>) returns (c: bv64)
    requires IsCrcTable(crcTable)
    ensures c == CrcRegister(crc, buf)
  {
    c := crc;
    var n := 0;
    while n < |buf|
      invariant 0 <= n <= |buf|
      invariant c == CrcRegister(crc, buf[..n])
    {
      assert buf[..n + 1][..n] == buf[..n];
      c := crcTable[TableIndex(c, buf[n]) as int] ^ (c >> 8);
      n := n + 1;
    }
    assert buf[..|buf|] == buf;
  }

  /** The bytes of `s` as the `unsigned char` values the checksum reads. */
  function Octets(s: seq<byte>): (r: seq<bv8>)
    ensures |r| == |s|
  {
    seq(|s|, i requires 0 <= i < |s| => s[i] as bv8)
  }

  /** The checksum of a chunk: the register over type tag and data, started at and finally
      XORed with 0xFFFFFFFF, stored into an `unsigned int`; the narrowing loses no bits. */
  function ChunkCrc(tag: seq<byte>, data: seq<byte>): (r: bv32)
    ensures r as bv64 == CrcRegister(Mask32, Octets(tag + data)) ^ Mask32
  {
    CrcRegisterBound(Mask32, Octets(tag + data));
    (CrcRegister(Mask32, Octets(tag + data)) ^ Mask32) as bv32
  }

  /** `crc`: copies type and data into one temporary buffer and runs `update_crc` over it. */
  method Crc(crcTable: seq<bv64>, tag: seq<byte>, data: seq<byte>) returns (result: bv32)
    requires IsCrcTable(crcTable) && |tag| == 4
    ensures result == ChunkCrc(tag, data)
  {
    var tmp := new bv8[4 + |data|];
    var i := 0;
    while i < 4 + |data|
      invariant 0 <= i <= 4 + |data|
      invariant forall k :: 0 <= k < i ==> tmp[k] == Octets(tag + data)[k]
    {
      tmp[i] := if i < 4 then tag[i] as bv8 else data[i - 4] as bv8;
      i := i + 1;
    }
    assert tmp[..] == Octets(tag + data);
    var c := UpdateCrc(crcTable, Mask32, tmp[..]);
    CrcRegisterBound(Mask32, tmp[..]);
    var v := c ^ Mask32;
    assert v <= Mask32;
    result := v as bv32;
  }

  /** The checksum is streaming: the register over the tag can be continued over the data. */
  lemma ChunkCrcStreams(tag: seq<byte>, data: seq<byte>)
    ensures ChunkCrc(tag, data) as bv64 == CrcRegister(CrcRegister(Mask32, Octets(tag)), Octets(data)) ^ Mask32
  {
    assert Octets(tag + data) == Octets(tag) + Octets(data);
    CrcRegisterAppend(Mask32, Octets(tag), Octets(data));
  }

  /** The four table entries that the bytes of the tag `IEND` select. */
  lemma IendTableEntries()
    ensures TableEntry(0xB6) == 0x220216B9
    ensures TableEntry(0x03) == 0x990951BA
    ensures TableEntry(0x1D) == 0x63066CD9
    ensures TableEntry(0x31) == 0x51DE003A
  {
    assert Rounds(0xB6, 8) == Rounds(0x5B, 7) == Rounds(0xEDB8830D, 6) == Rounds(0x9B64C2A6, 5) == Rounds(0x4DB26153, 4) == Rounds(0xCB61B389, 3) == Rounds(0x88085AE4, 2) == Rounds(0x44042D72, 1) == Rounds(0x220216B9, 0);
    assert Rounds(0x3, 8) == Rounds(0xEDB88321, 7) == Rounds(0x9B64C2B0, 6) == Rounds(0x4DB26158, 5) == Rounds(0x26D930AC, 4) == Rounds(0x136C9856, 3) == Rounds(0x9B64C2B, 2) == Rounds(0xE963A535, 1) == Rounds(0x990951BA, 0);
    assert Rounds(0x1D, 8) == Rounds(0xEDB8832E, 7) == Rounds(0x76DC4197, 6) == Rounds(0xD6D6A3EB, 5) == Rounds(0x86D3D2D5, 4) == Rounds(0xAED16A4A, 3) == Rounds(0x5768B525, 2) == Rounds(0xC60CD9B2, 1) == Rounds(0x63066CD9, 0);
    assert Rounds(0x31, 8) == Rounds(0xEDB88338, 7) == Rounds(0x76DC419C, 6) == Rounds(0x3B6E20CE, 5) == Rounds(0x1DB71067, 4) == Rounds(0xE3630B13, 3) == Rounds(0x9C0906A9, 2) == Rounds(0xA3BC0074, 1) == Rounds(0x51DE003A, 0);
  }

  /** The register after each byte of the tag `IEND`. */
  lemma IendSteps()
    ensures Step(0xFFFF_FFFF, 0x49) == 0x22FD_E946
    ensures Step(0x22FD_E946, 0x45) == 0x992B_AC53
    ensures Step(0x992B_AC53, 0x4E) == 0x639F_4775
    ensures Step(0x639F_4775, 0x44) == 0x51BD_9F7D
  {
    assert TableIndex(0xFFFF_FFFF, 0x49) == 0xB6;
    assert TableIndex(0x22FD_E946, 0x45) == 0x03;
    assert TableIndex(0x992B_AC53, 0x4E) == 0x1D;
    assert TableIndex(0x639F_4775, 0x44) == 0x31;
    IendTableEntries();
  }

  /** Four bytes through the register, one `Step` each. */
  lemma CrcRegisterFour(c: bv64, b0: bv8, b1: bv8, b2: bv8, b3: bv8)
    ensures CrcRegister(c, [b0, b1, b2, b3]) == Step(Step(Step(Step(c, b0), b1), b2), b3)
  {
    assert [b0][..0] == [] && [b0, b1][..1] == [b0] && [b0, b1, b2][..2] == [b0, b1];
    assert [b0, b1, b2, b3][..3] == [b0, b1, b2];
    assert CrcRegister(c, [b0]) == Step(c, b0);
    assert CrcRegister(c, [b0, b1]) == Step(CrcRegister(c, [b0]), b1);
    assert CrcRegister(c, [b0, b1, b2]) == Step(CrcRegister(c, [b0, b1]), b2);
  }

  /** The register after the four bytes of the tag `IEND`. */
  lemma IendRegister()
    ensures CrcRegister(Mask32, [0x49, 0x45, 0x4E, 0x44]) == 0x51BD_9F7D
  {
    IendSteps();
    CrcRegisterFour(Mask32, 0x49, 0x45, 0x4E, 0x44);
  }

  /** The tag `IEND` as the octets the register consumes. */
  lemma IendOctets()
    ensures Octets([0x49, 0x45, 0x4E, 0x44] + []) == [0x49, 0x45, 0x4E, 0x44]
  {
    var tag: seq<byte> := [0x49, 0x45, 0x4E, 0x44];
    assert tag + [] == tag;
    var o := Octets(tag);
    assert o[0] == 0x49 && o[1] == 0x45 && o[2] == 0x4E && o[3] == 0x44;
  }

  /** The standard check value: an `IEND` chunk (no data) carries the CRC 0xAE426082. */
  lemma IendCrc()
    ensures ChunkCrc([0x49, 0x45, 0x4E, 0x44], []) == 0xAE42_6082
  {
    IendOctets();
    IendRegister();
  }
}
