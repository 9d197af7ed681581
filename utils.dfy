/** The small helpers of the converter: byte comparison, big-endian decoding and buffer concatenation. */
module Utils {
  import opened PngBase

  /** `check_equal_array`: the first `n` bytes of `a` and `b` agree. */
  function CheckEqualArray(n: nat, a: seq<byte>, b: seq<byte>): (r: bool)
    requires n <= |a| && n <= |b|
    ensures r <==> a[..n] == b[..n]
    decreases n
  {
    if n == 0 then true
    else
      var rest := CheckEqualArray(n - 1, a, b);
      assert a[..n] == a[..n - 1] + [a[n - 1]] && b[..n] == b[..n - 1] + [b[n - 1]];
      rest && a[n - 1] == b[n - 1]
  }

  function Pow256(k: nat): (r: nat)
    ensures r > 0
  {
    if k == 0 then 1 else 256 * Pow256(k - 1)
  }

  /** The unsigned value of `b` read most significant byte first, as the shift-and-or loop of
      `make_int_chars4` accumulates it. */
  function BigEndian(b: seq<byte>): (r: nat)
    ensures r < Pow256(|b|)
    decreases |b|
  {
    if |b| == 0 then 0
    else
      var high := BigEndian(b[..|b| - 1]);
      assert high * 256 + 255 < Pow256(|b|) by {
        assert high + 1 <= Pow256(|b| - 1);
        MulMonotone(high + 1, Pow256(|b| - 1), 256);
      }
      high * 256 + b[|b| - 1]
  }

  /** `make_int_chars4` (and `make_int_char4`): the 4-byte big-endian field used for chunk lengths,
      CRCs and the image width and height (network byte order, section 7.1 of the PNG specification). */
  function MakeIntChars4(b: seq<byte>): uint32
    requires |b| == 4
  {
    (b[0] as int) * 0x100_0000 + (b[1] as int) * 0x1_0000 + (b[2] as int) * 0x100 + b[3]
  }

  /** The shift-and-or loop of `make_int_chars4` reads the four bytes most significant first. */
  lemma MakeIntChars4IsBigEndian(b: seq<byte>)
    requires |b| == 4
    ensures MakeIntChars4(b) == BigEndian(b)
  {
    assert BigEndian(b[..1]) == b[0] by {
      assert b[..1][..0] == [];
    }
    assert b[..2][..1] == b[..1] && b[..3][..2] == b[..2] && b[..4] == b;
    assert BigEndian(b[..2]) == (b[0] as int) * 0x100 + b[1];
    assert BigEndian(b[..3]) == (b[0] as int) * 0x1_0000 + (b[1] as int) * 0x100 + b[2];
  }

  /** The 4-byte big-endian encoding of `x`, the inverse of `MakeIntChars4`. */
  function IntToChars4(x: uint32): (r: seq<byte>)
    ensures |r| == 4
  {
    [x / 0x100_0000, (x / 0x1_0000) % 0x100, (x / 0x100) % 0x100, x % 0x100]
  }

  lemma DecodeEncode(x: uint32)
    ensures MakeIntChars4(IntToChars4(x)) == x
  {
    var r := IntToChars4(x);
    assert (x / 0x100) == (x / 0x1_0000) * 0x100 + (x / 0x100) % 0x100;
    assert (x / 0x1_0000) == (x / 0x100_0000) * 0x100 + (x / 0x1_0000) % 0x100;
    assert x == (x / 0x100) * 0x100 + x % 0x100;
  }

  lemma EncodeDecode(b: seq<byte>)
    requires |b| == 4
    ensures IntToChars4(MakeIntChars4(b)) == b
  {
    var x := MakeIntChars4(b);
    assert x / 0x100 == (b[0] as int) * 0x1_0000 + (b[1] as int) * 0x100 + b[2];
    assert x / 0x1_0000 == (b[0] as int) * 0x100 + b[1];
    assert x / 0x100_0000 == b[0];
  }

  /** `union_two`: a fresh buffer holding `a` followed by `b`, filled by one copy loop. */
  method UnionTwo(a: seq<byte>, b: seq<byte>) returns (res: seq<byte>)
    ensures res == a + b
  {
    var buffer := new byte[|a| + |b|];
    var i := 0;
    while i < |a| + |b|
      invariant 0 <= i <= |a| + |b|
      invariant forall k :: 0 <= k < i ==> buffer[k] == (a + b)[k]
    {
      if i < |a| {
        buffer[i] := a[i];
      } else {
        buffer[i] := b[i - |a|];
      }
      i := i + 1;
    }
    res := buffer[..];
  }
}
