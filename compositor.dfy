/** Writing the output samples (`write_to_lines`): the defiltered rows are walked in raster
    order, each row's filter-type byte skipped, and every pixel becomes `bytes_pixel_out` output
    bytes (grey for colour types 0 and 4, red, green and blue for the others). Transparency from an
    alpha channel or from tRNS (section 11.3.2 of the PNG specification) is resolved against the
    background colour. */
module Compositor {
  import opened PngBase
  import Container
  import Defilter
  import Background

  /** The float blend `(char)(alpha * colour + (1 - alpha) * background)` with
      `alpha = ialp / 255`, as a function of `ialp`, the colour and the background channel. */
  type Blend = (byte, int, byte) -> byte

  /** The defiltered image as `write_to_lines` receives it. */
  datatype Image = Image(width: nat, height: nat, colorType: byte, bytesPixel: nat, bytesPixelOut: nat, data: seq<byte>)

  /** What else `write_to_lines` reads: the background colour, the PLTE payload, the tRNS
      payload when there is one, and the blend. */
  datatype Scene = Scene(background: seq<byte>, plte: seq<byte>, trns: Option<seq<byte>>, blend: Blend)

  /** What `main` guarantees `write_to_lines`: the pixel sizes of the colour type, a buffer that
      holds every row, a three-byte background, and under colour type 3 a palette entry for every
      sample. */
  predicate Readable(img: Image, sc: Scene) {
    var n := Defilter.Stride(img.width, img.bytesPixel);
    (img.bytesPixel, img.bytesPixelOut) == Container.PixelSizes(img.colorType) &&
    img.height * n <= |img.data| && |sc.background| == 3 &&
    (img.colorType == 3 ==>
      forall i, j :: 0 <= i < img.height && 1 <= j < n && Arr(i, j, n) < |img.data| ==> 3 * img.data[Arr(i, j, n)] + 3 <= |sc.plte|)
  }

  /** The tRNS loop of colour type 0 from entry `ti` on: every two-byte entry whose low byte
      equals the current sample replaces it with `bg0`, and the loop goes on after a match. */
  function GreyKey(x: byte, trns: seq<byte>, bg0: byte, ti: nat): byte
    requires ti <= |trns| / 2
    decreases |trns| / 2 - ti
  {
    if ti == |trns| / 2 then x
    else GreyKey(if x == trns[2 * ti + 1] then bg0 else x, trns, bg0, ti + 1)
  }

  /** Some tRNS entry from `ti` on has low byte `x`. */
  predicate GreyKeyed(x: byte, trns: seq<byte>, ti: nat) {
    exists t :: ti <= t < |trns| / 2 && trns[2 * t + 1] == x
  }

  /** Once the sample is the background, later matches leave it so. */
  lemma {:induction false} GreyKeyKeepsBackground(trns: seq<byte>, bg0: byte, ti: nat)
    requires ti <= |trns| / 2
    ensures GreyKey(bg0, trns, bg0, ti) == bg0
    decreases |trns| / 2 - ti
  {
    if ti < |trns| / 2 {
      GreyKeyKeepsBackground(trns, bg0, ti + 1);
    }
  }

  /** The colour type 0 loop replaces the sample by the background exactly when some entry
      matches the original sample. */
  lemma {:induction false} GreyKeyMeaning(x: byte, trns: seq<byte>, bg0: byte, ti: nat)
    requires ti <= |trns| / 2
    ensures GreyKey(x, trns, bg0, ti) == if GreyKeyed(x, trns, ti) then bg0 else x
    decreases |trns| / 2 - ti
  {
    if ti < |trns| / 2 {
      if x == trns[2 * ti + 1] {
        GreyKeyKeepsBackground(trns, bg0, ti + 1);
      } else {
        GreyKeyMeaning(x, trns, bg0, ti + 1);
        assert GreyKeyed(x, trns, ti) <==> GreyKeyed(x, trns, ti + 1);
      }
    }
  }

  /** The tRNS loop of colour type 2 from entry `ti` on: whether the low bytes of the red, green
      and blue samples of some six-byte entry equal the pixel's; the loop stops at the first. */
  function RgbKey(r: byte, g: byte, b: byte, trns: seq<byte>, ti: nat): bool
    requires ti <= |trns| / 6
    decreases |trns| / 6 - ti
  {
    if ti == |trns| / 6 then false
    else (r == trns[6 * ti + 1] && g == trns[6 * ti + 3] && b == trns[6 * ti + 5]) || RgbKey(r, g, b, trns, ti + 1)
  }

  /** The colour type 2 loop finds a match exactly when some entry equals the pixel. */
  lemma {:induction false} RgbKeyMeaning(r: byte, g: byte, b: byte, trns: seq<byte>, ti: nat)
    requires ti <= |trns| / 6
    ensures RgbKey(r, g, b, trns, ti) <==>
              exists t :: ti <= t < |trns| / 6 && trns[6 * t + 1] == r && trns[6 * t + 3] == g && trns[6 * t + 5] == b
    decreases |trns| / 6 - ti
  {
    if ti < |trns| / 6 {
      RgbKeyMeaning(r, g, b, trns, ti + 1);
    }
  }

  /** The output bytes of one pixel `pix` (its `bytes_pixel` bytes) under colour type
      `colorType`. */
  function PixelOut(colorType: byte, pix: seq<byte>, sc: Scene): (r: seq<byte>)
    requires |sc.background| == 3 && |pix| == Container.PixelSizes(colorType).0
    requires colorType == 3 ==> 3 * pix[0] + 3 <= |sc.plte|
    ensures |r| == if Container.KnownColorType(colorType) then Container.PixelSizes(colorType).1 else 0
  {
    var bg := sc.background;
    if colorType == 6 || colorType == 4 then
      var alpha := pix[|pix| - 1];
      seq(|pix| - 1, it requires 0 <= it < |pix| - 1 => sc.blend(alpha, pix[it], bg[it]))
    else if colorType == 3 then
      var entry := Background.PaletteEntry(sc.plte, pix[0]);
      if sc.trns.Some? && pix[0] < |sc.trns.value| then
        var alpha := sc.trns.value[pix[0]];
        [sc.blend(alpha, SignedChar(entry[0]), bg[0]), sc.blend(alpha, SignedChar(entry[1]), bg[1]), sc.blend(alpha, SignedChar(entry[2]), bg[2])]
      else entry
    else if colorType == 2 then
      if sc.trns.Some? && RgbKey(pix[0], pix[1], pix[2], sc.trns.value, 0) then bg else pix
    else if colorType == 0 then
      [if sc.trns.Some? then GreyKey(pix[0], sc.trns.value, bg[0], 0) else pix[0]]
    else []
  }

  /** A grey sample becomes the background's first channel exactly when some tRNS entry holds
      it, and stays as it is otherwise. */
  lemma GreyPixel(pix: seq<byte>, sc: Scene)
    requires |sc.background| == 3 && |pix| == 1
    ensures PixelOut(0, pix, sc) ==
              if sc.trns.Some? && GreyKeyed(pix[0], sc.trns.value, 0) then [sc.background[0]] else pix
  {
    if sc.trns.Some? {
      GreyKeyMeaning(pix[0], sc.trns.value, sc.background[0], 0);
    }
  }

  /** A colour pixel becomes the background colour exactly when some tRNS entry holds its red,
      green and blue, and stays as it is otherwise. */
  lemma RgbPixel(pix: seq<byte>, sc: Scene)
    requires |sc.background| == 3 && |pix| == 3
    ensures PixelOut(2, pix, sc) ==
              if sc.trns.Some? &&
                 exists t :: 0 <= t < |sc.trns.value| / 6 && sc.trns.value[6 * t + 1] == pix[0] &&
                   sc.trns.value[6 * t + 3] == pix[1] && sc.trns.value[6 * t + 5] == pix[2]
              then sc.background else pix
  {
    if sc.trns.Some? {
      RgbKeyMeaning(pix[0], pix[1], pix[2], sc.trns.value, 0);
    }
  }

  /** A palette sample without a tRNS entry becomes its palette colour. One with a tRNS entry
      blends each channel of its palette colour, read as a signed `char`, with the background
      channel, by the alpha that entry gives. */
  lemma PalettePixel(pix: seq<byte>, sc: Scene)
    requires |sc.background| == 3 && |pix| == 1 && 3 * pix[0] + 3 <= |sc.plte|
    ensures sc.trns.None? || pix[0] >= |sc.trns.value| ==>
              PixelOut(3, pix, sc) == Background.PaletteEntry(sc.plte, pix[0])
    ensures sc.trns.Some? && pix[0] < |sc.trns.value| ==>
              var r := PixelOut(3, pix, sc);
              |r| == 3 &&
              forall c :: 0 <= c < 3 ==>
                r[c] == sc.blend(sc.trns.value[pix[0]], SignedChar(sc.plte[3 * (pix[0] as int) + c]), sc.background[c])
  {
    if sc.trns.Some? && pix[0] < |sc.trns.value| {
      var r := PixelOut(3, pix, sc);
      assert forall c :: 0 <= c < 3 ==>
        r[c] == sc.blend(sc.trns.value[pix[0]], SignedChar(sc.plte[3 * (pix[0] as int) + c]), sc.background[c]) by {
        var entry := Background.PaletteEntry(sc.plte, pix[0]);
        assert entry == [sc.plte[3 * (pix[0] as int)], sc.plte[3 * (pix[0] as int) + 1], sc.plte[3 * (pix[0] as int) + 2]];
      }
    }
  }

  /** Under colour type 3 the sample of pixel `k` of row `i` names a palette entry. */
  lemma PaletteIndexInRange(img: Image, sc: Scene, i: nat, k: nat)
    requires Readable(img, sc) && img.colorType == 3 && i < img.height && k < img.width
    ensures Arr(i, 1 + RowStart(k, img.bytesPixel), Defilter.Stride(img.width, img.bytesPixel)) < |img.data|
    ensures 3 * img.data[Arr(i, 1 + RowStart(k, img.bytesPixel), Defilter.Stride(img.width, img.bytesPixel))] + 3 <= |sc.plte|
  {
    var n := Defilter.Stride(img.width, img.bytesPixel);
    RowStartIsProduct(img.height, n);
    RowStartIsProduct(img.width, img.bytesPixel);
    RowStartUpTo(k + 1, img.width, img.bytesPixel);
    RowInside(i, 2 + RowStart(k, img.bytesPixel), n, img.height);
  }

  /** The `bytes_pixel` bytes of pixel `k` of row `i`, after the row's filter-type byte. */
  function Pixel(img: Image, i: nat, k: nat): (r: seq<byte>)
    requires img.bytesPixel >= 1 && img.height * Defilter.Stride(img.width, img.bytesPixel) <= |img.data|
    requires i < img.height && k < img.width
    ensures |r| == img.bytesPixel
  {
    var n := Defilter.Stride(img.width, img.bytesPixel);
    RowStartIsProduct(img.height, n);
    RowStartIsProduct(img.width, img.bytesPixel);
    RowStartUpTo(k + 1, img.width, img.bytesPixel);
    RowInside(i, 1 + RowStart(k + 1, img.bytesPixel), n, img.height);
    img.data[Arr(i, 1 + RowStart(k, img.bytesPixel), n)..Arr(i, 1 + RowStart(k + 1, img.bytesPixel), n)]
  }

  /** The output of pixel `k` of row `i`. */
  function PixelAt(img: Image, sc: Scene, i: nat, k: nat): (r: seq<byte>)
    requires Readable(img, sc) && i < img.height && k < img.width
  {
    if img.colorType == 3 then PaletteIndexInRange(img, sc, i, k); PixelOut(img.colorType, Pixel(img, i, k), sc)
    else PixelOut(img.colorType, Pixel(img, i, k), sc)
  }

  /** The output `write_to_lines` has produced when it reaches pixel `k` of row `i`: that of
      every earlier pixel, in raster order. */
  function Emitted(img: Image, sc: Scene, i: nat, k: nat): seq<byte>
    requires Readable(img, sc) && k <= img.width && (i < img.height || (i == img.height && k == 0))
    decreases i, k
  {
    if k == 0 then (if i == 0 then [] else Emitted(img, sc, i - 1, img.width))
    else Emitted(img, sc, i, k - 1) + PixelAt(img, sc, i, k - 1)
  }

  /** The whole output of `write_to_lines`. */
  function Output(img: Image, sc: Scene): seq<byte>
    requires Readable(img, sc)
  {
    Emitted(img, sc, img.height, 0)
  }

  /** Every pixel of a known colour type gives `bytes_pixel_out` bytes, one of another type none. */
  lemma {:induction false} EmittedLength(img: Image, sc: Scene, i: nat, k: nat)
    requires Readable(img, sc) && k <= img.width && (i < img.height || (i == img.height && k == 0))
    ensures |Emitted(img, sc, i, k)| ==
              if Container.KnownColorType(img.colorType)
              then RowStart(i, RowStart(img.width, img.bytesPixelOut)) + RowStart(k, img.bytesPixelOut)
              else 0
    decreases i, k
  {
    if k == 0 {
      if i > 0 {
        EmittedLength(img, sc, i - 1, img.width);
      }
    } else {
      EmittedLength(img, sc, i, k - 1);
    }
  }

  /** `write_to_lines` writes `width * height * bytes_pixel_out` bytes for a known colour type
      and none for another. */
  lemma OutputLength(img: Image, sc: Scene)
    requires Readable(img, sc)
    ensures |Output(img, sc)| == if Container.KnownColorType(img.colorType) then img.width * img.height * img.bytesPixelOut else 0
  {
    EmittedLength(img, sc, img.height, 0);
    RowStartIsProduct(img.width, img.bytesPixelOut);
    RowStartIsProduct(img.height, img.width * img.bytesPixelOut);
    MulRegroup(img.height, img.width, img.bytesPixelOut);
  }

  lemma MulRegroup(h: nat, w: nat, b: nat)
    ensures h * (w * b) == w * h * b
  {
  }

  lemma MulDistribute(i: nat, w: nat, k: nat, b: nat)
    ensures i * (w * b) + k * b == (i * w + k) * b
  {
  }

  /** The output so far never runs past the whole output. */
  lemma EmittedFits(img: Image, sc: Scene, i: nat, k: nat)
    requires Readable(img, sc) && i < img.height && k < img.width
    ensures |Emitted(img, sc, i, k + 1)| <= |Output(img, sc)|
  {
    var w := RowStart(img.width, img.bytesPixelOut);
    EmittedLength(img, sc, i, k + 1);
    EmittedLength(img, sc, img.height, 0);
    RowStartUpTo(k + 1, img.width, img.bytesPixelOut);
    RowStartMonotone(i, img.height, w);
  }

  /** The output of pixel `k` of row `i` follows everything written before it. */
  lemma NewestAt(img: Image, sc: Scene, i: nat, k: nat, c: nat)
    requires Readable(img, sc) && Container.KnownColorType(img.colorType)
    requires i < img.height && k < img.width && c < img.bytesPixelOut
    ensures var at := RowStart(i, RowStart(img.width, img.bytesPixelOut)) + RowStart(k, img.bytesPixelOut) + c;
            at < |Emitted(img, sc, i, k + 1)| && Emitted(img, sc, i, k + 1)[at] == PixelAt(img, sc, i, k)[c]
  {
    EmittedLength(img, sc, i, k);
  }

  /** Raster order: the output of pixel `k'` of row `i'` sits at `(i' * width + k') *
      bytes_pixel_out` in everything written after it. */
  lemma {:induction false} EmittedAt(img: Image, sc: Scene, i: nat, k: nat, i': nat, k': nat, c: nat)
    requires Readable(img, sc) && k <= img.width && (i < img.height || (i == img.height && k == 0))
    requires Container.KnownColorType(img.colorType) && k' < img.width && c < img.bytesPixelOut
    requires i' < i || (i' == i && k' < k)
    ensures var at := RowStart(i', RowStart(img.width, img.bytesPixelOut)) + RowStart(k', img.bytesPixelOut) + c;
            at < |Emitted(img, sc, i, k)| && Emitted(img, sc, i, k)[at] == PixelAt(img, sc, i', k')[c]
    decreases i, k, 1
  {
    if k == 0 {
      EmittedAtRowEnd(img, sc, i, i', k', c);
    } else if i' == i && k' == k - 1 {
      NewestAt(img, sc, i, k - 1, c);
    } else {
      EmittedAtEarlier(img, sc, i, k, i', k', c);
    }
  }

  /** `EmittedAt` at the start of a row, from the end of the row before. */
  lemma {:induction false} EmittedAtRowEnd(img: Image, sc: Scene, i: nat, i': nat, k': nat, c: nat)
    requires Readable(img, sc) && i <= img.height
    requires Container.KnownColorType(img.colorType) && k' < img.width && c < img.bytesPixelOut && i' < i
    ensures var at := RowStart(i', RowStart(img.width, img.bytesPixelOut)) + RowStart(k', img.bytesPixelOut) + c;
            at < |Emitted(img, sc, i, 0)| && Emitted(img, sc, i, 0)[at] == PixelAt(img, sc, i', k')[c]
    decreases i, 0, 0
  {
    assert Emitted(img, sc, i, 0) == Emitted(img, sc, i - 1, img.width);
    EmittedAt(img, sc, i - 1, img.width, i', k', c);
  }

  /** `EmittedAt` for a pixel written before the last one. */
  lemma {:induction false} EmittedAtEarlier(img: Image, sc: Scene, i: nat, k: nat, i': nat, k': nat, c: nat)
    requires Readable(img, sc) && 1 <= k <= img.width && i < img.height
    requires Container.KnownColorType(img.colorType) && k' < img.width && c < img.bytesPixelOut
    requires i' < i || (i' == i && k' < k - 1)
    ensures var at := RowStart(i', RowStart(img.width, img.bytesPixelOut)) + RowStart(k', img.bytesPixelOut) + c;
            at < |Emitted(img, sc, i, k)| && Emitted(img, sc, i, k)[at] == PixelAt(img, sc, i', k')[c]
    decreases i, k, 0
  {
    var at := RowStart(i', RowStart(img.width, img.bytesPixelOut)) + RowStart(k', img.bytesPixelOut) + c;
    EmittedAt(img, sc, i, k - 1, i', k', c);
    assert Emitted(img, sc, i, k) == Emitted(img, sc, i, k - 1) + PixelAt(img, sc, i, k - 1);
  }

  /** The contract of `write_to_lines` pixel by pixel. */
  lemma OutputAt(img: Image, sc: Scene, i: nat, k: nat, c: nat)
    requires Readable(img, sc) && Container.KnownColorType(img.colorType)
    requires i < img.height && k < img.width && c < img.bytesPixelOut
    ensures var at := (i * img.width + k) * img.bytesPixelOut + c;
            at < |Output(img, sc)| && Output(img, sc)[at] == PixelAt(img, sc, i, k)[c]
  {
    EmittedAt(img, sc, img.height, 0, i, k, c);
    RowStartIsProduct(img.width, img.bytesPixelOut);
    RowStartIsProduct(i, img.width * img.bytesPixelOut);
    RowStartIsProduct(k, img.bytesPixelOut);
    MulDistribute(i, img.width, k, img.bytesPixelOut);
  }

  /** The output buffer once `out` is written at its start: the rest as it was. */
  function Written(orig: seq<byte>, out: seq<byte>): (r: seq<byte>)
    requires |out| <= |orig|
    ensures |r| == |orig|
  {
    out + orig[|out|..]
  }

  /** `(*lines)[(*pos)++] = v`. */
  method Put(lines: array<byte>, ghost orig: seq<byte>, ghost out: seq<byte>, pos: nat, v: byte) returns (next: nat)
    requires lines.Length == |orig| && pos == |out| < |orig| && lines[..] == Written(orig, out)
    modifies lines
    ensures next == pos + 1 && lines[..] == Written(orig, out + [v])
  {
    lines[pos] := v;
    assert lines[..] == Written(orig, out + [v]);
    next := pos + 1;
  }

  /** Where pixel `k` of row `i` lies: its bytes start at column `1 + k * bytes_pixel` of the
      row and stay inside the row and the buffer. */
  lemma PixelBytes(img: Image, i: nat, k: nat)
    requires img.bytesPixel >= 1 && img.height * Defilter.Stride(img.width, img.bytesPixel) <= |img.data|
    requires i < img.height && k < img.width
    ensures var j := 1 + RowStart(k, img.bytesPixel); var n := Defilter.Stride(img.width, img.bytesPixel);
            j + img.bytesPixel <= n && Arr(i, j + img.bytesPixel - 1, n) < |img.data| &&
            forall c :: 0 <= c < img.bytesPixel ==> Pixel(img, i, k)[c] == img.data[Arr(i, j + c, n)]
  {
    var n := Defilter.Stride(img.width, img.bytesPixel);
    RowStartIsProduct(img.height, n);
    RowStartIsProduct(img.width, img.bytesPixel);
    RowStartUpTo(k + 1, img.width, img.bytesPixel);
    RowInside(i, 1 + RowStart(k + 1, img.bytesPixel), n, img.height);
  }

  /** The tRNS loop of colour type 0: `x = background[0]` for every entry whose low byte equals
      the current sample. */
  method KeyGrey(x: byte, trns: seq<byte>, bg0: byte) returns (y: byte)
    ensures y == if GreyKeyed(x, trns, 0) then bg0 else x
  {
    y := x;
    var ti := 0;
    while ti < |trns| / 2
      invariant ti <= |trns| / 2
      invariant GreyKey(y, trns, bg0, ti) == GreyKey(x, trns, bg0, 0)
    {
      RowStartIsProduct(ti, 2);
      if y == trns[Arr(ti, 1, 2)] {
        y := bg0;
      }
      ti := ti + 1;
    }
    GreyKeyMeaning(x, trns, bg0, 0);
  }

  /** The tRNS loop of colour type 2: the first six-byte entry whose red, green and blue low
      bytes equal the pixel's turns it into the background colour. */
  method KeyRgb(r: byte, g: byte, b: byte, trns: seq<byte>, bg: seq<byte>) returns (r': byte, g': byte, b': byte)
    requires |bg| == 3
    ensures [r', g', b'] == if RgbKey(r, g, b, trns, 0) then bg else [r, g, b]
  {
    r', g', b' := r, g, b;
    var ti := 0;
    while ti < |trns| / 6
      invariant ti <= |trns| / 6 && (r', g', b') == (r, g, b)
      invariant RgbKey(r, g, b, trns, 0) == RgbKey(r, g, b, trns, ti)
    {
      RowStartIsProduct(ti, 6);
      if r == trns[Arr(ti, 1, 6)] && g == trns[Arr(ti, 3, 6)] && b == trns[Arr(ti, 5, 6)] {
        r', g', b' := bg[0], bg[1], bg[2];
        break;
      }
      ti := ti + 1;
    }
  }

  /** The `it` loop of colour types 4 and 6: each colour sample of the pixel starting at column
      `j` blended with the matching background channel by the pixel's alpha sample. */
  method PutBlended(img: Image, sc: Scene, lines: array<byte>, ghost orig: seq<byte>, ghost out: seq<byte>,
                    pos: nat, i: nat, j: nat, ghost k: nat)
    returns (next: nat)
    requires Readable(img, sc) && (img.colorType == 6 || img.colorType == 4)
    requires i < img.height && k < img.width && j == 1 + RowStart(k, img.bytesPixel)
    requires lines.Length == |orig| && pos == |out| && |out| + img.bytesPixelOut <= |orig|
    requires lines[..] == Written(orig, out)
    modifies lines
    ensures next == pos + img.bytesPixelOut && lines[..] == Written(orig, out + PixelAt(img, sc, i, k))
  {
    var n := img.width * img.bytesPixel + 1;
    PixelBytes(img, i, k);
    ghost var px := PixelAt(img, sc, i, k);
    var ialp := img.data[Arr(i, j + img.bytesPixelOut, n)];
    next := pos;
    var it := 0;
    while it < img.bytesPixelOut
      invariant it <= img.bytesPixelOut && next == pos + it
      invariant lines[..] == Written(orig, out + px[..it])
    {
      var pix := img.data[Arr(i, j + it, n)];
      BlendedSample(img, sc, i, k, it);
      next := Put(lines, orig, out + px[..it], next, sc.blend(ialp, pix as int, sc.background[it]));
      AppendNext(out, px, it);
      it := it + 1;
    }
    assert px[..it] == px;
  }

  /** Writing element `it` of `s` after its first `it` elements writes its first `it + 1`. */
  lemma AppendNext(out: seq<byte>, s: seq<byte>, it: nat)
    requires it < |s|
    ensures out + s[..it] + [s[it]] == out + s[..it + 1]
  {
    assert s[..it] + [s[it]] == s[..it + 1];
  }

  /** Under colour types 4 and 6 output byte `it` of a pixel is colour sample `it` blended with
      background channel `it` by the pixel's last (alpha) sample. */
  lemma BlendedSample(img: Image, sc: Scene, i: nat, k: nat, it: nat)
    requires Readable(img, sc) && (img.colorType == 6 || img.colorType == 4)
    requires i < img.height && k < img.width && it < img.bytesPixelOut
    ensures var j := 1 + RowStart(k, img.bytesPixel); var n := Defilter.Stride(img.width, img.bytesPixel);
            Arr(i, j + img.bytesPixelOut, n) < |img.data| && |PixelAt(img, sc, i, k)| == img.bytesPixelOut &&
            PixelAt(img, sc, i, k)[it] == sc.blend(img.data[Arr(i, j + img.bytesPixelOut, n)], img.data[Arr(i, j + it, n)] as int, sc.background[it])
  {
    PixelBytes(img, i, k);
  }

  /** Colour type 3: the palette entry named by the sample, blended with the background by the
      sample's tRNS entry when there is one. */
  method PutPalette(img: Image, sc: Scene, lines: array<byte>, ghost orig: seq<byte>, ghost out: seq<byte>,
                    pos: nat, i: nat, j: nat, ghost k: nat)
    returns (next: nat)
    requires Readable(img, sc) && img.colorType == 3
    requires i < img.height && k < img.width && j == 1 + RowStart(k, img.bytesPixel)
    requires lines.Length == |orig| && pos == |out| && |out| + 3 <= |orig|
    requires lines[..] == Written(orig, out)
    modifies lines
    ensures next == pos + 3 && lines[..] == Written(orig, out + PixelAt(img, sc, i, k))
  {
    var n := img.width * img.bytesPixel + 1;
    PixelBytes(img, i, k);
    PaletteIndexInRange(img, sc, i, k);
    var numberPlteBlock := img.data[Arr(i, j, n)];
    RowStartIsProduct(numberPlteBlock, 3);
    var r, g, b := sc.plte[Arr(numberPlteBlock, 0, 3)], sc.plte[Arr(numberPlteBlock, 1, 3)], sc.plte[Arr(numberPlteBlock, 2, 3)];
    if sc.trns.Some? {
      if numberPlteBlock < |sc.trns.value| {
        var ialp := sc.trns.value[numberPlteBlock];
        r := sc.blend(ialp, SignedChar(r), sc.background[0]);
        g := sc.blend(ialp, SignedChar(g), sc.background[1]);
        b := sc.blend(ialp, SignedChar(b), sc.background[2]);
      }
    }
    assert PixelAt(img, sc, i, k) == [r, g, b];
    next := Put(lines, orig, out, pos, r);
    next := Put(lines, orig, out + [r], next, g);
    next := Put(lines, orig, out + [r, g], next, b);
    assert out + [r, g] + [b] == out + [r, g, b];
  }

  /** Colour type 2: the red, green and blue samples, read while `j` steps over them, replaced by
      the background colour when a tRNS entry holds them. */
  method PutRgb(img: Image, sc: Scene, lines: array<byte>, ghost orig: seq<byte>, ghost out: seq<byte>,
                pos: nat, i: nat, j: nat, ghost k: nat)
    returns (next: nat, j': nat)
    requires Readable(img, sc) && img.colorType == 2
    requires i < img.height && k < img.width && j == 1 + RowStart(k, img.bytesPixel)
    requires lines.Length == |orig| && pos == |out| && |out| + 3 <= |orig|
    requires lines[..] == Written(orig, out)
    modifies lines
    ensures next == pos + 3 && lines[..] == Written(orig, out + PixelAt(img, sc, i, k))
    ensures j' == j + 2
  {
    var n := img.width * img.bytesPixel + 1;
    PixelBytes(img, i, k);
    j' := j;
    var r := img.data[Arr(i, j', n)];
    j' := j' + 1;
    var g := img.data[Arr(i, j', n)];
    j' := j' + 1;
    var b := img.data[Arr(i, j', n)];
    assert Pixel(img, i, k) == [r, g, b];
    if sc.trns.Some? {
      r, g, b := KeyRgb(r, g, b, sc.trns.value, sc.background);
    }
    assert PixelAt(img, sc, i, k) == [r, g, b];
    next := Put(lines, orig, out, pos, r);
    next := Put(lines, orig, out + [r], next, g);
    next := Put(lines, orig, out + [r, g], next, b);
    assert out + [r, g] + [b] == out + [r, g, b];
  }

  /** Colour type 0: the grey sample, replaced by the background's first channel when a tRNS
      entry holds it. */
  method PutGrey(img: Image, sc: Scene, lines: array<byte>, ghost orig: seq<byte>, ghost out: seq<byte>,
                 pos: nat, i: nat, j: nat, ghost k: nat)
    returns (next: nat)
    requires Readable(img, sc) && img.colorType == 0
    requires i < img.height && k < img.width && j == 1 + RowStart(k, img.bytesPixel)
    requires lines.Length == |orig| && pos == |out| && |out| + 1 <= |orig|
    requires lines[..] == Written(orig, out)
    modifies lines
    ensures next == pos + 1 && lines[..] == Written(orig, out + PixelAt(img, sc, i, k))
  {
    var n := img.width * img.bytesPixel + 1;
    PixelBytes(img, i, k);
    var x := img.data[Arr(i, j, n)];
    assert Pixel(img, i, k) == [x];
    if sc.trns.Some? {
      GreyKeyMeaning(x, sc.trns.value, sc.background[0], 0);
      x := KeyGrey(x, sc.trns.value, sc.background[0]);
    }
    assert PixelAt(img, sc, i, k) == [x];
    next := Put(lines, orig, out, pos, x);
  }

  /** One pixel of `write_to_lines`, from column `j` of row `i`: its output appended, and `j`
      left on the pixel's last byte for the loop's own increment. */
  method PutPixel(img: Image, sc: Scene, lines: array<byte>, ghost orig: seq<byte>, ghost out: seq<byte>,
                  pos: nat, i: nat, j: nat, ghost k: nat)
    returns (next: nat, j': nat)
    requires Readable(img, sc) && i < img.height && k < img.width && j == 1 + RowStart(k, img.bytesPixel)
    requires lines.Length == |orig| && pos == |out| && |out + PixelAt(img, sc, i, k)| <= |orig|
    requires lines[..] == Written(orig, out)
    modifies lines
    ensures next == pos + |PixelAt(img, sc, i, k)| && lines[..] == Written(orig, out + PixelAt(img, sc, i, k))
    ensures j' == j + img.bytesPixel - 1
  {
    var colorType := img.colorType;
    next, j' := pos, j;
    if colorType == 6 || colorType == 4 {
      next := PutBlended(img, sc, lines, orig, out, pos, i, j, k);
      j' := j' + img.bytesPixelOut;
    }
    if colorType == 3 {
      next := PutPalette(img, sc, lines, orig, out, pos, i, j, k);
    }
    if colorType == 2 {
      next, j' := PutRgb(img, sc, lines, orig, out, pos, i, j, k);
    }
    if colorType == 0 {
      next := PutGrey(img, sc, lines, orig, out, pos, i, j, k);
    }
    if !Container.KnownColorType(colorType) {
      assert out + PixelAt(img, sc, i, k) == out;
    }
  }

  /** One row of `write_to_lines`: the `j` loop over the row's columns after its filter-type
      byte. */
  method PutRow(img: Image, sc: Scene, lines: array<byte>, ghost orig: seq<byte>, pos: nat, i: nat)
    returns (next: nat)
    requires Readable(img, sc) && i < img.height
    requires lines.Length == |orig| && |Output(img, sc)| <= |orig|
    requires pos == |Emitted(img, sc, i, 0)| && pos <= |orig| && lines[..] == Written(orig, Emitted(img, sc, i, 0))
    modifies lines
    ensures next == |Emitted(img, sc, i, img.width)| && next <= |orig| && lines[..] == Written(orig, Emitted(img, sc, i, img.width))
  {
    RowStartIsProduct(img.width, img.bytesPixel);
    next := pos;
    var j := 1;
    ghost var k := 0;
    while j < img.width * img.bytesPixel + 1
      invariant k <= img.width && j == 1 + RowStart(k, img.bytesPixel)
      invariant next == |Emitted(img, sc, i, k)| && next <= |orig| && lines[..] == Written(orig, Emitted(img, sc, i, k))
      decreases img.width - k
    {
      if k == img.width {
        assert false;
      }
      EmittedFits(img, sc, i, k);
      next, j := PutPixel(img, sc, lines, orig, Emitted(img, sc, i, k), next, i, j, k);
      j := j + 1;
      k := k + 1;
    }
    assert k == img.width by {
      if k < img.width {
        RowStartMonotone(k, img.width, img.bytesPixel);
      }
    }
  }

  /** `write_to_lines`: every pixel's output written in raster order from the start of `lines`,
      with `pos` left just after it. `main` allocates `width * height * bytes_pixel_out` bytes. */
  method WriteToLines(img: Image, sc: Scene, lines: array<byte>) returns (pos: nat)
    requires Readable(img, sc) && img.width * img.height * img.bytesPixelOut <= lines.Length
    modifies lines
    ensures pos == |Output(img, sc)| && pos <= lines.Length && lines[..] == Written(old(lines[..]), Output(img, sc))
  {
    ghost var orig := lines[..];
    OutputLength(img, sc);
    pos := 0;
    assert lines[..] == Written(orig, []);
    var i := 0;
    while i < img.height
      invariant i <= img.height
      invariant pos == |Emitted(img, sc, i, 0)| && pos <= lines.Length && lines[..] == Written(orig, Emitted(img, sc, i, 0))
    {
      pos := PutRow(img, sc, lines, orig, pos, i);
      i := i + 1;
    }
  }
}
