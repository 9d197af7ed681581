/** Choosing the colour that transparent pixels are blended with (`change_background`): an
    override from the command line first, then the image's bKGD chunk (section 11.3.5.1 of the PNG
    specification), else the colour the caller started with. */
module Background {
  import opened PngBase

  /** The override given on the command line, already parsed and cast to `unsigned char`: one
      value (`argc == 4`), three values (`argc == 6`), or none. */
  datatype Override = NoOverride | One(x: byte) | Three(r: byte, g: byte, b: byte)

  /** The colour of palette entry `x`: bytes `3x`, `3x + 1` and `3x + 2` of the PLTE payload. */
  function PaletteEntry(plte: seq<byte>, x: nat): (r: seq<byte>)
    requires 3 * x + 3 <= |plte|
    ensures r == [plte[3 * x], plte[3 * x + 1], plte[3 * x + 2]]
  {
    plte[3 * x..3 * x + 3]
  }

  /** The bKGD payload is long enough for what `change_background` reads from it under colour
      type `colorType`, and for type 3 its palette index names an entry of the palette. */
  predicate BkgdReadable(colorType: byte, plte: seq<byte>, bkgd: seq<byte>) {
    (colorType == 6 || colorType == 2 ==> |bkgd| >= 6) &&
    (colorType == 0 || colorType == 4 ==> |bkgd| >= 2) &&
    (colorType == 3 ==> |bkgd| >= 1 && 3 * bkgd[0] + 3 <= |plte|)
  }

  /** The colour the bKGD payload `bkgd` gives: the 16-bit red, green and blue samples of types 2
      and 6 through their low bytes, the grey sample of types 0 and 4 repeated, the palette entry
      of type 3; any other type keeps `bg`. */
  function BkgdColour(bg: seq<byte>, colorType: byte, plte: seq<byte>, bkgd: seq<byte>): (r: seq<byte>)
    requires |bg| == 3 && BkgdReadable(colorType, plte, bkgd)
    ensures |r| == 3
  {
    if colorType == 6 || colorType == 2 then [bkgd[1], bkgd[3], bkgd[5]]
    else if colorType == 0 || colorType == 4 then [bkgd[1], bkgd[1], bkgd[1]]
    else if colorType == 3 then PaletteEntry(plte, bkgd[0])
    else bg
  }

  /** `change_background` on the colour `bg`: the new colour and `go_background`, which records
      whether an override was given. The bKGD payload is read only when there is no override, so
      only then must it be readable. */
  function ChangedBackground(bg: seq<byte>, ov: Override, colorType: byte, plte: seq<byte>, bkgd: Option<seq<byte>>): (r: (seq<byte>, bool))
    requires |bg| == 3 && (ov.NoOverride? && bkgd.Some? ==> BkgdReadable(colorType, plte, bkgd.value))
    ensures |r.0| == 3
  {
    var (chosen, go) :=
      match ov
      case One(x) =>
        (if colorType == 3 then (if x < |plte| / 3 then PaletteEntry(plte, x) else bg) else [x, x, x], true)
      case Three(r, g, b) => ([r, g, b], true)
      case NoOverride => (bg, false);
    if !go && bkgd.Some? then (BkgdColour(chosen, colorType, plte, bkgd.value), go) else (chosen, go)
  }

  /** An override takes precedence: with one, the bKGD chunk makes no difference, whatever it
      holds, and `go_background` is set exactly when an override is given. Three values are the
      colour as given; a single value outside colour type 3 is a grey of that value. */
  lemma OverrideBeatsBkgd(bg: seq<byte>, ov: Override, colorType: byte, plte: seq<byte>, bkgd: Option<seq<byte>>)
    requires |bg| == 3 && (ov.NoOverride? && bkgd.Some? ==> BkgdReadable(colorType, plte, bkgd.value))
    ensures ChangedBackground(bg, ov, colorType, plte, bkgd).1 <==> ov != NoOverride
    ensures ov != NoOverride ==> ChangedBackground(bg, ov, colorType, plte, bkgd) == ChangedBackground(bg, ov, colorType, plte, None)
    ensures ov.Three? ==> ChangedBackground(bg, ov, colorType, plte, bkgd).0 == [ov.r, ov.g, ov.b]
    ensures ov.One? && colorType != 3 ==> ChangedBackground(bg, ov, colorType, plte, bkgd).0 == [ov.x, ov.x, ov.x]
  {
  }

  /** Without an override or a bKGD chunk the colour is the one the caller started with; `main`
      starts with black. */
  lemma DefaultBackground(colorType: byte, plte: seq<byte>)
    ensures ChangedBackground([0, 0, 0], NoOverride, colorType, plte, None) == ([0, 0, 0], false)
  {
  }

  /** Under the grey colour types 0 and 4: a single value is a grey of that value, bKGD gives a
      grey of the low byte of its sample, and otherwise the colour is kept. So a grey colour stays
      grey unless three explicit values are given. */
  lemma GreyStaysGrey(bg: seq<byte>, ov: Override, colorType: byte, plte: seq<byte>, bkgd: Option<seq<byte>>)
    requires |bg| == 3 && (ov.NoOverride? && bkgd.Some? ==> BkgdReadable(colorType, plte, bkgd.value))
    requires colorType == 0 || colorType == 4
    ensures ov.One? ==> ChangedBackground(bg, ov, colorType, plte, bkgd).0 == [ov.x, ov.x, ov.x]
    ensures ov.NoOverride? && bkgd.Some? ==>
              ChangedBackground(bg, ov, colorType, plte, bkgd).0 == [bkgd.value[1], bkgd.value[1], bkgd.value[1]]
    ensures ov.NoOverride? && bkgd.None? ==> ChangedBackground(bg, ov, colorType, plte, bkgd).0 == bg
    ensures bg[0] == bg[1] == bg[2] && !ov.Three? ==>
              var r := ChangedBackground(bg, ov, colorType, plte, bkgd).0; r[0] == r[1] == r[2]
  {
  }

  /** Under the colour types 2 and 6: a single value is a grey of that value, and bKGD gives the
      low bytes of its red, green and blue samples, bytes 1, 3 and 5. */
  lemma ColourBackground(bg: seq<byte>, ov: Override, colorType: byte, plte: seq<byte>, bkgd: Option<seq<byte>>)
    requires |bg| == 3 && (ov.NoOverride? && bkgd.Some? ==> BkgdReadable(colorType, plte, bkgd.value))
    requires colorType == 2 || colorType == 6
    ensures ov.One? ==> ChangedBackground(bg, ov, colorType, plte, bkgd).0 == [ov.x, ov.x, ov.x]
    ensures ov.NoOverride? && bkgd.Some? ==>
              ChangedBackground(bg, ov, colorType, plte, bkgd).0 == [bkgd.value[1], bkgd.value[3], bkgd.value[5]]
    ensures ov.NoOverride? && bkgd.None? ==> ChangedBackground(bg, ov, colorType, plte, bkgd).0 == bg
  {
  }

  /** Under colour type 3 a single value picks palette entry `x` when there is one and keeps the
      colour otherwise, and bKGD picks the entry its first byte names. So the colour is a palette
      entry or the colour kept, unless three explicit values are given. */
  lemma PaletteBackground(bg: seq<byte>, ov: Override, plte: seq<byte>, bkgd: Option<seq<byte>>)
    requires |bg| == 3 && (ov.NoOverride? && bkgd.Some? ==> BkgdReadable(3, plte, bkgd.value))
    ensures ov.One? && ov.x < |plte| / 3 ==> ChangedBackground(bg, ov, 3, plte, bkgd).0 == PaletteEntry(plte, ov.x)
    ensures ov.One? && ov.x >= |plte| / 3 ==> ChangedBackground(bg, ov, 3, plte, bkgd).0 == bg
    ensures ov.NoOverride? && bkgd.Some? ==> ChangedBackground(bg, ov, 3, plte, bkgd).0 == PaletteEntry(plte, bkgd.value[0])
    ensures ov.NoOverride? && bkgd.None? ==> ChangedBackground(bg, ov, 3, plte, bkgd).0 == bg
    ensures !ov.Three? ==>
              var r := ChangedBackground(bg, ov, 3, plte, bkgd).0;
              r == bg || exists x: nat :: 3 * x + 3 <= |plte| && r == PaletteEntry(plte, x)
  {
    var r := ChangedBackground(bg, ov, 3, plte, bkgd).0;
    if ov.One? && ov.x < |plte| / 3 {
      assert r == PaletteEntry(plte, ov.x);
    } else if ov.NoOverride? && bkgd.Some? {
      assert r == PaletteEntry(plte, bkgd.value[0]);
    }
  }

  /** `change_background`: writes the chosen colour into `background` and reports whether an
      override was given. */
  method ChangeBackground(ov: Override, colorType: byte, plte: seq<byte>, background: array<byte>, bkgd: Option<seq<byte>>)
    returns (goBackground: bool)
    requires background.Length == 3 && (ov.NoOverride? && bkgd.Some? ==> BkgdReadable(colorType, plte, bkgd.value))
    modifies background
    ensures (background[..], goBackground) == ChangedBackground(old(background[..]), ov, colorType, plte, bkgd)
  {
    goBackground := false;
    match ov {
      case One(x) =>
        if colorType == 3 {
          if x < |plte| / 3 {
            RowStartIsProduct(x, 3);
            background[0] := plte[Arr(x, 0, 3)];
            background[1] := plte[Arr(x, 1, 3)];
            background[2] := plte[Arr(x, 2, 3)];
          }
        } else {
          background[0], background[1], background[2] := x, x, x;
        }
        goBackground := true;
      case Three(r, g, b) =>
        background[0], background[1], background[2] := r, g, b;
        goBackground := true;
      case NoOverride =>
    }
    if !goBackground && bkgd.Some? {
      var data := bkgd.value;
      if colorType == 6 || colorType == 2 {
        background[0], background[1], background[2] := data[1], data[3], data[5];
      }
      if colorType == 0 || colorType == 4 {
        background[0], background[1], background[2] := data[1], data[1], data[1];
      }
      if colorType == 3 {
        var indexPlte := data[0];
        RowStartIsProduct(indexPlte, 3);
        background[0] := plte[Arr(indexPlte, 0, 3)];
        background[1] := plte[Arr(indexPlte, 1, 3)];
        background[2] := plte[Arr(indexPlte, 2, 3)];
      }
    }
    assert background[..] == [background[0], background[1], background[2]];
  }
}
