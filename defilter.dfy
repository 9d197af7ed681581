/** Reversing the per-row filters of the decompressed image data (`unfilter_png`, section 9 of the
    PNG specification). The rows lie one after the other in a flat buffer, each one filter-type
    byte followed by `width * bytes_pixel` filtered bytes, and are reconstructed in place. */
module Defilter {
  import opened PngBase

  /** `enum filter_type`. */
  const FilterNone: byte := 0
  const Sub: byte := 1
  const Up: byte := 2
  const Average: byte := 3
  const Paeth: byte := 4

  /** The distance `abs(x)`. */
  function Abs(x: int): nat {
    if x < 0 then -x else x
  }

  /** The Paeth predictor of section 9.4 of the PNG specification. */
  function PaethPredictor(a: byte, b: byte, c: byte): byte {
    var p := a + b - c;
    var pa, pb, pc := Abs(p - a), Abs(p - b), Abs(p - c);
    if pa <= pb && pa <= pc then a
    else if pb <= pc then b
    else c
  }

  /** The Paeth predictor picks the neighbour closest to `a + b - c`, ties going to `a`, then
      to `b`. */
  lemma PaethNearest(a: byte, b: byte, c: byte)
    ensures var p := a + b - c; var r := PaethPredictor(a, b, c);
            Abs(p - r) <= Abs(p - a) && Abs(p - r) <= Abs(p - b) && Abs(p - r) <= Abs(p - c)
    ensures var p := a + b - c; var r := PaethPredictor(a, b, c);
            r == a || (r == b && Abs(p - b) < Abs(p - a)) || (r == c && Abs(p - c) < Abs(p - a) && Abs(p - c) < Abs(p - b))
  {
  }

  /** `floor((a + b) / 2.0)`: the mean of two bytes rounded down, computed exactly in integers. */
  function Mean(a: byte, b: byte): (r: byte)
    ensures 2 * r <= a + b < 2 * r + 2
  {
    (a + b) / 2
  }

  /** What the filter type adds back to a filtered byte, from the reconstructed neighbours `a`
      (left), `b` (above) and `c` (above left). */
  function Predictor(filter: byte, a: byte, b: byte, c: byte): byte {
    if filter == Sub then a
    else if filter == Up then b
    else if filter == Average then Mean(a, b)
    else if filter == Paeth then PaethPredictor(a, b, c)
    else 0
  }

  /** Sub predicts the left neighbour, Up the one above, Average their mean rounded down, Paeth
      the Paeth predictor; None and the types the converter does not know predict nothing. */
  lemma PredictorCases(filter: byte, a: byte, b: byte, c: byte)
    ensures var r := Predictor(filter, a, b, c);
            (filter == Sub ==> r == a) &&
            (filter == Up ==> r == b) &&
            (filter == Average ==> 2 * r <= a + b < 2 * r + 2) &&
            (filter == Paeth ==> r == PaethPredictor(a, b, c)) &&
            (filter !in {Sub, Up, Average, Paeth} ==> r == 0)
  {
  }

  /** `+=` on a byte of the buffer: the sum wraps around modulo 256. */
  function AddByte(x: byte, y: byte): (r: byte)
    ensures y == 0 ==> r == x
  {
    (x + y) % 256
  }

  /** The distance between rows in the buffer: the filter byte and `width * bytes_pixel` bytes. */
  function Stride(width: nat, bytesPixel: nat): nat {
    width * bytesPixel + 1
  }

  /** The buffer `main` allocates for the decompressed rows, `bytes_pixel * (width * height +
      height)` bytes, holds every row of stride `width * bytes_pixel + 1`. */
  lemma AllocationHoldsRows(width: nat, height: nat, bpp: nat)
    requires bpp >= 1
    ensures height * Stride(width, bpp) <= bpp * (width * height + height)
  {
    calc {
      height * Stride(width, bpp);
    ==
      height * (width * bpp) + height;
    <= { MulMonotone(1, bpp, height); }
      height * (width * bpp) + bpp * height;
    == { MulSpread(height, width, bpp); }
      bpp * (width * height + height);
    }
  }

  lemma MulSpread(h: nat, w: nat, b: nat)
    ensures h * (w * b) + b * h == b * (w * h + h)
  {
  }

  /** Byte `j` of row `i` of the buffer `s` with stride `n`; byte 0 is the row's filter type. */
  function Cell(s: seq<byte>, n: nat, i: nat, j: nat): byte
    requires Arr(i, j, n) < |s|
  {
    s[Arr(i, j, n)]
  }

  /** The reconstructed value of byte `j` (1 <= j < n) of row `i`, for the filtered buffer `f`
      with stride `n` and `bpp` bytes per pixel, defined on the rows and columns of the image:
      neighbours to the left of the first pixel and above the first row count as 0. */
  function Recon(f: seq<byte>, n: nat, bpp: nat, i: nat, j: nat): byte
    requires bpp >= 1 && 1 <= j < n && Arr(i, j, n) < |f|
    decreases i, j
  {
    var a := if j - bpp >= 1 then Recon(f, n, bpp, i, j - bpp) else 0;
    var b := if i >= 1 then Recon(f, n, bpp, i - 1, j) else 0;
    var c := if i >= 1 && j - bpp >= 1 then Recon(f, n, bpp, i - 1, j - bpp) else 0;
    AddByte(Cell(f, n, i, j), Predictor(Cell(f, n, i, 0), a, b, c))
  }

  /** The new value of byte `j` of row `i` when the bytes before it, `p`, are already
      reconstructed: the neighbours are read back from `p` at the distances the buffer layout puts
      them, one pixel to the left and one row up. */
  function Next(f: seq<byte>, n: nat, bpp: nat, i: nat, j: nat, p: seq<byte>): byte
    requires bpp >= 1 && |p| == Arr(i, j, n) < |f| && j < n
  {
    var x := f[|p|];
    if j == 0 then x
    else
      var a := if j - bpp >= 1 then p[Arr(i, j - bpp, n)] else 0;
      var b := if i >= 1 then p[Arr(i - 1, j, n)] else 0;
      var c := if i >= 1 && j - bpp >= 1 then p[Arr(i - 1, j - bpp, n)] else 0;
      AddByte(x, Predictor(f[RowStart(i, n)], a, b, c))
  }

  /** The buffer's first `Arr(i, j, n)` bytes after reconstruction, computed byte by byte in the
      order the converter visits them. */
  function Scan(f: seq<byte>, n: nat, bpp: nat, i: nat, j: nat): (r: seq<byte>)
    requires bpp >= 1 && j <= n && Arr(i, j, n) <= |f|
    ensures |r| == Arr(i, j, n)
    decreases i, j
  {
    if j == 0 then (if i == 0 then [] else Scan(f, n, bpp, i - 1, n))
    else
      var p := Scan(f, n, bpp, i, j - 1);
      p + [Next(f, n, bpp, i, j - 1, p)]
  }

  /** `Next` for a data byte, from the neighbours `a`, `b`, `c` read back from `p`. */
  lemma NextStep(f: seq<byte>, n: nat, bpp: nat, i: nat, j: nat, p: seq<byte>, a: byte, b: byte, c: byte)
    requires bpp >= 1 && |p| == Arr(i, j, n) < |f| && 1 <= j < n
    requires a == if j - bpp >= 1 then p[Arr(i, j - bpp, n)] else 0
    requires b == if i >= 1 then p[Arr(i - 1, j, n)] else 0
    requires c == if i >= 1 && j - bpp >= 1 then p[Arr(i - 1, j - bpp, n)] else 0
    ensures Next(f, n, bpp, i, j, p) == AddByte(f[|p|], Predictor(f[RowStart(i, n)], a, b, c))
  {
  }

  /** One more byte of the scan. */
  lemma ScanStep(f: seq<byte>, n: nat, bpp: nat, i: nat, j: nat)
    requires bpp >= 1 && j < n && Arr(i, j, n) < |f|
    ensures Scan(f, n, bpp, i, j + 1) == Scan(f, n, bpp, i, j) + [Next(f, n, bpp, i, j, Scan(f, n, bpp, i, j))]
  {
  }

  /** The buffer once the converter has visited the bytes before byte `j` of row `i`: those
      bytes reconstructed, the rest as it was. */
  function Partial(f: seq<byte>, n: nat, bpp: nat, i: nat, j: nat): (r: seq<byte>)
    requires bpp >= 1 && j <= n && Arr(i, j, n) <= |f|
    ensures |r| == |f|
  {
    Scan(f, n, bpp, i, j) + f[Arr(i, j, n)..]
  }

  /** Visiting one more byte writes its new value and nothing else. */
  lemma PartialStep(f: seq<byte>, n: nat, bpp: nat, i: nat, j: nat)
    requires bpp >= 1 && j < n && Arr(i, j, n) < |f|
    ensures Partial(f, n, bpp, i, j + 1) == Partial(f, n, bpp, i, j)[Arr(i, j, n) := Next(f, n, bpp, i, j, Scan(f, n, bpp, i, j))]
  {
    ScanStep(f, n, bpp, i, j);
  }

  /** Visiting the filter-type byte of a row changes nothing. */
  lemma PartialRowStart(f: seq<byte>, n: nat, bpp: nat, i: nat)
    requires bpp >= 1 && 1 <= n && Arr(i, 0, n) < |f|
    ensures Partial(f, n, bpp, i, 1) == Partial(f, n, bpp, i, 0)
  {
    PartialStep(f, n, bpp, i, 0);
  }

  /** At the start of a row its filter-type byte is still the one read from the input. */
  lemma PartialFilterByte(f: seq<byte>, n: nat, bpp: nat, i: nat)
    requires bpp >= 1 && 1 <= n && RowStart(i + 1, n) <= |f|
    ensures Arr(i, 0, n) < |f| && Partial(f, n, bpp, i, 0)[Arr(i, 0, n)] == f[RowStart(i, n)]
  {
  }

  /** The end of a row is the start of the next. */
  lemma PartialRowEnd(f: seq<byte>, n: nat, bpp: nat, i: nat)
    requires bpp >= 1 && RowStart(i + 1, n) <= |f|
    ensures Partial(f, n, bpp, i + 1, 0) == Partial(f, n, bpp, i, n)
  {
  }

  /** The whole buffer after `unfilter_png`: every row reconstructed, the bytes after the last
      row as they were. */
  function Unfiltered(f: seq<byte>, width: nat, height: nat, bpp: nat): (r: seq<byte>)
    requires bpp >= 1 && height * Stride(width, bpp) <= |f|
    ensures |r| == |f|
  {
    RowStartIsProduct(height, Stride(width, bpp));
    Partial(f, Stride(width, bpp), bpp, height, 0)
  }

  /** One step of the reconstruction: byte `j` of row `i` from its neighbours `a`, `b`, `c`. */
  lemma ReconStep(f: seq<byte>, n: nat, bpp: nat, i: nat, j: nat, a: byte, b: byte, c: byte)
    requires bpp >= 1 && 1 <= j < n && Arr(i, j, n) < |f|
    requires a == if j - bpp >= 1 then Recon(f, n, bpp, i, j - bpp) else 0
    requires b == if i >= 1 then Recon(f, n, bpp, i - 1, j) else 0
    requires c == if i >= 1 && j - bpp >= 1 then Recon(f, n, bpp, i - 1, j - bpp) else 0
    ensures Recon(f, n, bpp, i, j) == AddByte(Cell(f, n, i, j), Predictor(Cell(f, n, i, 0), a, b, c))
  {
  }

  /** The byte-by-byte scan agrees with the definition on rows and columns: every byte already
      visited holds its reconstruction, and the filter-type bytes keep their values. */
  lemma {:induction false} ScanAt(f: seq<byte>, n: nat, bpp: nat, i: nat, j: nat, i': nat, j': nat)
    requires bpp >= 1 && j <= n && Arr(i, j, n) <= |f| && j' < n && Arr(i', j', n) < Arr(i, j, n)
    ensures Scan(f, n, bpp, i, j)[Arr(i', j', n)] == if j' == 0 then Cell(f, n, i', 0) else Recon(f, n, bpp, i', j')
    decreases i, j, 1
  {
    if j == 0 {
      ScanAtRowEnd(f, n, bpp, i, i', j');
    } else if Arr(i', j', n) < Arr(i, j - 1, n) {
      ScanAtEarlier(f, n, bpp, i, j, i', j');
    } else {
      ArrInjective(i', j', i, j - 1, n);
      if j' > 0 {
        ScanNewest(f, n, bpp, i, j');
      } else {
        ScanFilterByte(f, n, bpp, i);
      }
    }
  }

  /** `ScanAt` at the start of a row: the scan so far is the scan up to the end of the row
      before. */
  lemma {:induction false} ScanAtRowEnd(f: seq<byte>, n: nat, bpp: nat, i: nat, i': nat, j': nat)
    requires bpp >= 1 && Arr(i, 0, n) <= |f| && j' < n && Arr(i', j', n) < Arr(i, 0, n)
    ensures Scan(f, n, bpp, i, 0)[Arr(i', j', n)] == if j' == 0 then Cell(f, n, i', 0) else Recon(f, n, bpp, i', j')
    decreases i, 0, 0
  {
    assert Scan(f, n, bpp, i, 0) == Scan(f, n, bpp, i - 1, n);
    ScanAt(f, n, bpp, i - 1, n, i', j');
  }

  /** `ScanAt` for a byte visited before the last step. */
  lemma {:induction false} ScanAtEarlier(f: seq<byte>, n: nat, bpp: nat, i: nat, j: nat, i': nat, j': nat)
    requires bpp >= 1 && 1 <= j <= n && Arr(i, j, n) <= |f| && j' < n && Arr(i', j', n) < Arr(i, j - 1, n)
    ensures Scan(f, n, bpp, i, j)[Arr(i', j', n)] == if j' == 0 then Cell(f, n, i', 0) else Recon(f, n, bpp, i', j')
    decreases i, j, 0
  {
    ScanAt(f, n, bpp, i, j - 1, i', j');
    ScanKeeps(f, n, bpp, i, j - 1, Arr(i', j', n));
  }

  /** One more step of the scan keeps the bytes already there. */
  lemma ScanKeeps(f: seq<byte>, n: nat, bpp: nat, i: nat, j: nat, k: nat)
    requires bpp >= 1 && j < n && Arr(i, j, n) < |f| && k < Arr(i, j, n)
    ensures Scan(f, n, bpp, i, j + 1)[k] == Scan(f, n, bpp, i, j)[k]
  {
    ScanStep(f, n, bpp, i, j);
  }

  /** The scan copies the filter-type byte of each row. */
  lemma ScanFilterByte(f: seq<byte>, n: nat, bpp: nat, i: nat)
    requires bpp >= 1 && 1 <= n && Arr(i, 0, n) < |f|
    ensures Scan(f, n, bpp, i, 1)[Arr(i, 0, n)] == Cell(f, n, i, 0)
  {
    ScanStep(f, n, bpp, i, 0);
  }

  /** The byte the scan adds at row `i`, position `j`, is its reconstruction. */
  lemma {:induction false} ScanNewest(f: seq<byte>, n: nat, bpp: nat, i: nat, j: nat)
    requires bpp >= 1 && 1 <= j < n && Arr(i, j, n) < |f|
    ensures Scan(f, n, bpp, i, j + 1)[Arr(i, j, n)] == Recon(f, n, bpp, i, j)
    decreases i, j + 1, 0
  {
    var p := Scan(f, n, bpp, i, j);
    NeighboursBefore(n, bpp, i, j);
    var a := if j - bpp >= 1 then p[Arr(i, j - bpp, n)] else 0;
    var b := if i >= 1 then p[Arr(i - 1, j, n)] else 0;
    var c := if i >= 1 && j - bpp >= 1 then p[Arr(i - 1, j - bpp, n)] else 0;
    if j - bpp >= 1 {
      ScanLeft(f, n, bpp, i, j);
    }
    if i >= 1 {
      ScanUp(f, n, bpp, i, j);
    }
    if i >= 1 && j - bpp >= 1 {
      ScanUpLeft(f, n, bpp, i, j);
    }
    NextStep(f, n, bpp, i, j, p, a, b, c);
    ScanStep(f, n, bpp, i, j);
    ReconStep(f, n, bpp, i, j, a, b, c);
  }

  /** The left neighbour of a data byte, as the scan has left it, is its reconstruction. */
  lemma {:induction false} ScanLeft(f: seq<byte>, n: nat, bpp: nat, i: nat, j: nat)
    requires bpp >= 1 && bpp + 1 <= j < n && Arr(i, j, n) < |f|
    ensures Arr(i, j - bpp, n) < Arr(i, j, n)
    ensures Scan(f, n, bpp, i, j)[Arr(i, j - bpp, n)] == Recon(f, n, bpp, i, j - bpp)
    decreases i, j, 2
  {
    ScanAt(f, n, bpp, i, j, i, j - bpp);
  }

  /** The upper neighbour of a data byte, as the scan has left it, is its reconstruction. */
  lemma {:induction false} ScanUp(f: seq<byte>, n: nat, bpp: nat, i: nat, j: nat)
    requires bpp >= 1 && 1 <= i && 1 <= j < n && Arr(i, j, n) < |f|
    ensures Arr(i - 1, j, n) < Arr(i, j, n)
    ensures Scan(f, n, bpp, i, j)[Arr(i - 1, j, n)] == Recon(f, n, bpp, i - 1, j)
    decreases i, j, 2
  {
    ScanAt(f, n, bpp, i, j, i - 1, j);
  }

  /** The upper-left neighbour of a data byte, as the scan has left it, is its reconstruction. */
  lemma {:induction false} ScanUpLeft(f: seq<byte>, n: nat, bpp: nat, i: nat, j: nat)
    requires bpp >= 1 && 1 <= i && bpp + 1 <= j < n && Arr(i, j, n) < |f|
    ensures Arr(i - 1, j - bpp, n) < Arr(i, j, n)
    ensures Scan(f, n, bpp, i, j)[Arr(i - 1, j - bpp, n)] == Recon(f, n, bpp, i - 1, j - bpp)
    decreases i, j, 2
  {
    ScanAt(f, n, bpp, i, j, i - 1, j - bpp);
  }

  /** The neighbours a data byte is predicted from come before it in the buffer. */
  lemma NeighboursBefore(n: nat, bpp: nat, i: nat, j: nat)
    requires bpp >= 1 && 1 <= j < n
    ensures j - bpp >= 1 ==> Arr(i, j - bpp, n) < Arr(i, j, n)
    ensures i >= 1 ==> Arr(i - 1, j, n) < Arr(i, j, n)
    ensures i >= 1 && j - bpp >= 1 ==> Arr(i - 1, j - bpp, n) < Arr(i, j, n)
  {
  }

  /** The contract of `unfilter_png` for byte `j` of row `i`. */
  lemma UnfilteredCell(f: seq<byte>, width: nat, height: nat, bpp: nat, i: nat, j: nat)
    requires bpp >= 1 && height * Stride(width, bpp) <= |f| && i < height && j < Stride(width, bpp)
    ensures Arr(i, j, Stride(width, bpp)) < |f|
    ensures Unfiltered(f, width, height, bpp)[Arr(i, j, Stride(width, bpp))] ==
              if j == 0 then f[Arr(i, 0, Stride(width, bpp))] else Recon(f, Stride(width, bpp), bpp, i, j)
  {
    var n := Stride(width, bpp);
    RowStartIsProduct(height, n);
    RowInside(i, j + 1, n, height);
    ScanAt(f, n, bpp, height, 0, i, j);
  }

  /** The contract of `unfilter_png` on the data bytes: each holds its reconstruction. */
  lemma UnfilteredData(f: seq<byte>, width: nat, height: nat, bpp: nat)
    requires bpp >= 1 && height * Stride(width, bpp) <= |f|
    ensures forall i, j :: 0 <= i < height && 1 <= j < Stride(width, bpp) ==>
              Arr(i, j, Stride(width, bpp)) < |f| &&
              Unfiltered(f, width, height, bpp)[Arr(i, j, Stride(width, bpp))] == Recon(f, Stride(width, bpp), bpp, i, j)
  {
    forall i, j | 0 <= i < height && 1 <= j < Stride(width, bpp)
      ensures Arr(i, j, Stride(width, bpp)) < |f| &&
              Unfiltered(f, width, height, bpp)[Arr(i, j, Stride(width, bpp))] == Recon(f, Stride(width, bpp), bpp, i, j)
    {
      UnfilteredCell(f, width, height, bpp, i, j);
    }
  }

  /** The contract of `unfilter_png` on the filter-type bytes: they keep their values. */
  lemma UnfilteredFilterBytes(f: seq<byte>, width: nat, height: nat, bpp: nat)
    requires bpp >= 1 && height * Stride(width, bpp) <= |f|
    ensures forall i :: 0 <= i < height ==>
              Arr(i, 0, Stride(width, bpp)) < |f| &&
              Unfiltered(f, width, height, bpp)[Arr(i, 0, Stride(width, bpp))] == f[Arr(i, 0, Stride(width, bpp))]
  {
    forall i | 0 <= i < height
      ensures Arr(i, 0, Stride(width, bpp)) < |f| &&
              Unfiltered(f, width, height, bpp)[Arr(i, 0, Stride(width, bpp))] == f[Arr(i, 0, Stride(width, bpp))]
    {
      UnfilteredCell(f, width, height, bpp, i, 0);
    }
  }

  /** The contract of `unfilter_png` after the last row: nothing there changes. */
  lemma UnfilteredTail(f: seq<byte>, width: nat, height: nat, bpp: nat)
    requires bpp >= 1 && height * Stride(width, bpp) <= |f|
    ensures forall k :: height * Stride(width, bpp) <= k < |f| ==> Unfiltered(f, width, height, bpp)[k] == f[k]
  {
    RowStartIsProduct(height, Stride(width, bpp));
  }

  /** A row whose filter type is None, or a type the converter does not know, is left as it is. */
  lemma {:induction false} UnknownFilterScan(f: seq<byte>, n: nat, bpp: nat, i: nat, j: nat)
    requires bpp >= 1 && 1 <= n && j <= n && RowStart(i + 1, n) <= |f| && f[RowStart(i, n)] !in {Sub, Up, Average, Paeth}
    ensures Scan(f, n, bpp, i, j) == Scan(f, n, bpp, i, 0) + f[RowStart(i, n)..Arr(i, j, n)]
  {
    if j > 0 {
      UnknownFilterScan(f, n, bpp, i, j - 1);
      ScanStep(f, n, bpp, i, j - 1);
      assert Next(f, n, bpp, i, j - 1, Scan(f, n, bpp, i, j - 1)) == f[Arr(i, j - 1, n)];
      AppendSlice(Scan(f, n, bpp, i, 0), f, RowStart(i, n), Arr(i, j - 1, n));
    }
  }

  /** Appending element `b` after the slice `s[a..b]` gives the slice `s[a..b + 1]`. */
  lemma AppendSlice(p: seq<byte>, s: seq<byte>, a: nat, b: nat)
    requires a <= b < |s|
    ensures p + s[a..b] + [s[b]] == p + s[a..b + 1]
  {
    assert s[a..b] + [s[b]] == s[a..b + 1];
  }

  /** Skipping a row whose filter type is None leaves the buffer as visiting it would. */
  lemma UnknownFilterRowKept(f: seq<byte>, n: nat, bpp: nat, i: nat)
    requires bpp >= 1 && 1 <= n && RowStart(i + 1, n) <= |f| && f[RowStart(i, n)] !in {Sub, Up, Average, Paeth}
    ensures Partial(f, n, bpp, i + 1, 0) == Partial(f, n, bpp, i, 0)
  {
    UnknownFilterScan(f, n, bpp, i, n);
    PartialRowEnd(f, n, bpp, i);
    assert f[RowStart(i, n)..] == f[RowStart(i, n)..RowStart(i + 1, n)] + f[RowStart(i + 1, n)..];
  }

  /** `x - y` modulo 256: what a filter stores for byte `x` under the prediction `y`. */
  function SubByte(x: byte, y: byte): (r: byte)
    ensures AddByte(r, y) == x
  {
    (x - y) % 256
  }

  /** The standard forward filter (section 9.2 of the PNG specification) on data byte `j` of row
      `i` of the unfiltered image `raw`: the byte minus the prediction its row's filter type makes
      from the original neighbours. */
  function FilteredCell(raw: seq<byte>, n: nat, bpp: nat, i: nat, j: nat): byte
    requires bpp >= 1 && 1 <= j < n && Arr(i, j, n) < |raw|
  {
    var a := if j - bpp >= 1 then Cell(raw, n, i, j - bpp) else 0;
    var b := if i >= 1 then Cell(raw, n, i - 1, j) else 0;
    var c := if i >= 1 && j - bpp >= 1 then Cell(raw, n, i - 1, j - bpp) else 0;
    SubByte(Cell(raw, n, i, j), Predictor(Cell(raw, n, i, 0), a, b, c))
  }

  /** `FilteredCell` from the original neighbours `a`, `b`, `c`. */
  lemma FilteredStep(raw: seq<byte>, n: nat, bpp: nat, i: nat, j: nat, a: byte, b: byte, c: byte)
    requires bpp >= 1 && 1 <= j < n && Arr(i, j, n) < |raw|
    requires a == if j - bpp >= 1 then Cell(raw, n, i, j - bpp) else 0
    requires b == if i >= 1 then Cell(raw, n, i - 1, j) else 0
    requires c == if i >= 1 && j - bpp >= 1 then Cell(raw, n, i - 1, j - bpp) else 0
    ensures FilteredCell(raw, n, bpp, i, j) == SubByte(Cell(raw, n, i, j), Predictor(Cell(raw, n, i, 0), a, b, c))
  {
  }

  /** The image `raw` (rows of stride `n`, each its filter type and then its original bytes)
      filtered by the encoder; what lies after row `h` is kept. */
  function Filter(raw: seq<byte>, n: nat, bpp: nat, h: nat): (r: seq<byte>)
    requires bpp >= 1 && n >= 1 && RowStart(h, n) <= |raw|
    ensures |r| == |raw|
  {
    seq(|raw|, p requires 0 <= p < |raw| =>
      var (i, j) := Locate(p, n);
      if p < RowStart(h, n) && j != 0 then FilteredCell(raw, n, bpp, i, j) else raw[p])
  }

  /** Byte `j` of row `i` of the filtered image. */
  lemma FilterAt(raw: seq<byte>, n: nat, bpp: nat, h: nat, i: nat, j: nat)
    requires bpp >= 1 && RowStart(h, n) <= |raw| && i < h && j < n
    ensures Arr(i, j, n) < |raw|
    ensures Cell(Filter(raw, n, bpp, h), n, i, j) == if j == 0 then Cell(raw, n, i, 0) else FilteredCell(raw, n, bpp, i, j)
  {
    var p := Arr(i, j, n);
    RowInside(i, j + 1, n, h);
    var (x, y) := Locate(p, n);
    ArrInjective(x, y, i, j, n);
  }

  /** `f` holds the standard forward filter of the first `h` rows of `raw`: their filter-type
      bytes as they are and every data byte filtered. */
  ghost predicate FilteredFrom(f: seq<byte>, raw: seq<byte>, n: nat, bpp: nat, h: nat) {
    bpp >= 1 && |f| == |raw| && RowStart(h, n) <= |raw| &&
    (forall i {:trigger Cell(f, n, i, 0)} :: 0 <= i < h && Arr(i, 0, n) < |raw| ==> Cell(f, n, i, 0) == Cell(raw, n, i, 0)) &&
    forall i, j {:trigger FilteredCell(raw, n, bpp, i, j)} :: 0 <= i < h && 1 <= j < n && Arr(i, j, n) < |raw| ==> Cell(f, n, i, j) == FilteredCell(raw, n, bpp, i, j)
  }

  /** `Filter` is the forward filter of the rows it covers. */
  lemma FilterIsFiltered(raw: seq<byte>, n: nat, bpp: nat, h: nat)
    requires bpp >= 1 && n >= 1 && RowStart(h, n) <= |raw|
    ensures FilteredFrom(Filter(raw, n, bpp, h), raw, n, bpp, h)
  {
    forall i | 0 <= i < h && Arr(i, 0, n) < |raw|
      ensures Cell(Filter(raw, n, bpp, h), n, i, 0) == Cell(raw, n, i, 0)
    {
      FilterAt(raw, n, bpp, h, i, 0);
    }
    forall i, j | 0 <= i < h && 1 <= j < n && Arr(i, j, n) < |raw|
      ensures Cell(Filter(raw, n, bpp, h), n, i, j) == FilteredCell(raw, n, bpp, i, j)
    {
      FilterAt(raw, n, bpp, h, i, j);
    }
  }

  /** Reconstructing a filtered image gives back every original data byte. */
  lemma {:induction false} ReconOfFiltered(f: seq<byte>, raw: seq<byte>, n: nat, bpp: nat, h: nat, i: nat, j: nat)
    requires FilteredFrom(f, raw, n, bpp, h) && i < h && 1 <= j < n
    ensures Arr(i, j, n) < |raw|
    ensures Recon(f, n, bpp, i, j) == Cell(raw, n, i, j)
    decreases i, j, 1
  {
    RowInside(i, j + 1, n, h);
    var a := if j - bpp >= 1 then Cell(raw, n, i, j - bpp) else 0;
    var b := if i >= 1 then Cell(raw, n, i - 1, j) else 0;
    var c := if i >= 1 && j - bpp >= 1 then Cell(raw, n, i - 1, j - bpp) else 0;
    FilteredStep(raw, n, bpp, i, j, a, b, c);
    ReconNeighboursOfFiltered(f, raw, n, bpp, h, i, j);
    assert Cell(f, n, i, 0) == Cell(raw, n, i, 0);
    ReconStep(f, n, bpp, i, j, a, b, c);
  }

  /** `ReconOfFiltered` for the left, upper and upper-left neighbours of a data byte. */
  lemma {:induction false} ReconNeighboursOfFiltered(f: seq<byte>, raw: seq<byte>, n: nat, bpp: nat, h: nat, i: nat, j: nat)
    requires FilteredFrom(f, raw, n, bpp, h) && i < h && 1 <= j < n
    ensures j - bpp >= 1 ==>
              Arr(i, j - bpp, n) < |raw| && Recon(f, n, bpp, i, j - bpp) == Cell(raw, n, i, j - bpp)
    ensures i >= 1 ==>
              Arr(i - 1, j, n) < |raw| && Recon(f, n, bpp, i - 1, j) == Cell(raw, n, i - 1, j)
    ensures i >= 1 && j - bpp >= 1 ==>
              Arr(i - 1, j - bpp, n) < |raw| && Recon(f, n, bpp, i - 1, j - bpp) == Cell(raw, n, i - 1, j - bpp)
    decreases i, j, 0
  {
    if j - bpp >= 1 {
      ReconOfFiltered(f, raw, n, bpp, h, i, j - bpp);
    }
    if i >= 1 {
      ReconOfFiltered(f, raw, n, bpp, h, i - 1, j);
    }
    if i >= 1 && j - bpp >= 1 {
      ReconOfFiltered(f, raw, n, bpp, h, i - 1, j - bpp);
    }
  }

  /** Round trip: `unfilter_png` undoes the standard forward filter, whatever filter type each
      row chose. */
  lemma FilterRoundTrip(raw: seq<byte>, width: nat, height: nat, bpp: nat)
    requires bpp >= 1 && height * Stride(width, bpp) <= |raw|
    ensures RowStart(height, Stride(width, bpp)) <= |raw|
    ensures Unfiltered(Filter(raw, Stride(width, bpp), bpp, height), width, height, bpp) == raw
  {
    var n := Stride(width, bpp);
    RowStartIsProduct(height, n);
    var f := Filter(raw, n, bpp, height);
    var u := Unfiltered(f, width, height, bpp);
    FilterIsFiltered(raw, n, bpp, height);
    UnfilteredTail(f, width, height, bpp);
    forall p | 0 <= p < |raw|
      ensures u[p] == raw[p]
    {
      if p < height * n {
        LocateBefore(p, n, height);
        var (i, j) := Locate(p, n);
        UnfilteredCell(f, width, height, bpp, i, j);
        FilterAt(raw, n, bpp, height, i, j);
        if j >= 1 {
          ReconOfFiltered(f, raw, n, bpp, height, i, j);
        }
      }
    }
  }

  /** `unfilter_png`: reconstructs every row in place, row by row and byte by byte, so that the
      left and upper neighbours are already reconstructed when a byte is. */
  method UnfilterPng(width: nat, height: nat, bytesPixel: nat, pngData: array<byte>)
    requires bytesPixel >= 1 && height * Stride(width, bytesPixel) <= pngData.Length
    modifies pngData
    ensures pngData[..] == Unfiltered(old(pngData[..]), width, height, bytesPixel)
  {
    ghost var f := pngData[..];
    var delm := width * bytesPixel + 1;
    assert delm == Stride(width, bytesPixel);
    RowsFit(Stride(width, bytesPixel), height, |f|);
    var i := 0;
    while i < height
      invariant 0 <= i <= height && |f| == pngData.Length
      invariant RowStart(i, delm) <= RowStart(height, delm) <= |f|
      invariant pngData[..] == Partial(f, delm, bytesPixel, i, 0)
    {
      RowStartUpTo(i + 1, height, delm);
      UnfilterRowOrSkip(pngData, f, delm, bytesPixel, i);
      i := i + 1;
    }
    assert pngData[..] == Partial(f, Stride(width, bytesPixel), bytesPixel, height, 0);
  }

  /** Rows of stride `n` that take `h * n <= len` bytes end by `len`. */
  lemma RowsFit(n: nat, h: nat, len: nat)
    requires h * n <= len
    ensures RowStart(h, n) <= len
  {
    RowStartIsProduct(h, n);
  }

  /** One pass of the outer loop of `unfilter_png`: a row of filter type None is skipped, any
      other is reconstructed. */
  method UnfilterRowOrSkip(pngData: array<byte>, ghost f: seq<byte>, delm: nat, bytesPixel: nat, i: nat)
    requires bytesPixel >= 1 && delm >= 1 && RowStart(i + 1, delm) <= pngData.Length == |f|
    requires pngData[..] == Partial(f, delm, bytesPixel, i, 0)
    modifies pngData
    ensures pngData[..] == Partial(f, delm, bytesPixel, i + 1, 0)
  {
    PartialFilterByte(f, delm, bytesPixel, i);
    var filter := pngData[Arr(i, 0, delm)];
    if filter == FilterNone {
      UnknownFilterRowKept(f, delm, bytesPixel, i);
    } else {
      UnfilterRow(pngData, f, delm, bytesPixel, i);
    }
  }

  /** The inner loop of `unfilter_png` for row `i`, whose filter type is not None. */
  method UnfilterRow(pngData: array<byte>, ghost f: seq<byte>, delm: nat, bytesPixel: nat, i: nat)
    requires bytesPixel >= 1 && delm >= 1 && RowStart(i + 1, delm) <= pngData.Length == |f|
    requires pngData[..] == Partial(f, delm, bytesPixel, i, 0)
    modifies pngData
    ensures pngData[..] == Partial(f, delm, bytesPixel, i + 1, 0)
  {
    PartialFilterByte(f, delm, bytesPixel, i);
    var filter := pngData[Arr(i, 0, delm)];
    PartialRowStart(f, delm, bytesPixel, i);
    var j := 1;
    while j < delm
      invariant 1 <= j <= delm && pngData.Length == |f|
      invariant pngData[..] == Partial(f, delm, bytesPixel, i, j)
    {
      UnfilterByte(pngData, f, delm, bytesPixel, i, j, filter);
      j := j + 1;
    }
    PartialRowEnd(f, delm, bytesPixel, i);
  }

  /** One pass of the inner loop of `unfilter_png`: byte `j` of row `i`, whose filter type is
      `filter`, from its left, upper and upper-left neighbours. */
  method UnfilterByte(pngData: array<byte>, ghost f: seq<byte>, delm: nat, bytesPixel: nat, i: nat, j: nat, filter: byte)
    requires bytesPixel >= 1 && 1 <= j < delm && RowStart(i + 1, delm) <= pngData.Length == |f|
    requires filter == f[RowStart(i, delm)]
    requires pngData[..] == Partial(f, delm, bytesPixel, i, j)
    modifies pngData
    ensures pngData[..] == Partial(f, delm, bytesPixel, i, j + 1)
  {
    var at := Arr(i, j, delm);
    ghost var p := Scan(f, delm, bytesPixel, i, j);
    var aByte: byte := 0;
    var bByte: byte := 0;
    var cByte: byte := 0;
    if j - bytesPixel >= 1 {
      aByte := pngData[Arr(i, j - bytesPixel, delm)];
      assert aByte == p[Arr(i, j - bytesPixel, delm)];
    }
    if i >= 1 {
      bByte := pngData[Arr(i - 1, j, delm)];
      assert bByte == p[Arr(i - 1, j, delm)];
    }
    if i >= 1 && j - bytesPixel >= 1 {
      cByte := pngData[Arr(i - 1, j - bytesPixel, delm)];
      assert cByte == p[Arr(i - 1, j - bytesPixel, delm)];
    }
    var x := pngData[at];
    assert x == f[|p|];
    var rec := Reconstruct(filter, x, aByte, bByte, cByte);
    NextStep(f, delm, bytesPixel, i, j, p, aByte, bByte, cByte);
    PartialStep(f, delm, bytesPixel, i, j);
    pngData[at] := rec;
  }

  /** The branches of the inner loop of `unfilter_png` for one byte `x` with filter type `filter`
      and neighbours `a` (left), `b` (above) and `c` (above left): its new value. */
  method Reconstruct(filter: byte, x: byte, aByte: byte, bByte: byte, cByte: byte) returns (v: byte)
    ensures v == AddByte(x, Predictor(filter, aByte, bByte, cByte))
  {
    v := x;
    if filter == Sub {
      v := AddByte(v, aByte);
    } else if filter == Up {
      v := AddByte(v, bByte);
    } else if filter == Average {
      v := AddByte(v, Mean(aByte, bByte));
    } else if filter == Paeth {
      var pByte := aByte + bByte - cByte;
      var pa := Abs(pByte - aByte);
      var pb := Abs(pByte - bByte);
      var pc := Abs(pByte - cByte);
      var rec: byte;
      if pa <= pb && pa <= pc {
        rec := aByte;
      } else if pb <= pc {
        rec := bByte;
      } else {
        rec := cByte;
      }
      v := AddByte(v, rec);
    }
  }
}
