/** Basic types shared by every stage of the PNG-to-PNM converter. */
module PngBase {

  /** One byte of the input file or of a decoded buffer (`char` / `unsigned char` in the converter). */
  type byte = x: int | 0 <= x < 256

  /** An `unsigned int` of the converter: chunk lengths, CRCs, width and height. */
  type uint32 = x: int | 0 <= x < 0x1_0000_0000

  /** The two error kinds the core can report (ERROR_DATA_INVALID and ERROR_UNSUPPORTED). */
  datatype Error = DataInvalid | Unsupported

  datatype Option<+T> = None | Some(value: T) {
    function GetOr(default: T): T {
      match this
      case Some(v) => v
      case None => default
    }
  }

  datatype Result<+T> = Ok(value: T) | Err(error: Error)

  /** The start of row `x` in a flat buffer with stride `n`, counted row by row. */
  function RowStart(x: nat, n: nat): nat {
    if x == 0 then 0 else RowStart(x - 1, n) + n
  }

  /** Row `x` starts at `x * n`. */
  lemma {:induction false} RowStartIsProduct(x: nat, n: nat)
    ensures RowStart(x, n) == x * n
  {
    if x > 0 {
      RowStartIsProduct(x - 1, n);
    }
  }

  /** The `ARR(NAME, X, Y, N)` macro: element `Y` of row `X` in a flat buffer with stride `N`,
      that is `X * N + Y` (`RowStartIsProduct`). */
  function Arr(x: nat, y: nat, n: nat): nat {
    RowStart(x, n) + y
  }

  /** The value a byte has when the converter reads it through a (signed) `char`. */
  function SignedChar(b: byte): int {
    if b < 128 then b else b - 256
  }

  /** A later row starts at least a whole row further on. */
  lemma {:induction false} RowStartMonotone(x: nat, i: nat, n: nat)
    requires x < i
    ensures RowStart(x, n) + n <= RowStart(i, n)
    decreases i
  {
    if x < i - 1 {
      RowStartMonotone(x, i - 1, n);
    }
  }

  /** The first `x` rows take no more room than the first `i` when `x <= i`. */
  lemma RowStartUpTo(x: nat, i: nat, n: nat)
    requires x <= i
    ensures RowStart(x, n) <= RowStart(i, n)
  {
    if x < i {
      RowStartMonotone(x, i, n);
    }
  }

  /** Row `x` of a buffer with stride `n` lies wholly before row `i` when `x < i`. */
  lemma RowBefore(x: nat, y: nat, i: nat, n: nat)
    requires x < i && y < n
    ensures Arr(x, y, n) < Arr(i, 0, n)
  {
    RowStartMonotone(x, i, n);
  }

  /** A row of a buffer with stride `n` that holds `h` rows lies inside its first `RowStart(h, n)`
      bytes. */
  lemma RowInside(i: nat, y: nat, n: nat, h: nat)
    requires i < h && y <= n
    ensures Arr(i, y, n) <= RowStart(h, n)
  {
    RowStartMonotone(i, h, n);
  }

  /** A position inside a row of stride `n` has one row and one column. */
  lemma ArrInjective(x: nat, y: nat, x': nat, y': nat, n: nat)
    requires y < n && y' < n && Arr(x, y, n) == Arr(x', y', n)
    ensures x == x' && y == y'
  {
    if x < x' {
      RowBefore(x, y, x', n);
    } else if x' < x {
      RowBefore(x', y', x, n);
    }
  }

  /** The row and the column of position `p` in a flat buffer with stride `n`, found row by
      row. */
  function Locate(p: nat, n: nat): (r: (nat, nat))
    requires n >= 1
    ensures r.1 < n && Arr(r.0, r.1, n) == p
  {
    if p < n then (0, p)
    else
      var (x, y) := Locate(p - n, n);
      (x + 1, y)
  }

  /** A position before row `h` lies in a row before `h`. */
  lemma LocateBefore(p: nat, n: nat, h: nat)
    requires n >= 1 && p < RowStart(h, n)
    ensures Locate(p, n).0 < h
  {
    var (x, y) := Locate(p, n);
    if h <= x {
      RowStartUpTo(h, x, n);
    }
  }

  lemma MulMonotone(a: nat, b: nat, n: nat)
    requires a <= b
    ensures a * n <= b * n
  {
  }
}
