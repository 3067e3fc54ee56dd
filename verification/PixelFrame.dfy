/** The camera frame as random access would see it: the reference for the FIFO
    reader of cc3.c. */
module PixelFrame {

  type Byte = b: nat | b < 256

  /** Two neighbouring pixels share four bytes of the FIFO: green, red, second green,
      blue (or the like in the other colour space). */
  datatype Pixel = Pixel(c0: Byte, c1: Byte, c2: Byte)

  datatype Channel = Red | Green | Blue | All | Unknown

  /** What a row of output depends on. */
  datatype View = View(rawWidth: nat, x0: nat, xStep: nat, coi: Channel, yCrCb: bool)

  /** Even widths, even left edges and a step of one or an even one: what the
      parameter setting functions leave. */
  predicate ViewOk(v: View)
  {
    v.rawWidth % 2 == 0 && v.x0 % 2 == 0 && (v.xStep == 1 || (v.xStep > 0 && v.xStep % 2 == 0))
  }

  /** The FIFO position of image row y; the first line in the FIFO is not part of
      the image. */
  function RowPos(rawWidth: nat, y: nat): (p: nat)
  {
    if y == 0 then 2 * rawWidth else RowPos(rawWidth, y - 1) + 2 * rawWidth
  }

  /** Byte k of the pair that pixel (x, y) belongs to. */
  function PairByte(data: nat -> Byte, rawWidth: nat, x: nat, y: nat, k: nat): Byte
  {
    data(RowPos(rawWidth, y) + 4 * (x / 2) + k)
  }

  /** Pixel (x, y) of the frame: its own green, and the red and blue of its pair. */
  function FramePixel(data: nat -> Byte, rawWidth: nat, x: nat, y: nat): Pixel
  {
    Pixel(PairByte(data, rawWidth, x, y, 1),
          PairByte(data, rawWidth, x, y, if x % 2 == 0 then 0 else 2),
          PairByte(data, rawWidth, x, y, 3))
  }

  /** The column of output pixel j. */
  function Column(v: View, j: nat): (x: nat)
  {
    if j == 0 then v.x0 else Column(v, j - 1) + v.xStep
  }

  /** The frame pixel that becomes output pixel j: the one in its column, but the
      right one of the pair when all channels are read with subsampling. */
  function Source(v: View, j: nat): nat
  {
    if v.coi == All && v.xStep > 1 then Column(v, j) + 1 else Column(v, j)
  }

  /** The bytes of a pixel that the channel of interest selects. */
  function Select(v: View, p: Pixel): seq<Byte>
  {
    match v.coi
    case Red => [p.c0]
    case Green => [p.c1]
    case Blue => [p.c2]
    case All => if v.yCrCb then [p.c1, p.c0, p.c2] else [p.c0, p.c1, p.c2]
    case Unknown => []
  }

  /** Output pixel j of image row y. */
  function PixelOut(data: nat -> Byte, v: View, y: nat, j: nat): (s: seq<Byte>)
    ensures |s| == Bytes(v)
  {
    Select(v, FramePixel(data, v.rawWidth, Source(v, j), y))
  }

  function Bytes(v: View): (n: nat)
    ensures n <= 3
  {
    match v.coi
    case All => 3
    case Unknown => 0
    case _ => 1
  }

  /** The bytes of n output rows. */
  function Bulk(v: View, width: nat, n: nat): (b: nat)
  {
    NotNegative(width, Bytes(v));
    NotNegative(n, width * Bytes(v));
    n * (width * Bytes(v))
  }

  lemma BulkMono(v: View, width: nat, n: nat, m: nat)
    requires n <= m
    ensures Bulk(v, width, n) <= Bulk(v, width, m)
  {
    var size := width * Bytes(v);
    assert (m - n) * size >= 0;
    assert m * size == n * size + (m - n) * size;
  }

  /** The first n output pixels of image row y. */
  function RowOut(data: nat -> Byte, v: View, y: nat, n: nat): seq<Byte>
  {
    if n == 0 then [] else RowOut(data, v, y, n - 1) + PixelOut(data, v, y, n - 1)
  }

  /** The image row of output row r. */
  function RowAt(y: nat, yStep: nat, r: nat): nat
  {
    if r == 0 then y else RowAt(y, yStep, r - 1) + yStep
  }

  /** n output rows from image row y on. */
  function RowsOut(data: nat -> Byte, v: View, width: nat, y: nat, yStep: nat, n: nat): seq<Byte>
  {
    if n == 0 then [] else RowsOut(data, v, width, y, yStep, n - 1) + RowOut(data, v, RowAt(y, yStep, n - 1), width)
  }

  // ----- Closed forms -----

  lemma {:induction false} ColumnIs(v: View, j: nat)
    ensures Column(v, j) == v.x0 + j * v.xStep
  {
    if j > 0 {
      ColumnIs(v, j - 1);
      assert j * v.xStep == (j - 1) * v.xStep + v.xStep;
    }
  }

  lemma {:induction false} RowAtIs(y: nat, yStep: nat, r: nat)
    ensures RowAt(y, yStep, r) == y + r * yStep
  {
    if r > 0 {
      RowAtIs(y, yStep, r - 1);
      assert r * yStep == (r - 1) * yStep + yStep;
    }
  }

  lemma {:induction false} RowPosIs(rawWidth: nat, y: nat)
    ensures RowPos(rawWidth, y) == 2 * rawWidth * (y + 1)
  {
    if y > 0 {
      RowPosIs(rawWidth, y - 1);
      assert 2 * rawWidth * (y + 1) == 2 * rawWidth * y + 2 * rawWidth;
    }
  }

  lemma {:induction false} RowOutLength(data: nat -> Byte, v: View, y: nat, n: nat)
    ensures |RowOut(data, v, y, n)| == n * Bytes(v)
  {
    if n > 0 {
      RowOutLength(data, v, y, n - 1);
      assert n * Bytes(v) == (n - 1) * Bytes(v) + Bytes(v);
    }
  }

  lemma {:induction false} RowsOutLength(data: nat -> Byte, v: View, width: nat, y: nat, yStep: nat, n: nat)
    ensures |RowsOut(data, v, width, y, yStep, n)| == n * (width * Bytes(v))
  {
    if n > 0 {
      RowsOutLength(data, v, width, y, yStep, n - 1);
      RowOutLength(data, v, RowAt(y, yStep, n - 1), width);
      assert n * (width * Bytes(v)) == (n - 1) * (width * Bytes(v)) + width * Bytes(v);
    }
  }

  /** Where output pixel j stands in its row, and what it is. */
  lemma {:induction false} RowOutAt(data: nat -> Byte, v: View, y: nat, n: nat, j: nat)
    requires j < n
    ensures 0 <= j * Bytes(v) && j * Bytes(v) + Bytes(v) <= |RowOut(data, v, y, n)|
    ensures RowOut(data, v, y, n)[j * Bytes(v)..j * Bytes(v) + Bytes(v)] == PixelOut(data, v, y, j)
    decreases n
  {
    hide PixelOut, Bytes;
    RowOutLength(data, v, y, n - 1);
    var front, last := RowOut(data, v, y, n - 1), PixelOut(data, v, y, n - 1);
    if j < n - 1 {
      RowOutAt(data, v, y, n - 1, j);
      var a, b := j * Bytes(v), j * Bytes(v) + Bytes(v);
      assert (front + last)[a..b] == front[a..b];
    } else {
      assert (front + last)[|front|..|front| + |last|] == last;
    }
  }

  /** Where output row r stands, and what it is. */
  lemma {:induction false} RowsOutAt(data: nat -> Byte, v: View, width: nat, y: nat, yStep: nat, n: nat, r: nat)
    requires r < n
    ensures 0 <= r * (width * Bytes(v))
    ensures r * (width * Bytes(v)) + width * Bytes(v) <= |RowsOut(data, v, width, y, yStep, n)|
    ensures RowsOut(data, v, width, y, yStep, n)[r * (width * Bytes(v))..r * (width * Bytes(v)) + width * Bytes(v)]
            == RowOut(data, v, RowAt(y, yStep, r), width)
    decreases n
  {
    hide RowOut, Bytes, RowAt;
    RowsOutLength(data, v, width, y, yStep, n - 1);
    RowOutLength(data, v, RowAt(y, yStep, n - 1), width);
    var front, last := RowsOut(data, v, width, y, yStep, n - 1), RowOut(data, v, RowAt(y, yStep, n - 1), width);
    NotNegative(r, width * Bytes(v));
    if r < n - 1 {
      RowsOutAt(data, v, width, y, yStep, n - 1, r);
      var a, b := r * (width * Bytes(v)), r * (width * Bytes(v)) + width * Bytes(v);
      assert (front + last)[a..b] == front[a..b];
    } else {
      assert (front + last)[|front|..|front| + |last|] == last;
    }
  }

  lemma NotNegative(a: nat, b: int)
    requires b >= 0
    ensures a * b >= 0
  {
  }

  /** Rows read in two goes are the rows read in one. */
  lemma {:induction false} RowsInTwo(data: nat -> Byte, v: View, width: nat, y: nat, yStep: nat, a: nat, b: nat)
    ensures RowsOut(data, v, width, y, yStep, a + b)
            == RowsOut(data, v, width, y, yStep, a) + RowsOut(data, v, width, RowAt(y, yStep, a), yStep, b)
    decreases b
  {
    hide RowOut, RowAt;
    if b > 0 {
      RowsInTwo(data, v, width, y, yStep, a, b - 1);
      RowAtIs(y, yStep, a + (b - 1));
      RowAtIs(y, yStep, a);
      RowAtIs(RowAt(y, yStep, a), yStep, b - 1);
      assert (a + (b - 1)) * yStep == a * yStep + (b - 1) * yStep;
    }
  }

  /** With the right pixel of the pair for the left one: the two greens differ or
      nothing does. */
  lemma SubsampledGreen(data: nat -> Byte, v: View, y: nat, j: nat)
    requires ViewOk(v)
    ensures PixelOut(data, v, y, j) == Select(v, FramePixel(data, v.rawWidth, Column(v, j), y))
            <==> (v.coi == All && v.xStep > 1 ==>
                    PairByte(data, v.rawWidth, Column(v, j), y, 0) == PairByte(data, v.rawWidth, Column(v, j), y, 2))
  {
    hide RowPos;
    if v.xStep > 1 {
      ColumnEven(v, j);
    }
  }

  /** A pair with two unlike greens: the left pixel has green 0, and what comes out
      has green 2. */
  lemma UnlikeGreens(data: nat -> Byte)
    requires forall p: nat :: data(p) == p % 4
    ensures var v := View(4, 0, 2, All, false);
            && PixelOut(data, v, 0, 0) == [1, 2, 3]
            && Select(v, FramePixel(data, 4, Column(v, 0), 0)) == [1, 0, 3]
  {
  }

  lemma {:induction false} ColumnEven(v: View, j: nat)
    requires ViewOk(v) && v.xStep > 1
    ensures Column(v, j) % 2 == 0
  {
    if j > 0 {
      ColumnEven(v, j - 1);
    }
  }

  // ----- In numbers -----

  /** Each row has two bytes for a pixel, behind one row that is no image data; a pair of
      pixels has its green, its red, the right one's green and its blue, in this order.
      Which of them are output pixel j, for each channel and colour space. */
  lemma BytesOfPixel(data: nat -> Byte, v: View, y: nat, j: nat)
    ensures 0 <= j * v.xStep && 0 <= v.rawWidth * (y + 1)
    ensures var x := v.x0 + j * v.xStep + if v.coi == All && v.xStep > 1 then 1 else 0;
      var at := 2 * (v.rawWidth * (y + 1)) + 4 * (x / 2);
      var red, green, blue := data(at + 1), data(at + if x % 2 == 0 then 0 else 2), data(at + 3);
      PixelOut(data, v, y, j) ==
        match v.coi
        case Red => [red]
        case Green => [green]
        case Blue => [blue]
        case All => if v.yCrCb then [green, red, blue] else [red, green, blue]
        case Unknown => []
  {
    hide RowPos, Column;
    ColumnIs(v, j);
    RowPosIs(v.rawWidth, y);
    Doubled(v.rawWidth, y + 1);
    Scaled(j, v.xStep);
  }

  lemma Doubled(a: nat, b: nat)
    ensures 0 <= a * b && 2 * a * b == 2 * (a * b)
  {
  }

  lemma Scaled(a: nat, b: nat)
    ensures 0 <= a * b
  {
  }
}
