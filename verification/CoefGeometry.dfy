/** Block geometry of an image and of its scans (initial_setup and per_scan_setup
    of jcmaster.c), and the MCUs a scan must send. */
module CoefGeometry {
  import opened Arith
  import opened ZigzagOrder

  const DCTSIZE := 8
  const MAX_SAMP_FACTOR := 4

  datatype Component = Component(h: nat, v: nat)

  /** An image: its size in samples and its components' sampling factors. */
  datatype Frame = Frame(width: nat, height: nat, comps: seq<Component>)

  ghost predicate FrameOk(f: Frame)
  {
    && f.width > 0 && f.height > 0 && f.comps != []
    && forall i :: 0 <= i < |f.comps| ==> 1 <= f.comps[i].h <= MAX_SAMP_FACTOR && 1 <= f.comps[i].v <= MAX_SAMP_FACTOR
  }

  function MaxH(cs: seq<Component>): (m: nat)
    ensures m >= 1
  {
    if cs == [] then 1
    else
      var m := MaxH(cs[..|cs| - 1]);
      if cs[|cs| - 1].h > m then cs[|cs| - 1].h else m
  }

  function MaxV(cs: seq<Component>): (m: nat)
    ensures m >= 1
  {
    if cs == [] then 1
    else
      var m := MaxV(cs[..|cs| - 1]);
      if cs[|cs| - 1].v > m then cs[|cs| - 1].v else m
  }

  /** jdiv_round_up. */
  function CeilDiv(a: nat, d: nat): (q: nat)
    requires d > 0
    ensures d * q >= a && (q > 0 ==> d * (q - 1) < a)
  {
    DivNonNegative(a + d - 1, d);
    DivMod(a + d - 1, d);
    CeilBounds(a, d, (a + d - 1) / d, (a + d - 1) % d);
    (a + d - 1) / d
  }

  lemma CeilBounds(a: nat, d: nat, q: nat, r: nat)
    requires d > 0 && a + d - 1 == d * q + r && r < d
    ensures d * q >= a && (q > 0 ==> d * (q - 1) < a)
  {
    assert d * (q - 1) == d * q - d;
  }

  function WidthInBlocks(f: Frame, c: Component): nat
  {
    Scaled(f.width, c.h);
    CeilDiv(f.width * c.h, MaxH(f.comps) * DCTSIZE)
  }

  function HeightInBlocks(f: Frame, c: Component): nat
  {
    Scaled(f.height, c.v);
    CeilDiv(f.height * c.v, MaxV(f.comps) * DCTSIZE)
  }

  lemma Scaled(a: nat, b: nat)
    ensures a * b >= 0
  {
  }

  /** MCUs across and down a fully interleaved scan. */
  function McusAcross(f: Frame): nat
  {
    CeilDiv(f.width, MaxH(f.comps) * DCTSIZE)
  }

  function TotalRows(f: Frame): nat
  {
    CeilDiv(f.height, MaxV(f.comps) * DCTSIZE)
  }

  /** Ceilings nest: blocks grouped into MCUs fill exactly the MCUs. */
  lemma NestedCeiling(a: nat, h: nat, d: nat, m: nat, w: nat)
    requires a > 0 && h > 0 && d > 0 && m == CeilDiv(a, d) && w == CeilDiv(a * h, d)
    ensures m > 0 && w > 0 && h * (m - 1) < w <= h * m
  {
    assert d * 0 == 0;
    assert a * h >= 1;
    if w > h * m {
      MulMono(d, h * m, w - 1);
      Swap3(d, h, m);
      MulMono(h, a, d * m);
    }
    if w <= h * (m - 1) {
      MulMono(d, w, h * (m - 1));
      Swap3(d, h, m - 1);
      MulLess(h, d * (m - 1), a);
    }
  }

  lemma MulMono(d: int, a: int, b: int)
    requires d >= 0 && a <= b
    ensures d * a <= d * b
  {
    assert d * (b - a) >= 0;
  }

  lemma Swap3(a: int, b: int, c: int)
    ensures a * (b * c) == b * (a * c)
  {
  }

  /** What is left for the last group. */
  function LastOf(w: nat, h: nat): (l: nat)
    requires h > 0
    ensures 1 <= l <= h
  {
    if w % h == 0 then h else w % h
  }

  lemma LastIsRest(w: nat, h: nat, m: nat)
    requires h > 0 && m > 0 && h * (m - 1) < w <= h * m
    ensures LastOf(w, h) == w - h * (m - 1)
  {
    assert h * m == h * (m - 1) + h;
    if w == h * m {
      UniqueQuotient(w, h, m, 0);
    } else {
      UniqueQuotient(w, h, m - 1, w - h * (m - 1));
    }
  }

  /** In numbers: sampling factors from one to four. */
  lemma FrameInNumbers(f: Frame)
    ensures FrameOk(f) <==>
      && f.width > 0 && f.height > 0 && |f.comps| > 0
      && forall i :: 0 <= i < |f.comps| ==> 1 <= f.comps[i].h <= 4 && 1 <= f.comps[i].v <= 4
  {
  }

  lemma {:induction false} GreatestH(cs: seq<Component>)
    ensures forall i :: 0 <= i < |cs| ==> cs[i].h <= MaxH(cs)
    ensures MaxH(cs) == 1 || exists i :: 0 <= i < |cs| && cs[i].h == MaxH(cs)
  {
    if cs != [] {
      GreatestH(cs[..|cs| - 1]);
    }
  }

  lemma {:induction false} GreatestV(cs: seq<Component>)
    ensures forall i :: 0 <= i < |cs| ==> cs[i].v <= MaxV(cs)
    ensures MaxV(cs) == 1 || exists i :: 0 <= i < |cs| && cs[i].v == MaxV(cs)
  {
    if cs != [] {
      GreatestV(cs[..|cs| - 1]);
    }
  }

  /** Blocks are eight samples wide and high, and an MCU as many as its greatest sampling
      factors say: for every image and all sampling factors, the blocks and the
      MCUs cover the image, and with one row or column less they would not. */
  lemma BlocksCover(f: Frame, c: Component)
    requires FrameOk(f) && c in f.comps
    ensures forall i :: 0 <= i < |f.comps| ==> f.comps[i].h <= MaxH(f.comps) && f.comps[i].v <= MaxV(f.comps)
    ensures exists i :: 0 <= i < |f.comps| && f.comps[i].h == MaxH(f.comps)
    ensures exists i :: 0 <= i < |f.comps| && f.comps[i].v == MaxV(f.comps)
    ensures var m := 8 * MaxH(f.comps);
      && m * (WidthInBlocks(f, c) - 1) < f.width * c.h <= m * WidthInBlocks(f, c)
      && m * (McusAcross(f) - 1) < f.width <= m * McusAcross(f)
    ensures var m := 8 * MaxV(f.comps);
      && m * (HeightInBlocks(f, c) - 1) < f.height * c.v <= m * HeightInBlocks(f, c)
      && m * (TotalRows(f) - 1) < f.height <= m * TotalRows(f)
  {
    hide MaxH, MaxV, WidthInBlocks, HeightInBlocks, McusAcross, TotalRows;
    GreatestH(f.comps);
    GreatestV(f.comps);
    assert f.comps[0].h <= MaxH(f.comps) && f.comps[0].v <= MaxV(f.comps);
    Covers(f, c);
  }

  lemma Covers(f: Frame, c: Component)
    ensures var m := 8 * MaxH(f.comps);
      && m * (WidthInBlocks(f, c) - 1) < f.width * c.h <= m * WidthInBlocks(f, c)
      && m * (McusAcross(f) - 1) < f.width <= m * McusAcross(f)
    ensures var m := 8 * MaxV(f.comps);
      && m * (HeightInBlocks(f, c) - 1) < f.height * c.v <= m * HeightInBlocks(f, c)
      && m * (TotalRows(f) - 1) < f.height <= m * TotalRows(f)
  {
    hide MaxH, MaxV;
    Scaled(f.width, c.h);
    Scaled(f.height, c.v);
    Ceiling(f.width * c.h, MaxH(f.comps) * DCTSIZE);
    Ceiling(f.width, MaxH(f.comps) * DCTSIZE);
    Ceiling(f.height * c.v, MaxV(f.comps) * DCTSIZE);
    Ceiling(f.height, MaxV(f.comps) * DCTSIZE);
  }

  lemma Ceiling(a: nat, d: nat)
    requires d > 0
    ensures d * (CeilDiv(a, d) - 1) < a <= d * CeilDiv(a, d)
  {
    if CeilDiv(a, d) == 0 {
      assert d * -1 < 0;
    }
  }

  // ----- Scans -----

  /** The components of a scan, by their place in the frame. */
  ghost predicate ScanOk(f: Frame, scan: seq<nat>)
  {
    FrameOk(f) && scan != [] && forall i :: 0 <= i < |scan| ==> scan[i] < |f.comps|
  }

  /** The fields per_scan_setup derives for one component. */
  datatype Fields = Fields(mcuWidth: nat, mcuHeight: nat, lastColWidth: nat, lastRowHeight: nat)

  function Setup(f: Frame, scan: seq<nat>, i: nat): Fields
    requires ScanOk(f, scan) && i < |scan|
  {
    var c := f.comps[scan[i]];
    if |scan| == 1 then Fields(1, 1, 1, LastOf(HeightInBlocks(f, c), c.v))
    else Fields(c.h, c.v, LastOf(WidthInBlocks(f, c), c.h), LastOf(HeightInBlocks(f, c), c.v))
  }

  function McusPerRow(f: Frame, scan: seq<nat>): nat
    requires ScanOk(f, scan)
  {
    if |scan| == 1 then WidthInBlocks(f, f.comps[scan[0]]) else McusAcross(f)
  }

  /** MCU rows of iMCU row r, as start_iMCU_row figures. */
  function RowsIn(f: Frame, scan: seq<nat>, r: nat): nat
    requires ScanOk(f, scan)
  {
    if |scan| > 1 then 1
    else if r + 1 < TotalRows(f) then f.comps[scan[0]].v
    else Setup(f, scan, 0).lastRowHeight
  }

  lemma Geometry(f: Frame, c: Component)
    requires FrameOk(f) && c in f.comps
    ensures var m, w, h := McusAcross(f), WidthInBlocks(f, c), c.h;
      m > 0 && w > 0 && h * (m - 1) < w <= h * m && LastOf(w, h) == w - h * (m - 1)
    ensures var m, w, h := TotalRows(f), HeightInBlocks(f, c), c.v;
      m > 0 && w > 0 && h * (m - 1) < w <= h * m && LastOf(w, h) == w - h * (m - 1)
  {
    hide CeilDiv, LastOf, MaxH, MaxV;
    NestedCeiling(f.width, c.h, MaxH(f.comps) * DCTSIZE, McusAcross(f), WidthInBlocks(f, c));
    NestedCeiling(f.height, c.v, MaxV(f.comps) * DCTSIZE, TotalRows(f), HeightInBlocks(f, c));
    LastIsRest(WidthInBlocks(f, c), c.h, McusAcross(f));
    LastIsRest(HeightInBlocks(f, c), c.v, TotalRows(f));
  }

  // ----- The MCUs of a scan -----

  /** The real blocks of one component. */
  type Plane = seq<seq<Block>>

  ghost predicate PlaneOk(p: Plane, w: nat, h: nat)
  {
    |p| == h && forall y :: 0 <= y < h ==> |p[y]| == w
  }

  function Zero(): (b: Block)
  {
    seq(DCTSIZE2, _ => 0)
  }

  /** A dummy block: it repeats a DC value and has no AC coefficients. */
  function Dummy(like: Block): Block
  {
    Zero()[0 := like[0]]
  }

  /** A plane continued beyond its edges: to the right each block repeats its left
      neighbour's DC value; below, the last block of its MCU in the row above. */
  function Padded(p: Plane, w: nat, h: nat, mw: nat, y: nat, x: nat): Block
    requires PlaneOk(p, w, h) && w > 0 && h > 0 && mw > 0
    decreases y, x
  {
    if y < h then
      if x < w then p[y][x] else Dummy(Padded(p, w, h, mw, y, x - 1))
    else Dummy(Padded(p, w, h, mw, y - 1, mw * (x / mw) + mw - 1))
  }

  /** The real block that an MCU's dummy blocks take their DC value from: at the right
      edge the last one of the row; below the plane the last one of the MCU in the last
      row, as far as the plane goes. */
  function LikeColumn(w: nat, h: nat, mw: nat, y: nat, x: nat): (c: nat)
    requires w > 0 && mw > 0
    ensures c < w
    ensures y < h ==> c == w - 1
    ensures y >= h ==> c == if mw * (x / mw) + mw - 1 < w - 1 then mw * (x / mw) + mw - 1 else w - 1
  {
    GroupEnd(x, mw);
    if y >= h && mw * (x / mw) + mw - 1 < w - 1 then mw * (x / mw) + mw - 1 else w - 1
  }

  lemma GroupEnd(x: nat, mw: nat)
    requires mw > 0
    ensures mw * (x / mw) + mw - 1 >= x && (mw * (x / mw) + mw - 1) / mw == x / mw
  {
    DivMod(x, mw);
    DivNonNegative(x, mw);
    UniqueQuotient(mw * (x / mw) + mw - 1, mw, x / mw, mw - 1);
  }

  /** A block outside the plane has the DC value of a real one and zeros for the rest. */
  lemma {:induction false} DummyBlocks(p: Plane, w: nat, h: nat, mw: nat, y: nat, x: nat)
    requires PlaneOk(p, w, h) && w > 0 && h > 0 && mw > 0 && (y >= h || x >= w)
    ensures forall k :: 1 <= k < 64 ==> Padded(p, w, h, mw, y, x)[k] == 0
    ensures var row := if y < h then y else h - 1;
            Padded(p, w, h, mw, y, x)[0] == p[row][LikeColumn(w, h, mw, y, x)][0]
    decreases y, x
  {
    if y < h {
      if x > w {
        DummyBlocks(p, w, h, mw, y, x - 1);
      }
    } else {
      GroupEnd(x, mw);
      var m := mw * (x / mw) + mw - 1;
      if y > h || m >= w {
        DummyBlocks(p, w, h, mw, y - 1, m);
      }
    }
  }

  ghost predicate ImageOk(f: Frame, img: seq<Plane>)
  {
    && FrameOk(f) && |img| == |f.comps|
    && forall i :: 0 <= i < |img| ==> PlaneOk(img[i], WidthInBlocks(f, f.comps[i]), HeightInBlocks(f, f.comps[i]))
  }

  /** Block row yi of component i in the MCU at column col, MCU row yoff of iMCU
      row r. */
  ghost function BlockAt(f: Frame, scan: seq<nat>, img: seq<Plane>, i: nat, y: nat, x: nat): Block
    requires ScanOk(f, scan) && ImageOk(f, img) && i < |scan|
  {
    var c := f.comps[scan[i]];
    Geometry(f, c);
    Padded(img[scan[i]], WidthInBlocks(f, c), HeightInBlocks(f, c), Setup(f, scan, i).mcuWidth, y, x)
  }

  ghost function RowPart(f: Frame, scan: seq<nat>, img: seq<Plane>, i: nat, y: nat, col: nat, n: nat): (s: seq<Block>)
    requires ScanOk(f, scan) && ImageOk(f, img) && i < |scan|
    ensures |s| == n
  {
    if n == 0 then []
    else
      RowPart(f, scan, img, i, y, col, n - 1) +
      [BlockAt(f, scan, img, i, y, Setup(f, scan, i).mcuWidth * col + n - 1)]
  }

  ghost function RowsPart(f: Frame, scan: seq<nat>, img: seq<Plane>, i: nat, y0: nat, col: nat, n: nat): seq<Block>
    requires ScanOk(f, scan) && ImageOk(f, img) && i < |scan|
  {
    if n == 0 then []
    else
      RowsPart(f, scan, img, i, y0, col, n - 1) +
      RowPart(f, scan, img, i, y0 + n - 1, col, Setup(f, scan, i).mcuWidth)
  }

  /** The first n components of the MCU. */
  ghost function McuPart(f: Frame, scan: seq<nat>, img: seq<Plane>, r: nat, yoff: nat, col: nat, n: nat): seq<Block>
    requires ScanOk(f, scan) && ImageOk(f, img) && n <= |scan|
  {
    if n == 0 then []
    else
      var i := n - 1;
      McuPart(f, scan, img, r, yoff, col, i) +
      RowsPart(f, scan, img, i, f.comps[scan[i]].v * r + yoff, col, Setup(f, scan, i).mcuHeight)
  }

  ghost function McuAt(f: Frame, scan: seq<nat>, img: seq<Plane>, r: nat, yoff: nat, col: nat): seq<Block>
    requires ScanOk(f, scan) && ImageOk(f, img)
  {
    McuPart(f, scan, img, r, yoff, col, |scan|)
  }

  /** All MCUs before a position, in the order they are sent. */
  ghost function Before(f: Frame, scan: seq<nat>, img: seq<Plane>, r: nat, yoff: nat, col: nat): seq<seq<Block>>
    requires ScanOk(f, scan) && ImageOk(f, img)
    decreases r, yoff, col
  {
    if col > 0 then Before(f, scan, img, r, yoff, col - 1) + [McuAt(f, scan, img, r, yoff, col - 1)]
    else if yoff > 0 then Before(f, scan, img, r, yoff - 1, McusPerRow(f, scan))
    else if r > 0 then Before(f, scan, img, r - 1, RowsIn(f, scan, r - 1), 0)
    else []
  }

  /** The MCUs of the whole scan. */
  ghost function AllMcus(f: Frame, scan: seq<nat>, img: seq<Plane>): seq<seq<Block>>
    requires ScanOk(f, scan) && ImageOk(f, img)
  {
    Before(f, scan, img, TotalRows(f), 0, 0)
  }

  // ----- Every block exactly once -----

  /** A place in a scan: an MCU and a block of component i in it. */
  datatype Place = Place(r: nat, yoff: nat, col: nat, yi: nat, xi: nat)

  ghost predicate InScan(f: Frame, scan: seq<nat>, i: nat, p: Place)
    requires ScanOk(f, scan) && i < |scan|
  {
    && p.r < TotalRows(f) && p.yoff < RowsIn(f, scan, p.r) && p.col < McusPerRow(f, scan)
    && p.yi < Setup(f, scan, i).mcuHeight && p.xi < Setup(f, scan, i).mcuWidth
  }

  /** Which block is sent there. */
  function RowOf(f: Frame, scan: seq<nat>, i: nat, p: Place): nat
    requires ScanOk(f, scan) && i < |scan|
  {
    f.comps[scan[i]].v * p.r + p.yoff + p.yi
  }

  function ColumnOf(f: Frame, scan: seq<nat>, i: nat, p: Place): nat
    requires ScanOk(f, scan) && i < |scan|
  {
    Setup(f, scan, i).mcuWidth * p.col + p.xi
  }

  /** The place where a block is sent. */
  function PlaceOf(f: Frame, scan: seq<nat>, i: nat, y: nat, x: nat): Place
    requires ScanOk(f, scan) && i < |scan|
  {
    var c := f.comps[scan[i]];
    if |scan| == 1 then Place(y / c.v, y % c.v, x, 0, 0) else Place(y / c.v, 0, x / c.h, y % c.v, x % c.h)
  }

  /** Each real block of each component of a scan is sent at one place, and at no
      other. */
  lemma EachBlockOnce(f: Frame, scan: seq<nat>, i: nat, y: nat, x: nat, p: Place)
    requires ScanOk(f, scan) && i < |scan|
    requires y < HeightInBlocks(f, f.comps[scan[i]]) && x < WidthInBlocks(f, f.comps[scan[i]])
    ensures InScan(f, scan, i, PlaceOf(f, scan, i, y, x))
    ensures RowOf(f, scan, i, PlaceOf(f, scan, i, y, x)) == y && ColumnOf(f, scan, i, PlaceOf(f, scan, i, y, x)) == x
    ensures InScan(f, scan, i, p) && RowOf(f, scan, i, p) == y && ColumnOf(f, scan, i, p) == x ==>
      p == PlaceOf(f, scan, i, y, x)
  {
    hide WidthInBlocks, HeightInBlocks, TotalRows, McusAcross, LastOf;
    var c := f.comps[scan[i]];
    Geometry(f, c);
    GroupOf(y, c.v, TotalRows(f), HeightInBlocks(f, c));
    GroupOf(x, c.h, McusAcross(f), WidthInBlocks(f, c));
    if InScan(f, scan, i, p) && RowOf(f, scan, i, p) == y && ColumnOf(f, scan, i, p) == x {
      if |scan| == 1 {
        UniqueQuotient(y, c.v, p.r, p.yoff);
      } else {
        UniqueQuotient(y, c.v, p.r, p.yi);
        UniqueQuotient(x, c.h, p.col, p.xi);
      }
    }
  }

  /** The group of an element, and its place in it. */
  lemma GroupOf(y: nat, v: nat, m: nat, n: nat)
    requires v > 0 && m > 0 && v * (m - 1) < n <= v * m && y < n
    ensures y == v * (y / v) + y % v && 0 <= y / v < m && y % v < v
    ensures y / v == m - 1 ==> y % v < n - v * (m - 1)
  {
    DivMod(y, v);
    DivNonNegative(y, v);
    if y / v >= m {
      MulMono(v, m, y / v);
    }
  }

  /** A scan of one component has no dummy blocks. */
  lemma SingleIsReal(f: Frame, scan: seq<nat>, p: Place)
    requires ScanOk(f, scan) && |scan| == 1 && InScan(f, scan, 0, p)
    ensures RowOf(f, scan, 0, p) < HeightInBlocks(f, f.comps[scan[0]])
    ensures ColumnOf(f, scan, 0, p) < WidthInBlocks(f, f.comps[scan[0]])
  {
    hide WidthInBlocks, HeightInBlocks, TotalRows, McusAcross, LastOf;
    var c := f.comps[scan[0]];
    Geometry(f, c);
    if p.r + 1 < TotalRows(f) {
      MulMono(c.v, p.r + 1, TotalRows(f) - 1);
      assert c.v * (p.r + 1) == c.v * p.r + c.v;
    } else {
      assert p.r == TotalRows(f) - 1;
    }
  }
}
