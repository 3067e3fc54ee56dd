/** The places of a scan as positions of the MCU sequence that is sent. */
module CoefPlaces {
  import opened Arith
  import opened CoefGeometry

  // ----- MCUs -----

  /** The MCU at one position comes before the one at another, or is the same. */
  predicate NotAfter(r: nat, yoff: nat, col: nat, r2: nat, yoff2: nat, col2: nat)
  {
    r < r2 || (r == r2 && (yoff < yoff2 || (yoff == yoff2 && col <= col2)))
  }

  /** What is sent before a position is a prefix of what is sent before a later
      one. */
  lemma {:induction false} BeforeGrows(f: Frame, scan: seq<nat>, img: seq<Plane>, r: nat, yoff: nat, col: nat,
                                       r2: nat, yoff2: nat, col2: nat)
    requires ScanOk(f, scan) && ImageOk(f, img) && NotAfter(r, yoff, col, r2, yoff2, col2)
    requires yoff < RowsIn(f, scan, r) && col <= McusPerRow(f, scan)
    ensures Before(f, scan, img, r, yoff, col) <= Before(f, scan, img, r2, yoff2, col2)
    decreases r2, yoff2, col2
  {
    hide RowsIn, McusPerRow, ImageOk, McuAt;
    if r == r2 && yoff == yoff2 && col == col2 {
    } else if col2 > 0 {
      BeforeGrows(f, scan, img, r, yoff, col, r2, yoff2, col2 - 1);
    } else if yoff2 > 0 {
      BeforeGrows(f, scan, img, r, yoff, col, r2, yoff2 - 1, McusPerRow(f, scan));
    } else {
      BeforeGrows(f, scan, img, r, yoff, col, r2 - 1, RowsIn(f, scan, r2 - 1), 0);
    }
  }

  /** The number of the MCU that holds a place. */
  ghost function McuNo(f: Frame, scan: seq<nat>, img: seq<Plane>, p: Place): nat
    requires ScanOk(f, scan) && ImageOk(f, img)
  {
    |Before(f, scan, img, p.r, p.yoff, p.col)|
  }

  lemma McuFound(f: Frame, scan: seq<nat>, img: seq<Plane>, i: nat, p: Place)
    requires ScanOk(f, scan) && ImageOk(f, img) && i < |scan| && InScan(f, scan, i, p)
    ensures McuNo(f, scan, img, p) < |AllMcus(f, scan, img)|
    ensures AllMcus(f, scan, img)[McuNo(f, scan, img, p)] == McuAt(f, scan, img, p.r, p.yoff, p.col)
  {
    hide RowsIn, McusPerRow, ImageOk, McuAt, TotalRows, Setup;
    BeforeGrows(f, scan, img, p.r, p.yoff, p.col + 1, TotalRows(f), 0, 0);
  }

  /** Places in different MCUs have different MCU numbers. */
  lemma McusApart(f: Frame, scan: seq<nat>, img: seq<Plane>, i: nat, p: Place, j: nat, q: Place)
    requires ScanOk(f, scan) && ImageOk(f, img) && i < |scan| && j < |scan|
    requires InScan(f, scan, i, p) && InScan(f, scan, j, q) && McuNo(f, scan, img, p) == McuNo(f, scan, img, q)
    ensures p.r == q.r && p.yoff == q.yoff && p.col == q.col
  {
    hide RowsIn, McusPerRow, ImageOk, McuAt, TotalRows, Setup;
    if NotAfter(p.r, p.yoff, p.col + 1, q.r, q.yoff, q.col) {
      BeforeGrows(f, scan, img, p.r, p.yoff, p.col + 1, q.r, q.yoff, q.col);
    } else if NotAfter(q.r, q.yoff, q.col + 1, p.r, p.yoff, p.col) {
      BeforeGrows(f, scan, img, q.r, q.yoff, q.col + 1, p.r, p.yoff, p.col);
    }
  }

  // ----- Blocks of an MCU -----

  lemma {:induction false} RowIndex(f: Frame, scan: seq<nat>, img: seq<Plane>, i: nat, y: nat, col: nat, n: nat, k: nat)
    requires ScanOk(f, scan) && ImageOk(f, img) && i < |scan| && k < n
    ensures RowPart(f, scan, img, i, y, col, n)[k] == BlockAt(f, scan, img, i, y, Setup(f, scan, i).mcuWidth * col + k)
  {
    hide Setup, BlockAt, ImageOk;
    if k < n - 1 {
      RowIndex(f, scan, img, i, y, col, n - 1, k);
    }
  }

  /** w blocks in each of n rows. */
  function Rect(w: nat, n: nat): nat
  {
    w * n
  }

  lemma RectStep(w: nat, n: nat)
    requires n > 0
    ensures Rect(w, n) == Rect(w, n - 1) + w
  {
  }

  lemma RectMono(w: nat, a: nat, b: nat)
    requires a <= b
    ensures Rect(w, a) <= Rect(w, b)
  {
    MulMono(w, a, b);
  }

  lemma {:induction false} RowsIndex(f: Frame, scan: seq<nat>, img: seq<Plane>, i: nat, y0: nat, col: nat, n: nat)
    requires ScanOk(f, scan) && ImageOk(f, img) && i < |scan|
    ensures |RowsPart(f, scan, img, i, y0, col, n)| == Rect(Setup(f, scan, i).mcuWidth, n)
  {
    hide Setup, BlockAt, ImageOk, RowPart, Rect;
    if n > 0 {
      RowsIndex(f, scan, img, i, y0, col, n - 1);
      RectStep(Setup(f, scan, i).mcuWidth, n);
    } else {
      assert Rect(Setup(f, scan, i).mcuWidth, 0) == 0 by {
        RectZero(Setup(f, scan, i).mcuWidth);
      }
    }
  }

  lemma RectZero(w: nat)
    ensures Rect(w, 0) == 0
  {
  }

  lemma {:induction false} RowsFound(f: Frame, scan: seq<nat>, img: seq<Plane>, i: nat, y0: nat, col: nat, n: nat,
                                     yi: nat, xi: nat)
    requires ScanOk(f, scan) && ImageOk(f, img) && i < |scan| && yi < n && xi < Setup(f, scan, i).mcuWidth
    ensures var w := Setup(f, scan, i).mcuWidth;
      && Rect(w, yi) + xi < |RowsPart(f, scan, img, i, y0, col, n)|
      && RowsPart(f, scan, img, i, y0, col, n)[Rect(w, yi) + xi] == BlockAt(f, scan, img, i, y0 + yi, w * col + xi)
  {
    hide Setup, BlockAt, ImageOk, RowPart, Rect;
    var w := Setup(f, scan, i).mcuWidth;
    RowsIndex(f, scan, img, i, y0, col, n - 1);
    RectStep(w, n);
    if yi < n - 1 {
      RowsFound(f, scan, img, i, y0, col, n - 1, yi, xi);
    } else {
      RowIndex(f, scan, img, i, y0 + n - 1, col, w, xi);
    }
  }

  /** The number of blocks of the first n components in an MCU. */
  function Offset(f: Frame, scan: seq<nat>, n: nat): nat
    requires ScanOk(f, scan) && n <= |scan|
  {
    if n == 0 then 0 else Offset(f, scan, n - 1) + Rect(Setup(f, scan, n - 1).mcuWidth, Setup(f, scan, n - 1).mcuHeight)
  }

  lemma {:induction false} OffsetMono(f: Frame, scan: seq<nat>, a: nat, b: nat)
    requires ScanOk(f, scan) && a <= b <= |scan|
    ensures Offset(f, scan, a) <= Offset(f, scan, b)
  {
    hide Setup, Rect;
    if a < b {
      OffsetMono(f, scan, a, b - 1);
    }
  }

  lemma {:induction false} PartLength(f: Frame, scan: seq<nat>, img: seq<Plane>, r: nat, yoff: nat, col: nat, n: nat)
    requires ScanOk(f, scan) && ImageOk(f, img) && n <= |scan|
    ensures |McuPart(f, scan, img, r, yoff, col, n)| == Offset(f, scan, n)
  {
    hide Setup, Rect, RowsPart, ImageOk;
    if n > 0 {
      PartLength(f, scan, img, r, yoff, col, n - 1);
      RowsIndex(f, scan, img, n - 1, f.comps[scan[n - 1]].v * r + yoff, col, Setup(f, scan, n - 1).mcuHeight);
    }
  }

  /** The number of a place's block in its MCU. */
  function BlockNo(f: Frame, scan: seq<nat>, i: nat, p: Place): nat
    requires ScanOk(f, scan) && i < |scan|
  {
    Offset(f, scan, i) + Rect(Setup(f, scan, i).mcuWidth, p.yi) + p.xi
  }

  lemma BlockInPart(f: Frame, scan: seq<nat>, i: nat, p: Place)
    requires ScanOk(f, scan) && i < |scan| && InScan(f, scan, i, p)
    ensures Offset(f, scan, i) <= BlockNo(f, scan, i, p) < Offset(f, scan, i + 1)
  {
    hide Setup, Rect, TotalRows, RowsIn, McusPerRow;
    var w := Setup(f, scan, i).mcuWidth;
    RectStep(w, p.yi + 1);
    RectMono(w, p.yi + 1, Setup(f, scan, i).mcuHeight);
  }

  lemma {:induction false} BlockFound(f: Frame, scan: seq<nat>, img: seq<Plane>, i: nat, p: Place, n: nat)
    requires ScanOk(f, scan) && ImageOk(f, img) && i < n <= |scan| && InScan(f, scan, i, p)
    ensures BlockNo(f, scan, i, p) < |McuPart(f, scan, img, p.r, p.yoff, p.col, n)|
    ensures McuPart(f, scan, img, p.r, p.yoff, p.col, n)[BlockNo(f, scan, i, p)] ==
      BlockAt(f, scan, img, i, RowOf(f, scan, i, p), ColumnOf(f, scan, i, p))
    decreases n
  {
    hide Setup, Rect, RowsPart, ImageOk, TotalRows, RowsIn, McusPerRow, BlockAt;
    PartLength(f, scan, img, p.r, p.yoff, p.col, n - 1);
    if i < n - 1 {
      BlockFound(f, scan, img, i, p, n - 1);
    } else {
      RowsFound(f, scan, img, i, f.comps[scan[i]].v * p.r + p.yoff, p.col, Setup(f, scan, i).mcuHeight, p.yi, p.xi);
    }
  }

  lemma BlocksApart(f: Frame, scan: seq<nat>, i: nat, p: Place, j: nat, q: Place)
    requires ScanOk(f, scan) && i < |scan| && j < |scan| && InScan(f, scan, i, p) && InScan(f, scan, j, q)
    requires BlockNo(f, scan, i, p) == BlockNo(f, scan, j, q)
    ensures i == j && p.yi == q.yi && p.xi == q.xi
  {
    hide Setup, TotalRows, RowsIn, McusPerRow, Offset;
    BlockInPart(f, scan, i, p);
    BlockInPart(f, scan, j, q);
    if i < j {
      OffsetMono(f, scan, i + 1, j);
    } else if j < i {
      OffsetMono(f, scan, j + 1, i);
    } else {
      var w := Setup(f, scan, i).mcuWidth;
      UniqueQuotient(Rect(w, p.yi) + p.xi, w, p.yi, p.xi);
      UniqueQuotient(Rect(w, q.yi) + q.xi, w, q.yi, q.xi);
    }
  }

  // ----- The whole scan -----

  /** The b-th block of the m-th MCU that the scan sends is at a place. */
  ghost predicate SentAt(f: Frame, scan: seq<nat>, img: seq<Plane>, i: nat, p: Place, m: nat, b: nat)
    requires ScanOk(f, scan) && ImageOk(f, img) && i < |scan|
  {
    InScan(f, scan, i, p) && m == McuNo(f, scan, img, p) && b == BlockNo(f, scan, i, p)
  }

  /** A place is one position of the MCU sequence, its block is the one sent
      there, and no other place is at that position. */
  lemma PlaceIsSent(f: Frame, scan: seq<nat>, img: seq<Plane>, i: nat, p: Place, m: nat, b: nat)
    requires ScanOk(f, scan) && ImageOk(f, img) && i < |scan| && SentAt(f, scan, img, i, p, m, b)
    ensures m < |AllMcus(f, scan, img)| && b < |AllMcus(f, scan, img)[m]|
    ensures AllMcus(f, scan, img)[m][b] == BlockAt(f, scan, img, i, RowOf(f, scan, i, p), ColumnOf(f, scan, i, p))
    ensures forall j: nat, q :: j < |scan| && SentAt(f, scan, img, j, q, m, b) ==> j == i && q == p
  {
    hide AllMcus, BlockNo, McuNo, InScan, ImageOk, BlockAt, McuPart;
    McuFound(f, scan, img, i, p);
    BlockFound(f, scan, img, i, p, |scan|);
    forall j: nat, q | j < |scan| && SentAt(f, scan, img, j, q, m, b)
      ensures j == i && q == p
    {
      McusApart(f, scan, img, i, p, j, q);
      BlocksApart(f, scan, i, p, j, q);
    }
  }

  /** Each block of the image is at just one position of the MCU sequence. */
  lemma EachBlockSentOnce(f: Frame, scan: seq<nat>, img: seq<Plane>, i: nat, y: nat, x: nat) returns (m: nat, b: nat)
    requires ScanOk(f, scan) && ImageOk(f, img) && i < |scan|
    requires y < HeightInBlocks(f, f.comps[scan[i]]) && x < WidthInBlocks(f, f.comps[scan[i]])
    ensures m < |AllMcus(f, scan, img)| && b < |AllMcus(f, scan, img)[m]|
    ensures AllMcus(f, scan, img)[m][b] == img[scan[i]][y][x]
    ensures forall p, k: nat, c: nat ::
      SentAt(f, scan, img, i, p, k, c) && RowOf(f, scan, i, p) == y && ColumnOf(f, scan, i, p) == x ==> k == m && c == b
    ensures forall j: nat, q ::
      j < |scan| && SentAt(f, scan, img, j, q, m, b) ==>
        j == i && RowOf(f, scan, j, q) == y && ColumnOf(f, scan, j, q) == x
  {
    hide AllMcus, BlockNo, McuNo, InScan, WidthInBlocks, HeightInBlocks, RowOf, ColumnOf, PlaceOf;
    var p := PlaceOf(f, scan, i, y, x);
    EachBlockOnce(f, scan, i, y, x, p);
    m, b := McuNo(f, scan, img, p), BlockNo(f, scan, i, p);
    PlaceIsSent(f, scan, img, i, p, m, b);
    RealBlock(f, scan, img, i, y, x);
    forall q, k: nat, c: nat | 
        SentAt(f, scan, img, i, q, k, c) && RowOf(f, scan, i, q) == y && ColumnOf(f, scan, i, q) == x
      ensures k == m && c == b
    {
      EachBlockOnce(f, scan, i, y, x, q);
    }
  }

  /** What is sent at a place outside of its component: the DC value of the last real
      block before it, and zeros. */
  lemma DummySent(f: Frame, scan: seq<nat>, img: seq<Plane>, i: nat, p: Place, m: nat, b: nat)
    requires ScanOk(f, scan) && ImageOk(f, img) && i < |scan| && SentAt(f, scan, img, i, p, m, b)
    requires RowOf(f, scan, i, p) >= HeightInBlocks(f, f.comps[scan[i]])
             || ColumnOf(f, scan, i, p) >= WidthInBlocks(f, f.comps[scan[i]])
    ensures var c, plane, y := f.comps[scan[i]], img[scan[i]], RowOf(f, scan, i, p);
      var h, w := HeightInBlocks(f, c), WidthInBlocks(f, c);
      var row := if y < h then y else h - 1;
      var end := c.h * p.col + c.h - 1;
      var column := if y < h || end > w - 1 then w - 1 else end;
      && m < |AllMcus(f, scan, img)| && b < |AllMcus(f, scan, img)[m]|
      && 0 <= row < |plane| && 0 <= column < |plane[row]|
      && AllMcus(f, scan, img)[m][b][0] == plane[row][column][0]
      && forall k :: 1 <= k < 64 ==> AllMcus(f, scan, img)[m][b][k] == 0
  {
    hide AllMcus, BlockNo, McuNo, WidthInBlocks, HeightInBlocks, TotalRows, McusAcross;
    PlaceIsSent(f, scan, img, i, p, m, b);
    var c := f.comps[scan[i]];
    Geometry(f, c);
    if |scan| == 1 {
      SingleIsReal(f, scan, p);
    } else {
      UniqueQuotient(ColumnOf(f, scan, i, p), c.h, p.col, p.xi);
      DummyBlocks(img[scan[i]], WidthInBlocks(f, c), HeightInBlocks(f, c), c.h, RowOf(f, scan, i, p),
                  ColumnOf(f, scan, i, p));
    }
  }

  lemma RealBlock(f: Frame, scan: seq<nat>, img: seq<Plane>, i: nat, y: nat, x: nat)
    requires ScanOk(f, scan) && ImageOk(f, img) && i < |scan|
    requires y < HeightInBlocks(f, f.comps[scan[i]]) && x < WidthInBlocks(f, f.comps[scan[i]])
    ensures |img[scan[i]]| > y && |img[scan[i]][y]| > x && BlockAt(f, scan, img, i, y, x) == img[scan[i]][y][x]
  {
    hide WidthInBlocks, HeightInBlocks, TotalRows, McusAcross;
    Geometry(f, f.comps[scan[i]]);
  }
}
