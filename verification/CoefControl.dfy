/** The coefficient controllers: compress_data, compress_first_pass and
    compress_output of jccoefct.c, and the transcoder's compress_output of
    jctrans.c. All of them feed the entropy coder the same MCUs. */
module CoefControl {
  import opened Arith
  import opened ZigzagOrder
  import opened CoefGeometry
  import CoefPlaces
  import H = HuffEntropy
  import SeqEncoder
  import SeqScan

  /** Where the blocks of an MCU come from: transformed on the fly, from the
      padded coefficient buffer, or from unpadded arrays. */
  datatype Kind = SinglePass | FirstPass | Output | Transcode

  // ----- What the loops count -----

  lemma RowPartStep(f: Frame, scan: seq<nat>, img: seq<Plane>, i: nat, y: nat, col: nat, n: nat, front: seq<Block>)
    requires ScanOk(f, scan) && ImageOk(f, img) && i < |scan|
    ensures front + RowPart(f, scan, img, i, y, col, n + 1) ==
      (front + RowPart(f, scan, img, i, y, col, n)) +
        [BlockAt(f, scan, img, i, y, Setup(f, scan, i).mcuWidth * col + n)]
  {
    hide BlockAt;
    var a, b := RowPart(f, scan, img, i, y, col, n),
      [BlockAt(f, scan, img, i, y, Setup(f, scan, i).mcuWidth * col + n)];
    assert front + (a + b) == (front + a) + b;
  }

  lemma RowsPartStep(f: Frame, scan: seq<nat>, img: seq<Plane>, i: nat, y0: nat, col: nat, n: nat, front: seq<Block>)
    requires ScanOk(f, scan) && ImageOk(f, img) && i < |scan|
    ensures front + RowsPart(f, scan, img, i, y0, col, n + 1) ==
      (front + RowsPart(f, scan, img, i, y0, col, n)) +
        RowPart(f, scan, img, i, y0 + n, col, Setup(f, scan, i).mcuWidth)
  {
    hide RowPart;
    var a, b := RowsPart(f, scan, img, i, y0, col, n),
      RowPart(f, scan, img, i, y0 + n, col, Setup(f, scan, i).mcuWidth);
    assert front + (a + b) == (front + a) + b;
  }

  /** Which rows of an MCU are real: the test both controllers make. */
  lemma RealRow(f: Frame, scan: seq<nat>, i: nat, r: nat, yoff: nat, yi: nat)
    requires ScanOk(f, scan) && i < |scan| && r < TotalRows(f) && yoff < RowsIn(f, scan, r)
    requires yi < Setup(f, scan, i).mcuHeight
    ensures var c := f.comps[scan[i]];
      (r + 1 < TotalRows(f) || yoff + yi < Setup(f, scan, i).lastRowHeight) <==>
        c.v * r + yoff + yi < HeightInBlocks(f, c)
    ensures yoff + yi < f.comps[scan[i]].v
    ensures yi == 0 ==> f.comps[scan[i]].v * r + yoff < HeightInBlocks(f, f.comps[scan[i]])
  {
    hide HeightInBlocks, WidthInBlocks, TotalRows, McusAcross, LastOf;
    var c := f.comps[scan[i]];
    Geometry(f, c);
    if r + 1 < TotalRows(f) {
      MulMono(c.v, r + 1, TotalRows(f) - 1);
      assert c.v * (r + 1) == c.v * r + c.v;
    } else {
      assert r == TotalRows(f) - 1;
    }
  }

  /** Which columns of an MCU are real. */
  lemma RealColumn(f: Frame, scan: seq<nat>, i: nat, col: nat, xi: nat)
    requires ScanOk(f, scan) && i < |scan| && col < McusPerRow(f, scan) && xi < Setup(f, scan, i).mcuWidth
    ensures var s, c := Setup(f, scan, i), f.comps[scan[i]];
      xi < (if col + 1 < McusPerRow(f, scan) then s.mcuWidth else s.lastColWidth) <==>
        s.mcuWidth * col + xi < WidthInBlocks(f, c)
  {
    hide HeightInBlocks, WidthInBlocks, TotalRows, McusAcross, LastOf;
    var c := f.comps[scan[i]];
    Geometry(f, c);
    if |scan| > 1 {
      if col + 1 < McusAcross(f) {
        MulMono(c.h, col + 1, McusAcross(f) - 1);
        assert c.h * (col + 1) == c.h * col + c.h;
      } else {
        assert col == McusAcross(f) - 1;
      }
    }
  }

  /** A real block. */
  lemma RealBlock(f: Frame, scan: seq<nat>, img: seq<Plane>, i: nat, y: nat, x: nat)
    requires ScanOk(f, scan) && ImageOk(f, img) && i < |scan|
    requires y < HeightInBlocks(f, f.comps[scan[i]]) && x < WidthInBlocks(f, f.comps[scan[i]])
    ensures scan[i] < |img| && y < |img[scan[i]]| && x < |img[scan[i]][y]|
    ensures BlockAt(f, scan, img, i, y, x) == img[scan[i]][y][x]
  {
    hide HeightInBlocks, WidthInBlocks, MaxH, MaxV;
  }

  /** A dummy block at the right edge repeats its left neighbour. */
  lemma RightDummy(f: Frame, scan: seq<nat>, img: seq<Plane>, i: nat, y: nat, x: nat)
    requires ScanOk(f, scan) && ImageOk(f, img) && i < |scan|
    requires y < HeightInBlocks(f, f.comps[scan[i]]) && x >= WidthInBlocks(f, f.comps[scan[i]])
    ensures x > 0 && BlockAt(f, scan, img, i, y, x) == Dummy(BlockAt(f, scan, img, i, y, x - 1))
  {
    hide HeightInBlocks, WidthInBlocks, MaxH, MaxV;
    Geometry(f, f.comps[scan[i]]);
  }

  /** A dummy block at the bottom repeats the last block of its MCU's row above. */
  lemma BottomDummy(f: Frame, scan: seq<nat>, img: seq<Plane>, i: nat, y: nat, col: nat, xi: nat)
    requires ScanOk(f, scan) && ImageOk(f, img) && i < |scan|
    requires y >= HeightInBlocks(f, f.comps[scan[i]]) && xi < Setup(f, scan, i).mcuWidth
    ensures var w := Setup(f, scan, i).mcuWidth;
      y > 0 && BlockAt(f, scan, img, i, y, w * col + xi) == Dummy(BlockAt(f, scan, img, i, y - 1, w * col + w - 1))
  {
    hide HeightInBlocks, WidthInBlocks, MaxH, MaxV, LastOf;
    Geometry(f, f.comps[scan[i]]);
    UniqueQuotient(Setup(f, scan, i).mcuWidth * col + xi, Setup(f, scan, i).mcuWidth, col, xi);
  }

  lemma DummyOfDummy(b: Block)
    ensures Dummy(Dummy(b)) == Dummy(b)
  {
  }

  /** The last block sent for the rows of a component. */
  lemma LastOfRows(f: Frame, scan: seq<nat>, img: seq<Plane>, i: nat, y0: nat, col: nat, n: nat, front: seq<Block>)
    requires ScanOk(f, scan) && ImageOk(f, img) && i < |scan| && n > 0
    ensures var w, s := Setup(f, scan, i).mcuWidth, front + RowsPart(f, scan, img, i, y0, col, n);
      w > 0 && s != [] && s[|s| - 1] == BlockAt(f, scan, img, i, y0 + n - 1, w * col + w - 1)
  {
    hide BlockAt;
    RowsPartStep(f, scan, img, i, y0, col, n - 1, front);
    var w := Setup(f, scan, i).mcuWidth;
    RowPartStep(f, scan, img, i, y0 + n - 1, col, w - 1, front + RowsPart(f, scan, img, i, y0, col, n - 1));
  }

  // ----- The padded coefficient buffer -----

  /** A component's blocks in the buffer: as many rows and columns as the fully
      interleaved MCUs cover. */
  function Stride(f: Frame, c: Component): nat
  {
    c.h * McusAcross(f)
  }

  ghost predicate RowFilled(f: Frame, img: seq<Plane>, ci: nat, y: nat, row: seq<Block>)
    requires ImageOk(f, img) && ci < |img|
  {
    var c := f.comps[ci];
    Geometry(f, c);
    && |row| == Stride(f, c)
    && forall x :: 0 <= x < |row| ==> row[x] == Padded(img[ci], WidthInBlocks(f, c), HeightInBlocks(f, c), c.h, y, x)
  }

  /** The rows of the first r iMCU rows are filled in, for every component. */
  ghost predicate Filled(f: Frame, img: seq<Plane>, whole: seq<Plane>, r: nat)
  {
    && ImageOk(f, img) && |whole| == |img|
    && forall ci :: 0 <= ci < |img| ==> PlaneFilled(f, img, ci, whole[ci], f.comps[ci].v * r)
  }

  /** The first n block rows of a component. */
  ghost predicate PlaneFilled(f: Frame, img: seq<Plane>, ci: nat, plane: Plane, n: int)
    requires ImageOk(f, img) && ci < |img|
  {
    0 <= n <= |plane| && forall y :: 0 <= y < n ==> RowFilled(f, img, ci, y, plane[y])
  }

  lemma OneMoreRow(f: Frame, img: seq<Plane>, ci: nat, plane: Plane, row: seq<Block>)
    requires ImageOk(f, img) && ci < |img| && PlaneFilled(f, img, ci, plane, |plane|)
    requires RowFilled(f, img, ci, |plane|, row)
    ensures PlaneFilled(f, img, ci, plane + [row], |plane| + 1)
  {
    hide RowFilled, ImageOk;
  }

  lemma FewerRows(f: Frame, img: seq<Plane>, ci: nat, plane: Plane, n: nat)
    requires ImageOk(f, img) && ci < |img| && PlaneFilled(f, img, ci, plane, n)
    ensures PlaneFilled(f, img, ci, plane[..n], n) && |plane[..n]| == n
  {
    hide RowFilled, ImageOk;
  }

  lemma RowIn(f: Frame, img: seq<Plane>, ci: nat, plane: Plane, n: int, y: nat)
    requires ImageOk(f, img) && ci < |img| && PlaneFilled(f, img, ci, plane, n) && y < n
    ensures y < |plane| && RowFilled(f, img, ci, y, plane[y])
  {
    hide RowFilled, ImageOk;
  }

  lemma {:induction false} RightPadding(p: Plane, w: nat, h: nat, mw: nat, y: nat, x: nat)
    requires PlaneOk(p, w, h) && w > 0 && h > 0 && mw > 0 && y < h && x >= w
    ensures Padded(p, w, h, mw, y, x) == Dummy(p[y][w - 1])
    decreases x
  {
    if x > w {
      RightPadding(p, w, h, mw, y, x - 1);
      DummyOfDummy(p[y][w - 1]);
    }
  }

  /** A real block row with its dummy blocks at the right edge. */
  method FillRealRow(f: Frame, img: seq<Plane>, ci: nat, y: nat) returns (row: seq<Block>)
    requires ImageOk(f, img) && ci < |img| && y < HeightInBlocks(f, f.comps[ci])
    ensures RowFilled(f, img, ci, y, row)
  {
    hide WidthInBlocks, HeightInBlocks, McusAcross, TotalRows;
    var c := f.comps[ci];
    Geometry(f, c);
    var w := WidthInBlocks(f, c);
    ghost var h := HeightInBlocks(f, c);
    var ndummy := w % c.h;
    if ndummy > 0 {
      ndummy := c.h - ndummy;
    }
    row := img[ci][y];
    var last := row[w - 1];
    for bi := 0 to ndummy
      invariant |row| == w + bi
      invariant forall x :: 0 <= x < |row| ==> row[x] == Padded(img[ci], w, h, c.h, y, x)
    {
      RightPadding(img[ci], w, h, c.h, y, w + bi);
      row := row + [Dummy(last)];
    }
    DummyCount(w, c.h, McusAcross(f));
  }

  lemma DummyCount(w: nat, h: nat, m: nat)
    requires h > 0 && m > 0 && LastOf(w, h) == w - h * (m - 1)
    ensures w + (if w % h > 0 then h - w % h else 0) == h * m
  {
    assert h * m == h * (m - 1) + h;
  }

  /** A dummy block row at the bottom: each MCU repeats the last block of its row
      above. */
  method FillDummyRow(f: Frame, ghost img: seq<Plane>, ci: nat, ghost y: nat, above: seq<Block>)
    returns (row: seq<Block>)
    requires ImageOk(f, img) && ci < |img| && y > 0 && y >= HeightInBlocks(f, f.comps[ci])
    requires RowFilled(f, img, ci, y - 1, above)
    ensures RowFilled(f, img, ci, y, row)
  {
    hide WidthInBlocks, HeightInBlocks, McusAcross, TotalRows;
    var c := f.comps[ci];
    Geometry(f, c);
    row := [];
    for mcuIndex := 0 to McusAcross(f)
      invariant |row| == c.h * mcuIndex
      invariant forall x :: 0 <= x < |row| ==>
        row[x] == Padded(img[ci], WidthInBlocks(f, c), HeightInBlocks(f, c), c.h, y, x)
    {
      MulMono(c.h, mcuIndex + 1, McusAcross(f));
      assert c.h * (mcuIndex + 1) == c.h * mcuIndex + c.h;
      var last := above[c.h * mcuIndex + c.h - 1];
      for bi := 0 to c.h
        invariant |row| == c.h * mcuIndex + bi
        invariant forall x :: 0 <= x < |row| ==>
          row[x] == Padded(img[ci], WidthInBlocks(f, c), HeightInBlocks(f, c), c.h, y, x)
      {
        UniqueQuotient(c.h * mcuIndex + bi, c.h, mcuIndex, bi);
        row := row + [Dummy(last)];
      }
    }
  }

  /** Real block rows up to row n. */
  method FillRealRows(f: Frame, img: seq<Plane>, ci: nat, plane: Plane, n: nat) returns (after: Plane)
    requires ImageOk(f, img) && ci < |img| && |plane| <= n <= HeightInBlocks(f, f.comps[ci])
    requires PlaneFilled(f, img, ci, plane, |plane|)
    ensures |after| == n && PlaneFilled(f, img, ci, after, n)
  {
    hide HeightInBlocks, RowFilled, PlaneFilled, ImageOk;
    after := plane;
    for blockRow := |plane| to n
      invariant |after| == blockRow && PlaneFilled(f, img, ci, after, |after|)
    {
      var row := FillRealRow(f, img, ci, blockRow);
      OneMoreRow(f, img, ci, after, row);
      after := after + [row];
    }
  }

  /** Dummy block rows up to row n. */
  method FillDummyRows(f: Frame, img: seq<Plane>, ci: nat, plane: Plane, n: nat) returns (after: Plane)
    requires ImageOk(f, img) && ci < |img| && 0 < |plane| <= n && HeightInBlocks(f, f.comps[ci]) <= |plane|
    requires PlaneFilled(f, img, ci, plane, |plane|)
    ensures |after| == n && PlaneFilled(f, img, ci, after, n)
  {
    hide HeightInBlocks, RowFilled, PlaneFilled, ImageOk;
    after := plane;
    for blockRow := |plane| to n
      invariant |after| == blockRow && PlaneFilled(f, img, ci, after, |after|)
    {
      RowIn(f, img, ci, after, |after|, blockRow - 1);
      var row := FillDummyRow(f, img, ci, blockRow, after[blockRow - 1]);
      OneMoreRow(f, img, ci, after, row);
      after := after + [row];
    }
  }

  /** One component's block rows of iMCU row r, behind those of earlier rows. */
  method FillComponent(f: Frame, img: seq<Plane>, ci: nat, r: nat, plane: Plane) returns (after: Plane)
    requires ImageOk(f, img) && ci < |img| && r < TotalRows(f) && PlaneFilled(f, img, ci, plane, f.comps[ci].v * r)
    ensures PlaneFilled(f, img, ci, after, f.comps[ci].v * (r + 1))
  {
    var n := FirstRow(f.comps[ci].v, r);
    after := FillFrom(f, img, ci, r, plane, n);
  }

  method FillFrom(f: Frame, img: seq<Plane>, ci: nat, r: nat, plane: Plane, n: nat) returns (after: Plane)
    requires ImageOk(f, img) && ci < |img| && r < TotalRows(f) && n == FirstRow(f.comps[ci].v, r)
    requires PlaneFilled(f, img, ci, plane, n)
    ensures PlaneFilled(f, img, ci, after, n + f.comps[ci].v)
  {
    hide WidthInBlocks, HeightInBlocks, McusAcross, TotalRows, RowFilled, PlaneFilled, LastOf, ImageOk, FirstRow;
    FrameOfImage(f, img);
    RowsOfLast(f, f.comps[ci], r);
    var blockRows: nat := BlockRows(f, f.comps[ci], r);
    EnoughRows(f, img, ci, plane, n);
    FewerRows(f, img, ci, plane, n);
    after := FillRealRows(f, img, ci, plane[..n], n + blockRows);
    if r + 1 == TotalRows(f) {
      after := FillDummyRows(f, img, ci, after, n + f.comps[ci].v);
    }
  }

  /** How many block rows of iMCU row r are real. */
  function BlockRows(f: Frame, c: Component, r: nat): (n: nat)
    requires c.v > 0
    ensures 1 <= n <= c.v
  {
    if r + 1 < TotalRows(f) then c.v else LastOf(HeightInBlocks(f, c), c.v)
  }

  /** The first block row of iMCU row r. */
  function FirstRow(v: nat, r: nat): (n: nat)
    ensures n == v * r && n + v == v * (r + 1)
  {
    ProductNonNegative(v, r);
    v * r
  }

  lemma ProductNonNegative(a: nat, b: nat)
    ensures a * b >= 0
  {
  }

  lemma EnoughRows(f: Frame, img: seq<Plane>, ci: nat, plane: Plane, n: int)
    requires ImageOk(f, img) && ci < |img| && PlaneFilled(f, img, ci, plane, n)
    ensures 0 <= n <= |plane|
  {
  }

  lemma FrameOfImage(f: Frame, img: seq<Plane>)
    requires ImageOk(f, img)
    ensures FrameOk(f) && |img| == |f.comps|
  {
  }

  /** The real rows end with the component. */
  lemma RowsOfLast(f: Frame, c: Component, r: nat)
    requires FrameOk(f) && c in f.comps && r < TotalRows(f)
    ensures c.v > 0 && FirstRow(c.v, r) + BlockRows(f, c, r) <= HeightInBlocks(f, c)
    ensures r + 1 == TotalRows(f) ==> FirstRow(c.v, r) + BlockRows(f, c, r) == HeightInBlocks(f, c)
    ensures r + 1 < TotalRows(f) ==> BlockRows(f, c, r) == c.v
  {
    hide HeightInBlocks, WidthInBlocks, McusAcross, TotalRows, LastOf;
    Geometry(f, c);
    if r + 1 < TotalRows(f) {
      MulMono(c.v, r + 1, TotalRows(f) - 1);
      assert c.v * (r + 1) == c.v * r + c.v;
    } else {
      assert r == TotalRows(f) - 1;
    }
  }

  /** The first part of compress_first_pass: every component of the frame, whether
      or not it is in the scan. */
  method FillIMcuRow(f: Frame, img: seq<Plane>, r: nat, whole: seq<Plane>) returns (after: seq<Plane>)
    requires r < TotalRows(f) && Filled(f, img, whole, r)
    ensures Filled(f, img, after, r + 1)
  {
    hide WidthInBlocks, HeightInBlocks, McusAcross, TotalRows, RowFilled, PlaneFilled;
    after := [];
    for ci := 0 to |img|
      invariant |after| == ci
      invariant forall k :: 0 <= k < ci ==> PlaneFilled(f, img, k, after[k], f.comps[k].v * (r + 1))
    {
      var plane := FillComponent(f, img, ci, r, whole[ci]);
      after := after + [plane];
    }
  }

  /** A block of the buffer is what the scan sends there. */
  lemma BufferedBlock(f: Frame, scan: seq<nat>, img: seq<Plane>, whole: seq<Plane>, r: nat, i: nat, yoff: nat, yi: nat,
                      col: nat, xi: nat)
    requires ScanOk(f, scan) && Filled(f, img, whole, r + 1) && i < |scan| && r < TotalRows(f)
    requires yoff < RowsIn(f, scan, r) && yi < Setup(f, scan, i).mcuHeight
    requires col < McusPerRow(f, scan) && xi < Setup(f, scan, i).mcuWidth
    ensures
      var ci := scan[i];
      var y, x := FirstRow(f.comps[ci].v, r) + yoff + yi, FirstRow(Setup(f, scan, i).mcuWidth, col) + xi;
      ci < |whole| && y < |whole[ci]| && x < |whole[ci][y]| && whole[ci][y][x] == BlockAt(f, scan, img, i, y, x)
  {
    hide WidthInBlocks, HeightInBlocks, McusAcross, TotalRows, LastOf, Padded, ImageOk, RowFilled, PlaneFilled, BlockAt,
      Setup;
    var ci := scan[i];
    var c := f.comps[ci];
    FrameOfImage(f, img);
    RealRow(f, scan, i, r, yoff, yi);
    var n := FirstRow(c.v, r);
    var y, x := n + yoff + yi, Setup(f, scan, i).mcuWidth * col + xi;
    RowIn(f, img, ci, whole[ci], c.v * (r + 1), y);
    ColumnIn(f, scan, i, col, xi);
    FilledBlock(f, scan, img, i, y, x, whole[ci][y]);
    if |scan| == 1 {
      SingleInside(f, scan, r, yoff, col);
      SingleBlock(f, scan, img, y, x);
    } else {
      InterleavedBlock(f, scan, img, i, y, x);
    }
  }

  lemma ColumnIn(f: Frame, scan: seq<nat>, i: nat, col: nat, xi: nat)
    requires ScanOk(f, scan) && i < |scan| && col < McusPerRow(f, scan) && xi < Setup(f, scan, i).mcuWidth
    ensures 0 <= Setup(f, scan, i).mcuWidth * col + xi < Stride(f, f.comps[scan[i]])
    ensures |scan| == 1 ==> Setup(f, scan, i).mcuWidth * col + xi == col && Setup(f, scan, i).mcuHeight == 1
  {
    hide WidthInBlocks, HeightInBlocks, McusAcross, LastOf;
    var c := f.comps[scan[i]];
    Geometry(f, c);
    if |scan| > 1 {
      MulMono(c.h, col + 1, McusAcross(f));
      assert c.h * (col + 1) == c.h * col + c.h;
    }
  }

  /** A block of the frame's padding, on the MCU grid of an interleaved scan. */
  ghost function GridBlock(f: Frame, img: seq<Plane>, ci: nat, y: nat, x: nat): Block
    requires ImageOk(f, img) && ci < |img|
  {
    var c := f.comps[ci];
    Geometry(f, c);
    Padded(img[ci], WidthInBlocks(f, c), HeightInBlocks(f, c), c.h, y, x)
  }

  lemma FilledBlock(f: Frame, scan: seq<nat>, img: seq<Plane>, i: nat, y: nat, x: nat, row: seq<Block>)
    requires ScanOk(f, scan) && ImageOk(f, img) && i < |scan| && scan[i] < |img|
    requires RowFilled(f, img, scan[i], y, row) && x < Stride(f, f.comps[scan[i]])
    ensures x < |row| && row[x] == GridBlock(f, img, scan[i], y, x)
  {
  }

  lemma SingleBlock(f: Frame, scan: seq<nat>, img: seq<Plane>, y: nat, x: nat)
    requires ScanOk(f, scan) && ImageOk(f, img) && |scan| == 1 && scan[0] < |img|
    requires y < HeightInBlocks(f, f.comps[scan[0]]) && x < WidthInBlocks(f, f.comps[scan[0]])
    ensures BlockAt(f, scan, img, 0, y, x) == GridBlock(f, img, scan[0], y, x)
  {
    hide WidthInBlocks, HeightInBlocks;
  }

  lemma InterleavedBlock(f: Frame, scan: seq<nat>, img: seq<Plane>, i: nat, y: nat, x: nat)
    requires ScanOk(f, scan) && ImageOk(f, img) && i < |scan| && |scan| > 1 && scan[i] < |img|
    ensures BlockAt(f, scan, img, i, y, x) == GridBlock(f, img, scan[i], y, x)
  {
    hide Padded;
  }

  lemma SingleInside(f: Frame, scan: seq<nat>, r: nat, yoff: nat, col: nat)
    requires ScanOk(f, scan) && |scan| == 1 && r < TotalRows(f) && yoff < RowsIn(f, scan, r)
    requires col < McusPerRow(f, scan)
    ensures f.comps[scan[0]].v * r + yoff < HeightInBlocks(f, f.comps[scan[0]])
    ensures col < WidthInBlocks(f, f.comps[scan[0]])
  {
    SingleIsReal(f, scan, Place(r, yoff, col, 0, 0));
  }

  // ----- Building an MCU -----

  /** An MCU under construction: component i is complete up to row yi. */
  ghost predicate RowsSoFar(f: Frame, scan: seq<nat>, img: seq<Plane>, i: nat, y0: nat, col: nat, yi: nat,
                            front: seq<Block>, mcu: seq<Block>)
    requires ScanOk(f, scan) && ImageOk(f, img) && i < |scan|
  {
    mcu == front + RowsPart(f, scan, img, i, y0, col, yi)
  }

  /** What a dummy block repeats is the block before it in the MCU. */
  lemma NextDummy(f: Frame, scan: seq<nat>, img: seq<Plane>, i: nat, y0: nat, yi: nat, col: nat, xi: nat,
                  front: seq<Block>, mcu: seq<Block>)
    requires ScanOk(f, scan) && ImageOk(f, img) && i < |scan| && xi < Setup(f, scan, i).mcuWidth
    requires RowsSoFar(f, scan, img, i, y0, col, yi, front, mcu)
    requires var y, x, c := y0 + yi, Setup(f, scan, i).mcuWidth * col + xi, f.comps[scan[i]];
      if y < HeightInBlocks(f, c) then xi > 0 && x >= WidthInBlocks(f, c) else yi > 0
    ensures var s := mcu + RowPart(f, scan, img, i, y0 + yi, col, xi);
      s != [] && BlockAt(f, scan, img, i, y0 + yi, Setup(f, scan, i).mcuWidth * col + xi) == Dummy(s[|s| - 1])
  {
    hide BlockAt, HeightInBlocks, WidthInBlocks, Setup;
    var y := y0 + yi;
    var w := Setup(f, scan, i).mcuWidth;
    if xi > 0 {
      RowPartStep(f, scan, img, i, y, col, xi - 1, mcu);
    }
    if y < HeightInBlocks(f, f.comps[scan[i]]) {
      RightDummy(f, scan, img, i, y, w * col + xi);
    } else {
      BottomDummy(f, scan, img, i, y, col, xi);
      LastOfRows(f, scan, img, i, y0, col, yi, front);
      if xi > 0 {
        BottomDummy(f, scan, img, i, y, col, xi - 1);
        DummyOfDummy(BlockAt(f, scan, img, i, y - 1, w * col + w - 1));
      }
    }
  }

  /** The blocks forward_DCT makes, or the array holds, in one block row. */
  method AppendReal(f: Frame, scan: seq<nat>, img: seq<Plane>, i: nat, y: nat, col: nat, blockcnt: nat, mcu: seq<Block>)
    returns (after: seq<Block>)
    requires ScanOk(f, scan) && ImageOk(f, img) && i < |scan| && y < HeightInBlocks(f, f.comps[scan[i]])
    requires blockcnt > 0 ==> Setup(f, scan, i).mcuWidth * col + blockcnt <= WidthInBlocks(f, f.comps[scan[i]])
    ensures after == mcu + RowPart(f, scan, img, i, y, col, blockcnt)
  {
    hide BlockAt, HeightInBlocks, WidthInBlocks, Setup;
    after := mcu;
    var x0: nat := FirstRow(Setup(f, scan, i).mcuWidth, col);
    for xi := 0 to blockcnt
      invariant after == mcu + RowPart(f, scan, img, i, y, col, xi)
    {
      RealBlock(f, scan, img, i, y, x0 + xi);
      RowPartStep(f, scan, img, i, y, col, xi, mcu);
      after := after + [img[scan[i]][y][x0 + xi]];
    }
  }

  /** One block row of an MCU, its dummy blocks made on the fly. The transcoder
      repeats the block just sent; the single-pass controller does so at the
      right edge, and at the bottom repeats the last block of the row above. */
  method AppendRow(f: Frame, scan: seq<nat>, img: seq<Plane>, kind: Kind, i: nat, r: nat, yoff: nat, yi: nat, col: nat,
                   ghost front: seq<Block>, mcu: seq<Block>)
    returns (after: seq<Block>)
    requires ScanOk(f, scan) && ImageOk(f, img) && i < |scan| && r < TotalRows(f) && yoff < RowsIn(f, scan, r)
    requires yi < Setup(f, scan, i).mcuHeight && col < McusPerRow(f, scan)
    requires RowsSoFar(f, scan, img, i, FirstRow(f.comps[scan[i]].v, r) + yoff, col, yi, front, mcu)
    ensures RowsSoFar(f, scan, img, i, FirstRow(f.comps[scan[i]].v, r) + yoff, col, yi + 1, front, after)
  {
    hide BlockAt, HeightInBlocks, WidthInBlocks, TotalRows, FirstRow, McusPerRow, RowsIn, RowPart, RowsPart, Setup,
      RowsSoFar;
    var s := Setup(f, scan, i);
    ghost var y0 := FirstRow(f.comps[scan[i]].v, r) + yoff;
    var y := FirstRow(f.comps[scan[i]].v, r) + yoff + yi;
    RealRow(f, scan, i, r, yoff, yi);
    RealWidth(f, scan, i, col);
    NoBlocks(f, scan, img, i, y, col, mcu);
    after := mcu;
    var xi: nat := 0;
    var inside := r + 1 < TotalRows(f) || yoff + yi < s.lastRowHeight;
    if inside {
      xi := if col + 1 < McusPerRow(f, scan) then s.mcuWidth else s.lastColWidth;
      after := AppendReal(f, scan, img, i, y, col, xi, mcu);
    } else {
      NextDummy(f, scan, img, i, y0, yi, col, 0, front, mcu);
    }
    ghost var first := xi;
    while xi < s.mcuWidth
      invariant first <= xi <= s.mcuWidth && after == mcu + RowPart(f, scan, img, i, y, col, xi)
      invariant !inside && xi > 0 ==> mcu != [] && after != [] && after[|after| - 1] == Dummy(mcu[|mcu| - 1])
    {
      if inside {
        RealColumn(f, scan, i, col, xi);
      }
      NextDummy(f, scan, img, i, y0, yi, col, xi, front, mcu);
      RowPartStep(f, scan, img, i, y, col, xi, mcu);
      var like := if kind == SinglePass && !inside then mcu[|mcu| - 1] else after[|after| - 1];
      DummyOfDummy(like);
      after := after + [Dummy(like)];
      xi := xi + 1;
    }
    RowDone(f, scan, img, i, y0, col, yi, front, mcu, after);
  }

  lemma NoBlocks(f: Frame, scan: seq<nat>, img: seq<Plane>, i: nat, y: nat, col: nat, mcu: seq<Block>)
    requires ScanOk(f, scan) && ImageOk(f, img) && i < |scan|
    ensures mcu + RowPart(f, scan, img, i, y, col, 0) == mcu
  {
  }

  lemma RowDone(f: Frame, scan: seq<nat>, img: seq<Plane>, i: nat, y0: nat, col: nat, yi: nat, front: seq<Block>,
                mcu: seq<Block>, after: seq<Block>)
    requires ScanOk(f, scan) && ImageOk(f, img) && i < |scan|
    requires RowsSoFar(f, scan, img, i, y0, col, yi, front, mcu)
    requires after == mcu + RowPart(f, scan, img, i, y0 + yi, col, Setup(f, scan, i).mcuWidth)
    ensures RowsSoFar(f, scan, img, i, y0, col, yi + 1, front, after)
  {
    hide RowsPart, RowPart, Setup;
    RowsPartStep(f, scan, img, i, y0, col, yi, front);
  }

  /** How many blocks of an MCU row are real in a column. */
  lemma RealWidth(f: Frame, scan: seq<nat>, i: nat, col: nat)
    requires ScanOk(f, scan) && i < |scan| && col < McusPerRow(f, scan)
    ensures var s := Setup(f, scan, i);
      var n := if col + 1 < McusPerRow(f, scan) then s.mcuWidth else s.lastColWidth;
      1 <= n <= s.mcuWidth && s.mcuWidth * col + n <= WidthInBlocks(f, f.comps[scan[i]])
  {
    hide HeightInBlocks, WidthInBlocks, McusPerRow, LastOf;
    var s := Setup(f, scan, i);
    var n := if col + 1 < McusPerRow(f, scan) then s.mcuWidth else s.lastColWidth;
    RealColumn(f, scan, i, col, n - 1);
  }

  /** One block row of an MCU from the padded buffer. */
  method AppendBuffered(f: Frame, scan: seq<nat>, ghost img: seq<Plane>, whole: seq<Plane>, i: nat, r: nat, yoff: nat,
                        yi: nat, col: nat,
                        ghost front: seq<Block>, mcu: seq<Block>)
    returns (after: seq<Block>)
    requires ScanOk(f, scan) && Filled(f, img, whole, r + 1) && i < |scan| && r < TotalRows(f)
    requires yoff < RowsIn(f, scan, r)
    requires yi < Setup(f, scan, i).mcuHeight && col < McusPerRow(f, scan)
    requires RowsSoFar(f, scan, img, i, FirstRow(f.comps[scan[i]].v, r) + yoff, col, yi, front, mcu)
    ensures RowsSoFar(f, scan, img, i, FirstRow(f.comps[scan[i]].v, r) + yoff, col, yi + 1, front, after)
  {
    hide BlockAt, HeightInBlocks, WidthInBlocks, TotalRows, FirstRow, McusPerRow, RowsIn, RowPart, RowsPart, Setup,
      RowsSoFar, PlaneFilled, ImageOk;
    var y := FirstRow(f.comps[scan[i]].v, r) + yoff + yi;
    var x0 := FirstRow(Setup(f, scan, i).mcuWidth, col);
    NoBlocks(f, scan, img, i, y, col, mcu);
    after := mcu;
    for xi := 0 to Setup(f, scan, i).mcuWidth
      invariant after == mcu + RowPart(f, scan, img, i, y, col, xi)
    {
      BufferedBlock(f, scan, img, whole, r, i, yoff, yi, col, xi);
      RowPartStep(f, scan, img, i, y, col, xi, mcu);
      StartAt(f.comps[scan[i]].v, r);
      StartAt(Setup(f, scan, i).mcuWidth, col);
      after := after + [whole[scan[i]][y][x0 + xi]];
    }
    RowDone(f, scan, img, i, FirstRow(f.comps[scan[i]].v, r) + yoff, col, yi, front, mcu, after);
  }

  lemma StartAt(v: nat, r: nat)
    ensures FirstRow(v, r) == v * r
  {
  }

  /** All components of an MCU. */
  method BuildMcu(f: Frame, scan: seq<nat>, img: seq<Plane>, whole: seq<Plane>, kind: Kind, r: nat, yoff: nat, col: nat)
    returns (mcu: seq<Block>)
    requires ScanOk(f, scan) && ImageOk(f, img) && r < TotalRows(f) && yoff < RowsIn(f, scan, r)
    requires col < McusPerRow(f, scan)
    requires kind == FirstPass || kind == Output ==> Filled(f, img, whole, r + 1)
    ensures mcu == McuAt(f, scan, img, r, yoff, col)
  {
    hide HeightInBlocks, WidthInBlocks, TotalRows, FirstRow, McusPerRow, RowsIn, RowsPart, Setup, RowsSoFar, Filled;
    mcu := [];
    for ci := 0 to |scan|
      invariant mcu == McuPart(f, scan, img, r, yoff, col, ci)
    {
      ghost var front := mcu;
      NoRows(f, scan, img, ci, FirstRow(f.comps[scan[ci]].v, r) + yoff, col, front);
      for yindex := 0 to Setup(f, scan, ci).mcuHeight
        invariant RowsSoFar(f, scan, img, ci, FirstRow(f.comps[scan[ci]].v, r) + yoff, col, yindex, front, mcu)
      {
        if kind == FirstPass || kind == Output {
          mcu := AppendBuffered(f, scan, img, whole, ci, r, yoff, yindex, col, front, mcu);
        } else {
          mcu := AppendRow(f, scan, img, kind, ci, r, yoff, yindex, col, front, mcu);
        }
      }
      ComponentDone(f, scan, img, r, yoff, col, ci, front, mcu);
    }
  }

  lemma NoRows(f: Frame, scan: seq<nat>, img: seq<Plane>, i: nat, y0: nat, col: nat, front: seq<Block>)
    requires ScanOk(f, scan) && ImageOk(f, img) && i < |scan|
    ensures RowsSoFar(f, scan, img, i, y0, col, 0, front, front)
  {
  }

  lemma ComponentDone(f: Frame, scan: seq<nat>, img: seq<Plane>, r: nat, yoff: nat, col: nat, i: nat, front: seq<Block>,
                      mcu: seq<Block>)
    requires ScanOk(f, scan) && ImageOk(f, img) && i < |scan| && front == McuPart(f, scan, img, r, yoff, col, i)
    requires RowsSoFar(f, scan, img, i, FirstRow(f.comps[scan[i]].v, r) + yoff, col,
                       Setup(f, scan, i).mcuHeight, front, mcu)
    ensures mcu == McuPart(f, scan, img, r, yoff, col, i + 1)
  {
    hide RowsPart, Setup;
  }

  // ----- The controllers -----

  lemma NextMcu(f: Frame, scan: seq<nat>, img: seq<Plane>, r: nat, yoff: nat, col: nat)
    requires ScanOk(f, scan) && ImageOk(f, img)
    ensures Before(f, scan, img, r, yoff, col + 1) ==
      Before(f, scan, img, r, yoff, col) + [McuAt(f, scan, img, r, yoff, col)]
  {
    hide McuAt;
  }

  lemma McuLength(f: Frame, scan: seq<nat>, img: seq<Plane>, r: nat, yoff: nat, col: nat)
    requires ScanOk(f, scan) && ImageOk(f, img)
    ensures |McuAt(f, scan, img, r, yoff, col)| == CoefPlaces.Offset(f, scan, |scan|)
  {
    CoefPlaces.PartLength(f, scan, img, r, yoff, col, |scan|);
  }

  /** At the end of an MCU row, and of an iMCU row, the next one begins. */
  lemma NextRow(f: Frame, scan: seq<nat>, img: seq<Plane>, r: nat, yoff: nat)
    requires ScanOk(f, scan) && ImageOk(f, img)
    ensures Before(f, scan, img, r, yoff, McusPerRow(f, scan)) == Before(f, scan, img, r, yoff + 1, 0)
    ensures Before(f, scan, img, r, RowsIn(f, scan, r), 0) == Before(f, scan, img, r + 1, 0, 0)
  {
    hide McuAt, RowsIn, McusPerRow;
  }

  lemma SomeMcus(f: Frame, scan: seq<nat>, r: nat)
    requires ScanOk(f, scan)
    ensures McusPerRow(f, scan) > 0 && TotalRows(f) > 0 && RowsIn(f, scan, r) > 0
  {
    hide HeightInBlocks, WidthInBlocks, TotalRows, McusAcross, LastOf;
    Geometry(f, f.comps[scan[0]]);
  }

  lemma FewerFilled(f: Frame, img: seq<Plane>, whole: seq<Plane>, r: nat, r': nat)
    requires Filled(f, img, whole, r) && r' <= r
    ensures Filled(f, img, whole, r')
  {
    hide RowFilled, ImageOk;
    FrameOfImage(f, img);
    forall ci | 0 <= ci < |img|
      ensures PlaneFilled(f, img, ci, whole[ci], f.comps[ci].v * r')
    {
      MulMono(f.comps[ci].v, r', r);
      ProductNonNegative(f.comps[ci].v, r');
    }
  }

  lemma NothingFilled(f: Frame, img: seq<Plane>, whole: seq<Plane>)
    requires ImageOk(f, img) && |whole| == |img|
    ensures Filled(f, img, whole, 0)
  {
    hide RowFilled;
  }

  /** What the Huffman coder has written and where it stands, after these MCUs. */
  ghost predicate CodedAll(sc: SeqScan.Scan, base: seq<nat>, mcus: seq<seq<Block>>, bytes: seq<nat>, s: SeqScan.Saved)
    requires SeqScan.AllShaped(sc, mcus)
  {
    var (run, state) := H.AfterMcus(sc, mcus);
    run.err == SeqEncoder.Ok && bytes == base + run.bytes && s == state
  }

  /** An MCU has a coefficient out of range or a symbol without a code. */
  ghost predicate CannotCode(sc: SeqScan.Scan, s: SeqScan.Saved, mcu: seq<Block>)
  {
    SeqScan.Shaped(sc, s.dc, mcu) && SeqScan.McuRun(sc, s, mcu).err != SeqEncoder.Ok
  }

  class Controller {
    const f: Frame
    const scan: seq<nat>
    const kind: Kind
    const img: seq<Plane>        // what forward_DCT yields, or the arrays hold
    const e: H.Encoder?          // the sequential Huffman coder, or null for any other coder
    ghost const base: seq<nat>   // what was written before the scan
    var whole: seq<Plane>        // the padded coefficient buffer
    var iMcuRowNum: nat
    var mcuCtr: nat
    var mcuVertOffset: nat
    var mcuRowsPerIMcuRow: nat
    var out: seq<seq<Block>>     // the MCUs the entropy coder has taken

    /** The counters name the next MCU, and exactly those before it are out. */
    ghost predicate Valid()
      reads this
    {
      && ScanOk(f, scan) && ImageOk(f, img) && iMcuRowNum <= TotalRows(f)
      && (iMcuRowNum < TotalRows(f) ==>
            && mcuRowsPerIMcuRow == RowsIn(f, scan, iMcuRowNum)
            && mcuVertOffset < mcuRowsPerIMcuRow && mcuCtr < McusPerRow(f, scan))
      && (iMcuRowNum == TotalRows(f) ==> mcuVertOffset == 0 && mcuCtr == 0)
      && out == Before(f, scan, img, iMcuRowNum, mcuVertOffset, mcuCtr)
      && (kind == FirstPass ==> Filled(f, img, whole, iMcuRowNum))
      && (kind == Output ==> Filled(f, img, whole, TotalRows(f)))
    }

    /** The Huffman coder has coded exactly the MCUs that are out. */
    ghost predicate Encoded()
      reads `out, e
    {
      && ScanOk(f, scan)
      && (e != null ==>
            && e.Valid() && |e.sc.membership| == CoefPlaces.Offset(f, scan, |scan|) && SeqScan.AllShaped(e.sc, out)
            && CodedAll(e.sc, base, out, e.out, e.State()))
    }

    /** The Huffman coder has no reason to refuse an MCU: its destination does not
        suspend, and all MCUs of the scan can be coded. */
    ghost predicate NeverRefuses()
      requires ScanOk(f, scan) && ImageOk(f, img)
    {
      && e != null && !e.suspends && SeqScan.AllShaped(e.sc, AllMcus(f, scan, img))
      && H.AfterMcus(e.sc, AllMcus(f, scan, img)).0.err == SeqEncoder.Ok
    }

    /** It refuses only for a reason. */
    lemma Refused(r: nat, yoff: nat, col: nat)
      requires Encoded() && ImageOk(f, img)
      requires r < TotalRows(f) && yoff < RowsIn(f, scan, r) && col < McusPerRow(f, scan)
      requires out == Before(f, scan, img, r, yoff, col)
      requires e != null && !e.suspends ==> CannotCode(e.sc, e.State(), McuAt(f, scan, img, r, yoff, col))
      ensures !NeverRefuses()
    {
      hide RowsIn, McusPerRow, TotalRows, McuAt, Before, ImageOk, CoefPlaces.Offset, SeqScan.McuRun, H.AfterMcus,
        ScanOk;
      var mcu := McuAt(f, scan, img, r, yoff, col);
      McuLength(f, scan, img, r, yoff, col);
      NextMcu(f, scan, img, r, yoff, col);
      if e != null {
        H.OneMoreMcu(e.sc, out, mcu);
      }
      CoefPlaces.BeforeGrows(f, scan, img, r, yoff, col + 1, TotalRows(f), 0, 0);
      if NeverRefuses() {
        H.ErrorStays(e.sc, out + [mcu], AllMcus(f, scan, img));
      }
    }

    /** start_pass_coef, the entropy coder being at its start too. */
    constructor (f: Frame, scan: seq<nat>, kind: Kind, img: seq<Plane>, whole: seq<Plane>, e: H.Encoder?)
      requires ScanOk(f, scan) && ImageOk(f, img) && (kind == FirstPass ==> |whole| == |img|)
      requires kind == Output ==> Filled(f, img, whole, TotalRows(f))
      requires e != null ==>
        e.Valid() && e.State() == SeqScan.StartScan(e.sc) && |e.sc.membership| == CoefPlaces.Offset(f, scan, |scan|)
      ensures Valid() && out == [] && iMcuRowNum == 0 && this.whole == whole
      ensures Encoded() && this.e == e && (e != null ==> base == e.out)
      ensures this.f == f && this.scan == scan && this.kind == kind && this.img == img
    {
      hide RowsIn, McusPerRow, TotalRows, Filled, RowFilled, ImageOk;
      this.f, this.scan, this.kind, this.img, this.whole, this.e := f, scan, kind, img, whole, e;
      base := if e == null then [] else e.out;
      iMcuRowNum, mcuCtr, mcuVertOffset := 0, 0, 0;
      mcuRowsPerIMcuRow := RowsIn(f, scan, 0);
      out := [];
      new;
      SomeMcus(f, scan, 0);
      if kind == FirstPass {
        NothingFilled(f, img, whole);
      }
    }

    /** start_iMCU_row. */
    method StartIMcuRow()
      requires ScanOk(f, scan)
      modifies `mcuRowsPerIMcuRow, `mcuCtr, `mcuVertOffset
      ensures mcuCtr == 0 && mcuVertOffset == 0
      ensures iMcuRowNum < TotalRows(f) ==> mcuRowsPerIMcuRow == RowsIn(f, scan, iMcuRowNum)
    {
      if |scan| > 1 {
        mcuRowsPerIMcuRow := 1;
      } else if iMcuRowNum + 1 < TotalRows(f) {
        mcuRowsPerIMcuRow := f.comps[scan[0]].v;
      } else {
        mcuRowsPerIMcuRow := Setup(f, scan, 0).lastRowHeight;
      }
      mcuCtr := 0;
      mcuVertOffset := 0;
    }

    /** One call for an iMCU row; false when the entropy coder suspends, and then
        the next call goes on with the MCU it refused. */
    method CompressData() returns (done: bool)
      requires Valid() && Encoded() && iMcuRowNum < TotalRows(f)
      modifies this, e
      ensures Valid() && Encoded() && old(out) <= out
      ensures iMcuRowNum == old(iMcuRowNum) + if done then 1 else 0
      ensures NeverRefuses() ==> done
      ensures kind == Output ==> whole == old(whole)
    {
      hide RowsIn, McusPerRow, TotalRows, Filled, RowFilled, McuAt, Before, Encoded;
      ghost var r := iMcuRowNum;
      if kind == FirstPass {
        whole := FillIMcuRow(f, img, iMcuRowNum, whole);
        FewerFilled(f, img, whole, r + 1, r);
      } else if kind == Output {
        FewerFilled(f, img, whole, TotalRows(f), r + 1);
      }
      var yoffset := mcuVertOffset;
      while yoffset < mcuRowsPerIMcuRow
        invariant Valid0(r) && Encoded() && yoffset <= mcuRowsPerIMcuRow && old(out) <= out
        invariant mcuCtr < McusPerRow(f, scan) && mcuVertOffset < mcuRowsPerIMcuRow
        invariant mcuVertOffset <= yoffset && (yoffset == mcuVertOffset || mcuCtr == 0)
        invariant out == Before(f, scan, img, r, yoffset, mcuCtr)
        invariant kind == Output ==> whole == old(whole)
        decreases mcuRowsPerIMcuRow - yoffset
      {
        done := CompressRow(yoffset, r);
        if !done {
          return;
        }
        mcuCtr := 0;
        NextRow(f, scan, img, r, yoffset);
        SomeMcus(f, scan, r);
        yoffset := yoffset + 1;
      }
      NextRow(f, scan, img, r, 0);
      iMcuRowNum := iMcuRowNum + 1;
      StartIMcuRow();
      SomeMcus(f, scan, iMcuRowNum);
      done := true;
    }

    /** What does not change while iMCU row r is being sent. */
    ghost predicate Valid0(r: nat)
      reads `iMcuRowNum, `mcuRowsPerIMcuRow, `whole
    {
      && ScanOk(f, scan) && ImageOk(f, img) && iMcuRowNum == r < TotalRows(f) && mcuRowsPerIMcuRow == RowsIn(f, scan, r)
      && (kind == FirstPass ==> Filled(f, img, whole, r + 1) && Filled(f, img, whole, r))
      && (kind == Output ==> Filled(f, img, whole, TotalRows(f)) && Filled(f, img, whole, r + 1))
    }

    /** encode_mcu of the entropy coder: it takes the MCU, or refuses it. The Huffman
        coder refuses one for which it has no room, or which it cannot code. */
    method Offer(mcu: seq<Block>) returns (taken: bool)
      requires Encoded() && |mcu| == CoefPlaces.Offset(f, scan, |scan|)
      modifies `out, e
      ensures Encoded() && out == if taken then old(out) + [mcu] else old(out)
      ensures e != null && !taken && !e.suspends ==> CannotCode(e.sc, e.State(), mcu)
    {
      hide CoefPlaces.Offset, SeqScan.McuRun, SeqScan.McuNext, H.AfterMcus, ScanOk;
      if e == null {
        taken := *;
      } else {
        H.OneMoreMcu(e.sc, out, mcu);
        var st := e.EncodeMcu(mcu);
        taken := st == SeqEncoder.Ok;
      }
      if taken {
        out := out + [mcu];
      }
    }

    /** The MCUs of one MCU row, from the saved column on. */
    method CompressRow(yoffset: nat, ghost r: nat) returns (done: bool)
      requires Valid0(r) && Encoded() && yoffset < mcuRowsPerIMcuRow && mcuCtr < McusPerRow(f, scan)
      requires out == Before(f, scan, img, r, yoffset, mcuCtr)
      modifies `out, `mcuVertOffset, `mcuCtr, e
      ensures Encoded() && old(out) <= out
      ensures done ==> out == Before(f, scan, img, r, yoffset, McusPerRow(f, scan))
      ensures done ==> mcuVertOffset == old(mcuVertOffset) && mcuCtr == old(mcuCtr)
      ensures !done ==> Valid() && !NeverRefuses()
    {
      hide RowsIn, McusPerRow, TotalRows, Filled, RowFilled, McuAt, Before, ImageOk, Encoded, CoefPlaces.Offset,
        CannotCode, NeverRefuses;
      var col := mcuCtr;
      while col < McusPerRow(f, scan)
        invariant Encoded() && mcuCtr <= col <= McusPerRow(f, scan) && old(out) <= out
        invariant out == Before(f, scan, img, r, yoffset, col) && mcuVertOffset == old(mcuVertOffset)
        invariant mcuCtr == old(mcuCtr)
        decreases McusPerRow(f, scan) - col
      {
        var mcu := BuildMcu(f, scan, img, whole, kind, iMcuRowNum, yoffset, col);
        McuLength(f, scan, img, iMcuRowNum, yoffset, col);
        var taken := Offer(mcu);
        if !taken {
          Refused(r, yoffset, col);
          mcuVertOffset := yoffset;
          mcuCtr := col;
          return false;
        }
        NextMcu(f, scan, img, r, yoffset, col);
        col := col + 1;
      }
      done := true;
    }
  }

  /** Calls until the pass is over, or as often as the application calls. However
      often the entropy coder suspends, a controller of any kind that finishes
      has sent exactly the scan's MCUs, none lost and none repeated. */
  method RunPass(c: Controller, calls: nat)
    requires c.Valid() && c.Encoded() && c.out == [] && c.iMcuRowNum == 0
    modifies c, c.e
    ensures c.Valid() && c.Encoded()
    ensures c.iMcuRowNum == TotalRows(c.f) ==> c.out == AllMcus(c.f, c.scan, c.img)
    ensures c.NeverRefuses() && calls >= TotalRows(c.f) ==> c.iMcuRowNum == TotalRows(c.f)
    ensures c.iMcuRowNum == TotalRows(c.f) && c.kind == FirstPass ==> Filled(c.f, c.img, c.whole, TotalRows(c.f))
  {
    hide TotalRows, Filled, Before, RowsIn, McusPerRow, ImageOk;
    for i := 0 to calls
      invariant c.Valid() && c.Encoded() && (c.NeverRefuses() ==> c.iMcuRowNum == TotalRows(c.f) || c.iMcuRowNum >= i)
    {
      if c.iMcuRowNum < TotalRows(c.f) {
        var done := c.CompressData();
      }
    }
  }
}
