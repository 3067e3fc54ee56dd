/** The smoothing downsamplers of jcsample.c: running column sums and fixed-point
    weights against the weighted average of a pixel and its eight neighbours. */
module Smoothing {

  /** Rows of samples; row 0 lies above the row group and the last row below it. */
  type Rows = seq<seq<nat>>

  const MAX_SMOOTHING := 100

  /** In numbers. */
  lemma Strengths(sf: nat)
    ensures sf <= MAX_SMOOTHING <==> sf <= 100
  {
  }

  // ----- What the filter should compute -----

  /** A column moved into the image. */
  function Clamp(x: int, width: nat): (c: nat)
    requires width > 0
    ensures c < width
  {
    if x < 0 then 0 else if x >= width then width - 1 else x
  }

  /** The image is `width` columns wide; beyond them its edge columns repeat. */
  ghost predicate Wide(img: Rows, width: nat)
  {
    width > 0 && forall r :: 0 <= r < |img| ==> |img[r]| >= width
  }

  function Pixel(img: Rows, width: nat, r: nat, x: int): nat
    requires r < |img| && width > 0 && |img[r]| >= width
  {
    img[r][Clamp(x, width)]
  }

  function ColSum(img: Rows, width: nat, r: nat, x: int): nat
    requires 0 < r < |img| - 1 && Wide(img, width)
  {
    Pixel(img, width, r - 1, x) + Pixel(img, width, r, x) + Pixel(img, width, r + 1, x)
  }

  /** The eight neighbours of a pixel. */
  function Neighbours(img: Rows, width: nat, r: nat, x: int): nat
    requires 0 < r < |img| - 1 && Wide(img, width)
  {
    Pixel(img, width, r - 1, x - 1) + Pixel(img, width, r - 1, x) + Pixel(img, width, r - 1, x + 1)
    + Pixel(img, width, r, x - 1) + Pixel(img, width, r, x + 1)
    + Pixel(img, width, r + 1, x - 1) + Pixel(img, width, r + 1, x) + Pixel(img, width, r + 1, x + 1)
  }

  /** The smoothed pixel, scaled by 65536: each neighbour has the share sf / 1024
      and the pixel itself the rest. */
  function Smoothed(img: Rows, width: nat, sf: nat, r: nat, x: int): int
    requires 0 < r < |img| - 1 && Wide(img, width)
  {
    Mix(Pixel(img, width, r, x), 65536 - 512 * sf, Neighbours(img, width, r, x), 64 * sf)
  }

  function Mix(members: int, memberScale: int, neighbours: int, neighScale: int): int
  {
    members * memberScale + neighbours * neighScale
  }

  /** Rounding to the nearest sample. */
  function Descale(s: int): int
  {
    (s + 32768) / 65536
  }

  /** That is the nearest number, the greater one of two. */
  lemma RoundsToNearest(s: int)
    ensures -32768 <= s - 65536 * Descale(s) < 32768
    ensures forall v: int :: -32768 <= s - 65536 * v < 32768 ==> v == Descale(s)
  {
  }

  /** And so is a quarter of a number, rounded. */
  lemma QuarterRounds(s: int)
    ensures -131072 <= s - 262144 * Descale(s / 4) < 131072
  {
  }

  /** Every pixel of the 3 by 3 square lies in this range. */
  ghost predicate SquareWithin(img: Rows, width: nat, r: nat, x: int, lo: nat, hi: nat)
    requires 0 < r < |img| - 1 && Wide(img, width)
  {
    forall i, j {:trigger Pixel(img, width, i, j)} ::
      r - 1 <= i <= r + 1 && x - 1 <= j <= x + 1 ==> lo <= Pixel(img, width, i, j) <= hi
  }

  /** A smoothed pixel lies between the least and the greatest pixel around it. */
  lemma SmoothedWithin(img: Rows, width: nat, sf: nat, r: nat, x: int, lo: nat, hi: nat)
    requires 0 < r < |img| - 1 && Wide(img, width) && sf <= MAX_SMOOTHING && SquareWithin(img, width, r, x, lo, hi)
    ensures 65536 * lo <= Smoothed(img, width, sf, r, x) <= 65536 * hi
    ensures lo <= Descale(Smoothed(img, width, sf, r, x)) <= hi
  {
    hide Pixel, Clamp, Mix;
    var m, n := Pixel(img, width, r, x), Neighbours(img, width, r, x);
    assert lo <= m <= hi && 8 * lo <= n <= 8 * hi;
    MixWithin(m, n, sf, lo, hi);
  }

  /** The weights add to 65536. */
  lemma MixWithin(m: int, n: int, sf: nat, lo: nat, hi: nat)
    requires lo <= m <= hi && 8 * lo <= n <= 8 * hi && sf <= MAX_SMOOTHING
    ensures 65536 * lo <= Mix(m, 65536 - 512 * sf, n, 64 * sf) <= 65536 * hi
  {
    Scale(lo, m, 65536 - 512 * sf);
    Scale(m, hi, 65536 - 512 * sf);
    Scale(8 * lo, n, 64 * sf);
    Scale(n, 8 * hi, 64 * sf);
  }

  lemma Scale(a: int, b: int, s: int)
    requires a <= b && s >= 0
    ensures a * s <= b * s
  {
  }

  // ----- Right edge -----

  /** The rows of a sample array. */
  ghost function RowsOf(a: array2<nat>): (img: Rows)
    reads a
    ensures |img| == a.Length0 && forall r :: 0 <= r < a.Length0 ==> |img[r]| == a.Length1
    ensures forall r, x :: 0 <= r < a.Length0 && 0 <= x < a.Length1 ==> img[r][x] == a[r, x]
  {
    seq(a.Length0, r requires 0 <= r < a.Length0 reads a =>
      seq(a.Length1, x requires 0 <= x < a.Length1 reads a => a[r, x]))
  }

  /** expand_right_edge. */
  method ExpandRightEdge(image: array2<nat>, numRows: nat, inputCols: nat, outputCols: nat)
    requires numRows <= image.Length0 && 0 < inputCols && inputCols <= image.Length1 && outputCols <= image.Length1
    modifies image
    ensures forall r, x :: 0 <= r < image.Length0 && 0 <= x < image.Length1 ==>
      image[r, x] == old(image[r, if r < numRows && inputCols <= x < outputCols then inputCols - 1 else x])
  {
    if outputCols > inputCols {
      for row := 0 to numRows
        invariant forall r, x :: 0 <= r < image.Length0 && 0 <= x < image.Length1 ==>
          image[r, x] == old(image[r, if r < row && inputCols <= x < outputCols then inputCols - 1 else x])
      {
        var pixval := image[row, inputCols - 1];
        for col := inputCols to outputCols
          invariant forall r, x :: 0 <= r < image.Length0 && 0 <= x < image.Length1 ==>
            image[r, x] == old(image[r, if inputCols <= x && (if r < row then x < outputCols else r == row && x < col)
                                        then inputCols - 1 else x])
        {
          image[row, col] := pixval;
        }
      }
    }
  }

  /** A row expanded from `width` to `cols` columns. */
  ghost predicate Expanded(before: seq<nat>, after: seq<nat>, width: nat, cols: nat)
  {
    0 < width <= |before| && cols <= |before| == |after| &&
    forall k :: 0 <= k < cols ==> after[k] == before[if width <= k then width - 1 else k]
  }

  /** Columns read from the expanded rows are the columns of the image. */
  lemma ExpandedPixel(before: Rows, after: Rows, width: nat, cols: nat, r: nat, x: int)
    requires r < |before| == |after| && 0 < width <= cols <= |before[r]| == |after[r]|
    requires Expanded(before[r], after[r], width, cols)
    ensures Pixel(after, cols, r, x) == Pixel(before, width, r, x)
  {
  }

  /** So the expanded rows smooth to what the image, its edges repeated, smooths to. */
  lemma SmoothedExpanded(before: Rows, after: Rows, width: nat, cols: nat, sf: nat, r: nat, x: int)
    requires 0 < r < |before| - 1 && |after| == |before| && width <= cols && Wide(before, width) && Wide(after, cols)
    requires forall i :: r - 1 <= i <= r + 1 ==> Expanded(before[i], after[i], width, cols)
    ensures Smoothed(after, cols, sf, r, x) == Smoothed(before, width, sf, r, x)
  {
    hide Pixel, Clamp, Mix;
    forall i, j | r - 1 <= i <= r + 1
      ensures Pixel(after, cols, i, j) == Pixel(before, width, i, j)
    {
      ExpandedPixel(before, after, width, cols, i, j);
    }
  }

  // ----- Full size -----

  /** What one row of the full-size filter reads and writes. */
  predicate FullsizeArgs(input: array2<nat>, output: array2<nat>, outrow: nat, cols: nat, sf: nat)
  {
    && outrow + 2 < input.Length0 && 2 <= cols <= input.Length1
    && outrow < output.Length0 && cols <= output.Length1 && sf <= MAX_SMOOTHING
  }

  /** One row of fullsize_smooth_downsample: the sums of three columns are carried
      from pixel to pixel. */
  method FullsizeRow(input: array2<nat>, output: array2<nat>, outrow: nat, cols: nat, sf: nat)
    requires input != output && FullsizeArgs(input, output, outrow, cols, sf)
    modifies output
    ensures forall x :: 0 <= x < cols ==>
      output[outrow, x] == Descale(Smoothed(RowsOf(input), cols, sf, outrow + 1, x))
    ensures forall x :: 0 <= x < cols ==>
      -32768 <= Smoothed(RowsOf(input), cols, sf, outrow + 1, x) - 65536 * output[outrow, x] < 32768
    ensures forall r, x :: 0 <= r < output.Length0 && r != outrow && 0 <= x < output.Length1 ==>
      output[r, x] == old(output[r, x])
  {
    hide Mix, Descale;
    ghost var img := RowsOf(input);
    var memberScale, neighScale := 65536 - sf * 512, sf * 64;
    var above, here, below := outrow, outrow + 1, outrow + 2;
    var colsum := input[above, 0] + input[below, 0] + input[here, 0];
    var member := input[here, 0];
    var nextcolsum := input[above, 1] + input[below, 1] + input[here, 1];
    var neigh := colsum + (colsum - member) + nextcolsum;
    SmoothedWithin0(img, cols, sf, here, 0);
    output[outrow, 0] := Descale(Mix(member, memberScale, neigh, neighScale));
    var lastcolsum := colsum;
    colsum := nextcolsum;
    var col := 1;
    while col < cols - 1
      invariant 1 <= col <= cols - 1 && RowsOf(input) == img
      invariant lastcolsum == ColSum(img, cols, here, col - 1) && colsum == ColSum(img, cols, here, col)
      invariant forall x :: 0 <= x < col ==> output[outrow, x] == Descale(Smoothed(img, cols, sf, here, x))
      invariant forall r, x :: 0 <= r < output.Length0 && r != outrow && 0 <= x < output.Length1 ==>
        output[r, x] == old(output[r, x])
    {
      member := input[here, col];
      nextcolsum := input[above, col + 1] + input[below, col + 1] + input[here, col + 1];
      neigh := lastcolsum + (colsum - member) + nextcolsum;
      SmoothedWithin0(img, cols, sf, here, col);
      output[outrow, col] := Descale(Mix(member, memberScale, neigh, neighScale));
      lastcolsum := colsum;
      colsum := nextcolsum;
      col := col + 1;
    }
    member := input[here, col];
    neigh := lastcolsum + (colsum - member) + colsum;
    SmoothedWithin0(img, cols, sf, here, col);
    output[outrow, col] := Descale(Mix(member, memberScale, neigh, neighScale));
    forall x | 0 <= x < cols
      ensures -32768 <= Smoothed(img, cols, sf, outrow + 1, x) - 65536 * output[outrow, x] < 32768
    {
      RoundsToNearest(Smoothed(img, cols, sf, outrow + 1, x));
    }
  }

  /** A smoothed pixel is no negative number. */
  lemma SmoothedWithin0(img: Rows, width: nat, sf: nat, r: nat, x: int)
    requires 0 < r < |img| - 1 && Wide(img, width) && sf <= MAX_SMOOTHING
    ensures Descale(Smoothed(img, width, sf, r, x)) >= 0
  {
    Scale(0, Pixel(img, width, r, x), 65536 - 512 * sf);
    Scale(0, Neighbours(img, width, r, x), 64 * sf);
  }

  /** fullsize_smooth_downsample: every output sample is the number nearest to the
      weighted average of the pixel and its eight neighbours, the edge columns of the
      image repeated on both sides. */
  method FullsizeSmooth(input: array2<nat>, output: array2<nat>, rows: nat, imageWidth: nat, cols: nat, sf: nat)
    requires input != output && input.Length0 == rows + 2 && output.Length0 >= rows
    requires 0 < imageWidth <= cols && 2 <= cols <= input.Length1 && cols <= output.Length1 && sf <= MAX_SMOOTHING
    modifies input, output
    ensures forall r, x :: 0 <= r < rows && 0 <= x < cols ==>
      output[r, x] == Descale(Smoothed(old(RowsOf(input)), imageWidth, sf, r + 1, x))
    ensures forall r, x :: 0 <= r < rows && 0 <= x < cols ==>
      -32768 <= Smoothed(old(RowsOf(input)), imageWidth, sf, r + 1, x) - 65536 * output[r, x] < 32768
  {
    hide Descale, Smoothed;
    ghost var img := RowsOf(input);
    ExpandRightEdge(input, rows + 2, imageWidth, cols);
    ghost var wide := RowsOf(input);
    assert forall r :: 0 <= r < rows + 2 ==> Expanded(img[r], wide[r], imageWidth, cols);
    for outrow := 0 to rows
      invariant RowsOf(input) == wide
      invariant forall r, x :: 0 <= r < outrow && 0 <= x < cols ==>
        output[r, x] == Descale(Smoothed(img, imageWidth, sf, r + 1, x))
    {
      FullsizeRow(input, output, outrow, cols, sf);
      forall x | 0 <= x < cols
        ensures output[outrow, x] == Descale(Smoothed(img, imageWidth, sf, outrow + 1, x))
      {
        SmoothedExpanded(img, wide, imageWidth, cols, sf, outrow + 1, x);
      }
    }
    forall r, x | 0 <= r < rows && 0 <= x < cols
      ensures -32768 <= Smoothed(img, imageWidth, sf, r + 1, x) - 65536 * output[r, x] < 32768
    {
      RoundsToNearest(Smoothed(img, imageWidth, sf, r + 1, x));
    }
  }

  // ----- Two to one in both directions -----

  /** The four pixels that one output sample stands for. */
  function FourPixels(img: Rows, width: nat, r: nat, x: int): nat
    requires 0 < r < |img| - 2 && Wide(img, width)
  {
    Pixel(img, width, r, x) + Pixel(img, width, r, x + 1) + Pixel(img, width, r + 1, x) +
      Pixel(img, width, r + 1, x + 1)
  }

  /** The eight pixels at their edges, counted twice, and the four at the corners. */
  function TwelveAround(img: Rows, width: nat, r: nat, x: int): nat
    requires 0 < r < |img| - 2 && Wide(img, width)
  {
    2 * (Pixel(img, width, r - 1, x) + Pixel(img, width, r - 1, x + 1) +
      Pixel(img, width, r + 2, x) + Pixel(img, width, r + 2, x + 1)
         + Pixel(img, width, r, x - 1) + Pixel(img, width, r, x + 2) +
           Pixel(img, width, r + 1, x - 1) + Pixel(img, width, r + 1, x + 2))
    + Pixel(img, width, r - 1, x - 1) + Pixel(img, width, r - 1, x + 2) +
      Pixel(img, width, r + 2, x - 1) + Pixel(img, width, r + 2, x + 2)
  }

  /** The four smoothed pixels together. */
  function FourSmoothed(img: Rows, width: nat, sf: nat, r: nat, x: int): int
    requires 0 < r < |img| - 2 && Wide(img, width)
  {
    Smoothed(img, width, sf, r, x) + Smoothed(img, width, sf, r, x + 1)
    + Smoothed(img, width, sf, r + 1, x) + Smoothed(img, width, sf, r + 1, x + 1)
  }

  /** The shortcut of h2v2_smooth_downsample: its weights on four pixels and the
      twelve around them give exactly the mean of the four smoothed pixels. */
  lemma ShortcutIsMean(img: Rows, width: nat, sf: nat, r: nat, x: int)
    requires 0 < r < |img| - 2 && Wide(img, width)
    ensures 4 * Mix(FourPixels(img, width, r, x), 16384 - 80 * sf, TwelveAround(img, width, r, x), 16 * sf)
            == FourSmoothed(img, width, sf, r, x)
  {
    hide Pixel, Clamp, Mix;
    var a, b := Pixel(img, width, r, x), Pixel(img, width, r, x + 1);
    var c, d := Pixel(img, width, r + 1, x), Pixel(img, width, r + 1, x + 1);
    var na, nb := Neighbours(img, width, r, x), Neighbours(img, width, r, x + 1);
    var nc, nd := Neighbours(img, width, r + 1, x), Neighbours(img, width, r + 1, x + 1);
    assert x + 1 - 1 == x && x + 1 + 1 == x + 2;
    assert na + nb + nc + nd == TwelveAround(img, width, r, x) + 3 * FourPixels(img, width, r, x);
    MixOfFour(a, b, c, d, na, nb, nc, nd, sf);
  }

  lemma MixOfFour(a: int, b: int, c: int, d: int, na: int, nb: int, nc: int, nd: int, sf: int)
    ensures 4 * Mix(a + b + c + d, 16384 - 80 * sf, na + nb + nc + nd - 3 * (a + b + c + d), 16 * sf)
            == Mix(a, 65536 - 512 * sf, na, 64 * sf) + Mix(b, 65536 - 512 * sf, nb, 64 * sf)
               + Mix(c, 65536 - 512 * sf, nc, 64 * sf) + Mix(d, 65536 - 512 * sf, nd, 64 * sf)
  {
    hide Mix;
    MixExpanded(a, na, sf);
    MixExpanded(b, nb, sf);
    MixExpanded(c, nc, sf);
    MixExpanded(d, nd, sf);
    var m, n := a + b + c + d, na + nb + nc + nd;
    MixExpanded(m, n, sf);
    FourTimes(a, b, c, d, sf);
    FourTimes(na, nb, nc, nd, sf);
    QuarterExpanded(m, n, sf);
  }

  lemma FourTimes(a: int, b: int, c: int, d: int, s: int)
    ensures (a + b + c + d) * s == a * s + b * s + c * s + d * s
  {
  }

  lemma MixExpanded(m: int, n: int, sf: int)
    ensures Mix(m, 65536 - 512 * sf, n, 64 * sf) == 65536 * m - 512 * (m * sf) + 64 * (n * sf)
  {
  }

  lemma QuarterExpanded(m: int, n: int, sf: int)
    ensures Mix(m, 16384 - 80 * sf, n - 3 * m, 16 * sf) == 16384 * m - 128 * (m * sf) + 16 * (n * sf)
  {
  }

  /** The sums of one output sample; the columns to the left and right of its two
      are the edge columns again at the ends of the row. */
  method TwoByTwo(input: array2<nat>, outrow: nat, x: nat, left: nat, right: nat, cols: nat, sf: nat)
    returns (value: nat)
    requires 2 * outrow + 3 < input.Length0 && x + 1 < cols <= input.Length1 && sf <= MAX_SMOOTHING
    requires left == Clamp(x - 1, cols) && right == Clamp(x + 2, cols)
    ensures value == Descale(FourSmoothed(RowsOf(input), cols, sf, 2 * outrow + 1, x) / 4)
  {
    hide Mix, Smoothed, Descale;
    var memberScale, neighScale := 16384 - sf * 80, sf * 16;
    var above, in0, in1, below := 2 * outrow, 2 * outrow + 1, 2 * outrow + 2, 2 * outrow + 3;
    var member := input[in0, x] + input[in0, x + 1] + input[in1, x] + input[in1, x + 1];
    var neigh := input[above, x] + input[above, x + 1] + input[below, x] + input[below, x + 1]
               + input[in0, left] + input[in0, right] + input[in1, left] + input[in1, right];
    neigh := neigh + neigh;
    neigh := neigh + input[above, left] + input[above, right] + input[below, left] + input[below, right];
    ghost var img := RowsOf(input);
    assert member == FourPixels(img, cols, in0, x) && neigh == TwelveAround(img, cols, in0, x);
    ShortcutIsMean(img, cols, sf, in0, x);
    NoNegativeMix(member, 16384 - 80 * sf, neigh, 16 * sf);
    value := Descale(Mix(member, memberScale, neigh, neighScale));
  }

  lemma NoNegativeMix(m: nat, ms: nat, n: nat, ns: nat)
    ensures Mix(m, ms, n, ns) >= 0 && Descale(Mix(m, ms, n, ns)) >= 0
  {
    Scale(0, m, ms);
    Scale(0, n, ns);
  }

  /** One row of h2v2_smooth_downsample. */
  method H2V2Row(input: array2<nat>, output: array2<nat>, outrow: nat, cols: nat, sf: nat)
    requires input != output && 2 * outrow + 3 < input.Length0 && 2 <= cols && 2 * cols <= input.Length1
    requires outrow < output.Length0 && cols <= output.Length1 && sf <= MAX_SMOOTHING
    modifies output
    ensures forall x :: 0 <= x < cols ==>
      output[outrow, x] == Descale(FourSmoothed(RowsOf(input), 2 * cols, sf, 2 * outrow + 1, 2 * x) / 4)
    ensures forall r, x :: 0 <= r < output.Length0 && r != outrow && 0 <= x < output.Length1 ==>
      output[r, x] == old(output[r, x])
  {
    hide FourSmoothed, Descale;
    ghost var img := RowsOf(input);
    var value := TwoByTwo(input, outrow, 0, 0, 2, 2 * cols, sf);
    output[outrow, 0] := value;
    for col := 1 to cols - 1
      invariant RowsOf(input) == img
      invariant forall x :: 0 <= x < col ==>
        output[outrow, x] == Descale(FourSmoothed(img, 2 * cols, sf, 2 * outrow + 1, 2 * x) / 4)
      invariant forall r, x :: 0 <= r < output.Length0 && r != outrow && 0 <= x < output.Length1 ==>
        output[r, x] == old(output[r, x])
    {
      value := TwoByTwo(input, outrow, 2 * col, 2 * col - 1, 2 * col + 2, 2 * cols, sf);
      output[outrow, col] := value;
    }
    value := TwoByTwo(input, outrow, 2 * (cols - 1), 2 * cols - 3, 2 * cols - 1, 2 * cols, sf);
    output[outrow, cols - 1] := value;
  }

  /** h2v2_smooth_downsample: every output sample is the number nearest to the mean of
      the four smoothed pixels that it stands for, the edge columns of the image
      repeated. */
  method H2V2Smooth(input: array2<nat>, output: array2<nat>, rows: nat, imageWidth: nat, cols: nat, sf: nat)
    requires input != output && input.Length0 == 2 * rows + 2 && output.Length0 >= rows && 2 <= cols
    requires 0 < imageWidth <= 2 * cols <= input.Length1 && cols <= output.Length1 && sf <= MAX_SMOOTHING
    modifies input, output
    ensures forall r, x :: 0 <= r < rows && 0 <= x < cols ==>
      output[r, x] == Descale(FourSmoothed(old(RowsOf(input)), imageWidth, sf, 2 * r + 1, 2 * x) / 4)
    ensures forall r, x :: 0 <= r < rows && 0 <= x < cols ==>
      -131072 <= FourSmoothed(old(RowsOf(input)), imageWidth, sf, 2 * r + 1, 2 * x) - 262144 * output[r, x] < 131072
  {
    hide Descale, Smoothed;
    ghost var img := RowsOf(input);
    ExpandRightEdge(input, 2 * rows + 2, imageWidth, 2 * cols);
    ghost var wide := RowsOf(input);
    assert forall r :: 0 <= r < 2 * rows + 2 ==> Expanded(img[r], wide[r], imageWidth, 2 * cols);
    for outrow := 0 to rows
      invariant RowsOf(input) == wide
      invariant forall r, x :: 0 <= r < outrow && 0 <= x < cols ==>
        output[r, x] == Descale(FourSmoothed(img, imageWidth, sf, 2 * r + 1, 2 * x) / 4)
    {
      H2V2Row(input, output, outrow, cols, sf);
      forall x | 0 <= x < cols
        ensures output[outrow, x] == Descale(FourSmoothed(img, imageWidth, sf, 2 * outrow + 1, 2 * x) / 4)
      {
        FourExpanded(img, wide, imageWidth, 2 * cols, sf, 2 * outrow + 1, 2 * x);
      }
    }
    forall r, x | 0 <= r < rows && 0 <= x < cols
      ensures -131072 <= FourSmoothed(img, imageWidth, sf, 2 * r + 1, 2 * x) - 262144 * output[r, x] < 131072
    {
      QuarterRounds(FourSmoothed(img, imageWidth, sf, 2 * r + 1, 2 * x));
    }
  }

  lemma FourExpanded(before: Rows, after: Rows, width: nat, cols: nat, sf: nat, r: nat, x: int)
    requires 0 < r < |before| - 2 && |after| == |before| && width <= cols && Wide(before, width) && Wide(after, cols)
    requires forall i :: r - 1 <= i <= r + 2 ==> Expanded(before[i], after[i], width, cols)
    ensures FourSmoothed(after, cols, sf, r, x) == FourSmoothed(before, width, sf, r, x)
  {
    hide Smoothed, Expanded;
    SmoothedExpanded(before, after, width, cols, sf, r, x);
    SmoothedExpanded(before, after, width, cols, sf, r, x + 1);
    SmoothedExpanded(before, after, width, cols, sf, r + 1, x);
    SmoothedExpanded(before, after, width, cols, sf, r + 1, x + 1);
  }

  /** Such a mean lies between the least and the greatest pixel of its square of
      four by four. */
  lemma MeanWithin(img: Rows, width: nat, sf: nat, r: nat, x: int, lo: nat, hi: nat)
    requires 0 < r < |img| - 2 && Wide(img, width) && sf <= MAX_SMOOTHING
    requires SquareWithin(img, width, r, x, lo, hi) && SquareWithin(img, width, r, x + 1, lo, hi)
    requires SquareWithin(img, width, r + 1, x, lo, hi) && SquareWithin(img, width, r + 1, x + 1, lo, hi)
    ensures lo <= Descale(FourSmoothed(img, width, sf, r, x) / 4) <= hi
  {
    hide Smoothed, SquareWithin, Wide, Descale;
    SmoothedWithin(img, width, sf, r, x, lo, hi);
    SmoothedWithin(img, width, sf, r, x + 1, lo, hi);
    SmoothedWithin(img, width, sf, r + 1, x, lo, hi);
    SmoothedWithin(img, width, sf, r + 1, x + 1, lo, hi);
    DescaleWithin(FourSmoothed(img, width, sf, r, x) / 4, lo, hi);
  }

  lemma DescaleWithin(s: int, lo: nat, hi: nat)
    requires 65536 * lo <= s <= 65536 * hi
    ensures lo <= Descale(s) <= hi
  {
  }
}
