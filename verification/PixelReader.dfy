/** The forward-only FIFO reader of cc3.c: region of interest, subsampling and
    channel selection by counting bytes. */
module PixelReader {
  import opened PixelFrame

  /** The bytes s written from index p on. */
  ghost predicate Put(before: seq<Byte>, after: seq<Byte>, p: nat, s: seq<Byte>)
  {
    p + |s| <= |before| && after == before[..p] + s + before[p + |s|..]
  }

  lemma PutTwice(a: seq<Byte>, b: seq<Byte>, c: seq<Byte>, p: nat, s: seq<Byte>, t: seq<Byte>)
    requires Put(a, b, p, s) && Put(b, c, p + |s|, t)
    ensures Put(a, c, p, s + t)
  {
    assert b[..p + |s|] == a[..p] + s;
    assert b[p + |s| + |t|..] == a[p + |s| + |t|..];
  }

  lemma PutNothing(a: seq<Byte>, p: nat)
    requires p <= |a|
    ensures Put(a, a, p, [])
  {
  }

  /** The first even column that is not left of x. */
  function EvenFrom(x: int): (e: nat)
    ensures e % 2 == 0 && e >= x && (x >= 0 ==> e <= x + 1)
  {
    if x < 0 then 0 else if x % 2 == 1 then x + 1 else x
  }

  /** The left edge as the source computes it in 16 bits: 32767 wraps around when it
      is made even. */
  function EvenEdge(x: int): (e: int)
    requires x < 32768
    ensures e == EvenFrom(x) <==> x != 32767
    ensures -32768 <= e < 32768
  {
    if x == 32767 then -32768 else EvenFrom(x)
  }

  /** The one edge that wraps is stored far outside of every image. */
  lemma EdgeWraps()
    ensures EvenEdge(32767) == -32768 && Word16(EvenEdge(32767)) == 32768
  {
  }

  /** A 16-bit number stored without its sign. */
  function Word16(x: int): nat
    requires -32768 <= x < 65536
  {
    if x < 0 then x + 65536 else x
  }

  /** The step across as the source computes it in 8 bits. */
  function StepAcross(xs: nat): nat
  {
    if xs == 0 then 1 else if xs != 1 && xs % 2 != 0 then (xs + 1) % 256 else xs
  }

  /** Every byte gives a step of one or an even step, but for the one that wraps to
      zero. */
  lemma StepWraps(xs: nat)
    requires xs < 256
    ensures StepAcross(xs) == 0 <==> xs == 255
    ensures xs != 255 ==> StepAcross(xs) == 1 || StepAcross(xs) % 2 == 0
    ensures StepAcross(255) == 0
  {
  }

  function CutTo(x: int, limit: nat): (c: nat)
    ensures c <= limit
  {
    if x < 0 then 0 else if x > limit then limit else x
  }

  class Camera {
    const data: nat -> Byte         // the bytes of the FIFO from its start
    const rawWidth: nat
    const rawHeight: nat
    const yCrCb: bool               // colorspace == CC3_COLORSPACE_YCRCB
    var x0: nat
    var y0: nat
    var x1: nat
    var y1: nat
    var yLoc: nat
    var xStep: nat
    var yStep: nat
    var coi: Channel
    var width: nat
    var height: nat
    var pos: nat                    // bytes clocked out of the FIFO
    var secondGreen: Byte
    var secondGreenValid: bool

    function TheView(): View
      reads `x0, `xStep, `coi
    {
      View(rawWidth, x0, xStep, coi, yCrCb)
    }

    /** What the parameter setting functions keep. */
    ghost predicate Framed()
      reads `x0, `y0, `x1, `y1, `xStep, `yStep, `coi, `width, `height
    {
      && ViewOk(TheView()) && 0 < rawWidth < 32768 && 0 < rawHeight < 32768
      && x0 < x1 <= rawWidth && y0 < y1 <= rawHeight && yStep > 0 && Bounded()
    }

    /** Width and height are up to date. */
    ghost predicate Bounded()
      reads `x0, `y0, `x1, `y1, `xStep, `yStep, `width, `height
    {
      xStep > 0 && yStep > 0 && width == (x1 - x0) / xStep && height == (y1 - y0) / yStep
    }

    /** The FIFO stands at the start of row yLoc. */
    ghost predicate Aligned()
      reads this
    {
      pos == RowPos(rawWidth, yLoc)
    }

    /** cc3_pixbuf_frame_reset, for a camera that has been rewound. */
    constructor (data: nat -> Byte, rawWidth: nat, rawHeight: nat, yCrCb: bool)
      requires rawWidth % 2 == 0 && 0 < rawWidth < 32768 && 0 < rawHeight < 32768
      ensures Framed() && Aligned() && yLoc == 0 && coi == All && width == rawWidth && height == rawHeight
      ensures !secondGreenValid
      ensures this.data == data && this.rawWidth == rawWidth && this.rawHeight == rawHeight && this.yCrCb == yCrCb
    {
      this.data, this.rawWidth, this.rawHeight, this.yCrCb := data, rawWidth, rawHeight, yCrCb;
      xStep, yStep, x0, y0, x1, y1, yLoc := 1, 1, 0, 0, rawWidth, rawHeight, 0;
      coi, width, height := All, rawWidth, rawHeight;
      pos := 2 * rawWidth;
      secondGreen, secondGreenValid := 0, false;
    }

    method UpdateFrameBounds()
      requires xStep > 0 && yStep > 0 && x0 <= x1 && y0 <= y1
      modifies this`width, this`height
      ensures Bounded()
    {
      width := (x1 - x0) / xStep;
      height := (y1 - y0) / yStep;
    }

    /** The edges cut to the image, the left one made even. */
    method Constrain(left: int, top: int, right: int, bottom: int) returns (xa: int, ya: nat, xb: nat, yb: nat)
      requires rawWidth % 2 == 0 && left < 32768
      ensures if EvenEdge(left) > rawWidth then xa == rawWidth else xa == EvenEdge(left)
      ensures ya == CutTo(top, rawHeight) && xb == CutTo(right, rawWidth) && yb == CutTo(bottom, rawHeight)
    {
      xa := left;
      if xa < 0 {
        xa := 0;
      }
      if xa % 2 == 1 {
        xa := if xa == 32767 then -32768 else xa + 1;
      }
      if xa > rawWidth {
        xa := rawWidth;
      }
      ya := Cut(top, rawHeight);
      xb := Cut(right, rawWidth);
      yb := Cut(bottom, rawHeight);
    }

    /** The two tests on an edge. */
    method Cut(edge: int, limit: nat) returns (e: nat)
      ensures e == CutTo(edge, limit)
    {
      var x := edge;
      if x < 0 {
        x := 0;
      }
      if x > limit {
        x := limit;
      }
      e := x;
    }

    /** cc3_pixbuf_frame_set_roi: the region cut down to the image, its left edge
        moved to an even column; refused if nothing is left. Of all 16-bit edges only a
        left one of 32767, with rows left, gives a frame that is not in order. */
    method SetRoi(left: int, top: int, right: int, bottom: int) returns (ok: bool)
      requires Framed() && left < 32768
      modifies this`x0, this`y0, this`x1, this`y1, this`width, this`height
      ensures Framed() <==> left != 32767 || CutTo(top, rawHeight) >= CutTo(bottom, rawHeight)
      ensures ok <==> EvenEdge(left) < CutTo(right, rawWidth) && CutTo(top, rawHeight) < CutTo(bottom, rawHeight)
      ensures ok ==> x0 == Word16(EvenEdge(left)) && y0 == CutTo(top, rawHeight)
      ensures ok ==> x1 == CutTo(right, rawWidth) && y1 == CutTo(bottom, rawHeight)
      ensures !ok ==> x0 == old(x0) && y0 == old(y0) && x1 == old(x1) && y1 == old(y1)
    {
      hide Bounded;
      var xa, ya, xb, yb := Constrain(left, top, right, bottom);
      if xa >= xb || ya >= yb {
        return false;
      }
      x0, y0, x1, y1 := Word16(xa), ya, xb, yb;
      if x0 <= x1 {
        UpdateFrameBounds();
      }
      return true;
    }

    /** cc3_pixbuf_frame_set_subsample: steps of zero become one and odd steps across
        become even; only then is the answer false. A step of 255 wraps to zero, and
        the source goes on to divide by it. */
    method SetSubsample(xs: nat, ys: nat) returns (ok: bool)
      requires Framed() && xs < 256 && ys < 256
      modifies this`xStep, this`yStep, this`width, this`height
      ensures Framed() <==> xs != 255
      ensures xStep == StepAcross(xs) && yStep == if ys == 0 then 1 else ys
      ensures ok <==> xStep == xs && yStep == ys
      ensures ok <==> xs > 0 && ys > 0 && (xs == 1 || xs % 2 == 0)
    {
      ok := true;
      var xStep', yStep' := xs, ys;
      if xStep' == 0 {
        xStep' := 1;
        ok := false;
      }
      if yStep' == 0 {
        yStep' := 1;
        ok := false;
      }
      if xStep' != 1 && xStep' % 2 != 0 {
        xStep' := (xStep' + 1) % 256;
        ok := false;
      }
      xStep, yStep := xStep', yStep';
      StepWraps(xs);
      if xStep > 0 {
        UpdateFrameBounds();
      }
    }

    /** cc3_pixbuf_frame_set_coi: a number beyond the channels by one is accepted, and
        selects nothing. */
    method SetCoi(chan: nat) returns (ok: bool)
      requires Framed()
      modifies this`coi
      ensures Framed() && (ok <==> chan <= 4)
      ensures coi == if chan > 4 then old(coi) else [Red, Green, Blue, All, Unknown][chan]
    {
      if chan > 4 {
        return false;
      }
      coi := if chan == 0 then Red else if chan == 1 then Green else if chan == 2 then Blue
        else if chan == 3 then All else Unknown;
      return true;
    }

    method SkipSubpixel()
      modifies this`pos
      ensures pos == old(pos) + 1
    {
      pos := pos + 1;
    }

    method ReadSubpixel() returns (b: Byte)
      modifies this`pos
      ensures b == data(old(pos)) && pos == old(pos) + 1
    {
      b := data(pos);
      pos := pos + 1;
    }

    method SkipPixels(size: nat)
      modifies this`pos
      ensures pos == old(pos) + 4 * size
    {
      for i := 0 to size
        invariant pos == old(pos) + 4 * i
      {
        SkipSubpixel();
        SkipSubpixel();
        SkipSubpixel();
        SkipSubpixel();
      }
    }

    /** cc3_pixbuf_rewind: back to row 0, behind the line that is no image data. */
    method Rewind()
      requires Framed()
      modifies this`pos, this`secondGreenValid, this`yLoc
      ensures Framed() && Aligned() && yLoc == 0 && !secondGreenValid
    {
      pos := 0;
      SkipPixels(rawWidth / 2);
      secondGreenValid := false;
      yLoc := 0;
    }

    // ----- One row -----

    /** The FIFO before output pixel j of row y, whose column is x: all pairs that
        begin left of x are read, and of the last of them the right pixel may still
        be due. */
    ghost predicate InRow(y: nat, j: nat, x: nat)
      reads this
    {
      && ViewOk(TheView()) && x == Column(TheView(), j)
      && pos == RowPos(rawWidth, y) + 4 * ((x + 1) / 2)
      && (xStep == 1 ==> (x % 2 == j % 2))
      && (xStep == 1 && x % 2 == 1 && (coi == All || coi == Green) ==> secondGreen == PairByte(data, rawWidth, x, y, 2))
      && (coi == All ==> (secondGreenValid <==> xStep == 1 && x % 2 == 1))
    }

    /** Where the channels of a pixel go in memory. */
    predicate Offsets(off0: nat, off1: nat, off2: nat)
    {
      off2 == 2 && (if yCrCb then off0 == 1 && off1 == 0 else off0 == 0 && off1 == 1)
    }

    /** The pixel before p in memory is the one before pixel j. */
    ghost predicate Previous(mem: seq<Byte>, p: nat, y: nat, j: nat)
      reads this
    {
      j > 0 ==> Bytes(TheView()) <= p <= |mem| && mem[p - Bytes(TheView())..p] == PixelOut(data, TheView(), y, j - 1)
    }

    /** The three channels stored. */
    method Store(mem: array<Byte>, p: nat, off0: nat, off1: nat, off2: nat, c0: Byte, c1: Byte, c2: Byte)
      requires p + 3 <= mem.Length && Offsets(off0, off1, off2)
      modifies mem
      ensures Put(old(mem[..]), mem[..], p, if yCrCb then [c1, c0, c2] else [c0, c1, c2])
    {
      mem[p + off0] := c0;
      mem[p + off1] := c1;
      mem[p + off2] := c2;
    }

    /** The right pixel of the pair: its green was kept, the rest is that of the
        pixel before it in memory. */
    method SavedPixel(mem: array<Byte>, p: nat, off0: nat, off1: nat, off2: nat, ghost y: nat, ghost j: nat,
                      ghost x: nat)
      requires InRow(y, j, x) && coi == All && p + 3 <= mem.Length && Offsets(off0, off1, off2)
      requires Previous(mem[..], p, y, j)
      requires xStep == 1 && secondGreenValid
      modifies this`secondGreenValid, mem
      ensures Put(old(mem[..]), mem[..], p, PixelOut(data, TheView(), y, j)) && InRow(y, j + 1, x + 1)
    {
      hide RowPos, PairByte, Put;
      ghost var v := TheView();
      SecondOfPair(data, v, y, j);
      ghost var s := mem[p - 3..p];
      assert s == PixelOut(data, v, y, j - 1);
      assert s[off0] == mem[p - 3 + off0] && s[off2] == mem[p - 3 + off2];
      secondGreenValid := false;
      Store(mem, p, off0, off1, off2, mem[p - 3 + off0], secondGreen, mem[p - 3 + off2]);
    }

    /** The four bytes of a pair. */
    method LoadFour(ghost x: nat, ghost y: nat) returns (b0: Byte, b1: Byte, b2: Byte, b3: Byte)
      requires pos == RowPos(rawWidth, y) + 4 * (x / 2)
      modifies this`pos
      ensures pos == old(pos) + 4
      ensures b0 == PairByte(data, rawWidth, x, y, 0) && b1 == PairByte(data, rawWidth, x, y, 1)
      ensures b2 == PairByte(data, rawWidth, x, y, 2) && b3 == PairByte(data, rawWidth, x, y, 3)
    {
      hide RowPos;
      b0 := ReadSubpixel();
      b1 := ReadSubpixel();
      b2 := ReadSubpixel();
      b3 := ReadSubpixel();
    }

    /** A pair loaded, its left pixel used. */
    method LoadPair(mem: array<Byte>, p: nat, off0: nat, off1: nat, off2: nat, ghost y: nat, ghost j: nat, ghost x: nat)
      requires InRow(y, j, x) && coi == All && p + 3 <= mem.Length && Offsets(off0, off1, off2)
      requires xStep == 1 && !secondGreenValid
      modifies this`pos, this`secondGreen, this`secondGreenValid, mem
      ensures Put(old(mem[..]), mem[..], p, PixelOut(data, TheView(), y, j)) && InRow(y, j + 1, x + 1)
    {
      hide RowPos, Put, PairByte, Offsets;
      SameGreen(data, rawWidth, x, y);
      var c1, c0, g, c2 := LoadFour(x, y);
      secondGreen := g;
      Store(mem, p, off0, off1, off2, c0, c1, c2);
      secondGreenValid := true;
    }

    /** A pair of which the right pixel is used. */
    method LoadSubsampled(mem: array<Byte>, p: nat, off0: nat, off1: nat, off2: nat, ghost y: nat, ghost j: nat,
                          ghost x: nat)
      requires InRow(y, j, x) && coi == All && p + 3 <= mem.Length && Offsets(off0, off1, off2)
      requires xStep > 1
      modifies this`pos, mem
      ensures Put(old(mem[..]), mem[..], p, PixelOut(data, TheView(), y, j))
      ensures pos == RowPos(rawWidth, y) + 4 * (x / 2) + 4
    {
      hide RowPos, Put, PairByte, Offsets;
      ColumnEven(TheView(), j);
      PairBytes(data, rawWidth, x + 1, y);
      SkipSubpixel();
      var c0 := ReadSubpixel();
      var c1 := ReadSubpixel();
      var c2 := ReadSubpixel();
      Store(mem, p, off0, off1, off2, c0, c1, c2);
    }

    /** _cc3_pixbuf_read_pixel: all channels of one pixel. */
    method ReadPixel(mem: array<Byte>, p: nat, off0: nat, off1: nat, off2: nat, ghost y: nat, ghost j: nat,
                     ghost x: nat)
      requires InRow(y, j, x) && coi == All && p + 3 <= mem.Length && Offsets(off0, off1, off2)
      requires Previous(mem[..], p, y, j)
      modifies this`pos, this`secondGreen, this`secondGreenValid, mem
      ensures Put(old(mem[..]), mem[..], p, PixelOut(data, TheView(), y, j))
      ensures xStep == 1 ==> InRow(y, j + 1, x + 1)
      ensures xStep > 1 ==> !secondGreenValid && pos == RowPos(rawWidth, y) + 4 * (x / 2) + 4
    {
      hide RowPos, Put, PixelOut, Previous, Offsets;
      if xStep == 1 {
        if secondGreenValid {
          SavedPixel(mem, p, off0, off1, off2, y, j, x);
          return;
        }
        LoadPair(mem, p, off0, off1, off2, y, j, x);
      } else {
        LoadSubsampled(mem, p, off0, off1, off2, y, j, x);
      }
    }

    /** One byte stored. */
    method Store1(mem: array<Byte>, p: nat, c: Byte)
      requires p < mem.Length
      modifies mem
      ensures Put(old(mem[..]), mem[..], p, [c])
    {
      mem[p] := c;
    }

    /** A pair loaded for one channel. */
    method LoadChannel(mem: array<Byte>, p: nat, ghost y: nat, ghost j: nat, ghost x: nat)
      requires InRow(y, j, x) && (coi == Red || coi == Green || coi == Blue) && p < mem.Length && x % 2 == 0
      modifies this`pos, this`secondGreen, mem
      ensures Put(old(mem[..]), mem[..], p, PixelOut(data, TheView(), y, j))
      ensures pos == old(pos) + 4 && (coi == Green ==> secondGreen == PairByte(data, rawWidth, x + 1, y, 2))
    {
      hide RowPos, Put, PairByte;
      PairBytes(data, rawWidth, x, y);
      PairBytes(data, rawWidth, x + 1, y);
      var c: Byte;
      if coi == Red {
        SkipSubpixel();
        c := ReadSubpixel();
        SkipSubpixel();
        SkipSubpixel();
      } else if coi == Green {
        c := ReadSubpixel();
        SkipSubpixel();
        secondGreen := ReadSubpixel();
        SkipSubpixel();
      } else {
        SkipSubpixel();
        SkipSubpixel();
        SkipSubpixel();
        c := ReadSubpixel();
      }
      Store1(mem, p, c);
    }

    /** The right pixel of a pair for one channel. */
    method RepeatChannel(mem: array<Byte>, p: nat, ghost y: nat, ghost j: nat, ghost x: nat)
      requires InRow(y, j, x) && (coi == Red || coi == Green || coi == Blue) && p < mem.Length
      requires Previous(mem[..], p, y, j)
      requires xStep == 1 && x % 2 == 1 && j > 0
      modifies mem
      ensures Put(old(mem[..]), mem[..], p, PixelOut(data, TheView(), y, j))
    {
      hide RowPos, Put, PairByte;
      SecondOfPair(data, TheView(), y, j);
      ghost var s := mem[p - 1..p];
      assert s == PixelOut(data, TheView(), y, j - 1);
      assert s[0] == mem[p - 1];
      if coi == Green {
        Store1(mem, p, secondGreen);
      } else {
        Store1(mem, p, mem[p - 1]);
      }
    }

    /** After pixel j is read: with subsampling, behind its pair. */
    ghost predicate AfterPixel(y: nat, j: nat, x: nat)
      reads this
    {
      && (xStep == 1 ==> InRow(y, j + 1, x + 1))
      && (xStep > 1 ==> pos == RowPos(rawWidth, y) + 4 * (x / 2) + 4 && (coi == All ==> !secondGreenValid))
    }

    /** One output pixel. */
    method ReadOne(mem: array<Byte>, p: nat, j: nat, ghost x: nat, ghost y: nat)
      requires InRow(y, j, x) && coi != Unknown && p + Bytes(TheView()) <= mem.Length && Previous(mem[..], p, y, j)
      modifies this`pos, this`secondGreen, this`secondGreenValid, mem
      ensures Put(old(mem[..]), mem[..], p, PixelOut(data, TheView(), y, j)) && AfterPixel(y, j, x)
    {
      hide RowPos, Put, PixelOut, PairByte, Previous;
      if xStep > 1 {
        ColumnEven(TheView(), j);
      }
      if coi == All {
        if yCrCb {
          ReadPixel(mem, p, 1, 0, 2, y, j, x);
        } else {
          ReadPixel(mem, p, 0, 1, 2, y, j, x);
        }
      } else if j % 2 == 0 || xStep > 1 {
        LoadChannel(mem, p, y, j, x);
        SameGreen(data, rawWidth, x, y);
      } else {
        RepeatChannel(mem, p, y, j, x);
      }
    }

    /** The pairs between two even columns. */
    lemma NextPair(x: nat, s: nat)
      requires x % 2 == 0 && s > 0 && s % 2 == 0
      ensures 4 * (x / 2) + 4 + 4 * ((s - 1) / 2) == 4 * ((x + s + 1) / 2)
    {
    }

    /** The pairs up to the next output pixel. */
    method SkipToNext(ghost y: nat, ghost j: nat, ghost x: nat)
      requires ViewOk(TheView()) && x == Column(TheView(), j) && AfterPixel(y, j, x)
      modifies this`pos
      ensures InRow(y, j + 1, x + xStep)
    {
      hide RowPos, PairByte;
      SkipPixels((xStep - 1) / 2);
      if xStep > 1 {
        ColumnEven(TheView(), j);
        NextPair(x, xStep);
      }
    }

    /** _cc3_seek_left. */
    method SeekLeft()
      modifies this`pos
      ensures pos == old(pos) + 4 * (x0 / 2)
    {
      SkipPixels(x0 / 2);
    }

    /** One output pixel, and the pairs up to the next. */
    method ReadColumn(mem: array<Byte>, p: nat, j: nat, ghost x: nat, ghost y: nat)
      requires InRow(y, j, x) && coi != Unknown && p + Bytes(TheView()) <= mem.Length && Previous(mem[..], p, y, j)
      modifies this`pos, this`secondGreen, this`secondGreenValid, mem
      ensures Put(old(mem[..]), mem[..], p, PixelOut(data, TheView(), y, j)) && InRow(y, j + 1, x + xStep)
    {
      hide RowPos, Put, PixelOut, PairByte, Previous, Column, AfterPixel, Bytes;
      ReadOne(mem, p, j, x, y);
      SkipToNext(y, j, x);
    }

    lemma IsPrevious(before: seq<Byte>, after: seq<Byte>, p: nat, y: nat, j: nat)
      requires Put(before, after, p, RowOut(data, TheView(), y, j))
      ensures Previous(after, p + |RowOut(data, TheView(), y, j)|, y, j)
    {
      hide Bytes, RowOut, PixelOut, Put;
      PreviousPixel(before, after, p, data, TheView(), y, j);
    }

    /** The output columns lie inside the region. */
    lemma FitsRow()
      requires Framed()
      ensures ViewOk(TheView()) && 0 <= Column(TheView(), width) <= rawWidth && x0 <= rawWidth
    {
      ColumnIs(TheView(), width);
      FloorFits(x1 - x0, xStep);
    }

    /** The loop over the columns of a row. */
    method ReadColumns(mem: array<Byte>, p: nat, ghost y: nat) returns (x: nat)
      requires InRow(y, 0, x0) && coi != Unknown && 0 <= width * Bytes(TheView())
      requires p + width * Bytes(TheView()) <= mem.Length
      modifies this`pos, this`secondGreen, this`secondGreenValid, mem
      ensures InRow(y, width, x) && Put(old(mem[..]), mem[..], p, RowOut(data, TheView(), y, width))
    {
      hide RowPos, Put, PixelOut, PairByte, InRow, Bytes, RowOut, Previous;
      ghost var v := TheView();
      var channels := Bytes(TheView());
      x := x0;
      PutNothing(mem[..], p);
      NoPixels(data, v, y);
      for j := 0 to width
        invariant TheView() == v && coi != Unknown && InRow(y, j, x)
        invariant Put(old(mem[..]), mem[..], p, RowOut(data, v, y, j))
      {
        Room(j, width, channels);
        RowOutLength(data, v, y, j);
        IsPrevious(old(mem[..]), mem[..], p, y, j);
        ghost var before := mem[..];
        ReadColumn(mem, p + j * channels, j, x, y);
        PutTwice(old(mem[..]), before, mem[..], p, RowOut(data, v, y, j), PixelOut(data, v, y, j));
        OneMorePixel(data, v, y, j);
        x := x + xStep;
      }
    }

    /** Output row y up to the column behind its last pixel. */
    method ReadRegion(mem: array<Byte>, p: nat, ghost y: nat) returns (x: nat)
      requires Framed() && pos == RowPos(rawWidth, y) && 0 <= width * Bytes(TheView())
      requires p + width * Bytes(TheView()) <= mem.Length
      modifies this`pos, this`secondGreen, this`secondGreenValid, mem
      ensures x <= rawWidth && pos == RowPos(rawWidth, y) + 4 * ((x + 1) / 2)
      ensures Put(old(mem[..]), mem[..], p, RowOut(data, TheView(), y, width))
    {
      hide RowPos, Put, PixelOut, PairByte, Bytes, Framed, RowOut, Column;
      FitsRow();
      x := x0;
      SeekLeft();
      if coi == All {
        secondGreenValid := false;
      }
      if coi == Unknown {
        PutNothing(mem[..], p);
        NoChannel(data, TheView(), y, width);
      } else {
        FirstColumn(TheView());
        x := ReadColumns(mem, p, y);
      }
    }

    /** Output row y: exactly the bytes of one image row leave the FIFO, whatever the
        width, the step and the channel. */
    method ReadRow(mem: array<Byte>, p: nat, ghost y: nat)
      requires Framed() && pos == RowPos(rawWidth, y) && 0 <= width * Bytes(TheView())
      requires p + width * Bytes(TheView()) <= mem.Length
      modifies this`pos, this`secondGreen, this`secondGreenValid, mem
      ensures Framed() && pos == RowPos(rawWidth, y) + 2 * rawWidth
      ensures Put(old(mem[..]), mem[..], p, RowOut(data, TheView(), y, width))
    {
      hide RowPos, Put, Bytes, Framed, RowOut;
      Steps();
      var x := ReadRegion(mem, p, y);
      SkipPixels((rawWidth - x) / 2);
    }

    /** _cc3_seek_top: down to the region, the FIFO standing at any row. It counts from
        the FIFO's row, so above the region it arrives at the row it says just if the
        FIFO stood at row 0. */
    method SeekTop(ghost at: nat)
      requires Framed() && pos == RowPos(rawWidth, at)
      modifies this`pos, this`yLoc
      ensures yLoc == Top(old(yLoc), y0) && pos == RowPos(rawWidth, Sought(at, old(yLoc), y0))
      ensures Aligned() <==> if old(yLoc) < y0 then at == 0 else at == old(yLoc)
    {
      hide RowPos;
      SoughtRow(rawWidth, at, y0);
      RowPosDiffers(rawWidth, Sought(at, yLoc, y0), Top(yLoc, y0));
      if yLoc < y0 {
        SkipPixels(rawWidth / 2 * y0);
        yLoc := y0;
      }
    }

    /** Down to the next output row; the row number has 16 bits. */
    method SkipRows(ghost y: nat)
      requires Framed() && pos == RowPos(rawWidth, y) + 2 * rawWidth
      modifies this`pos, this`yLoc
      ensures pos == RowPos(rawWidth, y + yStep) && yLoc == (old(yLoc) + yStep) % 65536
    {
      hide RowPos;
      SteppedRows(rawWidth, y, yStep);
      SkipPixels((yStep - 1) * rawWidth / 2);
      yLoc := (yLoc + yStep) % 65536;
    }

    /** The body of the loop over the rows. */
    method ReadAndSkip(mem: array<Byte>, p: nat, ghost y: nat)
      requires Framed() && pos == RowPos(rawWidth, y)
      requires 0 <= width * Bytes(TheView()) && p + width * Bytes(TheView()) <= mem.Length
      modifies this`pos, this`yLoc, this`secondGreen, this`secondGreenValid, mem
      ensures Framed() && pos == RowPos(rawWidth, y + yStep) && yLoc == (old(yLoc) + yStep) % 65536
      ensures Put(old(mem[..]), mem[..], p, RowOut(data, TheView(), y, width))
    {
      hide RowPos, Put, Bytes, RowOut, Framed;
      ReadRow(mem, p, y);
      SkipRows(y);
    }

    /** The loop over the rows, the FIFO standing at image row y. */
    method ReadLoop(mem: array<Byte>, n: nat, ghost y: nat)
      requires Framed() && pos == RowPos(rawWidth, y) && yLoc < 65536
      requires 0 <= width * Bytes(TheView()) && 0 <= n * (width * Bytes(TheView())) <= mem.Length
      modifies this`pos, this`yLoc, this`secondGreen, this`secondGreenValid, mem
      ensures Framed() && pos == RowPos(rawWidth, RowAt(y, yStep, n)) && yLoc == RowAt(old(yLoc), yStep, n) % 65536
      ensures Put(old(mem[..]), mem[..], 0, RowsOut(data, TheView(), width, y, yStep, n))
    {
      hide RowPos, Put, Bytes, RowOut, RowAt, RowsOut, Framed;
      ghost var v := TheView();
      PutNothing(mem[..], 0);
      NoRows(data, v, width, y, yStep);
      NoRows(data, v, width, yLoc, yStep);
      var size: nat := width * Bytes(TheView());
      for r := 0 to n
        invariant Framed() && pos == RowPos(rawWidth, RowAt(y, yStep, r)) && yLoc == RowAt(old(yLoc), yStep, r) % 65536
        invariant Put(old(mem[..]), mem[..], 0, RowsOut(data, v, width, y, yStep, r))
      {
        Room(r, n, size);
        RowsOutLength(data, v, width, y, yStep, r);
        ghost var before := mem[..];
        OneMoreRow(data, v, width, y, yStep, r);
        OneMoreRow(data, v, width, old(yLoc), yStep, r);
        AddInWord(RowAt(old(yLoc), yStep, r), yStep);
        ReadAndSkip(mem, r * size, RowAt(y, yStep, r));
        PutTwice(old(mem[..]), before, mem[..], 0, RowsOut(data, v, width, y, yStep, r),
                 RowOut(data, v, RowAt(y, yStep, r), width));
      }
    }

    /** cc3_pixbuf_read_rows: the rows asked for, or as many as the row limit allows,
        from the row that the seek arrives at, each pixel the one that random access
        would find. The FIFO may stand at any row, also at another one than the frame
        says. The row counter of the source has 16 bits and must not wrap. */
    method ReadRows(mem: array<Byte>, rows: nat, ghost at: nat) returns (n: nat)
      requires Framed() && pos == RowPos(rawWidth, at) && yLoc < 65536 && RowLimit(y1, yLoc, yStep, rows) < 65536
      requires Bulk(TheView(), width, RowLimit(y1, yLoc, yStep, rows)) <= mem.Length
      modifies this`pos, this`yLoc, this`secondGreen, this`secondGreenValid, mem
      ensures Framed() && n == RowLimit(y1, old(yLoc), yStep, rows)
      ensures pos == RowPos(rawWidth, RowAt(Sought(at, old(yLoc), y0), yStep, n))
      ensures yLoc == RowAt(Top(old(yLoc), y0), yStep, n) % 65536
      ensures Put(old(mem[..]), mem[..], 0, RowsOut(data, TheView(), width, Sought(at, old(yLoc), y0), yStep, n))
      ensures at == old(yLoc) ==>
                (Aligned() <==> (at == 0 || at >= y0) && RowAt(Top(at, y0), yStep, n) < 65536)
      ensures (forall r :: 0 <= r < n ==> RowAt(Sought(at, old(yLoc), y0), yStep, r) < y1)
              <==> StaysInside(y0, y1, at, old(yLoc), yStep, rows)
    {
      hide RowPos, Put, Bytes, RowOut, RowAt, RowsOut, Aligned, Framed, RowLimit, StaysInside, Bulk;
      Steps();
      n := RowLimit(y1, yLoc, yStep, rows);
      ghost var from := yLoc;
      SeekTop(at);
      BulkIs(TheView(), width, n);
      ReadLoop(mem, n, Sought(at, from, y0));
      Inside(y0, y1, at, from, yStep, rows);
      if at == from {
        AlignedAfter(from, n);
      }
    }

    lemma AlignedAfter(from: nat, n: nat)
      requires Framed() && pos == RowPos(rawWidth, RowAt(Sought(from, from, y0), yStep, n))
      requires yLoc == RowAt(Top(from, y0), yStep, n) % 65536
      ensures Aligned() <==> (from == 0 || from >= y0) && RowAt(Top(from, y0), yStep, n) < 65536
    {
      hide RowPos, RowAt;
      RowAtIs(Sought(from, from, y0), yStep, n);
      RowAtIs(Top(from, y0), yStep, n);
      RowPosDiffers(rawWidth, RowAt(Sought(from, from, y0), yStep, n), yLoc);
    }

    lemma Steps()
      requires Framed()
      ensures yStep > 0 && y0 <= y1 < 65536 && height == (y1 - y0) / yStep && 0 <= width && rawWidth % 2 == 0
    {
      FloorFits(x1 - x0, xStep);
    }
  }

  /** The first row to read, as the reader counts. */
  function Top(yLoc: nat, y0: nat): nat
  {
    if yLoc < y0 then y0 else yLoc
  }

  /** The image row that the seek to the top arrives at from row `at` of the FIFO, when
      the reader says row yLoc. */
  function Sought(at: nat, yLoc: nat, y0: nat): nat
  {
    if yLoc < y0 then at + y0 else at
  }

  /** The rows that a call reads. The limit is an unsigned number: below the region it
      wraps around as soon as the distance comes to a step. */
  function RowLimit(y1: nat, yLoc: nat, yStep: nat, rows: nat): (n: nat)
    requires yStep > 0
    ensures n <= rows
  {
    var limit: nat := if yLoc <= y1 then (y1 - yLoc) / yStep else (0 - (yLoc - y1) / yStep) % 0x1_0000_0000;
    if limit < rows then limit else rows
  }

  /** Below the region the limit stops a call only for a distance of less than a step;
      further down it allows every number of rows that a program would ask for. */
  lemma WrappedLimit(y1: nat, yLoc: nat, yStep: nat, rows: nat)
    requires 0 < yStep && y1 < yLoc < 65536 && rows <= 0xFFFF_0000
    ensures RowLimit(y1, yLoc, yStep, rows) == if yLoc - y1 < yStep then 0 else rows
  {
    var d := yLoc - y1;
    FloorExact(d, yStep, 1);
    QuotientBound(d, yStep);
    NegativeWord(d / yStep);
  }

  lemma QuotientBound(a: nat, d: nat)
    requires d > 0
    ensures 0 <= a / d <= a
  {
    FloorExact(a, d, 0);
    FloorExact(a, d, a + 1);
    assert (a + 1) * d == (a + 1) + (a + 1) * (d - 1);
    assert (a + 1) * (d - 1) >= 0;
  }

  /** A negative number as an unsigned one of 32 bits. */
  lemma NegativeWord(q: nat)
    requires q < 0x1_0000_0000
    ensures (0 - q) % 0x1_0000_0000 == if q == 0 then 0 else 0x1_0000_0000 - q
  {
  }

  lemma AddInWord(a: nat, b: nat)
    ensures (a % 65536 + b) % 65536 == (a + b) % 65536
  {
  }

  /** A read stays above the bottom of the region: it reads nothing, or its last row is
      above. */
  predicate StaysInside(y0: nat, y1: nat, at: nat, yLoc: nat, yStep: nat, rows: nat)
    requires yStep > 0
  {
    var n := RowLimit(y1, yLoc, yStep, rows);
    n == 0 || Sought(at, yLoc, y0) + (n - 1) * yStep < y1
  }

  /** Exactly then every row that is read lies in the region. */
  lemma Inside(y0: nat, y1: nat, at: nat, yLoc: nat, yStep: nat, rows: nat)
    requires yStep > 0
    ensures (forall r :: 0 <= r < RowLimit(y1, yLoc, yStep, rows) ==> RowAt(Sought(at, yLoc, y0), yStep, r) < y1)
            <==> StaysInside(y0, y1, at, yLoc, yStep, rows)
  {
    hide RowAt, RowLimit;
    var n, y := RowLimit(y1, yLoc, yStep, rows), Sought(at, yLoc, y0);
    if n > 0 {
      RowAtIs(y, yStep, n - 1);
      forall r: nat | r < n
        ensures RowAt(y, yStep, r) <= RowAt(y, yStep, n - 1)
      {
        RowsRise(y, yStep, r, n - 1);
      }
    }
  }

  /** A reader that stands where it says it does, in the region, stays inside, and so
      does one above the region that is asked for no more rows than it has, if the FIFO
      stands at row 0. */
  lemma WithinStays(y0: nat, y1: nat, at: nat, yLoc: nat, yStep: nat, rows: nat)
    requires yStep > 0 && y0 <= y1
    requires if yLoc < y0 then at == 0 && rows <= (y1 - y0) / yStep else at == yLoc <= y1
    ensures StaysInside(y0, y1, at, yLoc, yStep, rows)
  {
    hide RowLimit;
    var n := RowLimit(y1, yLoc, yStep, rows);
    if n > 0 {
      OneRowLess(n, yStep);
      if yLoc < y0 {
        FloorExact(y1 - y0, yStep, n);
      } else {
        LimitInside(y1, yLoc, yStep, rows);
      }
    }
  }

  lemma OneRowLess(n: nat, yStep: nat)
    requires n > 0 && yStep > 0
    ensures (n - 1) * yStep < n * yStep
  {
  }

  lemma RowsRise(y: nat, yStep: nat, r: nat, q: nat)
    requires r <= q
    ensures RowAt(y, yStep, r) <= RowAt(y, yStep, q)
  {
    hide RowAt;
    RowAtIs(y, yStep, r);
    RowAtIs(y, yStep, q);
    assert (q - r) * yStep >= 0;
    assert q * yStep == r * yStep + (q - r) * yStep;
  }

  /** A first read that leaves its region: of rows 4 to 8 by steps of two, with four
      rows asked for, it also reads row 10. */
  lemma BelowRegion()
    ensures RowLimit(9, 0, 2, 4) == 4 && !StaysInside(4, 9, 0, 0, 2, 4) && RowAt(Sought(0, 0, 4), 2, 3) == 10
  {
    RowAtIs(4, 2, 3);
  }

  /** A region moved down after a row was read: the reader says row 2 and reads row 3. */
  lemma MovedRegion()
    ensures Top(1, 2) == 2 && Sought(1, 1, 2) == 3 && RowPos(4, Sought(1, 1, 2)) != RowPos(4, Top(1, 2))
  {
    RowPosIs(4, 3);
    RowPosIs(4, 2);
  }

  /** Where no channel is selected nothing comes out. */
  lemma {:induction false} NoChannel(data: nat -> Byte, v: View, y: nat, n: nat)
    requires v.coi == Unknown
    ensures RowOut(data, v, y, n) == [] && Bytes(v) == 0
  {
    if n > 0 {
      NoChannel(data, v, y, n - 1);
    }
  }

  /** Rows to the top of the region, counted from the FIFO's row. */
  lemma SoughtRow(rawWidth: nat, y: nat, y0: nat)
    requires rawWidth % 2 == 0 && rawWidth > 0
    ensures rawWidth / 2 * y0 >= 0
    ensures RowPos(rawWidth, y) + 4 * (rawWidth / 2 * y0) == RowPos(rawWidth, y + y0)
  {
    hide RowPos;
    RowPosIs(rawWidth, y);
    RowPosIs(rawWidth, y + y0);
    var h := rawWidth / 2;
    assert rawWidth == 2 * h && h * y0 >= 0;
    assert 2 * rawWidth * (y + y0 + 1) == 2 * rawWidth * (y + 1) + 4 * (h * y0);
  }

  /** Different rows have different positions. */
  lemma RowPosDiffers(rawWidth: nat, y: nat, z: nat)
    requires rawWidth > 0
    ensures RowPos(rawWidth, y) == RowPos(rawWidth, z) <==> y == z
  {
    hide RowPos;
    RowPosIs(rawWidth, y);
    RowPosIs(rawWidth, z);
    if y < z {
      assert 2 * rawWidth * (z - y) > 0;
      assert 2 * rawWidth * (z + 1) == 2 * rawWidth * (y + 1) + 2 * rawWidth * (z - y);
    } else if z < y {
      assert 2 * rawWidth * (y - z) > 0;
      assert 2 * rawWidth * (y + 1) == 2 * rawWidth * (z + 1) + 2 * rawWidth * (y - z);
    }
  }

  /** Rows between two output rows. */
  lemma SteppedRows(rawWidth: nat, y: nat, yStep: nat)
    requires rawWidth % 2 == 0 && yStep > 0
    ensures (yStep - 1) * rawWidth / 2 >= 0
    ensures RowPos(rawWidth, y) + 2 * rawWidth + 4 * ((yStep - 1) * rawWidth / 2) == RowPos(rawWidth, y + yStep)
  {
    hide RowPos;
    RowPosIs(rawWidth, y);
    RowPosIs(rawWidth, y + yStep);
    var h := rawWidth / 2;
    var k := (yStep - 1) * h;
    assert k >= 0;
    assert (yStep - 1) * rawWidth == 2 * k;
    assert 2 * rawWidth * (y + yStep + 1) == 2 * rawWidth * (y + 1) + 2 * rawWidth + 4 * k;
  }

  lemma FloorExact(a: nat, d: nat, n: nat)
    requires d > 0
    ensures n * d <= a <==> n <= a / d
  {
    var q := a / d;
    assert a == q * d + a % d;
    if n <= q {
      assert (q - n) * d >= 0;
    } else {
      assert (n - q - 1) * d >= 0;
    }
  }

  lemma LimitInside(y1: nat, yLoc: nat, yStep: nat, rows: nat)
    requires yLoc <= y1 && yStep > 0
    ensures yLoc + RowLimit(y1, yLoc, yStep, rows) * yStep <= y1
  {
    FloorFits(y1 - yLoc, yStep);
  }

  lemma NoRows(data: nat -> Byte, v: View, width: nat, y: nat, yStep: nat)
    ensures RowsOut(data, v, width, y, yStep, 0) == [] && RowAt(y, yStep, 0) == y
  {
  }

  lemma OneMoreRow(data: nat -> Byte, v: View, width: nat, y: nat, yStep: nat, r: nat)
    ensures RowsOut(data, v, width, y, yStep, r + 1) ==
      RowsOut(data, v, width, y, yStep, r) + RowOut(data, v, RowAt(y, yStep, r), width)
    ensures RowAt(y, yStep, r + 1) == RowAt(y, yStep, r) + yStep
  {
  }

  lemma FirstColumn(v: View)
    ensures Column(v, 0) == v.x0
  {
  }

  lemma FloorFits(a: nat, d: nat)
    requires d > 0
    ensures 0 <= a / d * d <= a
  {
  }

  lemma NoPixels(data: nat -> Byte, v: View, y: nat)
    ensures RowOut(data, v, y, 0) == []
  {
  }

  lemma OneMorePixel(data: nat -> Byte, v: View, y: nat, j: nat)
    ensures RowOut(data, v, y, j + 1) == RowOut(data, v, y, j) + PixelOut(data, v, y, j)
  {
  }

  lemma Room(j: nat, n: nat, size: nat)
    requires j < n
    ensures 0 <= j * size && j * size + size <= n * size
  {
    assert (n - j - 1) * size >= 0;
    assert n * size == j * size + size + (n - j - 1) * size;
  }

  /** The last pixel in memory is the last one of the row so far. */
  lemma PreviousPixel(before: seq<Byte>, after: seq<Byte>, p: nat, data: nat -> Byte, v: View, y: nat, j: nat)
    requires Put(before, after, p, RowOut(data, v, y, j))
    ensures var q := p + |RowOut(data, v, y, j)|;
            j > 0 ==> p + Bytes(v) <= q <= |after| && after[q - Bytes(v)..q] == PixelOut(data, v, y, j - 1)
  {
    hide PixelOut, Bytes;
    if j > 0 {
      var s, t := RowOut(data, v, y, j - 1), PixelOut(data, v, y, j - 1);
      assert RowOut(data, v, y, j) == s + t;
      assert after[p + |s|..p + |s| + |t|] == t;
    }
  }

  /** The bytes of a pair. */
  lemma PairBytes(data: nat -> Byte, rawWidth: nat, x: nat, y: nat)
    ensures forall k: nat :: PairByte(data, rawWidth, x, y, k) == data(RowPos(rawWidth, y) + 4 * (x / 2) + k)
  {
    hide RowPos;
  }

  lemma SameGreen(data: nat -> Byte, rawWidth: nat, x: nat, y: nat)
    requires x % 2 == 0
    ensures PairByte(data, rawWidth, x + 1, y, 2) == PairByte(data, rawWidth, x, y, 2)
  {
    hide RowPos;
  }

  /** The right pixel of a pair shares the red and the blue of the left one. */
  lemma SecondOfPair(data: nat -> Byte, v: View, y: nat, j: nat)
    requires v.xStep == 1 && Column(v, j) % 2 == 1 && j > 0
    ensures var a, b := FramePixel(data, v.rawWidth, Column(v, j - 1), y),
      FramePixel(data, v.rawWidth, Column(v, j), y);
            a.c0 == b.c0 && a.c2 == b.c2
  {
    hide RowPos;
    assert Column(v, j) == Column(v, j - 1) + 1;
  }

  // ----- What the caller finds in memory -----

  /** Output pixel (j, r) of a read is the frame pixel that lies j steps across and r
      steps down from the corner of the region; with all channels and subsampling,
      its right neighbour, the other half of the pair. */
  lemma PixelInMemory(before: seq<Byte>, mem: seq<Byte>, data: nat -> Byte, v: View, width: nat, y: nat, yStep: nat,
                      n: nat, r: nat, j: nat)
    requires Put(before, mem, 0, RowsOut(data, v, width, y, yStep, n)) && r < n && j < width
    ensures var at := r * (width * Bytes(v)) + j * Bytes(v);
            && 0 <= at && at + Bytes(v) <= |mem|
            && 0 <= v.x0 + j * v.xStep && 0 <= y + r * yStep
            && mem[at..at + Bytes(v)]
               == Select(v, FramePixel(data, v.rawWidth,
                                      v.x0 + j * v.xStep + (if v.coi == All && v.xStep > 1 then 1 else 0),
                                      y + r * yStep))
  {
    hide RowsOut, RowOut, Bytes, RowAt, FramePixel, Select, Column, Put;
    var all := RowsOut(data, v, width, y, yStep, n);
    RowsOutAt(data, v, width, y, yStep, n, r);
    RowOutAt(data, v, RowAt(y, yStep, r), width, j);
    RowOutLength(data, v, RowAt(y, yStep, r), width);
    ColumnIs(v, j);
    RowAtIs(y, yStep, r);
    PutAtStart(before, mem, all);
    SliceOfSlice(mem, all, RowOut(data, v, RowAt(y, yStep, r), width), r * (width * Bytes(v)), j * Bytes(v), Bytes(v));
  }

  lemma PutAtStart(before: seq<Byte>, mem: seq<Byte>, all: seq<Byte>)
    requires Put(before, mem, 0, all)
    ensures |all| <= |mem| && mem[..|all|] == all
  {
  }

  lemma SliceOfSlice(mem: seq<Byte>, all: seq<Byte>, row: seq<Byte>, a: int, b: int, size: int)
    requires |all| <= |mem| && mem[..|all|] == all && 0 <= a && a + |row| <= |all| && all[a..a + |row|] == row
    requires 0 <= b && 0 <= size && b + size <= |row|
    ensures mem[a + b..a + b + size] == row[b..b + size]
  {
    var px := mem[a + b..a + b + size];
    forall i | 0 <= i < size
      ensures px[i] == row[b..b + size][i]
    {
      assert all[a..a + |row|][b + i] == all[a + (b + i)] == mem[..|all|][a + (b + i)];
    }
  }

  /** When reading a rows and then b rows is as many as reading a + b. From inside the
      region on it always is, as two requests of which one is for nothing. From above
      the region, where the limit of a first call is too high, the region has to have
      that many rows, or the limit has to be the true one, or both calls have to go
      beyond the bottom together: at most a step beyond it the second call reads
      nothing, so the first has to reach its limit; further down the second call has
      no limit, so the one call must not reach its own. */
  predicate AddsUp(y0: nat, y1: nat, from: nat, yStep: nat, a: nat, b: nat)
    requires yStep > 0 && y0 <= y1
  {
    from >= y0 || b == 0 || InRegion(y0, y1, from, yStep, a, b) || Beyond(y0, y1, from, yStep, a, b)
  }

  /** From above the region: what is read by the true limit. */
  predicate InRegion(y0: nat, y1: nat, from: nat, yStep: nat, a: nat, b: nat)
    requires yStep > 0 && y0 <= y1 && from < y0
  {
    a + b <= (y1 - y0) / yStep || (y1 - from) / yStep == (y1 - y0) / yStep
  }

  /** From above the region: a first call that goes beyond its bottom, and a second one
      that makes up for it. */
  predicate Beyond(y0: nat, y1: nat, from: nat, yStep: nat, a: nat, b: nat)
    requires yStep > 0 && y0 <= y1 && from < y0
  {
    var limit := (y1 - from) / yStep;
    var n := if a < limit then a else limit;
    a > (y1 - y0) / yStep && if (n - 1) * yStep < y1 - y0 then a >= limit else a + b <= limit
  }

  /** How many rows two calls read, and how many one call for all of them reads, for
      every start and any two requests that leave the row number within its 16 bits. */
  lemma CountInTwo(y0: nat, y1: nat, from: nat, yStep: nat, a: nat, b: nat)
    requires yStep > 0 && y0 <= y1 < 65536 && from < 65536 && a + b <= 0xFFFF_0000
    requires RowAt(Top(from, y0), yStep, RowLimit(y1, from, yStep, a)) < 65536
    ensures var n := RowLimit(y1, from, yStep, a);
            RowLimit(y1, from, yStep, a + b) == n + RowLimit(y1, RowAt(Top(from, y0), yStep, n), yStep, b)
            <==> AddsUp(y0, y1, from, yStep, a, b)
  {
    hide RowAt, RowLimit, AddsUp;
    if from > y1 {
      CountBelow(y0, y1, from, yStep, a, b);
    } else if from < y0 && a > (y1 - y0) / yStep {
      CountBeyond(y0, y1, from, yStep, a, b);
    } else {
      CountInside(y0, y1, from, yStep, a, b);
    }
  }

  /** From below the region both calls read nothing or all that they are asked for. */
  lemma CountBelow(y0: nat, y1: nat, from: nat, yStep: nat, a: nat, b: nat)
    requires yStep > 0 && y0 <= y1 < from < 65536 && a + b <= 0xFFFF_0000
    requires RowAt(from, yStep, RowLimit(y1, from, yStep, a)) < 65536
    ensures var n := RowLimit(y1, from, yStep, a);
            RowLimit(y1, from, yStep, a + b) == n + RowLimit(y1, RowAt(from, yStep, n), yStep, b)
    ensures AddsUp(y0, y1, from, yStep, a, b)
  {
    hide RowAt, RowLimit;
    var n := RowLimit(y1, from, yStep, a);
    RowAtIs(from, yStep, n);
    assert n * yStep >= 0;
    WrappedLimit(y1, from, yStep, a);
    WrappedLimit(y1, from, yStep, a + b);
    WrappedLimit(y1, RowAt(from, yStep, n), yStep, b);
    RowAtIs(from, yStep, 0);
  }

  /** From above the region with more rows asked for than it has. */
  lemma CountBeyond(y0: nat, y1: nat, from: nat, yStep: nat, a: nat, b: nat)
    requires yStep > 0 && from < y0 <= y1 < 65536 && a + b <= 0xFFFF_0000 && a > (y1 - y0) / yStep
    requires RowAt(y0, yStep, RowLimit(y1, from, yStep, a)) < 65536
    ensures var n := RowLimit(y1, from, yStep, a);
            RowLimit(y1, from, yStep, a + b) == n + RowLimit(y1, RowAt(y0, yStep, n), yStep, b)
            <==> AddsUp(y0, y1, from, yStep, a, b)
  {
    hide RowAt, RowLimit;
    var limit, height := (y1 - from) / yStep, (y1 - y0) / yStep;
    var n := RowLimit(y1, from, yStep, a);
    LimitAbove(y1, from, yStep, a);
    LimitAbove(y1, from, yStep, a + b);
    FloorMono(y1 - y0, y1 - from, yStep);
    RowAtIs(y0, yStep, n);
    FloorExact(y1 - y0, yStep, n);
    if n == height {
      CountInside(y0, y1, from, yStep, n, b);
      LimitAbove(y1, from, yStep, n);
      LimitAbove(y1, from, yStep, n + b);
    } else {
      assert n * yStep == (n - 1) * yStep + yStep;
      WrappedLimit(y1, RowAt(y0, yStep, n), yStep, b);
    }
  }

  lemma LimitAbove(y1: nat, yLoc: nat, yStep: nat, rows: nat)
    requires yStep > 0 && yLoc <= y1
    ensures RowLimit(y1, yLoc, yStep, rows) == if (y1 - yLoc) / yStep < rows then (y1 - yLoc) / yStep else rows
  {
  }

  /** From inside the region, or from above it with no more rows than it has. */
  lemma CountInside(y0: nat, y1: nat, from: nat, yStep: nat, a: nat, b: nat)
    requires yStep > 0 && y0 <= y1 && from <= y1 && (from < y0 ==> a <= (y1 - y0) / yStep)
    ensures var n := RowLimit(y1, from, yStep, a);
            && RowAt(Top(from, y0), yStep, n) <= y1
            && (RowLimit(y1, from, yStep, a + b) == n + RowLimit(y1, RowAt(Top(from, y0), yStep, n), yStep, b)
                <==> AddsUp(y0, y1, from, yStep, a, b))
  {
    hide RowAt;
    var n, y := RowLimit(y1, from, yStep, a), Top(from, y0);
    FloorMono(y1 - y, y1 - from, yStep);
    RowAtIs(y, yStep, n);
    FloorExact(y1 - y, yStep, n);
    FloorRest(y1 - y, yStep, n);
  }

  /** Rows 4 to 8 by steps of two, from row 0: reading one row and then two gives two,
      reading three gives three. */
  lemma CountsDiffer()
    ensures RowLimit(9, 0, 2, 1) == 1 && RowLimit(9, RowAt(Top(0, 4), 2, 1), 2, 2) == 1 && RowLimit(9, 0, 2, 3) == 3
    ensures !AddsUp(4, 9, 0, 2, 1, 2)
  {
  }

  lemma FloorMono(a: nat, b: nat, d: nat)
    requires d > 0 && a <= b
    ensures 0 <= a / d <= b / d
  {
    QuotientBound(a, d);
    FloorFits(a, d);
    FloorExact(b, d, a / d);
  }

  /** From above the region no more rows are asked for than it has. */
  predicate InHeight(y0: nat, y1: nat, from: nat, yStep: nat, rows: nat)
    requires y0 <= y1 && yStep > 0
  {
    from < y0 ==> rows <= (y1 - y0) / yStep
  }

  /** Within the region's height two calls read what one reads. */
  lemma TwoCounts(y0: nat, y1: nat, from: nat, yStep: nat, a: nat, b: nat)
    requires yStep > 0 && y0 <= y1 && from <= y1 && InHeight(y0, y1, from, yStep, a + b)
    ensures var next := RowAt(Top(from, y0), yStep, RowLimit(y1, from, yStep, a));
            && y0 <= next <= y1
            && RowLimit(y1, from, yStep, a + b) == RowLimit(y1, from, yStep, a) + RowLimit(y1, next, yStep, b)
  {
    hide RowAt, RowLimit;
    CountInside(y0, y1, from, yStep, a, b);
    RowAtIs(Top(from, y0), yStep, 0);
    RowsRise(Top(from, y0), yStep, 0, RowLimit(y1, from, yStep, a));
  }

  /** Reading a rows and then b rows is reading a + b rows, from a region's inside or,
      within its height, from above it. */
  method ReadTwice(c: Camera, mem1: array<Byte>, a: nat, mem2: array<Byte>, b: nat) returns (n: nat, m: nat)
    requires c.Framed() && c.Aligned() && c.yLoc <= c.y1 && (c.yLoc == 0 || c.yLoc >= c.y0) && mem1 != mem2
    requires InHeight(c.y0, c.y1, c.yLoc, c.yStep, a + b)
    requires Bulk(c.TheView(), c.width, a) <= mem1.Length && Bulk(c.TheView(), c.width, b) <= mem2.Length
    modifies c`pos, c`yLoc, c`secondGreen, c`secondGreenValid, mem1, mem2
    ensures n + m == RowLimit(c.y1, old(c.yLoc), c.yStep, a + b)
    ensures Bulk(c.TheView(), c.width, n) <= mem1.Length && Bulk(c.TheView(), c.width, m) <= mem2.Length
    ensures mem1[..Bulk(c.TheView(), c.width, n)] + mem2[..Bulk(c.TheView(), c.width, m)]
            == RowsOut(c.data, c.TheView(), c.width, Sought(old(c.yLoc), old(c.yLoc), c.y0), c.yStep, n + m)
  {
    hide RowPos, Put, Bytes, RowAt, RowsOut, RowLimit, StaysInside, Bulk, InHeight, Camera.Framed;
    ghost var from, v, y := c.yLoc, c.TheView(), Sought(c.yLoc, c.yLoc, c.y0);
    c.Steps();
    TwoCounts(c.y0, c.y1, from, c.yStep, a, b);
    SmallLimit(c.y1, from, c.yStep, a);
    BulkMono(v, c.width, RowLimit(c.y1, from, c.yStep, a), a);
    n := c.ReadRows(mem1, a, from);
    ghost var next, first := c.yLoc, mem1[..];
    SmallLimit(c.y1, next, c.yStep, b);
    BulkMono(v, c.width, RowLimit(c.y1, next, c.yStep, b), b);
    m := c.ReadRows(mem2, b, next);
    JoinTwo(old(mem1[..]), first, old(mem2[..]), mem2[..], c.data, v, c.width, y, c.yStep, n, m);
  }

  /** The rows of two reads, one behind the other. */
  lemma JoinTwo(before1: seq<Byte>, mem1: seq<Byte>, before2: seq<Byte>, mem2: seq<Byte>, data: nat -> Byte, v: View,
                width: nat,
                y: nat, yStep: nat, n: nat, m: nat)
    requires Put(before1, mem1, 0, RowsOut(data, v, width, y, yStep, n))
    requires Put(before2, mem2, 0, RowsOut(data, v, width, RowAt(y, yStep, n), yStep, m))
    ensures Bulk(v, width, n) <= |mem1| && Bulk(v, width, m) <= |mem2|
    ensures mem1[..Bulk(v, width, n)] + mem2[..Bulk(v, width, m)] == RowsOut(data, v, width, y, yStep, n + m)
  {
    hide RowsOut, RowAt, Bytes, Put;
    PutAtStart(before1, mem1, RowsOut(data, v, width, y, yStep, n));
    PutAtStart(before2, mem2, RowsOut(data, v, width, RowAt(y, yStep, n), yStep, m));
    RowsOutLength(data, v, width, y, yStep, n);
    RowsOutLength(data, v, width, RowAt(y, yStep, n), yStep, m);
    RowsInTwo(data, v, width, y, yStep, n, m);
  }

  lemma SmallLimit(y1: nat, yLoc: nat, yStep: nat, rows: nat)
    requires yStep > 0 && yLoc <= y1 < 65536
    ensures RowLimit(y1, yLoc, yStep, rows) < 65536
  {
    QuotientBound(y1 - yLoc, yStep);
  }

  lemma BulkIs(v: View, width: nat, n: nat)
    ensures 0 <= width * Bytes(v) && Bulk(v, width, n) == n * (width * Bytes(v))
  {
  }

  lemma FloorRest(a: nat, d: nat, n: nat)
    requires d > 0 && n * d <= a
    ensures (a - n * d) / d == a / d - n && n <= a / d
  {
    FloorExact(a, d, n);
    FloorFits(a - n * d, d);
    var q := (a - n * d) / d;
    assert a - n * d == q * d + (a - n * d) % d;
    FloorExact(a, d, n + q);
    assert (n + q) * d == n * d + q * d;
    FloorExact(a, d, n + q + 1);
    assert (n + q + 1) * d == n * d + q * d + d;
  }
}
