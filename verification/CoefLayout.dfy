/** Where the blocks that the controllers send belong: the MCUs of a scan as a layout of
    the padded image, so that the bytes of a script's scans convey the image itself. */
module CoefLayout {
  import opened Arith
  import opened ZigzagOrder
  import opened CoefGeometry
  import opened CoefPlaces
  import ScanScript
  import SimpleScript
  import S = ProgScan
  import P = ProgImage
  import W = WholeImage

  // ----- The padded image -----

  /** Blocks across and down the padded plane of a component. */
  function Across(f: Frame, c: Component): nat
  {
    Rect(c.h, McusAcross(f))
  }

  function Down(f: Frame, c: Component): nat
  {
    Rect(c.v, TotalRows(f))
  }

  /** Blocks are numbered row by row. */
  function Number(f: Frame, c: Component, y: nat, x: nat): nat
  {
    Rect(Across(f, c), y) + x
  }

  /** The padded planes, each as one sequence of blocks. */
  ghost function Flat(f: Frame, img: seq<Plane>): (r: P.Image)
    requires ImageOk(f, img)
    ensures |r| == |img| && forall c :: 0 <= c < |r| ==> |r[c]| == Rect(Across(f, f.comps[c]), Down(f, f.comps[c]))
  {
    seq(|img|, c requires 0 <= c < |img| => FlatPlane(f, img, c))
  }

  ghost function FlatPlane(f: Frame, img: seq<Plane>, c: nat): (r: seq<Block>)
    requires ImageOk(f, img) && c < |img|
    ensures |r| == Rect(Across(f, f.comps[c]), Down(f, f.comps[c]))
  {
    Geometry(f, f.comps[c]);
    AcrossPositive(f, f.comps[c]);
    var w := Across(f, f.comps[c]);
    seq(Rect(w, Down(f, f.comps[c])), n requires n >= 0 =>
      DivNonNegative(n, w);
      Padded(img[c], WidthInBlocks(f, f.comps[c]), HeightInBlocks(f, f.comps[c]), f.comps[c].h, n / w, n % w))
  }

  lemma AcrossPositive(f: Frame, c: Component)
    requires FrameOk(f) && c in f.comps
    ensures Across(f, c) > 0 && c.h > 0 && WidthInBlocks(f, c) <= Across(f, c) && HeightInBlocks(f, c) <= Down(f, c)
  {
    hide WidthInBlocks, HeightInBlocks, McusAcross, TotalRows, LastOf;
    Geometry(f, c);
  }

  /** The numbers of the blocks that lie in the image. */
  function Real(f: Frame, c: Component): set<nat>
  {
    set y: nat, x: nat | y < HeightInBlocks(f, c) && x < WidthInBlocks(f, c) :: Number(f, c, y, x)
  }

  function InImage(f: Frame): W.Inside
  {
    seq(|f.comps|, c requires 0 <= c < |f.comps| => Real(f, f.comps[c]))
  }

  lemma NumberIn(f: Frame, c: Component, y: nat, x: nat)
    requires FrameOk(f) && c in f.comps && y < Down(f, c) && x < Across(f, c)
    ensures Number(f, c, y, x) < Rect(Across(f, c), Down(f, c))
    ensures Number(f, c, y, x) / Across(f, c) == y && Number(f, c, y, x) % Across(f, c) == x
  {
    hide McusAcross, TotalRows;
    var w := Across(f, c);
    UniqueQuotient(Rect(w, y) + x, w, y, x);
    RectStep(w, y + 1);
    RectMono(w, y + 1, Down(f, c));
  }

  lemma FlatAt(f: Frame, img: seq<Plane>, c: nat, y: nat, x: nat)
    requires ImageOk(f, img) && c < |img| && y < Down(f, f.comps[c]) && x < Across(f, f.comps[c])
    ensures WidthInBlocks(f, f.comps[c]) > 0 && HeightInBlocks(f, f.comps[c]) > 0 && f.comps[c].h > 0
    ensures Number(f, f.comps[c], y, x) < |Flat(f, img)[c]|
    ensures Flat(f, img)[c][Number(f, f.comps[c], y, x)] ==
      Padded(img[c], WidthInBlocks(f, f.comps[c]), HeightInBlocks(f, f.comps[c]), f.comps[c].h, y, x)
  {
    hide McusAcross, TotalRows, WidthInBlocks, HeightInBlocks, Padded, Across, Down, Number, Rect;
    Geometry(f, f.comps[c]);
    AcrossPositive(f, f.comps[c]);
    NumberIn(f, f.comps[c], y, x);
  }

  // ----- Places and positions -----

  /** Every place lies in the padded plane. */
  lemma PlaceInside(f: Frame, scan: seq<nat>, i: nat, p: Place)
    requires ScanOk(f, scan) && i < |scan| && InScan(f, scan, i, p)
    ensures RowOf(f, scan, i, p) < Down(f, f.comps[scan[i]]) && ColumnOf(f, scan, i, p) < Across(f, f.comps[scan[i]])
  {
    hide WidthInBlocks, HeightInBlocks, TotalRows, McusAcross, LastOf;
    var c := f.comps[scan[i]];
    Geometry(f, c);
    AcrossPositive(f, c);
    MulLess(c.v, p.r, TotalRows(f));
    if |scan| > 1 {
      MulLess(c.h, p.col, McusAcross(f));
    }
  }

  /** A block is at one place only, padding included. */
  lemma SamePlace(f: Frame, scan: seq<nat>, i: nat, p: Place, q: Place)
    requires ScanOk(f, scan) && i < |scan| && InScan(f, scan, i, p) && InScan(f, scan, i, q)
    requires RowOf(f, scan, i, p) == RowOf(f, scan, i, q) && ColumnOf(f, scan, i, p) == ColumnOf(f, scan, i, q)
    ensures p == q
  {
    hide WidthInBlocks, HeightInBlocks, TotalRows, McusAcross, LastOf;
    var c, y, x := f.comps[scan[i]], RowOf(f, scan, i, p), ColumnOf(f, scan, i, p);
    Geometry(f, c);
    UniqueQuotient(y, c.v, p.r, p.yoff + p.yi);
    UniqueQuotient(y, c.v, q.r, q.yoff + q.yi);
    if |scan| > 1 {
      UniqueQuotient(x, c.h, p.col, p.xi);
      UniqueQuotient(x, c.h, q.col, q.xi);
    }
  }

  /** The MCU with a number. */
  lemma {:induction false} FindMcu(f: Frame, scan: seq<nat>, img: seq<Plane>, r: nat, yoff: nat, col: nat, m: nat)
    returns (p: Place)
    requires ScanOk(f, scan) && ImageOk(f, img) && m < |Before(f, scan, img, r, yoff, col)|
    requires r < TotalRows(f) || (r == TotalRows(f) && yoff == col == 0)
    requires r < TotalRows(f) ==> yoff < RowsIn(f, scan, r) || (yoff == RowsIn(f, scan, r) && col == 0)
    requires col <= McusPerRow(f, scan)
    ensures McuNo(f, scan, img, p) == m && p.yi == p.xi == 0
    ensures p.r < TotalRows(f) && p.yoff < RowsIn(f, scan, p.r) && p.col < McusPerRow(f, scan)
    decreases r, yoff, col
  {
    hide RowsIn, McusPerRow, ImageOk, McuAt, TotalRows;
    if col > 0 {
      if m == |Before(f, scan, img, r, yoff, col - 1)| {
        return Place(r, yoff, col - 1, 0, 0);
      }
      p := FindMcu(f, scan, img, r, yoff, col - 1, m);
    } else if yoff > 0 {
      p := FindMcu(f, scan, img, r, yoff - 1, McusPerRow(f, scan), m);
    } else {
      p := FindMcu(f, scan, img, r - 1, RowsIn(f, scan, r - 1), 0, m);
    }
  }

  /** The block of an MCU with a number. */
  lemma {:induction false} FindBlock(f: Frame, scan: seq<nat>, n: nat, b: nat) returns (i: nat, yi: nat, xi: nat)
    requires ScanOk(f, scan) && n <= |scan| && b < Offset(f, scan, n)
    ensures i < n && yi < Setup(f, scan, i).mcuHeight && xi < Setup(f, scan, i).mcuWidth
    ensures b == Offset(f, scan, i) + Rect(Setup(f, scan, i).mcuWidth, yi) + xi
  {
    hide Setup;
    if b < Offset(f, scan, n - 1) {
      i, yi, xi := FindBlock(f, scan, n - 1, b);
    } else {
      i := n - 1;
      var w, h, rest := Setup(f, scan, i).mcuWidth, Setup(f, scan, i).mcuHeight, b - Offset(f, scan, i);
      yi, xi := InRect(w, h, rest);
    }
  }

  lemma InRect(w: nat, h: nat, n: nat) returns (y: nat, x: nat)
    requires n < Rect(w, h)
    ensures y < h && x < w && n == Rect(w, y) + x
  {
    DivMod(n, w);
    DivNonNegative(n, w);
    y, x := n / w, n % w;
    if y >= h {
      RectMono(w, h, y);
    }
  }

  /** A block of a scan: of which component, and at which place. */
  datatype Slot = Slot(i: nat, p: Place)

  ghost predicate IsSlot(f: Frame, scan: seq<nat>, img: seq<Plane>, m: nat, b: nat, t: Slot)
    requires ScanOk(f, scan) && ImageOk(f, img)
  {
    t.i < |scan| && SentAt(f, scan, img, t.i, t.p, m, b)
  }

  /** Every position of the MCU sequence is a place. */
  lemma PositionIsPlace(f: Frame, scan: seq<nat>, img: seq<Plane>, m: nat, b: nat)
    requires ScanOk(f, scan) && ImageOk(f, img) && m < |AllMcus(f, scan, img)| && b < Offset(f, scan, |scan|)
    ensures exists t :: IsSlot(f, scan, img, m, b, t)
  {
    hide RowsIn, McusPerRow, ImageOk, McuAt, TotalRows, Setup, Offset, Rect;
    var p := FindMcu(f, scan, img, TotalRows(f), 0, 0, m);
    var i, yi, xi := FindBlock(f, scan, |scan|, b);
    assert IsSlot(f, scan, img, m, b, Slot(i, Place(p.r, p.yoff, p.col, yi, xi)));
  }

  ghost function SlotOf(f: Frame, scan: seq<nat>, img: seq<Plane>, m: nat, b: nat): (t: Slot)
    requires ScanOk(f, scan) && ImageOk(f, img) && m < |AllMcus(f, scan, img)| && b < Offset(f, scan, |scan|)
    ensures IsSlot(f, scan, img, m, b, t)
  {
    PositionIsPlace(f, scan, img, m, b);
    var t :| IsSlot(f, scan, img, m, b, t);
    t
  }

  /** The number of the block at a place. */
  function NumberAt(f: Frame, scan: seq<nat>, t: Slot): nat
    requires ScanOk(f, scan) && t.i < |scan|
  {
    Number(f, f.comps[scan[t.i]], RowOf(f, scan, t.i, t.p), ColumnOf(f, scan, t.i, t.p))
  }

  /** The block numbers of the MCUs that are sent. */
  ghost function LayoutOf(f: Frame, scan: seq<nat>, img: seq<Plane>): (at: P.Layout)
    requires ScanOk(f, scan) && ImageOk(f, img)
    ensures |at| == |AllMcus(f, scan, img)|
    ensures forall m :: 0 <= m < |at| ==> |at[m]| == Offset(f, scan, |scan|)
  {
    hide AllMcus, ImageOk, ScanOk, IsSlot, NumberAt, Offset;
    seq(|AllMcus(f, scan, img)|, m requires 0 <= m < |AllMcus(f, scan, img)| =>
      seq(Offset(f, scan, |scan|), b requires 0 <= b < Offset(f, scan, |scan|) =>
        var t := SlotOf(f, scan, img, m, b);
        assert t.i < |scan| by { SlotIn(f, scan, img, m, b, t); }
        NumberAt(f, scan, t)))
  }

  lemma SlotIn(f: Frame, scan: seq<nat>, img: seq<Plane>, m: nat, b: nat, t: Slot)
    requires ScanOk(f, scan) && ImageOk(f, img) && IsSlot(f, scan, img, m, b, t)
    ensures t.i < |scan|
  {
  }

  lemma SlotIs(f: Frame, scan: seq<nat>, img: seq<Plane>, m: nat, b: nat, i: nat, p: Place)
    requires ScanOk(f, scan) && ImageOk(f, img) && i < |scan| && SentAt(f, scan, img, i, p, m, b)
    ensures m < |AllMcus(f, scan, img)| && b < Offset(f, scan, |scan|) && SlotOf(f, scan, img, m, b) == Slot(i, p)
    ensures m < |LayoutOf(f, scan, img)| && b < |LayoutOf(f, scan, img)[m]|
    ensures LayoutOf(f, scan, img)[m][b] == NumberAt(f, scan, Slot(i, p))
  {
    hide AllMcus, ImageOk, SentAt, NumberAt, Offset, McuNo;
    PlaceIsSent(f, scan, img, i, p, m, b);
    AllSized(f, scan, img, m);
    var t := SlotOf(f, scan, img, m, b);
    SlotIn(f, scan, img, m, b, t);
  }

  /** Every MCU has as many blocks as its components have places. */
  lemma AllSized(f: Frame, scan: seq<nat>, img: seq<Plane>, m: nat)
    requires ScanOk(f, scan) && ImageOk(f, img) && m < |AllMcus(f, scan, img)|
    ensures |AllMcus(f, scan, img)[m]| == Offset(f, scan, |scan|)
  {
    hide RowsIn, McusPerRow, ImageOk, TotalRows, Setup, Offset, Rect, McuPart;
    var p := FindMcu(f, scan, img, TotalRows(f), 0, 0, m);
    BeforeGrows(f, scan, img, p.r, p.yoff, p.col + 1, TotalRows(f), 0, 0);
    PartLength(f, scan, img, p.r, p.yoff, p.col, |scan|);
  }

  /** What is sent at a place is the block of the padded image there. */
  lemma SentBlock(f: Frame, scan: seq<nat>, img: seq<Plane>, i: nat, p: Place)
    requires ScanOk(f, scan) && ImageOk(f, img) && i < |scan| && InScan(f, scan, i, p)
    ensures NumberAt(f, scan, Slot(i, p)) < |Flat(f, img)[scan[i]]|
    ensures Flat(f, img)[scan[i]][NumberAt(f, scan, Slot(i, p))] ==
      BlockAt(f, scan, img, i, RowOf(f, scan, i, p), ColumnOf(f, scan, i, p))
  {
    hide WidthInBlocks, HeightInBlocks, TotalRows, McusAcross, Across, Down, Number, RowsIn, McusPerRow, RowOf,
      ColumnOf;
    PlaceInside(f, scan, i, p);
    FlatAt(f, img, scan[i], RowOf(f, scan, i, p), ColumnOf(f, scan, i, p));
    if |scan| == 1 {
      SingleIsReal(f, scan, p);
    }
  }

  // ----- The scans of a script -----

  /** MCU_membership: the component of each block of an MCU. */
  ghost predicate MembershipOk(f: Frame, scan: seq<nat>, membership: seq<nat>)
    requires ScanOk(f, scan)
  {
    && |membership| == Offset(f, scan, |scan|)
    && forall i, b :: 0 <= i < |scan| && Offset(f, scan, i) <= b < Offset(f, scan, i + 1) && b < |membership| ==>
         membership[b] == i
  }

  /** The components of a script entry, as the controllers number them. */
  function Comps(s: ScanScript.ScanInfo): (scan: seq<nat>)
    requires forall i :: 0 <= i < |s.comps| ==> s.comps[i] >= 0
    ensures |scan| == |s.comps| && forall i :: 0 <= i < |scan| ==> scan[i] == s.comps[i]
  {
    seq(|s.comps|, i requires 0 <= i < |s.comps| => s.comps[i])
  }

  /** A scan set up for a script entry, with the blocks of its MCUs assigned to its
      components as per_scan_setup does. */
  ghost predicate SetUp(f: Frame, sc: S.PScan, s: ScanScript.ScanInfo)
  {
    && FrameOk(f) && P.ScanOf(sc, s) && ScanScript.CompsOk(s, |f.comps|) && (sc.ss > 0 ==> |s.comps| == 1)
    && ScanOk(f, Comps(s)) && MembershipOk(f, Comps(s), sc.membership)
  }

  /** What is at a position. */
  lemma Position(f: Frame, img: seq<Plane>, sc: S.PScan, s: ScanScript.ScanInfo, m: nat, b: nat)
    returns (i: nat, p: Place)
    requires SetUp(f, sc, s) && ImageOk(f, img)
    requires m < |LayoutOf(f, Comps(s), img)| && b < |sc.membership|
    ensures i == sc.membership[b] < |s.comps| && P.Component(sc, s, b) == s.comps[i]
    ensures SentAt(f, Comps(s), img, i, p, m, b)
    ensures LayoutOf(f, Comps(s), img)[m][b] == NumberAt(f, Comps(s), Slot(i, p))
  {
    hide AllMcus, ImageOk, NumberAt, Offset, McuNo, InScan, BlockNo;
    var t := SlotOf(f, Comps(s), img, m, b);
    SlotIn(f, Comps(s), img, m, b, t);
    i, p := t.i, t.p;
    SlotIs(f, Comps(s), img, m, b, i, p);
    BlockInPart(f, Comps(s), i, p);
  }

  lemma OnePlaneEach(f: Frame, img: seq<Plane>)
    requires ImageOk(f, img)
    ensures |img| == |f.comps|
  {
  }

  /** The layout numbers blocks of the padded image, and the MCUs it stands for are the
      ones that the controllers send. */
  lemma LayoutSends(f: Frame, img: seq<Plane>, sc: S.PScan, s: ScanScript.ScanInfo)
    requires SetUp(f, sc, s) && ImageOk(f, img)
    ensures P.LaidOut(sc, s, Flat(f, img), LayoutOf(f, Comps(s), img))
    ensures P.Mcus(sc, s, Flat(f, img), LayoutOf(f, Comps(s), img)) == AllMcus(f, Comps(s), img)
  {
    hide AllMcus, ImageOk, NumberAt, Offset, McuNo, BlockNo, InScan, BlockAt, SlotOf;
    var scan, at, all := Comps(s), LayoutOf(f, Comps(s), img), AllMcus(f, Comps(s), img);
    OnePlaneEach(f, img);
    forall m, b | 0 <= m < |at| && 0 <= b < |at[m]|
      ensures at[m][b] < |Flat(f, img)[s.comps[sc.membership[b]]]| && b < |all[m]|
      ensures Flat(f, img)[s.comps[sc.membership[b]]][at[m][b]] == all[m][b]
    {
      var i, p := Position(f, img, sc, s, m, b);
      SentBlock(f, scan, img, i, p);
      PlaceIsSent(f, scan, img, i, p, m, b);
    }
    forall m | 0 <= m < |all|
      ensures P.Mcus(sc, s, Flat(f, img), at)[m] == all[m]
    {
      AllSized(f, scan, img, m);
    }
  }

  /** Two positions of the same block are the same. */
  lemma PositionsApart(f: Frame, img: seq<Plane>, sc: S.PScan, s: ScanScript.ScanInfo, m: nat, b: nat, m2: nat, b2: nat,
                       c: int, n: nat)
    requires SetUp(f, sc, s) && ImageOk(f, img)
    requires W.SlotAt(sc, s, LayoutOf(f, Comps(s), img), m, b, c, n)
    requires W.SlotAt(sc, s, LayoutOf(f, Comps(s), img), m2, b2, c, n)
    ensures m == m2 && b == b2
  {
    hide AllMcus, ImageOk, NumberAt, Offset, McuNo, BlockNo, InScan;
    var scan := Comps(s);
    var i, p := Position(f, img, sc, s, m, b);
    var j, q := Position(f, img, sc, s, m2, b2);
    assert i == j;
    SameNumber(f, scan, i, p, q);
  }

  lemma SameNumber(f: Frame, scan: seq<nat>, i: nat, p: Place, q: Place)
    requires ScanOk(f, scan) && i < |scan| && InScan(f, scan, i, p) && InScan(f, scan, i, q)
    requires NumberAt(f, scan, Slot(i, p)) == NumberAt(f, scan, Slot(i, q))
    ensures p == q
  {
    hide Number, InScan, RowOf, ColumnOf, Across, Down;
    PlaceInside(f, scan, i, p);
    PlaceInside(f, scan, i, q);
    NumberIn(f, f.comps[scan[i]], RowOf(f, scan, i, p), ColumnOf(f, scan, i, p));
    NumberIn(f, f.comps[scan[i]], RowOf(f, scan, i, q), ColumnOf(f, scan, i, q));
    SamePlace(f, scan, i, p, q);
  }

  /** Every block of the image is somewhere in the layout. */
  lemma RealIsSent(f: Frame, img: seq<Plane>, sc: S.PScan, s: ScanScript.ScanInfo, c: int, n: nat)
    returns (m: nat, b: nat)
    requires SetUp(f, sc, s) && ImageOk(f, img) && c in s.comps
    requires 0 <= c < |f.comps| && n in Real(f, f.comps[c])
    ensures W.SlotAt(sc, s, LayoutOf(f, Comps(s), img), m, b, c, n)
  {
    hide AllMcus, ImageOk, Offset, McuNo, BlockNo, InScan, HeightInBlocks, WidthInBlocks, RowOf, ColumnOf, PlaceOf,
      Number, LayoutOf;
    var scan := Comps(s);
    var i: nat :| i < |s.comps| && s.comps[i] == c;
    var y: nat, x: nat :| y < HeightInBlocks(f, f.comps[c]) && x < WidthInBlocks(f, f.comps[c])
      && n == Number(f, f.comps[c], y, x);
    var p := PlaceOf(f, scan, i, y, x);
    EachBlockOnce(f, scan, i, y, x, p);
    m, b := McuNo(f, scan, img, p), BlockNo(f, scan, i, p);
    assert SentAt(f, scan, img, i, p, m, b);
    SlotIs(f, scan, img, m, b, i, p);
    var j, q := Position(f, img, sc, s, m, b);
    PlaceIsSent(f, scan, img, i, p, m, b);
  }

  /** A scan of one component has no padding. */
  lemma SingleInside(f: Frame, img: seq<Plane>, sc: S.PScan, s: ScanScript.ScanInfo, m: nat, b: nat, c: int, n: nat)
    requires SetUp(f, sc, s) && ImageOk(f, img) && sc.ss > 0
    requires W.SlotAt(sc, s, LayoutOf(f, Comps(s), img), m, b, c, n)
    ensures 0 <= c < |f.comps| && n in Real(f, f.comps[c])
  {
    hide AllMcus, ImageOk, Offset, McuNo, BlockNo, InScan, HeightInBlocks, WidthInBlocks, RowOf, ColumnOf, Number,
      LayoutOf;
    var i, p := Position(f, img, sc, s, m, b);
    SingleIsReal(f, Comps(s), p);
  }

  /** A scan that is sent holds every block of the image of its components, none twice,
      and padding only in scans of several components. */
  lemma LayoutOnce(f: Frame, img: seq<Plane>, sc: S.PScan, s: ScanScript.ScanInfo)
    requires SetUp(f, sc, s) && ImageOk(f, img)
    ensures W.OnceEach(sc, s, LayoutOf(f, Comps(s), img), InImage(f))
  {
    hide AllMcus, ImageOk, Real, LayoutOf, W.SlotAt, MembershipOk, P.ScanOf;
    var at := LayoutOf(f, Comps(s), img);
    forall m: nat, b: nat, p: nat, q: nat, c, n: nat |
        W.SlotAt(sc, s, at, m, b, c, n) && W.SlotAt(sc, s, at, p, q, c, n)
      ensures m == p && b == q
    {
      PositionsApart(f, img, sc, s, m, b, p, q, c, n);
    }
    forall c, n: nat | 0 <= c < |InImage(f)| && c in s.comps && n in InImage(f)[c]
      ensures exists m, b :: W.SlotAt(sc, s, at, m, b, c, n)
    {
      var m, b := RealIsSent(f, img, sc, s, c, n);
    }
    if sc.ss > 0 {
      forall m: nat, b: nat, c, n: nat | W.SlotAt(sc, s, at, m, b, c, n)
        ensures 0 <= c < |InImage(f)| && n in InImage(f)[c]
      {
        SingleInside(f, img, sc, s, m, b, c, n);
      }
    }
  }

  // ----- The whole image -----

  /** A scan of the image, coded from the MCUs that the controllers send. */
  ghost predicate Coded(f: Frame, img: seq<Plane>, x: W.Sent)
    requires ImageOk(f, img)
  {
    hide AllMcus, ImageOk, BytesOf, S.PScanOk, S.TablesOk;
    && SetUp(f, x.sc, x.info) && S.PScanOk(x.sc) && S.TablesOk(x.sc)
    && x.at == LayoutOf(f, Comps(x.info), img) && BytesOf(x.sc, AllMcus(f, Comps(x.info), img), x.bytes)
  }

  /** The MCUs can be coded with the scan's tables, and these are their bytes. */
  ghost predicate BytesOf(sc: S.PScan, mcus: seq<seq<Block>>, bytes: seq<nat>)
  {
    S.Shaped(sc, mcus) && S.ScanSendable(sc, mcus) && bytes == S.ScanBytes(sc, mcus, 0)
  }

  /** Such a scan is one of the padded image. */
  lemma CodedIsSent(f: Frame, img: seq<Plane>, x: W.Sent)
    requires ImageOk(f, img) && Coded(f, img, x)
    ensures W.SentFrom(x, Flat(f, img), InImage(f))
  {
    hide AllMcus, ImageOk, LayoutOf, W.OnceEach, P.LaidOut, P.Mcus, SetUp, S.PScanOk, S.TablesOk, S.ScanSendable,
      S.ScanBytes, Flat;
    LayoutSends(f, img, x.sc, x.info);
    LayoutOnce(f, img, x.sc, x.info);
  }

  /** The numbers of the image's blocks are numbers of the padded image. */
  lemma ImageInside(f: Frame, img: seq<Plane>)
    requires ImageOk(f, img)
    ensures W.InsideOk(InImage(f), Flat(f, img))
  {
    hide HeightInBlocks, WidthInBlocks, Number, Across, Down, Rect;
    forall c, n: nat | 0 <= c < |Flat(f, img)| && n in InImage(f)[c]
      ensures n < |Flat(f, img)[c]|
    {
      var y: nat, x: nat :| y < HeightInBlocks(f, f.comps[c]) && x < WidthInBlocks(f, f.comps[c])
        && n == Number(f, f.comps[c], y, x);
      AcrossPositive(f, f.comps[c]);
      NumberIn(f, f.comps[c], y, x);
    }
  }

  /** The scans of any accepted script, coded from the MCUs that the controllers send
      and decoded in order from a blank image, leave every block of the image at exactly
      the bits that the script sent. */
  lemma ScriptConveys(f: Frame, img: seq<Plane>, script: seq<ScanScript.ScanInfo>, scans: seq<W.Sent>, st: P.Image,
                      c: nat, y: nat, x: nat)
    requires ImageOk(f, img) && ScanScript.ScriptOk(script, |f.comps|) && W.Blank(st, Flat(f, img))
    requires |scans| == |script|
    requires forall i :: 0 <= i < |scans| ==> scans[i].info == script[i] && Coded(f, img, scans[i])
    requires c < |f.comps| && y < HeightInBlocks(f, f.comps[c]) && x < WidthInBlocks(f, f.comps[c])
    ensures W.DecodeImage(scans, |scans|, st).Some?
    ensures var r := W.DecodeImage(scans, |scans|, st).value;
      && c < |r| && Number(f, f.comps[c], y, x) < |r[c]| && c < |img| && y < |img[c]| && x < |img[c][y]|
      && r[c][Number(f, f.comps[c], y, x)] == P.Known(script, c, Zigzag(img[c][y][x]))
  {
    hide HeightInBlocks, WidthInBlocks, Number, Across, Down, Rect, Coded, W.SentFrom, P.Known, Zigzag, W.Apply,
      ScanScript.ScriptOk;
    var flat, n := Flat(f, img), Number(f, f.comps[c], y, x);
    forall i | 0 <= i < |scans|
      ensures scans[i].info == script[i] && W.SentFrom(scans[i], flat, InImage(f))
    {
      CodedIsSent(f, img, scans[i]);
    }
    ImageInside(f, img);
    W.ImageKnown(scans, script, |script|, flat, InImage(f), st);
    assert script[..|script|] == script;
    AcrossPositive(f, f.comps[c]);
    FlatAt(f, img, c, y, x);
    assert n in InImage(f)[c];
  }

  /** With the recommended script every block of the image comes back. */
  lemma SimpleScriptConveys(f: Frame, img: seq<Plane>, ycc: bool, scans: seq<W.Sent>, st: P.Image,
                            c: nat, y: nat, x: nat)
    requires ImageOk(f, img) && W.Blank(st, Flat(f, img))
    requires var script := SimpleScript.Simple(|f.comps|, ycc);
      |scans| == |script| && forall i :: 0 <= i < |scans| ==> scans[i].info == script[i] && Coded(f, img, scans[i])
    requires c < |f.comps| && y < HeightInBlocks(f, f.comps[c]) && x < WidthInBlocks(f, f.comps[c])
    ensures W.DecodeImage(scans, |scans|, st).Some?
    ensures var r := W.DecodeImage(scans, |scans|, st).value;
      && c < |r| && Number(f, f.comps[c], y, x) < |r[c]| && c < |img| && y < |img[c]| && x < |img[c][y]|
      && r[c][Number(f, f.comps[c], y, x)] == Zigzag(img[c][y][x])
  {
    hide *;
    P.SimpleKnown(|f.comps|, ycc, c, Zero());
    ScriptConveys(f, img, SimpleScript.Simple(|f.comps|, ycc), scans, st, c, y, x);
    P.SimpleKnown(|f.comps|, ycc, c, Zigzag(img[c][y][x]));
  }
}
