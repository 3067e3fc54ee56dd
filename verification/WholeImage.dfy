/** A whole progressive image: its scans decoded one after the other, each from
    what the earlier ones left of its blocks. */
module WholeImage {
  import opened Arith
  import opened Bits
  import opened Stuffing
  import opened ZigzagOrder
  import opened SeqTokens
  import opened ProgTokens
  import opened ProgScan
  import opened ScanScript
  import opened SimpleScript
  import opened ProgImage

  // ----- Blocks that do not matter -----

  /** Which blocks of the MCUs count; the others are padding at the edges. */
  type Marks = seq<seq<bool>>

  ghost predicate AlikeMcu(a: Mcu, b: Mcu, marks: seq<bool>)
  {
    |a| == |b| == |marks| && forall i :: 0 <= i < |marks| && marks[i] ==> a[i] == b[i]
  }

  ghost predicate Alike(a: seq<Mcu>, b: seq<Mcu>, marks: Marks)
  {
    |a| == |b| == |marks| && forall m :: 0 <= m < |marks| ==> AlikeMcu(a[m], b[m], marks[m])
  }

  /** The blocks of a DC scan are read one by one: what is known of one does not
      change how another is read. */
  lemma {:induction false} McuAlike(sc: PScan, dc: seq<int>, h: Mcu, g: Mcu, marks: seq<bool>, i: nat, s: seq<bool>)
    requires PScanOk(sc) && sc.ss == 0 && |dc| == |sc.dcNo| && i <= |h| == |sc.membership| && AlikeMcu(h, g, marks)
    ensures var a, b := DecodeDCMcu(sc, dc, h, i, s), DecodeDCMcu(sc, dc, g, i, s);
      && a.Some? == b.Some?
      && (a.Some? ==> AlikeMcu(a.value.0, b.value.0, marks[i..]) && a.value.1 == b.value.1 && a.value.2 == b.value.2)
    decreases |h| - i
  {
    hide DecodeDC, Receive;
    if i < |h| {
      if sc.ah == 0 {
        var c := sc.membership[i];
        var d := DecodeDC(sc.tables[sc.dcNo[c]], s);
        if d.Some? {
          McuAlike(sc, dc[c := dc[c] + d.value.0], h, g, marks, i + 1, d.value.1);
        }
      } else {
        var v := Receive(1, s);
        if v.Some? {
          McuAlike(sc, dc, h, g, marks, i + 1, v.value.1);
        }
      }
    }
  }

  lemma {:induction false} DCsAlike(sc: PScan, dc: seq<int>, hs: seq<Mcu>, gs: seq<Mcu>, marks: Marks, s: seq<bool>)
    requires ProgScan.Shaped(sc, hs) && ProgScan.Shaped(sc, gs) && sc.ss == 0 && |dc| == |sc.dcNo|
    requires Alike(hs, gs, marks)
    ensures var a, b := DecodeDCs(sc, dc, hs, s), DecodeDCs(sc, dc, gs, s);
      a.Some? == b.Some? && (a.Some? ==> Alike(a.value, b.value, marks))
    decreases |hs|
  {
    hide DecodeDCMcu;
    if hs != [] {
      McuAlike(sc, dc, hs[0], gs[0], marks[0], 0, s);
      assert marks[0][0..] == marks[0];
      var a := DecodeDCMcu(sc, dc, hs[0], 0, s);
      if a.Some? {
        DCsAlike(sc, a.value.1, hs[1..], gs[1..], marks[1..], a.value.2);
      }
    }
  }

  /** Marks of an AC scan: padding is never part of it. */
  ghost predicate MarksFit(sc: PScan, marks: Marks)
  {
    sc.ss > 0 ==> forall m, b :: 0 <= m < |marks| && 0 <= b < |marks[m]| ==> marks[m][b]
  }

  /** What two decoders get: the same, but for padding in a DC scan. */
  ghost predicate SameOut(sc: PScan, a: Option<seq<Mcu>>, b: Option<seq<Mcu>>, marks: Marks)
  {
    if sc.ss > 0 then a == b else a.Some? == b.Some? && (a.Some? ==> Alike(a.value, b.value, marks))
  }

  lemma AcAlike(sc: PScan, hs: seq<Mcu>, gs: seq<Mcu>, marks: Marks)
    requires sc.ss > 0 && Alike(hs, gs, marks) && MarksFit(sc, marks)
    ensures hs == gs
  {
    forall m | 0 <= m < |hs|
      ensures hs[m] == gs[m]
    {
      assert AlikeMcu(hs[m], gs[m], marks[m]);
    }
  }

  lemma {:induction false} ScanAlike(sc: PScan, hs: seq<Mcu>, gs: seq<Mcu>, marks: Marks, j: nat, bytes: seq<nat>)
    requires ProgScan.Shaped(sc, hs) && ProgScan.Shaped(sc, gs) && Alike(hs, gs, marks) && MarksFit(sc, marks)
    requires Bytes(bytes)
    ensures SameOut(sc, DecodeScan(sc, hs, j, bytes), DecodeScan(sc, gs, j, bytes), marks)
    decreases |hs|
  {
    hide DecodeDCs, Unstuff, AlikeMcu, DecodeMany;
    if sc.ss > 0 {
      AcAlike(sc, hs, gs, marks);
    } else {
      var (s, rest) := Unstuff(bytes);
      if LastInterval(sc, |hs|) {
        DCsAlike(sc, Zeroes(|sc.dcNo|), hs, gs, marks, s);
      } else {
        var k := sc.interval;
        DCsAlike(sc, Zeroes(|sc.dcNo|), hs[..k], gs[..k], marks[..k], s);
        if |rest| >= 2 && Bytes(rest[2..]) {
          ScanAlike(sc, hs[k..], gs[k..], marks[k..], (j + 1) % 8, rest[2..]);
        }
      }
    }
  }

  // ----- The decoder's image -----

  /** The numbers of each component's blocks that lie in the image. */
  type Inside = seq<set<nat>>

  /** Block b of MCU m is block n of component c. */
  ghost predicate SlotAt(sc: PScan, s: ScanInfo, at: Layout, m: nat, b: nat, c: int, n: nat)
  {
    && m < |at| && b < |at[m]| == |sc.membership| && sc.membership[b] < |s.comps|
    && Component(sc, s, b) == c && at[m][b] == n
  }

  /** A scan holds every block of its components that lies in the image, none
      twice; padding occurs in DC scans only. */
  ghost predicate OnceEach(sc: PScan, s: ScanInfo, at: Layout, inside: Inside)
  {
    && (forall m, b, p, q, c, n :: SlotAt(sc, s, at, m, b, c, n) && SlotAt(sc, s, at, p, q, c, n) ==> m == p && b == q)
    && (forall c, n :: 0 <= c < |inside| && c in s.comps && n in inside[c] ==>
         exists m, b :: SlotAt(sc, s, at, m, b, c, n))
    && (sc.ss > 0 ==> forall m, b, c, n :: SlotAt(sc, s, at, m, b, c, n) ==> 0 <= c < |inside| && n in inside[c])
  }

  ghost predicate SameShape(st: Image, img: Image)
  {
    |st| == |img| && forall c :: 0 <= c < |img| ==> |st[c]| == |img[c]|
  }

  ghost predicate OutFits(sc: PScan, at: Layout, out: seq<Mcu>)
  {
    |out| == |at| && forall m :: 0 <= m < |out| ==> |out[m]| == |sc.membership|
  }

  /** The first b blocks of an MCU put into their places. */
  ghost function StoreMcu(st: Image, sc: PScan, s: ScanInfo, at: Layout, m: nat, mcu: Mcu, b: nat): (r: Image)
    requires LaidOut(sc, s, st, at) && m < |at| && b <= |mcu| == |sc.membership|
    ensures SameShape(r, st)
  {
    if b == 0 then st
    else
      var r := StoreMcu(st, sc, s, at, m, mcu, b - 1);
      var c := Component(sc, s, b - 1);
      r[c := r[c][at[m][b - 1] := mcu[b - 1]]]
  }

  /** The first m MCUs put into their places. */
  ghost function Store(st: Image, sc: PScan, s: ScanInfo, at: Layout, out: seq<Mcu>, m: nat): (r: Image)
    requires LaidOut(sc, s, st, at) && OutFits(sc, at, out) && m <= |at|
    ensures SameShape(r, st)
  {
    if m == 0 then st
    else
      var r := Store(st, sc, s, at, out, m - 1);
      StoreMcu(r, sc, s, at, m - 1, out[m - 1], |sc.membership|)
  }

  lemma SameLaidOut(st: Image, img: Image, sc: PScan, s: ScanInfo, at: Layout)
    requires SameShape(st, img) && LaidOut(sc, s, img, at)
    ensures LaidOut(sc, s, st, at)
  {
  }

  /** Blocks of an MCU that belong elsewhere leave a place alone. */
  lemma {:induction false} KeptMcu(st: Image, sc: PScan, s: ScanInfo, at: Layout, m: nat, mcu: Mcu, b: nat, c: int,
                                   n: nat)
    requires LaidOut(sc, s, st, at) && m < |at| && b <= |mcu| == |sc.membership| && 0 <= c < |st| && n < |st[c]|
    requires forall q: nat :: q < b ==> !SlotAt(sc, s, at, m, q, c, n)
    ensures StoreMcu(st, sc, s, at, m, mcu, b)[c][n] == st[c][n]
  {
    if b > 0 {
      KeptMcu(st, sc, s, at, m, mcu, b - 1, c, n);
      assert !SlotAt(sc, s, at, m, b - 1, c, n);
    }
  }

  lemma {:induction false} StoredMcu(st: Image, sc: PScan, s: ScanInfo, at: Layout, m: nat, mcu: Mcu, b: nat, c: int,
                                     n: nat, q: nat)
    requires LaidOut(sc, s, st, at) && m < |at| && q < b <= |mcu| == |sc.membership| && 0 <= c < |st| && n < |st[c]|
    requires SlotAt(sc, s, at, m, q, c, n)
    requires forall p: nat :: SlotAt(sc, s, at, m, p, c, n) ==> p == q
    ensures StoreMcu(st, sc, s, at, m, mcu, b)[c][n] == mcu[q]
  {
    if q < b - 1 {
      StoredMcu(st, sc, s, at, m, mcu, b - 1, c, n, q);
      assert !SlotAt(sc, s, at, m, b - 1, c, n);
    }
  }

  lemma {:induction false} Kept(st: Image, sc: PScan, s: ScanInfo, at: Layout, out: seq<Mcu>, m: nat, c: int, n: nat)
    requires LaidOut(sc, s, st, at) && OutFits(sc, at, out) && m <= |at| && 0 <= c < |st| && n < |st[c]|
    requires forall p: nat, b: nat :: p < m ==> !SlotAt(sc, s, at, p, b, c, n)
    ensures Store(st, sc, s, at, out, m)[c][n] == st[c][n]
  {
    hide StoreMcu, SlotAt;
    if m > 0 {
      Kept(st, sc, s, at, out, m - 1, c, n);
      KeptMcu(Store(st, sc, s, at, out, m - 1), sc, s, at, m - 1, out[m - 1], |sc.membership|, c, n);
    }
  }

  /** A stored block is found in its place. */
  lemma {:induction false} Stored(st: Image, sc: PScan, s: ScanInfo, at: Layout, out: seq<Mcu>, m: nat, c: int, n: nat,
                                  p: nat, b: nat)
    requires LaidOut(sc, s, st, at) && OutFits(sc, at, out) && p < m <= |at| && 0 <= c < |st| && n < |st[c]|
    requires SlotAt(sc, s, at, p, b, c, n)
    requires forall q: nat, d: nat :: SlotAt(sc, s, at, q, d, c, n) ==> p == q && b == d
    ensures b < |out[p]| && Store(st, sc, s, at, out, m)[c][n] == out[p][b]
  {
    hide StoreMcu;
    var r := Store(st, sc, s, at, out, m - 1);
    if p == m - 1 {
      StoredMcu(r, sc, s, at, p, out[p], |sc.membership|, c, n, b);
    } else {
      Stored(st, sc, s, at, out, m - 1, c, n, p, b);
      KeptMcu(r, sc, s, at, m - 1, out[m - 1], |sc.membership|, c, n);
    }
  }

  // ----- One scan -----

  /** A scan as it is sent: its parameters, its script entry, where its blocks
      belong, and its bytes. */
  datatype Sent = Sent(sc: PScan, info: ScanInfo, at: Layout, bytes: seq<nat>)

  /** The bytes are those of the image's coefficients. */
  ghost predicate SentFrom(x: Sent, img: Image, inside: Inside)
  {
    && LaidOut(x.sc, x.info, img, x.at) && OnceEach(x.sc, x.info, x.at, inside)
    && PScanOk(x.sc) && TablesOk(x.sc)
    && ScanSendable(x.sc, Mcus(x.sc, x.info, img, x.at))
    && x.bytes == ScanBytes(x.sc, Mcus(x.sc, x.info, img, x.at), 0)
  }

  /** Decoding a scan: from what is known of its blocks, its bytes give what is
      known after it. */
  ghost function Apply(x: Sent, st: Image): Option<Image>
  {
    if LaidOut(x.sc, x.info, st, x.at) && PScanOk(x.sc) && Bytes(x.bytes) then
      match DecodeScan(x.sc, Mcus(x.sc, x.info, st, x.at), 0, x.bytes)
      case None => None
      case Some(out) =>
        if OutFits(x.sc, x.at, out) then Some(Store(st, x.sc, x.info, x.at, out, |x.at|)) else None
    else None
  }

  /** Everything in the image is known as far as the scans of a script tell. */
  ghost predicate KnownInside(script: seq<ScanInfo>, img: Image, inside: Inside, st: Image)
  {
    && SameShape(st, img) && |inside| == |img|
    && forall c, n :: 0 <= c < |img| && n in inside[c] ==>
         n < |img[c]| && st[c][n] == Known(script, c, Zigzag(img[c][n]))
  }

  ghost function MarksOf(sc: PScan, s: ScanInfo, at: Layout, inside: Inside): (marks: Marks)
    requires forall i :: 0 <= i < |sc.membership| ==> sc.membership[i] < |s.comps|
    requires forall m :: 0 <= m < |at| ==> |at[m]| == |sc.membership|
    ensures |marks| == |at| && forall m :: 0 <= m < |at| ==> |marks[m]| == |sc.membership|
    ensures forall m, b :: 0 <= m < |at| && 0 <= b < |sc.membership| ==>
      marks[m][b] == (0 <= Component(sc, s, b) < |inside| && at[m][b] in inside[Component(sc, s, b)])
  {
    seq(|at|, m requires 0 <= m < |at| =>
      seq(|sc.membership|, b requires 0 <= b < |sc.membership| =>
        0 <= Component(sc, s, b) < |inside| && at[m][b] in inside[Component(sc, s, b)]))
  }

  /** What the decoder holds of the blocks inside is what is known of them. */
  lemma HistoriesAlike(script: seq<ScanInfo>, x: Sent, img: Image, inside: Inside, st: Image)
    requires KnownInside(script, img, inside, st) && LaidOut(x.sc, x.info, img, x.at) && LaidOut(x.sc, x.info, st, x.at)
    ensures Alike(KnownMcus(script, x.sc, x.info, img, x.at),
      Mcus(x.sc, x.info, st, x.at), MarksOf(x.sc, x.info, x.at, inside))
  {
    hide Known, Zigzag;
  }

  lemma MarksFitting(x: Sent, inside: Inside)
    requires OnceEach(x.sc, x.info, x.at, inside)
    requires forall i :: 0 <= i < |x.sc.membership| ==> x.sc.membership[i] < |x.info.comps|
    requires forall m :: 0 <= m < |x.at| ==> |x.at[m]| == |x.sc.membership|
    ensures MarksFit(x.sc, MarksOf(x.sc, x.info, x.at, inside))
  {
    var marks := MarksOf(x.sc, x.info, x.at, inside);
    if x.sc.ss > 0 {
      forall m, b | 0 <= m < |marks| && 0 <= b < |marks[m]|
        ensures marks[m][b]
      {
        assert SlotAt(x.sc, x.info, x.at, m, b, Component(x.sc, x.info, b), x.at[m][b]);
      }
    }
  }

  /** The decoder gets the goal, wherever it matters. */
  ghost predicate Gets(out: seq<Mcu>, goal: seq<Mcu>, marks: Marks)
  {
    |out| == |goal| == |marks| && forall m :: 0 <= m < |marks| ==> AlikeMcu(out[m], goal[m], marks[m])
  }

  lemma OutOf(sc: PScan, r: Option<seq<Mcu>>, goal: seq<Mcu>, marks: Marks)
    requires SameOut(sc, Some(goal), r, marks) && |goal| == |marks|
    requires forall m :: 0 <= m < |marks| ==> |goal[m]| == |marks[m]|
    ensures r.Some? && Gets(r.value, goal, marks)
  {
  }

  /** A scan read with what the decoder holds gives, inside the image, what is
      known after it. */
  lemma ScanGets(script: seq<ScanInfo>, i: nat, x: Sent, img: Image, inside: Inside, st: Image) returns (out: seq<Mcu>)
    requires ScriptOk(script, |img|) && i < |script| && x.info == script[i] && SentFrom(x, img, inside)
    requires KnownInside(script[..i], img, inside, st)
    ensures LaidOut(x.sc, x.info, st, x.at) && Bytes(x.bytes)
    ensures DecodeScan(x.sc, Mcus(x.sc, x.info, st, x.at), 0, x.bytes) == Some(out) && OutFits(x.sc, x.at, out)
    ensures Gets(out, KnownMcus(script[..i + 1], x.sc, x.info, img, x.at), MarksOf(x.sc, x.info, x.at, inside))
  {
    hide ScriptOk, DecodeScan, ScanBytes, ScanSendable, TablesOk, Known, Zigzag, OnceEach;
    SameLaidOut(st, img, x.sc, x.info, x.at);
    ScanOfScript(script, i, x.sc, img, x.at);
    var marks := MarksOf(x.sc, x.info, x.at, inside);
    var hs, gs := KnownMcus(script[..i], x.sc, x.info, img, x.at), Mcus(x.sc, x.info, st, x.at);
    HistoriesAlike(script[..i], x, img, inside, st);
    MarksFitting(x, inside);
    ScanAlike(x.sc, hs, gs, marks, 0, x.bytes);
    var r := DecodeScan(x.sc, gs, 0, x.bytes);
    OutOf(x.sc, r, KnownMcus(script[..i + 1], x.sc, x.info, img, x.at), marks);
    out := r.value;
  }

  /** One scan takes what is known inside the image to what is known after it. */
  lemma ApplyKnown(script: seq<ScanInfo>, i: nat, x: Sent, img: Image, inside: Inside, st: Image)
    requires ScriptOk(script, |img|) && i < |script| && x.info == script[i] && SentFrom(x, img, inside)
    requires KnownInside(script[..i], img, inside, st)
    ensures Apply(x, st).Some? && KnownInside(script[..i + 1], img, inside, Apply(x, st).value)
  {
    hide ScriptOk, DecodeScan, ScanBytes, ScanSendable, TablesOk, Known, Zigzag, OnceEach, KnownMcus, Store, Gets,
      LaidOut, PScanOk;
    var out := ScanGets(script, i, x, img, inside, st);
    var r := Store(st, x.sc, x.info, x.at, out, |x.at|);
    assert Apply(x, st) == Some(r) by {
      SentCodable(x, img, inside);
    }
    forall c, n | 0 <= c < |img| && n in inside[c]
      ensures n < |img[c]| && r[c][n] == Known(script[..i + 1], c, Zigzag(img[c][n]))
    {
      PlaceKnown(script, i, x, img, inside, st, out, c, n);
    }
  }

  lemma SentCodable(x: Sent, img: Image, inside: Inside)
    requires SentFrom(x, img, inside)
    ensures PScanOk(x.sc)
  {
  }

  lemma PlaceKnown(script: seq<ScanInfo>, i: nat, x: Sent, img: Image, inside: Inside, st: Image, out: seq<Mcu>, c: int,
                   n: nat)
    requires i < |script| && x.info == script[i] && SentFrom(x, img, inside)
    requires KnownInside(script[..i], img, inside, st)
    requires LaidOut(x.sc, x.info, st, x.at) && OutFits(x.sc, x.at, out)
    requires Gets(out, KnownMcus(script[..i + 1], x.sc, x.info, img, x.at), MarksOf(x.sc, x.info, x.at, inside))
    requires 0 <= c < |img| && n in inside[c]
    ensures n < |img[c]|
    ensures Store(st, x.sc, x.info, x.at, out, |x.at|)[c][n] == Known(script[..i + 1], c, Zigzag(img[c][n]))
  {
    hide ScanBytes, ScanSendable, TablesOk, Known, Zigzag, Store, PScanOk, CompsOk;
    var s := x.info;
    assert script[..i + 1] == script[..i] + [s];
    if c in s.comps {
      assert n in inside[c];
      var m: nat, b: nat :| SlotAt(x.sc, s, x.at, m, b, c, n);
      Stored(st, x.sc, s, x.at, out, |x.at|, c, n, m, b);
      assert AlikeMcu(out[m], KnownMcus(script[..i + 1], x.sc, s, img, x.at)[m], MarksOf(x.sc, s, x.at, inside)[m]);
    } else {
      KnownElsewhere(script[..i], s, c, Zigzag(img[c][n]));
      Kept(st, x.sc, s, x.at, out, |x.at|, c, n);
    }
  }

  // ----- All scans -----

  /** The first n scans decoded in order. */
  ghost function DecodeImage(scans: seq<Sent>, n: nat, st: Image): Option<Image>
    requires n <= |scans|
  {
    if n == 0 then Some(st)
    else
      match DecodeImage(scans, n - 1, st)
      case None => None
      case Some(r) => Apply(scans[n - 1], r)
  }

  /** The scans of a script, one for each entry. */
  ghost predicate SentScript(scans: seq<Sent>, script: seq<ScanInfo>, img: Image, inside: Inside)
  {
    && |scans| == |script|
    && forall i :: 0 <= i < |scans| ==> scans[i].info == script[i] && SentFrom(scans[i], img, inside)
  }

  /** An image of which nothing is known: every coefficient is zero. */
  ghost predicate Blank(st: Image, img: Image)
  {
    SameShape(st, img) && forall c, n :: 0 <= c < |st| && 0 <= n < |st[c]| ==> st[c][n] == ZeroBlock()
  }

  ghost predicate InsideOk(inside: Inside, img: Image)
  {
    |inside| == |img| && forall c, n :: 0 <= c < |img| && n in inside[c] ==> n < |img[c]|
  }

  lemma NothingKnown(c: int, z: Block)
    ensures Known([], c, z) == ZeroBlock()
  {
    assert forall k :: 0 <= k < DCTSIZE2 ==> Known([], c, z)[k] == ZeroBlock()[k];
  }

  /** The scans of an accepted script, decoded one after the other, leave every
      block of the image at what is known after the script. */
  lemma {:induction false} ImageKnown(scans: seq<Sent>, script: seq<ScanInfo>, n: nat, img: Image, inside: Inside,
                                      st: Image)
    requires ScriptOk(script, |img|) && SentScript(scans, script, img, inside) && InsideOk(inside, img)
    requires Blank(st, img)
    requires n <= |script|
    ensures DecodeImage(scans, n, st).Some? && KnownInside(script[..n], img, inside, DecodeImage(scans, n, st).value)
  {
    hide ScriptOk, Known, SentFrom, Apply, Zigzag;
    if n == 0 {
      assert script[..0] == [];
      forall c, k | 0 <= c < |img| && k in inside[c]
        ensures k < |img[c]| && st[c][k] == Known([], c, Zigzag(img[c][k]))
      {
        NothingKnown(c, Zigzag(img[c][k]));
      }
    } else {
      ImageKnown(scans, script, n - 1, img, inside, st);
      ApplyKnown(script, n - 1, scans[n - 1], img, inside, DecodeImage(scans, n - 1, st).value);
    }
  }

  /** The recommended script conveys the image exactly: the scans decoded in
      order give back every block inside the image. */
  lemma SimpleScriptConveys(scans: seq<Sent>, ycc: bool, img: Image, inside: Inside, st: Image)
    requires |img| > 0 && SentScript(scans, Simple(|img|, ycc), img, inside) && InsideOk(inside, img) && Blank(st, img)
    ensures DecodeImage(scans, |scans|, st).Some?
    ensures var r := DecodeImage(scans, |scans|, st).value;
      SameShape(r, img) && forall c, n :: 0 <= c < |img| && n in inside[c] ==> r[c][n] == Zigzag(img[c][n])
  {
    hide ScriptOk, Known, SentFrom, Apply, Zigzag, Simple;
    var script := Simple(|img|, ycc);
    SimpleKnown(|img|, ycc, 0, ZeroBlock());
    ImageKnown(scans, script, |script|, img, inside, st);
    assert script[..|script|] == script;
    var r := DecodeImage(scans, |scans|, st).value;
    forall c, n | 0 <= c < |img| && n in inside[c]
      ensures r[c][n] == Zigzag(img[c][n])
    {
      SimpleKnown(|img|, ycc, c, Zigzag(img[c][n]));
    }
  }
}
