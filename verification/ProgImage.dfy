/** A whole progressive image: the scans of an accepted script, each decoded from
    what the earlier ones left, convey every coefficient down to its last bit
    position. */
module ProgImage {
  import opened Arith
  import opened Bits
  import opened Stuffing
  import opened ZigzagOrder
  import opened ProgTokens
  import opened ProgScan
  import opened ScanScript
  import opened SimpleScript

  // ----- What is known of a block -----

  /** A coefficient with the lowest l bits left out. */
  function Coarse(k: nat, c: int, l: nat): int
  {
    if k == 0 then Shifted(c, l) else Approx(c, l)
  }

  /** A block of component c after the scans of a script: each coefficient at
      the bit position it was last sent at, 0 if never. */
  function Known(script: seq<ScanInfo>, c: int, z: Block): Block
  {
    seq(DCTSIZE2, k requires 0 <= k < DCTSIZE2 =>
      var l := LastAl(Chain(script, c, k));
      if l < 0 then 0 else Coarse(k, z[k], l))
  }

  /** A scan's coding parameters are those of its script entry; its blocks belong
      to the entry's components. */
  ghost predicate ScanOf(sc: PScan, s: ScanInfo)
  {
    && sc.ss == s.ss && sc.se == s.se && sc.ah == s.ah && sc.al == s.al
    && |sc.dcNo| == |s.comps|
    && (sc.ss > 0 ==> |sc.membership| == 1 && sc.acNo < |sc.tables|)
    && (forall i :: 0 <= i < |sc.membership| ==> sc.membership[i] < |sc.dcNo|)
    && (sc.ss == 0 && sc.ah == 0 ==> forall c :: 0 <= c < |sc.dcNo| ==> sc.dcNo[c] < |sc.tables|)
  }

  /** The scan may follow the earlier ones in an accepted script. */
  ghost predicate Follows(prev: seq<ScanInfo>, s: ScanInfo, ncomps: nat)
  {
    Checked(prev, ncomps) && CompsOk(s, ncomps) && BandOk(s) && Continues(prev, s)
  }

  /** An accepted entry is a scan the progressive coder can code. */
  lemma ScanIsCodable(prev: seq<ScanInfo>, s: ScanInfo, ncomps: nat, sc: PScan)
    requires Follows(prev, s, ncomps) && ScanOf(sc, s)
    ensures PScanOk(sc)
  {
    hide Checked, Chain;
    assert Covers(s, s.comps[0], s.ss);
  }

  /** Each coefficient of the band of a scan has just the history the scan
      expects: none for a first scan, one bit less for a refinement. */
  lemma ExpectedHistory(prev: seq<ScanInfo>, s: ScanInfo, ncomps: nat, c: int, k: nat)
    requires Follows(prev, s, ncomps) && Covers(s, c, k)
    ensures var l := LastAl(Chain(prev, c, k)); if s.ah == 0 then l < 0 else l == s.al + 1
  {
    NotSentYet(prev, ncomps, c, k);
  }

  lemma KnownHistory(prev: seq<ScanInfo>, s: ScanInfo, ncomps: nat, sc: PScan, c: int, z: Block)
    requires Follows(prev, s, ncomps) && ScanOf(sc, s) && c in s.comps
    ensures HistoryOk(sc, Known(prev, c, z), z)
  {
    hide Checked, Chain, CompsOk, Continues, Shifted, Approx, LastAl;
    var h := Known(prev, c, z);
    forall k: nat | sc.ss <= k <= sc.se
      ensures h[k] == if sc.ah == 0 then 0 else Coarse(k, z[k], sc.al + 1)
    {
      ExpectedHistory(prev, s, ncomps, c, k);
    }
  }

  /** A scan turns what was known before it into what is known after it. */
  lemma KnownStep(prev: seq<ScanInfo>, s: ScanInfo, ncomps: nat, sc: PScan, c: int, z: Block)
    requires Follows(prev, s, ncomps) && ScanOf(sc, s) && c in s.comps
    ensures Conveyed(sc, Known(prev, c, z), z) == Known(prev + [s], c, z)
  {
    hide Checked, Chain, CompsOk, Continues, Shifted, Approx;
    var out, goal := Conveyed(sc, Known(prev, c, z), z), Known(prev + [s], c, z);
    forall k | 0 <= k < DCTSIZE2
      ensures out[k] == goal[k]
    {
      ChainSnoc(prev, s, c, k);
      assert Chain(prev, c, k) + [] == Chain(prev, c, k);
    }
  }

  /** Other components are left as they were. */
  lemma KnownElsewhere(prev: seq<ScanInfo>, s: ScanInfo, c: int, z: Block)
    requires c !in s.comps
    ensures Known(prev + [s], c, z) == Known(prev, c, z)
  {
    forall k | 0 <= k < DCTSIZE2
      ensures Known(prev + [s], c, z)[k] == Known(prev, c, z)[k]
    {
      ChainSnoc(prev, s, c, k);
      assert Chain(prev, c, k) + [] == Chain(prev, c, k);
    }
  }

  // ----- The scans of an image -----

  /** An image: the blocks of each component. */
  type Image = seq<seq<Block>>

  /** The block numbers of a scan's MCUs. */
  type Layout = seq<seq<nat>>

  /** Every number a scan uses is a block of the component it belongs to. */
  ghost predicate LaidOut(sc: PScan, s: ScanInfo, img: Image, at: Layout)
  {
    && ScanOf(sc, s) && CompsOk(s, |img|)
    && (forall m :: 0 <= m < |at| ==> |at[m]| == |sc.membership|)
    && forall m, b :: 0 <= m < |at| && 0 <= b < |at[m]| ==> at[m][b] < |img[s.comps[sc.membership[b]]]|
  }

  function Component(sc: PScan, s: ScanInfo, b: nat): int
    requires b < |sc.membership| && sc.membership[b] < |s.comps|
  {
    s.comps[sc.membership[b]]
  }

  /** The MCUs that the encoder is given. */
  ghost function McuAt(sc: PScan, s: ScanInfo, img: Image, at: Layout, m: nat): (r: Mcu)
    requires LaidOut(sc, s, img, at) && m < |at|
    ensures |r| == |sc.membership|
  {
    seq(|sc.membership|, b requires 0 <= b < |sc.membership| => img[Component(sc, s, b)][at[m][b]])
  }

  ghost function Mcus(sc: PScan, s: ScanInfo, img: Image, at: Layout): (r: seq<Mcu>)
    requires LaidOut(sc, s, img, at)
    ensures |r| == |at|
  {
    seq(|at|, m requires 0 <= m < |at| => McuAt(sc, s, img, at, m))
  }

  /** What a decoder knows of the blocks of a scan's MCUs after the scans of a
      script. */
  ghost function KnownMcu(script: seq<ScanInfo>, sc: PScan, s: ScanInfo, img: Image, at: Layout, m: nat): (r: Mcu)
    requires LaidOut(sc, s, img, at) && m < |at|
    ensures |r| == |sc.membership|
  {
    seq(|sc.membership|, b requires 0 <= b < |sc.membership| =>
      Known(script, Component(sc, s, b), Zigzag(img[Component(sc, s, b)][at[m][b]])))
  }

  ghost function KnownMcus(script: seq<ScanInfo>, sc: PScan, s: ScanInfo, img: Image, at: Layout): (r: seq<Mcu>)
    requires LaidOut(sc, s, img, at)
    ensures |r| == |at|
  {
    seq(|at|, m requires 0 <= m < |at| => KnownMcu(script, sc, s, img, at, m))
  }

  /** Each scan of an accepted script decodes from what the scans before it made
      known to what is known after it, whatever its tables, its MCU layout and
      its restart interval. */
  lemma ScanOfScript(script: seq<ScanInfo>, i: nat, sc: PScan, img: Image, at: Layout)
    requires ScriptOk(script, |img|) && i < |script| && LaidOut(sc, script[i], img, at)
    requires PScanOk(sc) && TablesOk(sc)
    ensures ProgScan.Shaped(sc, Mcus(sc, script[i], img, at))
    ensures ProgScan.Shaped(sc, KnownMcus(script[..i], sc, script[i], img, at))
    ensures ScanSendable(sc, Mcus(sc, script[i], img, at)) ==>
      var bytes := ScanBytes(sc, Mcus(sc, script[i], img, at), 0);
      && Bytes(bytes)
      && DecodeScan(sc, KnownMcus(script[..i], sc, script[i], img, at), 0, bytes) ==
           Some(KnownMcus(script[..i + 1], sc, script[i], img, at))
  {
    hide Checked, Chain, CompsOk, BandOk, Continues, Known, HistoryOk, Conveyed, Zigzag, ScanSendable, ScanBytes,
      DecodeScan, TablesOk, AllProper, AfterDC;
    var s, prev := script[i], script[..i];
    assert script[..i + 1] == prev + [s];
    AcceptedFollows(script, |img|, i);
    ScanIsCodable(prev, s, |img|, sc);
    var mcus, hs := Mcus(sc, s, img, at), KnownMcus(prev, sc, s, img, at);
    forall m, b | 0 <= m < |mcus| && 0 <= b < |sc.membership|
      ensures HistoryOk(sc, hs[m][b], Zigzag(mcus[m][b]))
    {
      KnownHistory(prev, s, |img|, sc, Component(sc, s, b), Zigzag(mcus[m][b]));
    }
    AfterScan(prev, s, sc, img, at);
    if ScanSendable(sc, mcus) {
      ScanRoundTrip(sc, hs, mcus, 0);
    }
  }

  lemma AfterScan(prev: seq<ScanInfo>, s: ScanInfo, sc: PScan, img: Image, at: Layout)
    requires Follows(prev, s, |img|) && LaidOut(sc, s, img, at) && PScanOk(sc)
    ensures ConveyedAll(sc, KnownMcus(prev, sc, s, img, at), Mcus(sc, s, img, at)) ==
      KnownMcus(prev + [s], sc, s, img, at)
  {
    hide Checked, Chain, CompsOk, BandOk, Continues, Known, Conveyed, Zigzag;
    var mcus, hs := Mcus(sc, s, img, at), KnownMcus(prev, sc, s, img, at);
    var out, goal := ConveyedAll(sc, hs, mcus), KnownMcus(prev + [s], sc, s, img, at);
    forall m | 0 <= m < |at|
      ensures out[m] == goal[m]
    {
      forall b | 0 <= b < |sc.membership|
        ensures out[m][b] == goal[m][b]
      {
        KnownStep(prev, s, |img|, sc, Component(sc, s, b), Zigzag(mcus[m][b]));
      }
    }
  }

  lemma AcceptedFollows(script: seq<ScanInfo>, ncomps: nat, i: nat)
    requires ScriptOk(script, ncomps) && i < |script|
    ensures Follows(script[..i], script[i], ncomps)
  {
    hide CompsOk, BandOk, AfterDC, Continues;
    CheckedMeaning(script, ncomps);
    CheckedPrefix(script, ncomps, i + 1);
    assert script[..i + 1] == script[..i] + [script[i]];
    CheckedSnoc(script[..i], script[i], ncomps);
  }

  /** With every bit sent, the block itself is known. */
  lemma EverythingKnown(script: seq<ScanInfo>, c: int, z: Block)
    requires forall k :: 0 <= k < DCTSIZE2 ==> LastAl(Chain(script, c, k)) == 0
    ensures Known(script, c, z) == z
  {
    hide Chain;
    forall k | 0 <= k < DCTSIZE2
      ensures Known(script, c, z)[k] == z[k]
    {
      assert Pow2(0) == 1;
    }
  }

  /** After the recommended script every block of every component is known. */
  lemma SimpleKnown(ncomps: nat, ycc: bool, c: int, z: Block)
    requires 0 <= c < ncomps
    ensures ScriptOk(Simple(ncomps, ycc), ncomps)
    ensures Known(Simple(ncomps, ycc), c, z) == z
  {
    hide Known, ScriptOk, Simple;
    SimpleAccepted(ncomps, ycc);
    EverythingKnown(Simple(ncomps, ycc), c, z);
  }
}
