/** encode_mcu_gather, and why a scan coded with the tables generated from its
    counts never meets a symbol without a code. */
module Gather {
  import opened Arith
  import opened ZigzagOrder
  import opened DerivedTable
  import opened HuffmanSpec
  import opened HuffmanForest
  import opened OptimalTable
  import opened SeqTokens
  import opened SeqEncoder
  import opened SeqScan
  import opened HuffEntropy

  /** What the gathering pass carries from one MCU to the next. */
  datatype GState = GState(dc: seq<int>, togo: nat)

  function GBegin(sc: Scan, g: GState): seq<int>
  {
    if sc.interval > 0 && g.togo == 0 then Zeroes(|sc.dcNo|) else g.dc
  }

  function GNext(sc: Scan, g: GState, mcu: Mcu): (n: GState)
    requires ScanOk(sc) && |g.dc| == |sc.dcNo| && |mcu| == |sc.membership|
    ensures |n.dc| == |sc.dcNo|
  {
    GState(DcAfter(sc, GBegin(sc, g), mcu, 0),
           if sc.interval == 0 then g.togo else if g.togo == 0 then sc.interval - 1 else g.togo - 1)
  }

  function TableNo(sc: Scan, i: nat, isAc: bool): nat
    requires ScanOk(sc) && i < |sc.membership|
  {
    if isAc then sc.acNo[sc.membership[i]] else sc.dcNo[sc.membership[i]]
  }

  /** The tokens of an MCU, from block i on, that use one table. */
  function McuToks(sc: Scan, dc: seq<int>, mcu: Mcu, i: nat, isAc: bool, no: nat): seq<Token>
    requires Shaped(sc, dc, mcu) && i <= |mcu|
    decreases |mcu| - i
  {
    if i == |mcu| then []
    else
      (if TableNo(sc, i, isAc) == no then BlockToks(sc, dc, mcu, i) else []) +
      McuToks(sc, DcNext(sc, dc, mcu, i), mcu, i + 1, isAc, no)
  }

  ghost predicate McuInRange(sc: Scan, dc: seq<int>, mcu: Mcu, i: nat)
    requires Shaped(sc, dc, mcu) && i <= |mcu|
    decreases |mcu| - i
  {
    i == |mcu| || (Bad !in BlockToks(sc, dc, mcu, i) && McuInRange(sc, DcNext(sc, dc, mcu, i), mcu, i + 1))
  }

  function ScanToks(sc: Scan, g: GState, mcus: seq<Mcu>, isAc: bool, no: nat): seq<Token>
    requires AllShaped(sc, mcus) && |g.dc| == |sc.dcNo|
    decreases |mcus|
  {
    if mcus == [] then []
    else McuToks(sc, GBegin(sc, g), mcus[0], 0, isAc, no) + ScanToks(sc, GNext(sc, g, mcus[0]), mcus[1..], isAc, no)
  }

  ghost predicate ScanInRange(sc: Scan, g: GState, mcus: seq<Mcu>)
    requires AllShaped(sc, mcus) && |g.dc| == |sc.dcNo|
    decreases |mcus|
  {
    mcus == [] || (McuInRange(sc, GBegin(sc, g), mcus[0], 0) && ScanInRange(sc, GNext(sc, g, mcus[0]), mcus[1..]))
  }

  /** An MCU is in range if and only if its blocks are, each predicted by the one of its
      component before it. */
  lemma McuFits(sc: Scan, dc: seq<int>, mcu: Mcu, i: nat)
    requires Shaped(sc, dc, mcu) && i <= |mcu|
    ensures McuInRange(sc, dc, mcu, i) <==>
      i == |mcu| || (BlockFits(Zigzag(mcu[i]), dc[sc.membership[i]])
                     && McuInRange(sc, DcNext(sc, dc, mcu, i), mcu, i + 1))
  {
    hide BlockTokens, Zigzag;
    if i < |mcu| {
      BlockInRange(Zigzag(mcu[i]), dc[sc.membership[i]]);
    }
  }

  /** All coefficients of an MCU from block i on are small. */
  predicate SmallFrom(mcu: Mcu, i: nat)
  {
    forall j, k :: i <= j < |mcu| && 0 <= k < 64 ==> -1023 <= Zigzag(mcu[j])[k] <= 1023
  }

  predicate SmallDc(dc: seq<int>)
  {
    forall c :: 0 <= c < |dc| ==> -1023 <= dc[c] <= 1023
  }

  lemma {:induction false} SmallMcu(sc: Scan, dc: seq<int>, mcu: Mcu, i: nat)
    requires Shaped(sc, dc, mcu) && i <= |mcu| && SmallFrom(mcu, i) && SmallDc(dc)
    ensures McuInRange(sc, dc, mcu, i) && SmallDc(DcAfter(sc, dc, mcu, i))
    decreases |mcu| - i
  {
    hide McuInRange, Zigzag;
    McuFits(sc, dc, mcu, i);
    if i < |mcu| {
      FirstOfBlock(mcu[i]);
      SmallMcu(sc, DcNext(sc, dc, mcu, i), mcu, i + 1);
    }
  }

  lemma FirstOfBlock(b: Block)
    ensures Zigzag(b)[0] == b[0]
  {
  }

  /** Coefficients of at most ten bits are never out of range: their differences fit. */
  lemma {:induction false} SmallScanInRange(sc: Scan, g: GState, mcus: seq<Mcu>)
    requires AllShaped(sc, mcus) && |g.dc| == |sc.dcNo| && SmallDc(g.dc)
    requires forall m :: 0 <= m < |mcus| ==> SmallFrom(mcus[m], 0)
    ensures ScanInRange(sc, g, mcus)
    decreases |mcus|
  {
    hide McuInRange, SmallFrom;
    if mcus != [] {
      SmallMcu(sc, GBegin(sc, g), mcus[0], 0);
      SmallScanInRange(sc, GNext(sc, g, mcus[0]), mcus[1..]);
    }
  }

  lemma {:induction false} LargeInMcu(sc: Scan, dc: seq<int>, mcu: Mcu, i: nat, j: nat, k: nat)
    requires Shaped(sc, dc, mcu) && i <= j < |mcu| && 1 <= k < 64 && !(-1023 <= Zigzag(mcu[j])[k] <= 1023)
    ensures !McuInRange(sc, dc, mcu, i)
    decreases |mcu| - i
  {
    hide McuInRange, Zigzag;
    McuFits(sc, dc, mcu, i);
    if i < j {
      LargeInMcu(sc, DcNext(sc, dc, mcu, i), mcu, i + 1, j, k);
    }
  }

  /** One AC coefficient of more than ten bits puts the whole scan out of range. */
  lemma {:induction false} LargeScanOutOfRange(sc: Scan, g: GState, mcus: seq<Mcu>, m: nat, j: nat, k: nat)
    requires AllShaped(sc, mcus) && |g.dc| == |sc.dcNo| && m < |mcus| && j < |mcus[m]| && 1 <= k < 64
    requires !(-1023 <= Zigzag(mcus[m][j])[k] <= 1023)
    ensures !ScanInRange(sc, g, mcus)
    decreases |mcus|
  {
    hide McuInRange, Zigzag;
    if m == 0 {
      LargeInMcu(sc, GBegin(sc, g), mcus[0], 0, j, k);
    } else {
      LargeScanOutOfRange(sc, GNext(sc, g, mcus[0]), mcus[1..], m - 1, j, k);
    }
  }

  /** Counting tables, one per table number. */
  ghost predicate CountTables(c: seq<seq<nat>>)
  {
    forall i :: 0 <= i < |c| ==> CountTable(c[i])
  }

  // ----- The pass -----

  class Gatherer {
    const sc: Scan
    var lastDc: seq<int>
    var restartsToGo: nat
    var dcCounts: seq<seq<nat>>
    var acCounts: seq<seq<nat>>

    ghost predicate Valid()
      reads this
    {
      && ScanOk(sc) && |lastDc| == |sc.dcNo|
      && |dcCounts| == |sc.dc| && |acCounts| == |sc.ac|
      && CountTables(dcCounts) && CountTables(acCounts)
    }

    ghost function State(): GState
      reads this
    {
      GState(lastDc, restartsToGo)
    }

    /** start_pass_huff for gathering: all counts zero. */
    constructor (sc: Scan)
      requires ScanOk(sc)
      ensures Valid() && this.sc == sc && State() == GState(Zeroes(|sc.dcNo|), sc.interval)
      ensures forall no :: 0 <= no < |sc.dc| ==> dcCounts[no] == seq(SYMBOLS, _ => 0)
      ensures forall no :: 0 <= no < |sc.ac| ==> acCounts[no] == seq(SYMBOLS, _ => 0)
    {
      this.sc := sc;
      lastDc, restartsToGo := Zeroes(|sc.dcNo|), sc.interval;
      dcCounts := seq(|sc.dc|, _ => seq(SYMBOLS, _ => 0));
      acCounts := seq(|sc.ac|, _ => seq(SYMBOLS, _ => 0));
    }

    /** encode_mcu_gather; false where the source raises its bad-coefficient
        error. */
    method EncodeMcuGather(mcu: Mcu) returns (ok: bool)
      requires Valid() && |mcu| == |sc.membership|
      modifies this
      ensures Valid()
      ensures ok <==> McuInRange(sc, GBegin(sc, old(State())), mcu, 0)
      ensures ok ==> State() == GNext(sc, old(State()), mcu)
      ensures ok ==> forall no :: 0 <= no < |sc.dc| ==>
        Counted(old(dcCounts)[no], dcCounts[no], McuToks(sc, GBegin(sc, old(State())), mcu, 0, false, no), false)
      ensures ok ==> forall no :: 0 <= no < |sc.ac| ==>
        Counted(old(acCounts)[no], acCounts[no], McuToks(sc, GBegin(sc, old(State())), mcu, 0, true, no), true)
    {
      ghost var dc0 := GBegin(sc, State());
      if sc.interval != 0 {
        if restartsToGo == 0 {
          lastDc := Zeroes(|sc.dcNo|);
          restartsToGo := sc.interval;
        }
        restartsToGo := restartsToGo - 1;
      }
      ok := CountBlocks(mcu, dc0);
    }

    /** The data blocks of one MCU. */
    method CountBlocks(mcu: Mcu, ghost dc0: seq<int>) returns (ok: bool)
      requires Valid() && |mcu| == |sc.membership| && lastDc == dc0
      modifies `lastDc, `dcCounts, `acCounts
      ensures Valid()
      ensures ok <==> McuInRange(sc, dc0, mcu, 0)
      ensures ok ==> lastDc == DcAfter(sc, dc0, mcu, 0)
      ensures ok ==> forall no :: 0 <= no < |sc.dc| ==>
        Counted(old(dcCounts)[no], dcCounts[no], McuToks(sc, dc0, mcu, 0, false, no), false)
      ensures ok ==> forall no :: 0 <= no < |sc.ac| ==>
        Counted(old(acCounts)[no], acCounts[no], McuToks(sc, dc0, mcu, 0, true, no), true)
    {
      hide Counted, BlockTokens, Zigzag;
      ghost var doneDc := seq(|sc.dc|, _ => []);
      ghost var doneAc := seq(|sc.ac|, _ => []);
      StartCounts(dcCounts, doneDc, false);
      StartCounts(acCounts, doneAc, true);
      for blkn := 0 to |mcu|
        invariant Valid()
        invariant McuInRange(sc, lastDc, mcu, blkn) <==> McuInRange(sc, dc0, mcu, 0)
        invariant DcAfter(sc, lastDc, mcu, blkn) == DcAfter(sc, dc0, mcu, 0)
        invariant CountedAll(old(dcCounts), dcCounts, doneDc, false)
        invariant CountedAll(old(acCounts), acCounts, doneAc, true)
        invariant Remaining(sc, dc0, lastDc, mcu, blkn, doneDc, false)
        invariant Remaining(sc, dc0, lastDc, mcu, blkn, doneAc, true)
      {
        var ci := sc.membership[blkn];
        var d, a := sc.dcNo[ci], sc.acNo[ci];
        var dc, ac;
        ok, dc, ac := CountBlock(mcu[blkn], lastDc[ci], dcCounts[d], acCounts[a]);
        if !ok {
          return;
        }
        ghost var toks := BlockToks(sc, lastDc, mcu, blkn);
        CountedShape(dcCounts[d], dc, toks, false);
        CountedShape(acCounts[a], ac, toks, true);
        CountedMore(old(dcCounts), dcCounts, doneDc, d, dc, toks, false);
        CountedMore(old(acCounts), acCounts, doneAc, a, ac, toks, true);
        RemainingStep(sc, dc0, lastDc, mcu, blkn, doneDc, false);
        RemainingStep(sc, dc0, lastDc, mcu, blkn, doneAc, true);
        dcCounts, doneDc := dcCounts[d := dc], doneDc[d := doneDc[d] + toks];
        acCounts, doneAc := acCounts[a := ac], doneAc[a := doneAc[a] + toks];
        lastDc := lastDc[ci := mcu[blkn][0]];
      }
      AllDone(sc, dc0, lastDc, mcu, doneDc, false);
      AllDone(sc, dc0, lastDc, mcu, doneAc, true);
      return true;
    }
  }

  lemma CountedShape(c: seq<nat>, c': seq<nat>, toks: seq<Token>, isAc: bool)
    requires Counted(c, c', toks, isAc)
    ensures CountTable(c')
  {
  }

  /** For every table, the tokens counted so far. */
  ghost predicate CountedAll(before: seq<seq<nat>>, now: seq<seq<nat>>, done: seq<seq<Token>>, isAc: bool)
  {
    |before| == |now| == |done| && forall no :: 0 <= no < |before| ==> Counted(before[no], now[no], done[no], isAc)
  }

  lemma StartCounts(c: seq<seq<nat>>, done: seq<seq<Token>>, isAc: bool)
    requires CountTables(c) && |done| == |c| && forall no :: 0 <= no < |c| ==> done[no] == []
    ensures CountedAll(c, c, done, isAc)
  {
  }

  lemma CountedMore(before: seq<seq<nat>>, now: seq<seq<nat>>, done: seq<seq<Token>>, no: nat, c: seq<nat>,
                    toks: seq<Token>, isAc: bool)
    requires CountedAll(before, now, done, isAc) && no < |now| && Counted(now[no], c, toks, isAc)
    ensures CountedAll(before, now[no := c], done[no := done[no] + toks], isAc)
  {
    hide Counted;
    CountedThen(before[no], now[no], c, done[no], toks, isAc);
  }

  /** For every table, counted tokens and those of the blocks to come are the
      MCU's tokens. */
  ghost predicate Remaining(sc: Scan, dc0: seq<int>, dc: seq<int>, mcu: Mcu, i: nat, done: seq<seq<Token>>, isAc: bool)
  {
    && Shaped(sc, dc0, mcu) && Shaped(sc, dc, mcu) && i <= |mcu|
    && |done| == (if isAc then |sc.ac| else |sc.dc|)
    && forall no: nat :: no < |done| ==>
         McuToks(sc, dc0, mcu, 0, isAc, no) == done[no] + McuToks(sc, dc, mcu, i, isAc, no)
  }

  lemma RemainingStep(sc: Scan, dc0: seq<int>, dc: seq<int>, mcu: Mcu, i: nat, done: seq<seq<Token>>, isAc: bool)
    requires Remaining(sc, dc0, dc, mcu, i, done, isAc) && i < |mcu|
    ensures TableNo(sc, i, isAc) < |done|
    ensures Remaining(sc, dc0, DcNext(sc, dc, mcu, i), mcu, i + 1,
                      done[TableNo(sc, i, isAc) := done[TableNo(sc, i, isAc)] + BlockToks(sc, dc, mcu, i)], isAc)
  {
    hide BlockTokens, Zigzag;
    var t := TableNo(sc, i, isAc);
    var toks := BlockToks(sc, dc, mcu, i);
    var done' := done[t := done[t] + toks];
    forall no: nat | no < |done'|
      ensures McuToks(sc, dc0, mcu, 0, isAc, no) ==
        done'[no] + McuToks(sc, DcNext(sc, dc, mcu, i), mcu, i + 1, isAc, no)
    {
      var rest := McuToks(sc, DcNext(sc, dc, mcu, i), mcu, i + 1, isAc, no);
      assert done[no] + (toks + rest) == (done[no] + toks) + rest;
      assert [] + rest == rest;
    }
  }

  lemma AllDone(sc: Scan, dc0: seq<int>, dc: seq<int>, mcu: Mcu, done: seq<seq<Token>>, isAc: bool)
    requires Remaining(sc, dc0, dc, mcu, |mcu|, done, isAc)
    ensures forall no: nat :: no < |done| ==> McuToks(sc, dc0, mcu, 0, isAc, no) == done[no]
  {
  }

  // ----- Agreement with the output pass -----

  lemma {:induction false} CountedOccurs(toks: seq<Token>, isAc: bool, s: nat)
    ensures Count(toks, isAc, s) > 0 <==> Sym(isAc, s) in toks
  {
    if toks != [] {
      CountedOccurs(toks[1..], isAc, s);
    }
  }

  ghost predicate HasCodes(t: Codes, toks: seq<Token>, isAc: bool)
  {
    forall s: nat :: Sym(isAc, s) in toks ==> HasCode(t, s)
  }

  lemma {:induction false} CodedSendable(toks: seq<Token>, dc: Codes, ac: Codes)
    requires Bad !in toks && HasCodes(dc, toks, false) && HasCodes(ac, toks, true)
    ensures AllSendable(toks, dc, ac)
  {
    if toks != [] {
      assert toks[0] in toks;
      CodedSendable(toks[1..], dc, ac);
    }
  }

  /** Every table codes all the symbols its blocks use. */
  ghost predicate McuCoded(sc: Scan, dc: seq<int>, mcu: Mcu, i: nat)
    requires Shaped(sc, dc, mcu) && i <= |mcu|
  {
    && (forall no :: 0 <= no < |sc.dc| ==> HasCodes(sc.dc[no].codes, McuToks(sc, dc, mcu, i, false, no), false))
    && (forall no :: 0 <= no < |sc.ac| ==> HasCodes(sc.ac[no].codes, McuToks(sc, dc, mcu, i, true, no), true))
  }

  lemma {:induction false} CodedMcuSendable(sc: Scan, dc: seq<int>, mcu: Mcu, i: nat)
    requires Shaped(sc, dc, mcu) && i <= |mcu| && McuInRange(sc, dc, mcu, i) && McuCoded(sc, dc, mcu, i)
    ensures McuSendable(sc, dc, mcu, i)
    decreases |mcu| - i
  {
    hide BlockTokens, Zigzag, AllSendable, HasCode;
    if i < |mcu| {
      var d, a := TableNo(sc, i, false), TableNo(sc, i, true);
      var toks := BlockToks(sc, dc, mcu, i);
      PartCoded(sc.dc[d].codes, toks, McuToks(sc, DcNext(sc, dc, mcu, i), mcu, i + 1, false, d), false);
      PartCoded(sc.ac[a].codes, toks, McuToks(sc, DcNext(sc, dc, mcu, i), mcu, i + 1, true, a), true);
      CodedSendable(toks, sc.dc[d].codes, sc.ac[a].codes);
      LaterCoded(sc, dc, mcu, i);
      CodedMcuSendable(sc, DcNext(sc, dc, mcu, i), mcu, i + 1);
    }
  }

  lemma PartCoded(t: Codes, a: seq<Token>, b: seq<Token>, isAc: bool)
    requires HasCodes(t, a + b, isAc)
    ensures HasCodes(t, a, isAc) && HasCodes(t, b, isAc)
  {
    hide HasCode;
    forall s: nat | Sym(isAc, s) in a
      ensures HasCode(t, s)
    {
      assert Sym(isAc, s) in a + b;
    }
    forall s: nat | Sym(isAc, s) in b
      ensures HasCode(t, s)
    {
      assert Sym(isAc, s) in a + b;
    }
  }

  lemma LaterCoded(sc: Scan, dc: seq<int>, mcu: Mcu, i: nat)
    requires Shaped(sc, dc, mcu) && i < |mcu| && McuCoded(sc, dc, mcu, i)
    ensures McuCoded(sc, DcNext(sc, dc, mcu, i), mcu, i + 1)
  {
    hide HasCodes, BlockTokens, Zigzag;
    var toks := BlockToks(sc, dc, mcu, i);
    forall no | 0 <= no < |sc.dc|
      ensures HasCodes(sc.dc[no].codes, McuToks(sc, DcNext(sc, dc, mcu, i), mcu, i + 1, false, no), false)
    {
      PartCoded(sc.dc[no].codes, if TableNo(sc, i, false) == no then toks else [],
                McuToks(sc, DcNext(sc, dc, mcu, i), mcu, i + 1, false, no), false);
    }
    forall no | 0 <= no < |sc.ac|
      ensures HasCodes(sc.ac[no].codes, McuToks(sc, DcNext(sc, dc, mcu, i), mcu, i + 1, true, no), true)
    {
      PartCoded(sc.ac[no].codes, if TableNo(sc, i, true) == no then toks else [],
                McuToks(sc, DcNext(sc, dc, mcu, i), mcu, i + 1, true, no), true);
    }
  }

  ghost predicate ScanCoded(sc: Scan, g: GState, mcus: seq<Mcu>)
    requires AllShaped(sc, mcus) && |g.dc| == |sc.dcNo|
  {
    && (forall no :: 0 <= no < |sc.dc| ==> HasCodes(sc.dc[no].codes, ScanToks(sc, g, mcus, false, no), false))
    && (forall no :: 0 <= no < |sc.ac| ==> HasCodes(sc.ac[no].codes, ScanToks(sc, g, mcus, true, no), true))
  }

  lemma ScanCodedSplit(sc: Scan, g: GState, mcus: seq<Mcu>)
    requires AllShaped(sc, mcus) && |g.dc| == |sc.dcNo| && mcus != [] && ScanCoded(sc, g, mcus)
    ensures McuCoded(sc, GBegin(sc, g), mcus[0], 0)
    ensures ScanCoded(sc, GNext(sc, g, mcus[0]), mcus[1..])
  {
    hide HasCodes, McuToks;
    forall no | 0 <= no < |sc.dc|
      ensures HasCodes(sc.dc[no].codes, McuToks(sc, GBegin(sc, g), mcus[0], 0, false, no), false)
      ensures HasCodes(sc.dc[no].codes, ScanToks(sc, GNext(sc, g, mcus[0]), mcus[1..], false, no), false)
    {
      PartCoded(sc.dc[no].codes, McuToks(sc, GBegin(sc, g), mcus[0], 0, false, no),
                ScanToks(sc, GNext(sc, g, mcus[0]), mcus[1..], false, no), false);
    }
    forall no | 0 <= no < |sc.ac|
      ensures HasCodes(sc.ac[no].codes, McuToks(sc, GBegin(sc, g), mcus[0], 0, true, no), true)
      ensures HasCodes(sc.ac[no].codes, ScanToks(sc, GNext(sc, g, mcus[0]), mcus[1..], true, no), true)
    {
      PartCoded(sc.ac[no].codes, McuToks(sc, GBegin(sc, g), mcus[0], 0, true, no),
                ScanToks(sc, GNext(sc, g, mcus[0]), mcus[1..], true, no), true);
    }
  }

  /** The output pass follows the gathering pass block by block, so a scan whose
      coefficients are in range and whose gathered symbols are coded is encoded
      without an error. */
  lemma {:induction false} GatherAgrees(sc: Scan, s: Saved, mcus: seq<Mcu>)
    requires AllShaped(sc, mcus) && SavedOk(sc, s)
    requires ScanInRange(sc, GState(s.dc, s.togo), mcus) && ScanCoded(sc, GState(s.dc, s.togo), mcus)
    ensures ScanRun(sc, s, mcus).err == Ok
    decreases |mcus|
  {
    hide SendBlocks, McuToks, McuSendable, McuInRange, McuCoded, ScanCoded, DcAfter, SendBits;
    if mcus != [] {
      var g := GState(s.dc, s.togo);
      ScanCodedSplit(sc, g, mcus);
      CodedMcuSendable(sc, GBegin(sc, g), mcus[0], 0);
      var (r, dc) := McuStart(sc, s);
      SendBlocksBits(sc, r.pending, dc, mcus[0], 0);
      NextOk(sc, s, mcus[0]);
      GatherAgrees(sc, McuNext(sc, s, mcus[0]), mcus[1..]);
    }
  }

  lemma NextOk(sc: Scan, s: Saved, mcu: Mcu)
    requires Shaped(sc, s.dc, mcu) && SavedOk(sc, s) && McuRun(sc, s, mcu).err == Ok
    ensures SavedOk(sc, McuNext(sc, s, mcu))
    ensures GState(McuNext(sc, s, mcu).dc, McuNext(sc, s, mcu).togo) == GNext(sc, GState(s.dc, s.togo), mcu)
  {
    hide McuSendable, McuBits, SendBlocks, DcAfter;
    var (r, dc) := McuStart(sc, s);
    SendBlocksBits(sc, r.pending, dc, mcu, 0);
  }

  // ----- Tables generated from the counts -----

  ghost function Zero(): seq<nat>
  {
    seq(SYMBOLS, _ => 0)
  }

  lemma DerivedLength(t: Codes, bits: seq<nat>, huffval: seq<nat>)
    requires Derived(t, bits, huffval)
    ensures |t.co| == 256 == |t.si|
  {
  }

  /** The symbols a sequential scan may use. */
  predicate InAlphabet(isAc: bool, s: nat)
  {
    if isAc then s == EOB || s == ZRL || (s < 256 && 1 <= s % 16 <= MAX_COEF_BITS) else s <= MAX_COEF_BITS + 1
  }

  ghost predicate AlphabetOnly(toks: seq<Token>)
  {
    forall isAc, s :: Sym(isAc, s) in toks ==> InAlphabet(isAc, s)
  }

  lemma {:induction false} ACAlphabet(z: Block, k: nat, r: nat)
    requires k <= DCTSIZE2
    ensures AlphabetOnly(ACTokens(z, k, r))
    decreases DCTSIZE2 - k, r
  {
    if k < DCTSIZE2 {
      if z[k] == 0 {
        ACAlphabet(z, k + 1, r + 1);
      } else if r > 15 {
        ACAlphabet(z, k, r - 16);
      } else {
        ACAlphabet(z, k + 1, 0);
        assert AlphabetOnly(CoefPair(z[k], r));
      }
    }
  }

  lemma BlockAlphabet(z: Block, pred: int)
    ensures AlphabetOnly(BlockTokens(z, pred))
  {
    ACAlphabet(z, 1, 0);
    assert AlphabetOnly(DCTokens(z[0] - pred));
  }

  lemma {:induction false} McuAlphabet(sc: Scan, dc: seq<int>, mcu: Mcu, i: nat, isAc: bool, no: nat)
    requires Shaped(sc, dc, mcu) && i <= |mcu|
    ensures AlphabetOnly(McuToks(sc, dc, mcu, i, isAc, no))
    decreases |mcu| - i
  {
    hide BlockTokens, Zigzag, InAlphabet;
    if i < |mcu| {
      BlockAlphabet(Zigzag(mcu[i]), dc[sc.membership[i]]);
      McuAlphabet(sc, DcNext(sc, dc, mcu, i), mcu, i + 1, isAc, no);
    }
  }

  lemma {:induction false} ScanAlphabet(sc: Scan, g: GState, mcus: seq<Mcu>, isAc: bool, no: nat)
    requires AllShaped(sc, mcus) && |g.dc| == |sc.dcNo|
    ensures AlphabetOnly(ScanToks(sc, g, mcus, isAc, no))
    decreases |mcus|
  {
    hide McuToks, InAlphabet;
    if mcus != [] {
      McuAlphabet(sc, GBegin(sc, g), mcus[0], 0, isAc, no);
      ScanAlphabet(sc, GNext(sc, g, mcus[0]), mcus[1..], isAc, no);
    }
  }

  /** Counts of a sequential scan meet what the table generator asks for: at
      most 254 symbols in use. */
  lemma ScanCountable(counts: seq<nat>, toks: seq<Token>, isAc: bool, used: nat)
    requires Counted(Zero(), counts, toks, isAc) && AlphabetOnly(toks)
    requires Sym(isAc, used) in toks
    requires Sum(WithPseudo(counts)) <= MAX_COUNT
    ensures Countable(counts)
  {
    CountedOccurs(toks, isAc, used);
    assert InAlphabet(isAc, used);
    CountedOccurs(toks, isAc, 12);
    CountedOccurs(toks, isAc, 13);
    assert !InAlphabet(isAc, 12) && !InAlphabet(isAc, 13);
    TwoUnused(WithPseudo(counts), 12, 13);
  }

  lemma TwoUnused(freq: seq<nat>, x: nat, y: nat)
    requires x < |freq| && y < |freq| && x != y && freq[x] == 0 && freq[y] == 0
    ensures Live(freq) <= |freq| - 2
  {
    var m := Marks(freq);
    var u := m[x := 1][y := 1];
    SumUpdate(m, x, 1);
    SumUpdate(m[x := 1], y, 1);
    MarksBound(u);
  }

  lemma AlphabetBytes(toks: seq<Token>, isAc: bool)
    requires AlphabetOnly(toks)
    ensures forall s: nat :: Sym(isAc, s) in toks ==> s < 256
  {
    forall s: nat | Sym(isAc, s) in toks
      ensures s < 256
    {
      assert InAlphabet(isAc, s);
    }
  }
}
