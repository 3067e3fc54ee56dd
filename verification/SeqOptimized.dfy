/** Optimized sequential coding: a statistics pass, tables generated from its
    counts, and an output pass with the encoder's tables derived from them. */
module SeqOptimized {
  import opened Bits
  import opened Stuffing
  import opened ZigzagOrder
  import opened DerivedTable
  import opened OptimalTable
  import opened GeneratedTables
  import opened SeqTokens
  import opened SeqEncoder
  import opened SeqScan
  import opened HuffEntropy
  import opened Gather
  import opened SeqCounts
  import opened TableSets

  // ----- The statistics pass -----

  /** The counting tables of one kind hold the symbols of a scan. */
  ghost predicate CountsScan(counts: seq<seq<nat>>, sc: Scan, mcus: seq<Mcu>, isAc: bool)
    requires AllShaped(sc, mcus)
  {
    && |counts| == (if isAc then |sc.ac| else |sc.dc|)
    && forall no: nat :: no < |counts| ==> counts[no] == ScanCounts(sc, mcus, isAc, no)
  }

  /** For every table, the tokens counted and those of the MCUs to come are the
      scan's tokens. */
  ghost predicate MoreToScan(sc: Scan, all: seq<Mcu>, g: GState, rest: seq<Mcu>, done: seq<seq<Token>>, isAc: bool)
  {
    && AllShaped(sc, all) && AllShaped(sc, rest) && |g.dc| == |sc.dcNo|
    && |done| == (if isAc then |sc.ac| else |sc.dc|)
    && forall no: nat :: no < |done| ==>
         ScanToks(sc, GStart(sc), all, isAc, no) == done[no] + ScanToks(sc, g, rest, isAc, no)
  }

  lemma ScanBegins(sc: Scan, mcus: seq<Mcu>, counts: seq<seq<nat>>, isAc: bool) returns (done: seq<seq<Token>>)
    requires AllShaped(sc, mcus) && |counts| == (if isAc then |sc.ac| else |sc.dc|)
    requires forall no :: 0 <= no < |counts| ==> counts[no] == Zero()
    ensures MoreToScan(sc, mcus, GStart(sc), mcus[0..], done, isAc) && CountedAll(counts, counts, done, isAc)
  {
    hide ScanToks, Counted;
    done := seq(|counts|, _ => []);
    assert mcus[0..] == mcus;
    forall no: nat | no < |done|
      ensures ScanToks(sc, GStart(sc), mcus, isAc, no) == done[no] + ScanToks(sc, GStart(sc), mcus[0..], isAc, no)
      ensures Counted(counts[no], counts[no], done[no], isAc)
    {
      CountedNone(counts[no], isAc);
    }
  }

  /** One MCU more. */
  lemma ScanGoesOn(sc: Scan, all: seq<Mcu>, g: GState, i: nat, done: seq<seq<Token>>, isAc: bool,
                   zero: seq<seq<nat>>, before: seq<seq<nat>>, after: seq<seq<nat>>)
    returns (done': seq<seq<Token>>)
    requires i < |all| && MoreToScan(sc, all, g, all[i..], done, isAc) && CountedAll(zero, before, done, isAc)
    requires |after| == |before|
    requires forall no: nat :: no < |after| ==>
      Counted(before[no], after[no], McuToks(sc, GBegin(sc, g), all[i], 0, isAc, no), isAc)
    ensures MoreToScan(sc, all, GNext(sc, g, all[i]), all[i + 1..], done', isAc) && CountedAll(zero, after, done', isAc)
  {
    hide McuToks, Counted, DcAfter;
    done' := seq(|done|, no requires 0 <= no < |done| => done[no] + McuToks(sc, GBegin(sc, g), all[i], 0, isAc, no));
    assert all[i..][0] == all[i] && all[i..][1..] == all[i + 1..];
    forall no: nat | no < |done'|
      ensures ScanToks(sc, GStart(sc), all, isAc, no) ==
        done'[no] + ScanToks(sc, GNext(sc, g, all[i]), all[i + 1..], isAc, no)
      ensures Counted(zero[no], after[no], done'[no], isAc)
    {
      var a, b := McuToks(sc, GBegin(sc, g), all[i], 0, isAc, no),
        ScanToks(sc, GNext(sc, g, all[i]), all[i + 1..], isAc, no);
      assert done[no] + (a + b) == (done[no] + a) + b;
      CountedThen(zero[no], before[no], after[no], done[no], a, isAc);
    }
  }

  lemma ScanEnds(sc: Scan, all: seq<Mcu>, g: GState, done: seq<seq<Token>>, isAc: bool,
                 zero: seq<seq<nat>>, counts: seq<seq<nat>>)
    requires MoreToScan(sc, all, g, [], done, isAc) && CountedAll(zero, counts, done, isAc)
    requires forall no :: 0 <= no < |zero| ==> zero[no] == Zero()
    ensures CountsScan(counts, sc, all, isAc)
  {
    hide Counted, CountsOf;
    forall no: nat | no < |counts|
      ensures counts[no] == ScanCounts(sc, all, isAc, no)
    {
      assert done[no] + [] == done[no];
      CountedIs(counts[no], done[no], isAc);
    }
  }

  lemma RangeStep(sc: Scan, g: GState, all: seq<Mcu>, i: nat)
    requires AllShaped(sc, all) && |g.dc| == |sc.dcNo| && i < |all|
    ensures AllShaped(sc, all[i..]) && AllShaped(sc, all[i + 1..])
    ensures ScanInRange(sc, g, all[i..]) <==>
      McuInRange(sc, GBegin(sc, g), all[i], 0) && ScanInRange(sc, GNext(sc, g, all[i]), all[i + 1..])
  {
    hide McuInRange, DcAfter;
    assert all[i..][0] == all[i] && all[i..][1..] == all[i + 1..];
  }

  /** A statistics pass over all MCUs of a scan; false where the source raises
      its bad-coefficient error. */
  method GatherScan(g: Gatherer, mcus: seq<Mcu>) returns (ok: bool)
    requires g.Valid() && g.State() == GStart(g.sc) && AllShaped(g.sc, mcus)
    requires forall no :: 0 <= no < |g.sc.dc| ==> g.dcCounts[no] == Zero()
    requires forall no :: 0 <= no < |g.sc.ac| ==> g.acCounts[no] == Zero()
    modifies g
    ensures g.Valid()
    ensures ok <==> ScanInRange(g.sc, GStart(g.sc), mcus)
    ensures ok ==> CountsScan(g.dcCounts, g.sc, mcus, false) && CountsScan(g.acCounts, g.sc, mcus, true)
  {
    hide McuToks, ScanToks, McuInRange, ScanInRange, DcAfter, Counted, CountsOf, ScanCounts, CountedAll, MoreToScan,
      CountsScan;
    ghost var sc, dc0, ac0 := g.sc, g.dcCounts, g.acCounts;
    ghost var doneDc := ScanBegins(sc, mcus, dc0, false);
    ghost var doneAc := ScanBegins(sc, mcus, ac0, true);
    assert mcus[0..] == mcus;
    for i := 0 to |mcus|
      invariant g.Valid() && AllShaped(sc, mcus[i..])
      invariant ScanInRange(sc, g.State(), mcus[i..]) <==> ScanInRange(sc, GStart(sc), mcus)
      invariant MoreToScan(sc, mcus, g.State(), mcus[i..], doneDc, false) && CountedAll(dc0, g.dcCounts, doneDc, false)
      invariant MoreToScan(sc, mcus, g.State(), mcus[i..], doneAc, true) && CountedAll(ac0, g.acCounts, doneAc, true)
    {
      ghost var s, dc, ac := g.State(), g.dcCounts, g.acCounts;
      RangeStep(sc, s, mcus, i);
      ok := g.EncodeMcuGather(mcus[i]);
      if !ok {
        return;
      }
      doneDc := ScanGoesOn(sc, mcus, s, i, doneDc, false, dc0, dc, g.dcCounts);
      doneAc := ScanGoesOn(sc, mcus, s, i, doneAc, true, ac0, ac, g.acCounts);
    }
    assert mcus[|mcus|..] == [];
    NothingLeft(sc, g.State());
    ScanEnds(sc, mcus, g.State(), doneDc, false, dc0, g.dcCounts);
    ScanEnds(sc, mcus, g.State(), doneAc, true, ac0, g.acCounts);
    return true;
  }

  lemma NothingLeft(sc: Scan, g: GState)
    requires ScanOk(sc) && |g.dc| == |sc.dcNo|
    ensures ScanInRange(sc, g, [])
  {
  }

  // ----- The tables -----

  ghost predicate Apart(dc: TableSet, ac: TableSet)
    reads dc`ptrs, ac`ptrs
  {
    dc.Objects() !! ac.Objects()
  }

  /** The table sets have the scan's table numbers. */
  ghost predicate SetsFit(sc: Scan, dc: TableSet, ac: TableSet)
    reads dc.Objects(), dc.ptrs, ac.Objects(), ac.ptrs
  {
    ScanOk(sc) && dc.Valid() && ac.Valid() && Apart(dc, ac) && |dc.ptrs| == |sc.dc| && |ac.ptrs| == |sc.ac|
  }

  ghost predicate TabulatedFor(sc: Scan, dc: seq<seq<nat>>, ac: seq<seq<nat>>, c: nat)
    requires ScanOk(sc) && |dc| == |sc.dc| && |ac| == |sc.ac| && c < |sc.dcNo|
  {
    Tabulated(dc[sc.dcNo[c]]) && Tabulated(ac[sc.acNo[c]])
  }

  /** The tables of one component. */
  method MakePair(dc: TableSet, ac: TableSet, d: nat, a: nat) returns (out: Outcome)
    requires dc.Valid() && ac.Valid() && Apart(dc, ac) && d < |dc.ptrs| && a < |ac.ptrs|
    requires Countable(dc.gathered[d]) && Countable(ac.gathered[a])
    modifies dc.Objects(), ac.Objects()
    ensures out == Done <==> Tabulated(dc.gathered[d]) && Tabulated(ac.gathered[a])
    ensures out == Done ==> dc.Valid() && ac.Valid() && Apart(dc, ac)
    ensures out == Done ==> dc.did == old(dc.did)[d := true] && ac.did == old(ac.did)[a := true]
    ensures out == Done ==> |dc.ptrs| == old(|dc.ptrs|) && |ac.ptrs| == old(|ac.ptrs|)
    ensures fresh(dc.Objects() - old(dc.Objects())) && fresh(ac.Objects() - old(ac.Objects()))
  {
    hide Tabulated, Countable, ByteValues, Pointers, Made;
    out := dc.MakeOnce(d);
    if out == Done {
      out := ac.MakeOnce(a);
    }
  }

  lemma SetsSized(sc: Scan, dc: TableSet, ac: TableSet)
    requires SetsFit(sc, dc, ac)
    ensures |dc.did| == |sc.dc| && |ac.did| == |sc.ac| && |dc.gathered| == |sc.dc| && |ac.gathered| == |sc.ac|
  {
  }

  /** finish_pass_gather: make the tables of all components, each just once. */
  method FinishPassGather(sc: Scan, dc: TableSet, ac: TableSet) returns (out: Outcome)
    requires SetsFit(sc, dc, ac)
    requires forall c :: 0 <= c < |sc.dcNo| ==>
      Countable(dc.gathered[sc.dcNo[c]]) && Countable(ac.gathered[sc.acNo[c]])
    modifies dc.Objects(), ac.Objects()
    ensures out == Done <==> forall c :: 0 <= c < |sc.dcNo| ==> TabulatedFor(sc, dc.gathered, ac.gathered, c)
    ensures out == Done ==>
      SetsFit(sc, dc, ac) && forall c :: 0 <= c < |sc.dcNo| ==> dc.did[sc.dcNo[c]] && ac.did[sc.acNo[c]]
  {
    hide Tabulated, Countable, TableSet.Valid, Apart;
    SetsSized(sc, dc, ac);
    for ci := 0 to |sc.dcNo|
      invariant SetsFit(sc, dc, ac) && |dc.did| == |sc.dc| && |ac.did| == |sc.ac|
      invariant fresh(dc.Objects() - old(dc.Objects())) && fresh(ac.Objects() - old(ac.Objects()))
      invariant forall c :: 0 <= c < ci ==> dc.did[sc.dcNo[c]] && ac.did[sc.acNo[c]]
      invariant forall c :: 0 <= c < ci ==> TabulatedFor(sc, dc.gathered, ac.gathered, c)
    {
      out := MakePair(dc, ac, sc.dcNo[ci], sc.acNo[ci]);
      if out != Done {
        assert !TabulatedFor(sc, dc.gathered, ac.gathered, ci);
        return;
      }
    }
    out := Done;
  }

  // ----- The output pass -----

  /** The same scan with other tables. */
  ghost predicate Retabled(sc: Scan, made: Scan)
  {
    made == sc.(dc := made.dc, ac := made.ac) && |made.dc| == |sc.dc| && |made.ac| == |sc.ac|
  }

  /** The tables of component c are those of the headers. */
  ghost predicate HeadedAt(sc: Scan, dc: seq<HuffTable?>, ac: seq<HuffTable?>, c: nat)
    requires ScanOk(sc) && |dc| == |sc.dc| && |ac| == |sc.ac| && c < |sc.dcNo|
    reads dc, ac
  {
    HeadedBy(sc.dc[sc.dcNo[c]], dc[sc.dcNo[c]]) && HeadedBy(sc.ac[sc.acNo[c]], ac[sc.acNo[c]])
  }

  lemma HeadedMore(sc: Scan, dc: seq<HuffTable?>, ac: seq<HuffTable?>, ci: nat, td: Table, ta: Table, made: Scan)
    requires ScanOk(sc) && |dc| == |sc.dc| && |ac| == |sc.ac| && ci < |sc.dcNo|
    requires forall c :: 0 <= c < ci ==> HeadedAt(sc, dc, ac, c)
    requires HeadedBy(td, dc[sc.dcNo[ci]]) && HeadedBy(ta, ac[sc.acNo[ci]])
    requires made == sc.(dc := sc.dc[sc.dcNo[ci] := td], ac := sc.ac[sc.acNo[ci] := ta])
    ensures ScanOk(made) && forall c :: 0 <= c <= ci ==> HeadedAt(made, dc, ac, c)
  {
    hide HeadedBy;
    forall c | 0 <= c <= ci
      ensures HeadedAt(made, dc, ac, c)
    {
      assert c < ci ==> HeadedAt(sc, dc, ac, c);
    }
  }

  /** start_pass_huff before the output pass: the encoder's tables are derived
      from the headers, once for each component that uses them. */
  method DeriveTables(sc: Scan, dc: TableSet, ac: TableSet) returns (made: Scan)
    requires SetsFit(sc, dc, ac) && forall c :: 0 <= c < |sc.dcNo| ==> dc.did[sc.dcNo[c]] && ac.did[sc.acNo[c]]
    requires forall c, s :: 0 <= c < |sc.dcNo| && 0 <= s < 256 && dc.gathered[sc.dcNo[c]][s] > 0 ==>
      s <= MaxSymbol(true)
    requires forall c, s :: 0 <= c < |sc.dcNo| && 0 <= s < 256 && ac.gathered[sc.acNo[c]][s] > 0 ==>
      s <= MaxSymbol(false)
    ensures Retabled(sc, made) && ScanOk(made)
    ensures forall c :: 0 <= c < |sc.dcNo| ==> HeadedAt(made, dc.ptrs, ac.ptrs, c)
  {
    hide Headed, Generated, HeadedAt, ByteValues;
    made := sc;
    for ci := 0 to |sc.dcNo|
      invariant Retabled(sc, made) && ScanOk(made)
      invariant forall c :: 0 <= c < ci ==> HeadedAt(made, dc.ptrs, ac.ptrs, c)
    {
      var d, a := sc.dcNo[ci], sc.acNo[ci];
      var td := DeriveMade(true, dc.ptrs[d], dc.gathered[d]);
      var ta := DeriveMade(false, ac.ptrs[a], ac.gathered[a]);
      HeadedMore(made, dc.ptrs, ac.ptrs, ci, td, ta, made.(dc := made.dc[d := td], ac := made.ac[a := ta]));
      made := made.(dc := made.dc[d := td], ac := made.ac[a := ta]);
    }
  }

  lemma {:induction false} SameMcu(sc: Scan, made: Scan, dc: seq<int>, mcu: Mcu, i: nat, isAc: bool, no: nat)
    requires Retabled(sc, made) && Shaped(sc, dc, mcu) && i <= |mcu|
    ensures Shaped(made, dc, mcu)
    ensures McuToks(made, dc, mcu, i, isAc, no) == McuToks(sc, dc, mcu, i, isAc, no)
    ensures McuInRange(made, dc, mcu, i) <==> McuInRange(sc, dc, mcu, i)
    ensures DcAfter(made, dc, mcu, i) == DcAfter(sc, dc, mcu, i)
    decreases |mcu| - i
  {
    hide BlockTokens, Zigzag;
    if i < |mcu| {
      SameMcu(sc, made, DcNext(sc, dc, mcu, i), mcu, i + 1, isAc, no);
    }
  }

  /** What is coded does not depend on the tables. */
  lemma {:induction false} SameScan(sc: Scan, made: Scan, g: GState, mcus: seq<Mcu>, isAc: bool, no: nat)
    requires Retabled(sc, made) && AllShaped(sc, mcus) && |g.dc| == |sc.dcNo|
    ensures AllShaped(made, mcus) && ScanToks(made, g, mcus, isAc, no) == ScanToks(sc, g, mcus, isAc, no)
    ensures ScanInRange(made, g, mcus) <==> ScanInRange(sc, g, mcus)
    decreases |mcus|
  {
    hide McuToks, McuInRange, DcAfter;
    if mcus != [] {
      SameMcu(sc, made, GBegin(sc, g), mcus[0], 0, isAc, no);
      SameScan(sc, made, GNext(sc, g, mcus[0]), mcus[1..], isAc, no);
    }
  }

  lemma {:induction false} UnusedMcu(sc: Scan, dc: seq<int>, mcu: Mcu, i: nat, isAc: bool, no: nat)
    requires Shaped(sc, dc, mcu) && i <= |mcu| && forall j: nat :: j < |mcu| ==> TableNo(sc, j, isAc) != no
    ensures McuToks(sc, dc, mcu, i, isAc, no) == []
    decreases |mcu| - i
  {
    hide BlockTokens, Zigzag;
    if i < |mcu| {
      UnusedMcu(sc, DcNext(sc, dc, mcu, i), mcu, i + 1, isAc, no);
    }
  }

  /** A table that no block uses codes nothing. */
  lemma {:induction false} UnusedTable(sc: Scan, g: GState, mcus: seq<Mcu>, isAc: bool, no: nat)
    requires AllShaped(sc, mcus) && |g.dc| == |sc.dcNo|
    requires forall j: nat :: j < |sc.membership| ==> TableNo(sc, j, isAc) != no
    ensures ScanToks(sc, g, mcus, isAc, no) == []
    decreases |mcus|
  {
    hide McuToks, DcAfter, TableNo;
    if mcus != [] {
      UnusedMcu(sc, GBegin(sc, g), mcus[0], 0, isAc, no);
      UnusedTable(sc, GNext(sc, g, mcus[0]), mcus[1..], isAc, no);
    }
  }

  // ----- Agreement -----

  ghost predicate MadeForBlock(sc: Scan, mcus: seq<Mcu>, j: nat)
    requires AllShaped(sc, mcus) && j < |sc.membership|
  {
    && MadeFrom(DCTable(sc, j), ScanCounts(sc, mcus, false, TableNo(sc, j, false)))
    && MadeFrom(ACTable(sc, j), ScanCounts(sc, mcus, true, TableNo(sc, j, true)))
  }

  /** It has a code for every token it was counted from, reads every code back
      and fits the bit writer. */
  lemma MadeServes(t: Table, toks: seq<Token>, isAc: bool)
    requires MadeFrom(t, CountsOf(toks, isAc)) && AlphabetOnly(toks)
    ensures HasCodes(t.codes, toks, isAc) && TableOk(t) && TableSized(t.codes)
  {
    hide Generated, Derived;
    var counts := CountsOf(toks, isAc);
    var bits: seq<nat>, huffval: seq<nat> :| Generated(counts, bits, huffval) && Headed(t, bits, huffval);
    HeadedOk(t, bits, huffval);
    AlphabetBytes(toks, isAc);
    DerivedLength(t.codes, bits, huffval);
    forall s: nat | Sym(isAc, s) in toks
      ensures HasCode(t.codes, s)
    {
      CountedOccurs(toks, isAc, s);
      CountedAreCoded(counts, bits, huffval, t.codes, s);
    }
  }

  lemma TableServes(sc: Scan, mcus: seq<Mcu>, isAc: bool, no: nat)
    requires AllShaped(sc, mcus) && no < |if isAc then sc.ac else sc.dc|
    requires forall j: nat :: j < |sc.membership| ==> MadeForBlock(sc, mcus, j)
    ensures HasCodes((if isAc then sc.ac else sc.dc)[no].codes, ScanToks(sc, GStart(sc), mcus, isAc, no), isAc)
  {
    hide MadeFrom, ScanToks, AlphabetOnly;
    if j: nat :| j < |sc.membership| && TableNo(sc, j, isAc) == no {
      assert MadeForBlock(sc, mcus, j);
      ScanAlphabet(sc, GStart(sc), mcus, isAc, no);
      MadeServes((if isAc then sc.ac else sc.dc)[no], ScanToks(sc, GStart(sc), mcus, isAc, no), isAc);
    } else {
      UnusedTable(sc, GStart(sc), mcus, isAc, no);
    }
  }

  lemma TablesServe(sc: Scan, mcus: seq<Mcu>)
    requires AllShaped(sc, mcus) && forall j: nat :: j < |sc.membership| ==> MadeForBlock(sc, mcus, j)
    ensures TablesOk(sc) && CodesSized(sc)
  {
    hide MadeFrom, ScanToks, TableOk, TableSized, AlphabetOnly;
    forall j: nat | j < |sc.membership|
      ensures TableOk(DCTable(sc, j)) && TableSized(DCTable(sc, j).codes)
      ensures TableOk(ACTable(sc, j)) && TableSized(ACTable(sc, j).codes)
    {
      assert MadeForBlock(sc, mcus, j);
      var d, a := TableNo(sc, j, false), TableNo(sc, j, true);
      ScanAlphabet(sc, GStart(sc), mcus, false, d);
      MadeServes(DCTable(sc, j), ScanToks(sc, GStart(sc), mcus, false, d), false);
      ScanAlphabet(sc, GStart(sc), mcus, true, a);
      MadeServes(ACTable(sc, j), ScanToks(sc, GStart(sc), mcus, true, a), true);
    }
  }

  /** A scan whose coefficients are in range, coded with tables generated from
      its own counts, is encoded to the end; with nothing but the headers of
      those tables, it decodes to its MCUs. */
  lemma OptimizedScanRoundTrip(sc: Scan, mcus: seq<Mcu>)
    requires AllShaped(sc, mcus) && ScanInRange(sc, GStart(sc), mcus)
    requires forall j: nat :: j < |sc.membership| ==> MadeForBlock(sc, mcus, j)
    ensures TablesOk(sc) && CodesSized(sc)
    ensures ScanRun(sc, StartScan(sc), mcus).err == Ok
    ensures Bytes(ScanRun(sc, StartScan(sc), mcus).bytes)
    ensures DecodeScan(sc, |mcus|, 0, ScanRun(sc, StartScan(sc), mcus).bytes) == Some(mcus)
  {
    hide MadeForBlock, ScanToks, TablesOk, ScanInRange, ScanRun, DecodeScan, HasCodes, CodesSized;
    forall no | 0 <= no < |sc.dc|
      ensures HasCodes(sc.dc[no].codes, ScanToks(sc, GStart(sc), mcus, false, no), false)
    {
      TableServes(sc, mcus, false, no);
    }
    forall no | 0 <= no < |sc.ac|
      ensures HasCodes(sc.ac[no].codes, ScanToks(sc, GStart(sc), mcus, true, no), true)
    {
      TableServes(sc, mcus, true, no);
    }
    TablesServe(sc, mcus);
    GatherAgrees(sc, StartScan(sc), mcus);
    ScanRoundTrip(sc, mcus, 0);
  }

  // ----- The two passes together -----

  /** Every component of a scan has a block in each MCU: sampling factors are at
      least 1. */
  ghost predicate EveryComponent(sc: Scan)
  {
    forall c: nat :: c < |sc.dcNo| ==> c in sc.membership
  }

  /** No table of the scan needs a code longer than 32 bits. */
  ghost predicate AllTabulated(sc: Scan, mcus: seq<Mcu>)
    requires AllShaped(sc, mcus)
  {
    forall j: nat, isAc :: j < |sc.membership| ==> Tabulated(ScanCounts(sc, mcus, isAc, TableNo(sc, j, isAc)))
  }

  /** Below nine million coefficients every table can be generated. */
  lemma SmallScanFits(sc: Scan, mcus: seq<Mcu>)
    requires AllShaped(sc, mcus) && mcus != [] && ScanInRange(sc, GStart(sc), mcus)
    requires Coefficients(sc, |mcus|) < 9227465 - 1
    ensures AllTabulated(sc, mcus)
  {
    hide Tabulated, ScanCounts, ScanInRange, Coefficients;
    forall j: nat, isAc | j < |sc.membership|
      ensures Tabulated(ScanCounts(sc, mcus, isAc, TableNo(sc, j, isAc)))
    {
      SmallScanTabulated(sc, mcus, j, isAc);
    }
  }

  /** The counts of a scan by table number. */
  ghost predicate CountsBoth(sc: Scan, mcus: seq<Mcu>, dc: seq<seq<nat>>, ac: seq<seq<nat>>)
    requires AllShaped(sc, mcus)
  {
    CountsScan(dc, sc, mcus, false) && CountsScan(ac, sc, mcus, true)
  }

  lemma ComponentCountable(sc: Scan, mcus: seq<Mcu>, dc: seq<seq<nat>>, ac: seq<seq<nat>>, c: nat)
    requires AllShaped(sc, mcus) && CountsBoth(sc, mcus, dc, ac) && EveryComponent(sc) && c < |sc.dcNo|
    requires mcus != [] && ScanInRange(sc, GStart(sc), mcus) && Coefficients(sc, |mcus|) < MAX_COUNT
    ensures Countable(dc[sc.dcNo[c]]) && Countable(ac[sc.acNo[c]])
  {
    hide Countable, ScanInRange, ScanCounts, Coefficients;
    assert c in sc.membership;
    var j: nat :| j < |sc.membership| && sc.membership[j] == c;
    UsedCountable(sc, mcus, j, false);
    UsedCountable(sc, mcus, j, true);
  }

  lemma ComponentsTabulated(sc: Scan, mcus: seq<Mcu>, dc: seq<seq<nat>>, ac: seq<seq<nat>>)
    requires AllShaped(sc, mcus) && CountsBoth(sc, mcus, dc, ac) && EveryComponent(sc)
    ensures (forall c :: 0 <= c < |sc.dcNo| ==> TabulatedFor(sc, dc, ac, c)) <==> AllTabulated(sc, mcus)
  {
    hide Tabulated, ScanCounts;
    if AllTabulated(sc, mcus) {
      forall c | 0 <= c < |sc.dcNo|
        ensures TabulatedFor(sc, dc, ac, c)
      {
        assert c in sc.membership;
        var j: nat :| j < |sc.membership| && sc.membership[j] == c;
        assert Tabulated(ScanCounts(sc, mcus, false, TableNo(sc, j, false)));
        assert Tabulated(ScanCounts(sc, mcus, true, TableNo(sc, j, true)));
      }
    }
    if forall c :: 0 <= c < |sc.dcNo| ==> TabulatedFor(sc, dc, ac, c) {
      forall j: nat, isAc | j < |sc.membership|
        ensures Tabulated(ScanCounts(sc, mcus, isAc, TableNo(sc, j, isAc)))
      {
        assert TabulatedFor(sc, dc, ac, sc.membership[j]);
      }
    }
  }

  lemma ComponentSymbols(sc: Scan, mcus: seq<Mcu>, dc: seq<seq<nat>>, ac: seq<seq<nat>>, c: nat, s: nat)
    requires AllShaped(sc, mcus) && CountsBoth(sc, mcus, dc, ac) && c < |sc.dcNo| && s < 256
    ensures |dc[sc.dcNo[c]]| == SYMBOLS && (dc[sc.dcNo[c]][s] > 0 ==> s <= MaxSymbol(true))
    ensures |ac[sc.acNo[c]]| == SYMBOLS && (ac[sc.acNo[c]][s] > 0 ==> s <= MaxSymbol(false))
  {
    hide ScanCounts;
    if dc[sc.dcNo[c]][s] > 0 {
      DCSymbols(sc, mcus, false, sc.dcNo[c], s);
    }
  }

  /** Tables made from the gathered counts are made from the counts of the scan
      they code. */
  lemma MadeHere(sc: Scan, made: Scan, mcus: seq<Mcu>, dc: TableSet, ac: TableSet, j: nat)
    requires SetsFit(sc, dc, ac) && AllShaped(sc, mcus) && CountsBoth(sc, mcus, dc.gathered, ac.gathered)
    requires Retabled(sc, made) && AllShaped(made, mcus) && j < |sc.membership|
    requires dc.did[TableNo(sc, j, false)] && ac.did[TableNo(sc, j, true)]
    requires HeadedAt(made, dc.ptrs, ac.ptrs, sc.membership[j])
    ensures MadeForBlock(made, mcus, j)
  {
    hide Headed, Generated, ScanToks, CountsOf, ScanInRange;
    SameScan(sc, made, GStart(sc), mcus, false, TableNo(sc, j, false));
    SameScan(sc, made, GStart(sc), mcus, true, TableNo(sc, j, true));
  }

  /** Output pass of a scan with the tables just made. */
  method CodeMade(made: Scan, mcus: seq<Mcu>, cap: nat, suspends: bool, before: seq<nat>, free: nat, rooms: seq<nat>)
    returns (done: bool, out: seq<nat>)
    requires AllShaped(made, mcus) && ScanInRange(made, GStart(made), mcus)
    requires forall j: nat :: j < |made.membership| ==> MadeForBlock(made, mcus, j)
    requires cap > 0 && free > 0 && forall i :: 0 <= i < |rooms| ==> rooms[i] > 0
    ensures !done ==> suspends
    ensures done ==>
      && before <= out && Bytes(out[|before|..])
      && DecodeScan(made, |mcus|, 0, out[|before|..]) == Some(mcus)
  {
    hide MadeForBlock, ScanInRange, ScanRun, DecodeScan, TablesOk, CodesSized;
    OptimizedScanRoundTrip(made, mcus);
    var e := new Encoder(made, cap, suspends, before, free);
    var st, left := EncodeScan(e, mcus, rooms);
    return st == Ok, e.out;
  }

  /** The statistics pass of a scan. */
  method GatherCounts(sc: Scan, mcus: seq<Mcu>) returns (ok: bool, dc: seq<seq<nat>>, ac: seq<seq<nat>>)
    requires AllShaped(sc, mcus)
    ensures ok <==> ScanInRange(sc, GStart(sc), mcus)
    ensures ok ==> CountsBoth(sc, mcus, dc, ac)
  {
    hide CountsScan, ScanInRange, ScanCounts;
    var g := new Gatherer(sc);
    ok := GatherScan(g, mcus);
    dc, ac := g.dcCounts, g.acCounts;
  }

  /** What both passes fix about the table pointers: one for each table number. */
  ghost predicate PointersFit(sc: Scan, dc: seq<HuffTable?>, ac: seq<HuffTable?>)
    reads dc, ac
  {
    && |dc| == |sc.dc| && |ac| == |sc.ac| && Pointers(dc) && Pointers(ac)
    && forall p: HuffTable :: p in dc ==> p !in ac
  }

  /** The headers, and the scan with the encoder's tables. */
  ghost predicate MadeAll(sc: Scan, made: Scan, dc: seq<HuffTable?>, ac: seq<HuffTable?>)
    reads dc, ac
  {
    && Retabled(sc, made) && ScanOk(made) && |dc| == |sc.dc| && |ac| == |sc.ac|
    && (forall c :: 0 <= c < |sc.dcNo| ==> HeadedAt(made, dc, ac, c))
  }

  /** From the counts of a scan to its tables. */
  method MakeTables(sc: Scan, ghost mcus: seq<Mcu>, dcCounts: seq<seq<nat>>, acCounts: seq<seq<nat>>,
                    dcPtrs: seq<HuffTable?>, acPtrs: seq<HuffTable?>)
    returns (out: Outcome, made: Scan, dcHeads: seq<HuffTable?>, acHeads: seq<HuffTable?>)
    requires AllShaped(sc, mcus) && mcus != [] && EveryComponent(sc) && Coefficients(sc, |mcus|) < MAX_COUNT
    requires ScanInRange(sc, GStart(sc), mcus) && CountsBoth(sc, mcus, dcCounts, acCounts)
    requires PointersFit(sc, dcPtrs, acPtrs)
    modifies set t: HuffTable | t in dcPtrs, set t: HuffTable | t in acPtrs
    ensures out == Done <==> AllTabulated(sc, mcus)
    ensures out == Done ==>
      MadeAll(sc, made, dcHeads, acHeads) && forall j: nat :: j < |made.membership| ==> MadeForBlock(made, mcus, j)
  {
    hide CountsScan, Tabulated, AllTabulated, MadeForBlock, HeadedAt, ScanInRange, Generated, Countable, Coefficients,
      ByteValues;
    CountsShape(sc, mcus, dcCounts, acCounts);
    dcHeads, acHeads, made := dcPtrs, acPtrs, sc;
    var dc := new TableSet(dcPtrs, dcCounts);
    var ac := new TableSet(acPtrs, acCounts);
    forall c | 0 <= c < |sc.dcNo|
      ensures Countable(dcCounts[sc.dcNo[c]]) && Countable(acCounts[sc.acNo[c]])
    {
      ComponentCountable(sc, mcus, dcCounts, acCounts, c);
    }
    ComponentsTabulated(sc, mcus, dcCounts, acCounts);
    out := FinishPassGather(sc, dc, ac);
    if out == Done {
      made := DeriveGathered(sc, mcus, dc, ac);
      dcHeads, acHeads := dc.ptrs, ac.ptrs;
    }
  }

  lemma CountsShape(sc: Scan, mcus: seq<Mcu>, dc: seq<seq<nat>>, ac: seq<seq<nat>>)
    requires AllShaped(sc, mcus) && CountsBoth(sc, mcus, dc, ac)
    ensures |dc| == |sc.dc| && forall no :: 0 <= no < |dc| ==> |dc[no]| == SYMBOLS
    ensures |ac| == |sc.ac| && forall no :: 0 <= no < |ac| ==> |ac[no]| == SYMBOLS
  {
    hide ScanCounts;
  }

  /** The encoder's tables for the scan that was gathered. */
  method DeriveGathered(sc: Scan, ghost mcus: seq<Mcu>, dc: TableSet, ac: TableSet) returns (made: Scan)
    requires SetsFit(sc, dc, ac) && AllShaped(sc, mcus) && CountsBoth(sc, mcus, dc.gathered, ac.gathered)
    requires forall c :: 0 <= c < |sc.dcNo| ==> dc.did[sc.dcNo[c]] && ac.did[sc.acNo[c]]
    ensures MadeAll(sc, made, dc.ptrs, ac.ptrs)
    ensures AllShaped(made, mcus) && forall j: nat :: j < |made.membership| ==> MadeForBlock(made, mcus, j)
  {
    hide CountsScan, MadeForBlock, HeadedAt, Generated, ByteValues, Made, Pointers;
    forall c, s | 0 <= c < |sc.dcNo| && 0 <= s < 256
      ensures |dc.gathered[sc.dcNo[c]]| == |ac.gathered[sc.acNo[c]]| == SYMBOLS
      ensures dc.gathered[sc.dcNo[c]][s] > 0 ==> s <= MaxSymbol(true)
      ensures ac.gathered[sc.acNo[c]][s] > 0 ==> s <= MaxSymbol(false)
    {
      ComponentSymbols(sc, mcus, dc.gathered, ac.gathered, c, s);
    }
    made := DeriveTables(sc, dc, ac);
    forall j: nat | j < |made.membership|
      ensures MadeForBlock(made, mcus, j)
    {
      MadeHere(sc, made, mcus, dc, ac, j);
    }
  }

  /** Optimized coding of a scan. It fails only for a coefficient out of range or
      a code that would be too long, or when a destination that suspends gets no more room;
      otherwise the bytes decode to the MCUs with the headers it leaves. */
  method OptimizeScan(sc: Scan, mcus: seq<Mcu>, dcPtrs: seq<HuffTable?>, acPtrs: seq<HuffTable?>,
                      cap: nat, suspends: bool, before: seq<nat>, free: nat, rooms: seq<nat>)
    returns (end: Ending, dcHeads: seq<HuffTable?>, acHeads: seq<HuffTable?>, made: Scan, out: seq<nat>)
    requires AllShaped(sc, mcus) && mcus != [] && EveryComponent(sc) && Coefficients(sc, |mcus|) < MAX_COUNT
    requires PointersFit(sc, dcPtrs, acPtrs)
    requires cap > 0 && free > 0 && forall i :: 0 <= i < |rooms| ==> rooms[i] > 0
    modifies set t: HuffTable | t in dcPtrs, set t: HuffTable | t in acPtrs
    ensures end == OutOfRange <==> !ScanInRange(sc, GStart(sc), mcus)
    ensures end == CodesTooLong <==> ScanInRange(sc, GStart(sc), mcus) && !AllTabulated(sc, mcus)
    ensures end == NoRoom ==> suspends
    ensures end == Coded ==>
      && MadeAll(sc, made, dcHeads, acHeads)
      && before <= out && Bytes(out[|before|..])
      && DecodeScan(made, |mcus|, 0, out[|before|..]) == Some(mcus)
  {
    hide CountsBoth, AllTabulated, MadeForBlock, HeadedAt, ScanInRange, DecodeScan, Coefficients, Pointers;
    dcHeads, acHeads, made, out := dcPtrs, acPtrs, sc, before;
    var ok, dc, ac := GatherCounts(sc, mcus);
    if !ok {
      end := OutOfRange;
      return;
    }
    var result;
    result, made, dcHeads, acHeads := MakeTables(sc, mcus, dc, ac, dcPtrs, acPtrs);
    if result != Done {
      end := CodesTooLong;
      return;
    }
    SameScan(sc, made, GStart(sc), mcus, false, 0);
    var done;
    done, out := CodeMade(made, mcus, cap, suspends, before, free, rooms);
    end := if done then Coded else NoRoom;
  }
}
