/** Optimized progressive coding: a statistics pass, tables generated from its
    counts, and an output pass with the encoder's tables derived from them. */
module ProgOptimized {
  import opened Bits
  import opened Stuffing
  import opened ZigzagOrder
  import opened DerivedTable
  import opened OptimalTable
  import opened GeneratedTables
  import opened SeqTokens
  import opened SeqEncoder
  import opened ProgTokens
  import opened ProgScan
  import opened ProgEncoder
  import opened ProgPass
  import opened ProgCounts
  import opened TableSets

  // ----- The tables -----

  /** The table set has the scan's table numbers. */
  ghost predicate SetFits(sc: PScan, tabs: TableSet)
    reads tabs.Objects(), tabs.ptrs
  {
    PScanOk(sc) && tabs.Valid() && |tabs.ptrs| == |sc.tables|
  }

  ghost predicate TabulatedIfNeeded(sc: PScan, counts: seq<seq<nat>>, no: nat)
    requires PScanOk(sc) && |counts| == |sc.tables|
  {
    NeedsTable(sc, no) ==> no < |counts| && Tabulated(counts[no])
  }

  /** finish_pass_gather_phuff after the flush: make the tables of all components,
      each just once; a DC refinement has none. */
  method FinishPassGather(sc: PScan, tabs: TableSet) returns (out: Outcome)
    requires SetFits(sc, tabs)
    requires forall no: nat :: NeedsTable(sc, no) && no < |sc.tables| ==> Countable(tabs.gathered[no])
    modifies tabs.Objects()
    ensures out == Done <==> forall no: nat :: TabulatedIfNeeded(sc, tabs.gathered, no)
    ensures out == Done ==>
      SetFits(sc, tabs) && forall no: nat :: NeedsTable(sc, no) ==> no < |tabs.did| && tabs.did[no]
    ensures fresh(tabs.Objects() - old(tabs.Objects()))
  {
    hide Tabulated, Countable, ByteValues, Pointers, Made;
    for ci := 0 to |sc.dcNo|
      invariant SetFits(sc, tabs)
      invariant fresh(tabs.Objects() - old(tabs.Objects()))
      invariant sc.ss == 0 && sc.ah == 0 ==> forall c :: 0 <= c < ci ==> tabs.did[sc.dcNo[c]]
      invariant sc.ss > 0 && ci > 0 ==> tabs.did[sc.acNo]
    {
      if sc.ss == 0 && sc.ah != 0 {
        continue;
      }
      var tbl := if sc.ss == 0 then sc.dcNo[ci] else sc.acNo;
      assert NeedsTable(sc, tbl);
      out := tabs.MakeOnce(tbl);
      if out != Done {
        assert !TabulatedIfNeeded(sc, tabs.gathered, tbl);
        return;
      }
    }
    out := Done;
    AllMade(sc, tabs);
  }

  lemma AllMade(sc: PScan, tabs: TableSet)
    requires SetFits(sc, tabs)
    requires sc.ss == 0 && sc.ah == 0 ==> forall c :: 0 <= c < |sc.dcNo| ==> tabs.did[sc.dcNo[c]]
    requires sc.ss > 0 && |sc.dcNo| > 0 ==> tabs.did[sc.acNo]
    ensures forall no: nat :: NeedsTable(sc, no) ==> no < |tabs.did| && tabs.did[no]
    ensures forall no: nat :: TabulatedIfNeeded(sc, tabs.gathered, no)
  {
    hide Tabulated, Pointers;
    assert sc.ss > 0 ==> sc.membership[0] < |sc.dcNo|;
    forall no: nat | NeedsTable(sc, no)
      ensures no < |tabs.did| && tabs.did[no] && Tabulated(tabs.gathered[no])
    {
      MadeTabulated(tabs.ptrs, no, tabs.gathered[no]);
    }
  }

  /** The same scan with other tables. */
  ghost predicate Retabled(sc: PScan, made: PScan)
  {
    made == sc.(tables := made.tables) && |made.tables| == |sc.tables|
  }

  /** Counts for a DC table. */
  ghost predicate CategoriesOnly(counts: seq<nat>)
  {
    |counts| == SYMBOLS && forall s :: 0 <= s < 256 && counts[s] > 0 ==> s <= MaxSymbol(true)
  }

  /** start_pass_phuff before an output pass: the encoder's tables are derived
      from the headers. */
  method DeriveTables(sc: PScan, tabs: TableSet) returns (made: PScan)
    requires SetFits(sc, tabs) && forall no: nat :: NeedsTable(sc, no) ==> no < |tabs.did| && tabs.did[no]
    requires forall no: nat :: no < |tabs.gathered| && NeedsTable(sc, no) && sc.ss == 0 ==>
      CategoriesOnly(tabs.gathered[no])
    requires TablesSized(sc)
    ensures Retabled(sc, made) && PScanOk(made) && TablesSized(made)
    ensures forall no: nat :: NeedsTable(sc, no) ==> no < |tabs.ptrs| && HeadedBy(made.tables[no], tabs.ptrs[no])
  {
    hide Headed, Generated, ByteValues, HeadedBy, TableSized, CategoriesOnly;
    made := sc;
    for ci := 0 to |sc.dcNo|
      invariant Retabled(sc, made) && PScanOk(made) && TablesSized(made)
      invariant sc.ss == 0 && sc.ah == 0 ==>
        forall c :: 0 <= c < ci ==> HeadedBy(made.tables[sc.dcNo[c]], tabs.ptrs[sc.dcNo[c]])
      invariant sc.ss > 0 && ci > 0 ==> HeadedBy(made.tables[sc.acNo], tabs.ptrs[sc.acNo])
    {
      if sc.ss == 0 && sc.ah != 0 {
        continue;
      }
      var tbl := if sc.ss == 0 then sc.dcNo[ci] else sc.acNo;
      assert NeedsTable(sc, tbl);
      var t := DeriveOne(sc.ss == 0, tabs, tbl);
      made := made.(tables := made.tables[tbl := t]);
    }
    assert sc.ss > 0 ==> sc.membership[0] < |sc.dcNo|;
  }

  method DeriveOne(isDC: bool, tabs: TableSet, no: nat) returns (t: Table)
    requires tabs.Valid() && no < |tabs.did| && tabs.did[no]
    requires isDC ==> CategoriesOnly(tabs.gathered[no])
    ensures HeadedBy(t, tabs.ptrs[no]) && TableSized(t.codes)
  {
    hide Headed;
    t := DeriveMade(isDC, tabs.ptrs[no], tabs.gathered[no]);
    HeadedOk(t, tabs.ptrs[no].bits, tabs.ptrs[no].huffval);
  }

  // ----- What is coded does not depend on the tables -----

  lemma {:induction false} SameDC(sc: PScan, made: PScan, dc: seq<int>, mcu: Mcu, i: nat)
    requires Retabled(sc, made) && PScanOk(sc) && PScanOk(made) && |dc| == |sc.dcNo| && i <= |mcu| == |sc.membership|
    ensures DCFirstNext(made, dc, mcu, i) == DCFirstNext(sc, dc, mcu, i)
    ensures sc.ss == 0 && sc.ah == 0 ==> DCFirstLog(made, dc, mcu, i) == DCFirstLog(sc, dc, mcu, i)
    decreases |mcu| - i
  {
    hide Shifted, DCTokens;
    if i < |mcu| {
      SameDC(sc, made, dc[sc.membership[i] := Shifted(mcu[i][0], sc.al)], mcu, i + 1);
    }
  }

  lemma {:induction false} SameCode(sc: PScan, made: PScan, c: Coder, mcus: seq<Mcu>)
    requires Retabled(sc, made) && Shaped(sc, mcus) && PScanOk(made) && |c.dc| == |sc.dcNo|
    ensures Shaped(made, mcus) && CodeAll(made, c, mcus) == CodeAll(sc, c, mcus)
    decreases |mcus|
  {
    hide Absorb, DCFirstLog, DCFirstNext, DCRefineLog, Zigzag;
    if mcus != [] {
      SameDC(sc, made, c.dc, mcus[0], 0);
      SameCode(sc, made, CodeMcu(sc, c, mcus[0]), mcus[1..]);
    }
  }

  lemma {:induction false} SameLog(sc: PScan, made: PScan, mcus: seq<Mcu>)
    requires Retabled(sc, made) && Shaped(sc, mcus) && PScanOk(made)
    ensures Shaped(made, mcus) && WholeLog(made, mcus) == WholeLog(sc, mcus)
    decreases |mcus|
  {
    hide CodeAll, FlushTokens;
    if LastInterval(sc, |mcus|) {
      SameCode(sc, made, Fresh(sc), mcus);
    } else {
      SameCode(sc, made, Fresh(sc), mcus[..sc.interval]);
      SameLog(sc, made, mcus[sc.interval..]);
    }
  }

  // ----- Agreement -----

  /** Every table that the scan needs was generated from the counts of its
      symbols and derived from its header. */
  ghost predicate MadeForScan(sc: PScan, mcus: seq<Mcu>)
    requires Shaped(sc, mcus)
  {
    forall no: nat :: NeedsTable(sc, no) ==> no < |sc.tables| && MadeFrom(sc.tables[no], PassCounts(sc, mcus, no))
  }

  lemma MadeCodes(t: Table, log: seq<Out>, no: nat, s: nat)
    requires MadeFrom(t, LogCounts(log, no)) && Uses(log, no, s) && s < 256
    ensures HasCode(t.codes, s)
  {
    hide Generated, Derived;
    var bits: seq<nat>, huffval: seq<nat> :| Generated(LogCounts(log, no), bits, huffval) && Headed(t, bits, huffval);
    Gather.DerivedLength(t.codes, bits, huffval);
    CountedUses(log, no, s);
    CountedAreCoded(LogCounts(log, no), bits, huffval, t.codes, s);
  }

  lemma MadeReads(sc: PScan, mcus: seq<Mcu>)
    requires Shaped(sc, mcus) && MadeForScan(sc, mcus)
    ensures TablesOk(sc)
  {
    hide Generated, TableOk;
    forall no: nat | NeedsTable(sc, no)
      ensures no < |sc.tables| && TableOk(sc.tables[no])
    {
      var bits: seq<nat>, huffval: seq<nat> :|
        Generated(PassCounts(sc, mcus, no), bits, huffval) && Headed(sc.tables[no], bits, huffval);
      HeadedOk(sc.tables[no], bits, huffval);
    }
    if sc.ss == 0 && sc.ah == 0 {
      forall c | 0 <= c < |sc.dcNo|
        ensures TableOk(sc.tables[sc.dcNo[c]])
      {
        assert NeedsTable(sc, sc.dcNo[c]);
      }
    }
  }

  lemma MadeSendable(sc: PScan, mcus: seq<Mcu>)
    requires Shaped(sc, mcus) && NoBad(WholeLog(sc, mcus)) && MadeForScan(sc, mcus)
    ensures LogSendable(WholeLog(sc, mcus), sc.tables)
  {
    hide MadeFrom, HasCode, WholeLog, LogCounts, NeedsTable;
    var log := WholeLog(sc, mcus);
    NarrowWhole(sc, mcus);
    forall i | 0 <= i < |log|
      ensures OutSendable(log[i], sc.tables)
    {
      assert OutFits(sc, log[i]);
      if log[i].tok.Sym? {
        var no, s := log[i].tbl, log[i].tok.s;
        assert IsSymbol(log[i], no, s);
        assert Uses(log, no, s);
        MadeCodes(sc.tables[no], log, no, s);
      }
    }
  }

  /** Coded with tables generated from its own counts, a scan whose coefficients
      are in range never meets a missing code; with nothing but the headers of
      those tables, it decodes to what it conveys. */
  lemma OptimizedProgressive(sc: PScan, mcus: seq<Mcu>)
    requires Shaped(sc, mcus) && NoBad(WholeLog(sc, mcus)) && MadeForScan(sc, mcus)
    ensures ScanSendable(sc, mcus) && TablesOk(sc)
    ensures forall hs: seq<Mcu> :: Histories(sc, hs, mcus) ==> DecodesAll(sc, hs, mcus)
  {
    hide WholeLog, MadeForScan, NoBad, LogSendable, ScanSendable, ScanBytes, DecodeScan, TablesOk, Histories,
      ConveyedAll;
    MadeSendable(sc, mcus);
    MadeReads(sc, mcus);
    WholeSendable(sc, mcus);
    forall hs: seq<Mcu> | Histories(sc, hs, mcus)
      ensures DecodesAll(sc, hs, mcus)
    {
      ScanRoundTrip(sc, hs, mcus, 0);
      HistoriesShaped(sc, hs, mcus);
    }
  }

  lemma HistoriesShaped(sc: PScan, hs: seq<Mcu>, mcus: seq<Mcu>)
    requires Histories(sc, hs, mcus)
    ensures Shaped(sc, hs) && Shaped(sc, mcus) && |hs| == |mcus|
  {
  }

  /** From the histories of its blocks, a scan's bytes decode to what it
      conveys. */
  ghost predicate DecodesAll(sc: PScan, hs: seq<Mcu>, mcus: seq<Mcu>)
  {
    && Shaped(sc, hs) && Shaped(sc, mcus) && |hs| == |mcus| && ScanSendable(sc, mcus)
    && Bytes(ScanBytes(sc, mcus, 0))
    && DecodeScan(sc, hs, 0, ScanBytes(sc, mcus, 0)) == Some(ConveyedAll(sc, hs, mcus))
  }

  // ----- The two passes together -----

  /** No table of the scan needs a code longer than 32 bits. */
  ghost predicate AllTabulated(sc: PScan, mcus: seq<Mcu>)
    requires Shaped(sc, mcus)
  {
    forall no: nat :: NeedsTable(sc, no) ==> Tabulated(PassCounts(sc, mcus, no))
  }

  /** Below nine million coefficients every table can be generated. */
  lemma SmallScanFits(sc: PScan, mcus: seq<Mcu>)
    requires Shaped(sc, mcus) && mcus != [] && EveryComponent(sc) && NoBad(WholeLog(sc, mcus))
    requires Coefficients(sc, |mcus|) < 9227465 - 1
    ensures AllTabulated(sc, mcus)
  {
    hide Tabulated, PassCounts, NeedsTable, Coefficients, WholeLog, NoBad, EveryComponent;
    forall no: nat | NeedsTable(sc, no)
      ensures Tabulated(PassCounts(sc, mcus, no))
    {
      SmallScanTabulated(sc, mcus, no);
    }
  }

  /** The tables of a statistics pass: none derived yet. */
  function NoTables(sc: PScan): PScan
  {
    sc.(tables := seq(|sc.tables|, _ => Table(Codes(seq(256, _ => 0), seq(256, _ => 0)), _ => None)))
  }

  lemma NoTablesFit(sc: PScan)
    requires PScanOk(sc)
    ensures Retabled(sc, NoTables(sc)) && PScanOk(NoTables(sc)) && TablesSized(NoTables(sc))
  {
  }

  /** A statistics pass. */
  method GatherPass(sc: PScan, mcus: seq<Mcu>) returns (ok: bool, counts: seq<seq<nat>>)
    requires Shaped(sc, mcus) && TablesSized(sc)
    ensures ok <==> NoBad(WholeLog(sc, mcus))
    ensures ok ==> |counts| == |sc.tables| && forall no: nat :: no < |counts| ==> counts[no] == PassCounts(sc, mcus, no)
  {
    hide WholeLog, LogCounts, CountsLog, Fresh, PScanOk, Phuff.Tracks;
    var e := new Phuff(sc, true, 1, false, [], 1);
    var st := EncodePass(e, mcus);
    ok := st == Ok;
    counts := e.counts;
    LogCountsIs(counts, WholeLog(sc, mcus));
  }

  /** An output pass with tables that code everything. */
  method OutputPass(made: PScan, mcus: seq<Mcu>, cap: nat, suspends: bool, before: seq<nat>, free: nat)
    returns (done: bool, out: seq<nat>)
    requires Shaped(made, mcus) && TablesSized(made) && ScanSendable(made, mcus) && cap > 0 && free > 0
    ensures !done ==> suspends
    ensures done ==> out == before + ScanBytes(made, mcus, 0)
  {
    hide WholeLog, Fresh, PScanOk, ScanSendable, ScanBytes, Phuff.Tracks, LogSendable, NoBad;
    WholeSendable(made, mcus);
    SentAll(made, mcus, suspends);
    var e := new Phuff(made, false, cap, suspends, before, free);
    var st := EncodePass(e, mcus);
    return st == Ok, e.w.out;
  }

  /** From the counts of a scan to its tables. */
  method MakeTables(sc: PScan, ghost mcus: seq<Mcu>, counts: seq<seq<nat>>, ptrs: seq<HuffTable?>)
    returns (out: Outcome, made: PScan, heads: seq<HuffTable?>)
    requires Shaped(sc, mcus) && mcus != [] && EveryComponent(sc) && Coefficients(sc, |mcus|) < MAX_COUNT
    requires TablesSized(sc) && NoBad(WholeLog(sc, mcus))
    requires |counts| == |sc.tables| && forall no: nat :: no < |counts| ==> counts[no] == PassCounts(sc, mcus, no)
    requires |ptrs| == |sc.tables| && Pointers(ptrs)
    modifies set t: HuffTable | t in ptrs
    ensures out == Done <==> AllTabulated(sc, mcus)
    ensures out == Done ==>
      MadeAll(sc, made, heads) && TablesSized(made) && Shaped(made, mcus) && MadeForScan(made, mcus)
  {
    hide WholeLog, NoBad, Tabulated, Countable, Coefficients, NeedsTable, Pointers, PassCounts, TablesSized, HeadedBy,
      MadeForScan, CategoriesOnly;
    made, heads := sc, ptrs;
    var tabs := new TableSet(ptrs, counts);
    forall no: nat | NeedsTable(sc, no)
      ensures no < |counts| && Countable(counts[no])
    {
      NeedsOne(sc, no);
      NeededCountable(sc, mcus, no);
    }
    out := FinishPassGather(sc, tabs);
    TabulatedMeans(sc, mcus, counts);
    if out == Done {
      forall no: nat | no < |counts| && sc.ss == 0
        ensures CategoriesOnly(counts[no])
      {
        Categories(sc, mcus, no);
      }
      made := DeriveTables(sc, tabs);
      heads := tabs.ptrs;
      MadeHere(sc, made, mcus, tabs);
    }
  }

  lemma NeedsOne(sc: PScan, no: nat)
    requires PScanOk(sc) && NeedsTable(sc, no)
    ensures no < |sc.tables|
  {
  }

  lemma Categories(sc: PScan, mcus: seq<Mcu>, no: nat)
    requires Shaped(sc, mcus) && sc.ss == 0
    ensures CategoriesOnly(PassCounts(sc, mcus, no))
  {
    hide PassCounts;
    forall s | 0 <= s < 256 && PassCounts(sc, mcus, no)[s] > 0
      ensures s <= MaxSymbol(true)
    {
      DCSymbols(sc, mcus, no, s);
    }
  }

  lemma TabulatedMeans(sc: PScan, mcus: seq<Mcu>, counts: seq<seq<nat>>)
    requires Shaped(sc, mcus) && |counts| == |sc.tables|
    requires forall no: nat :: no < |counts| ==> counts[no] == PassCounts(sc, mcus, no)
    ensures (forall no: nat :: TabulatedIfNeeded(sc, counts, no)) <==> AllTabulated(sc, mcus)
  {
    hide Tabulated, PassCounts, NeedsTable;
    forall no: nat | NeedsTable(sc, no)
      ensures no < |counts|
    {
      NeedsOne(sc, no);
    }
    if forall no: nat :: TabulatedIfNeeded(sc, counts, no) {
      forall no: nat | NeedsTable(sc, no)
        ensures Tabulated(PassCounts(sc, mcus, no))
      {
        assert TabulatedIfNeeded(sc, counts, no);
      }
    }
  }

  /** The scan with the encoder's tables, and the headers they come from. */
  ghost predicate MadeAll(sc: PScan, made: PScan, heads: seq<HuffTable?>)
    reads heads
  {
    && Retabled(sc, made) && PScanOk(made)
    && forall no: nat :: NeedsTable(sc, no) ==>
         no < |heads| && no < |made.tables| && HeadedBy(made.tables[no], heads[no])
  }

  /** Tables made from the gathered counts are made from the counts of the scan
      they code. */
  lemma MadeHere(sc: PScan, made: PScan, mcus: seq<Mcu>, tabs: TableSet)
    requires SetFits(sc, tabs) && Shaped(sc, mcus) && MadeAll(sc, made, tabs.ptrs)
    requires forall no: nat :: no < |tabs.gathered| ==> tabs.gathered[no] == PassCounts(sc, mcus, no)
    requires forall no: nat :: NeedsTable(sc, no) ==> no < |tabs.did| && tabs.did[no]
    ensures Shaped(made, mcus) && MadeForScan(made, mcus)
  {
    hide WholeLog, LogCounts, Generated, Headed, Pointers;
    SameLog(sc, made, mcus);
    forall no: nat | NeedsTable(made, no)
      ensures no < |made.tables| && MadeFrom(made.tables[no], PassCounts(made, mcus, no))
    {
      assert NeedsTable(sc, no);
      assert Made(tabs.ptrs, no, tabs.gathered[no]);
    }
  }

  /** Optimized coding of a progressive scan. It fails only for a coefficient out
      of range, a code that would be too long or a destination that suspends;
      otherwise its bytes decode, with the headers it leaves and against any
      right histories, to what the scan conveys. */
  method OptimizePass(sc: PScan, mcus: seq<Mcu>, ptrs: seq<HuffTable?>, cap: nat, suspends: bool, before: seq<nat>,
                      free: nat)
    returns (end: Ending, heads: seq<HuffTable?>, made: PScan, out: seq<nat>)
    requires Shaped(sc, mcus) && mcus != [] && EveryComponent(sc) && Coefficients(sc, |mcus|) < MAX_COUNT
    requires |ptrs| == |sc.tables| && Pointers(ptrs) && cap > 0 && free > 0
    modifies set t: HuffTable | t in ptrs
    ensures end == OutOfRange <==> !NoBad(WholeLog(sc, mcus))
    ensures end == CodesTooLong <==> NoBad(WholeLog(sc, mcus)) && !AllTabulated(sc, mcus)
    ensures end == NoRoom ==> suspends
    ensures end == Coded ==>
      && MadeAll(sc, made, heads) && Shaped(made, mcus)
      && ScanSendable(made, mcus) && out == before + ScanBytes(made, mcus, 0)
      && forall hs: seq<Mcu> :: Histories(made, hs, mcus) ==> DecodesAll(made, hs, mcus)
  {
    hide WholeLog, NoBad, AllTabulated, NeedsTable, Pointers, PassCounts, TablesSized, HeadedBy, MadeForScan, Histories,
      DecodesAll, ScanSendable, ScanBytes, TablesOk;
    heads, out := ptrs, before;
    NoTablesFit(sc);
    made := NoTables(sc);
    SameScan(sc, made, mcus);
    var ok, counts := GatherPass(made, mcus);
    if !ok {
      end := OutOfRange;
      return;
    }
    var result;
    ghost var none := made;
    result, made, heads := MakeTables(made, mcus, counts, ptrs);
    if result != Done {
      end := CodesTooLong;
      return;
    }
    SameAll(sc, none, made, heads);
    SameScan(sc, made, mcus);
    OptimizedProgressive(made, mcus);
    var done;
    done, out := OutputPass(made, mcus, cap, suspends, before, free);
    end := if done then Coded else NoRoom;
  }

  lemma SameScan(sc: PScan, made: PScan, mcus: seq<Mcu>)
    requires Retabled(sc, made) && Shaped(sc, mcus) && PScanOk(made)
    ensures Shaped(made, mcus) && WholeLog(made, mcus) == WholeLog(sc, mcus)
    ensures AllTabulated(made, mcus) <==> AllTabulated(sc, mcus)
    ensures EveryComponent(made) <==> EveryComponent(sc)
    ensures Coefficients(made, |mcus|) == Coefficients(sc, |mcus|)
  {
    hide WholeLog, Tabulated;
    SameLog(sc, made, mcus);
    assert forall no: nat :: NeedsTable(made, no) <==> NeedsTable(sc, no);
    assert forall no: nat :: PassCounts(made, mcus, no) == PassCounts(sc, mcus, no);
  }

  lemma SameAll(sc: PScan, none: PScan, made: PScan, heads: seq<HuffTable?>)
    requires Retabled(sc, none) && MadeAll(none, made, heads)
    ensures MadeAll(sc, made, heads)
  {
    hide HeadedBy;
    assert forall no: nat :: NeedsTable(none, no) <==> NeedsTable(sc, no);
  }
}
