/** The symbols of a progressive scan: which there are, how many, and that every
    table of the scan has some to code. */
module ProgCounts {
  import opened Arith
  import opened ZigzagOrder
  import opened OptimalTable
  import opened GeneratedTables
  import opened SeqTokens
  import opened ProgTokens
  import opened ProgFirst
  import opened ProgRefine
  import opened ProgScan
  import opened ProgEncoder
  import opened ProgPass
  import Gather
  import HuffmanDepth

  // ----- The symbols a progressive scan uses -----

  /** Runs and sizes fit a byte, and no size exceeds eleven. */
  predicate Narrow(t: Token)
  {
    t.Sym? ==> t.s < 256 && t.s % 16 <= MAX_COEF_BITS + 1
  }

  ghost predicate AllNarrow(toks: seq<Token>)
  {
    forall i :: 0 <= i < |toks| ==> Narrow(toks[i])
  }

  lemma NarrowAppend(a: seq<Token>, b: seq<Token>)
    requires AllNarrow(a) && AllNarrow(b)
    ensures AllNarrow(a + b)
  {
  }

  lemma NarrowDC(diff: int)
    ensures AllNarrow(DCTokens(diff))
    ensures forall i :: 0 <= i < |DCTokens(diff)| && DCTokens(diff)[i].Sym? ==> DCTokens(diff)[i].s <= MAX_COEF_BITS + 1
  {
  }

  lemma NarrowCoef(v: int, r: nat)
    requires r <= 15
    ensures AllNarrow(CoefPair(v, r))
  {
  }

  lemma {:induction false} NarrowBits(b: seq<bool>)
    ensures AllNarrow(BitTokens(b))
  {
    if b != [] {
      NarrowBits(b[1..]);
    }
  }

  lemma NarrowFlush(e: nat, be: seq<bool>)
    requires e <= MAX_EOBRUN
    ensures AllNarrow(FlushTokens(e, be))
  {
    if e > 0 {
      hide Log2, BitTokens;
      LogRange(e);
      NarrowBits(be);
      assert AllNarrow(EobTokens(e));
      NarrowAppend(EobTokens(e), BitTokens(be));
    }
  }

  lemma {:induction false} NarrowFirst(z: Block, k: nat, se: nat, al: nat, r: nat)
    requires k <= se + 1 <= DCTSIZE2
    ensures AllNarrow(FirstPart(z, k, se, al, r).toks)
    decreases DCTSIZE2 - k, r
  {
    hide Magnitude, Approx, CoefPair;
    if k > se {
    } else if Magnitude(z[k], al) == 0 {
      NarrowFirst(z, k + 1, se, al, r + 1);
    } else if r > 15 {
      NarrowFirst(z, k, se, al, r - 16);
    } else {
      NarrowFirst(z, k + 1, se, al, 0);
      NarrowCoef(Approx(z[k], al), r);
    }
  }

  lemma {:induction false} NarrowRefine(z: Block, k: nat, se: nat, al: nat, r: nat, br: seq<bool>, eob: nat)
    requires k <= se + 1 <= DCTSIZE2
    requires forall i :: k <= i <= se && Magnitude(z[i], al) == 1 ==> i <= eob
    ensures AllNarrow(RefinePart(z, k, se, al, r, br, eob).toks)
    decreases DCTSIZE2 - k, r
  {
    hide Magnitude, BitTokens, NewPair;
    NarrowBits(br);
    if k > se {
    } else if Magnitude(z[k], al) == 0 {
      NarrowRefine(z, k + 1, se, al, r + 1, br, eob);
    } else if r > 15 && k <= eob {
      var q := RefinePart(z, k, se, al, r - 16, [], eob).toks;
      NarrowRefine(z, k, se, al, r - 16, [], eob);
      NarrowAppend(BitTokens(br), q);
      NarrowAppend([Sym(true, ZRL)], BitTokens(br) + q);
    } else if Magnitude(z[k], al) > 1 {
      NarrowRefine(z, k + 1, se, al, r, br + [Odd(Magnitude(z[k], al))], eob);
    } else {
      var q := RefinePart(z, k + 1, se, al, 0, [], eob).toks;
      NarrowRefine(z, k + 1, se, al, 0, [], eob);
      NarrowNew(z[k], r);
      NarrowAppend(BitTokens(br), q);
      NarrowAppend(NewPair(z[k], r), BitTokens(br) + q);
    }
  }

  lemma NarrowNew(c: int, r: nat)
    requires r <= 15
    ensures AllNarrow(NewPair(c, r))
  {
  }

  /** A block of an AC scan uses narrow symbols, and leaves the run in order. */
  lemma NarrowAc(sc: PScan, z: Block)
    requires PScanOk(sc) && sc.ss > 0
    ensures AllNarrow(AcPart(sc, z).toks) && PartOk(AcPart(sc, z))
  {
    hide FirstPart, RefinePart, LastNew, Magnitude;
    if sc.ah == 0 {
      NarrowFirst(z, sc.ss, sc.se, sc.al, 0);
      FirstPartFacts(z, sc.ss, sc.se, sc.al, 0);
    } else {
      var eob := LastNew(z, sc.ss, sc.se, sc.al);
      NarrowRefine(z, sc.ss, sc.se, sc.al, 0, [], eob);
      RefineStart(z, sc.ss, sc.se, sc.al);
      RefinePartFacts(z, sc.ss, sc.ss, sc.se, sc.al, 0, [], eob);
      EveryoneCounts(z, sc.ss, sc.se + 1, sc.al);
    }
  }

  lemma RefineStart(z: Block, ss: nat, se: nat, al: nat)
    requires 1 <= ss <= se < DCTSIZE2
    ensures RefineAt(z, ss, ss, se, al, 0, [], LastNew(z, ss, se, al))
  {
    hide Magnitude;
  }

  lemma NarrowAbsorb(s: Enc, p: Part)
    requires EncOk(s) && PartOk(p) && AllNarrow(s.toks) && AllNarrow(p.toks)
    ensures AllNarrow(Absorb(s, p).toks)
  {
    hide FlushTokens, Narrow;
    AbsorbKeeps(s, p);
    NarrowFlush(s.eobrun, s.be);
    var b := Begin(s, p);
    NarrowFlush(b.eobrun + 1, b.be + p.bits);
  }

  /** The tables a scan needs: none in a DC refinement. */
  ghost predicate NeedsTable(sc: PScan, no: nat)
  {
    if sc.ss > 0 then no == sc.acNo else sc.ah == 0 && exists c :: 0 <= c < |sc.dcNo| && sc.dcNo[c] == no
  }

  /** Only symbols that such a table can hold. */
  ghost predicate OutFits(sc: PScan, o: Out)
  {
    Narrow(o.tok) && (o.tok.Sym? ==> NeedsTable(sc, o.tbl) && (sc.ss == 0 ==> o.tok.s <= MAX_COEF_BITS + 1))
  }

  ghost predicate LogFits(sc: PScan, log: seq<Out>)
  {
    forall i :: 0 <= i < |log| ==> OutFits(sc, log[i])
  }

  lemma {:induction false} NarrowDCs(sc: PScan, dc: seq<int>, mcu: Mcu, i: nat)
    requires PScanOk(sc) && sc.ss == 0 && sc.ah == 0 && |dc| == |sc.dcNo| && i <= |mcu| == |sc.membership|
    ensures LogFits(sc, DCFirstLog(sc, dc, mcu, i))
    decreases |mcu| - i
  {
    hide DCTokens, Shifted, Narrow;
    if i < |mcu| {
      var c := sc.membership[i];
      var v := Shifted(mcu[i][0], sc.al);
      NarrowDC(v - dc[c]);
      NarrowDCs(sc, dc[c := v], mcu, i + 1);
    }
  }

  lemma {:induction false} NarrowDCBits(sc: PScan, al: nat, mcu: Mcu, i: nat)
    requires i <= |mcu|
    ensures LogFits(sc, DCRefineLog(al, mcu, i))
    decreases |mcu| - i
  {
    if i < |mcu| {
      NarrowDCBits(sc, al, mcu, i + 1);
    }
  }

  /** Narrow so far, with a run that can still be sent. */
  ghost predicate CoderNarrow(sc: PScan, c: Coder)
  {
    LogFits(sc, c.log) && EncOk(Enc([], c.eobrun, c.be))
  }

  lemma NarrowMcu(sc: PScan, c: Coder, mcu: Mcu)
    requires PScanOk(sc) && |c.dc| == |sc.dcNo| && |mcu| == |sc.membership| && CoderNarrow(sc, c)
    ensures CoderNarrow(sc, CodeMcu(sc, c, mcu))
  {
    hide Absorb, AcPart, Zigzag, DCFirstLog, DCRefineLog, DCFirstNext, Narrow, EncOk;
    if sc.ss > 0 {
      var z := Zigzag(mcu[0]);
      NarrowAc(sc, z);
      NarrowAbsorb(Enc([], c.eobrun, c.be), AcPart(sc, z));
      AbsorbKeeps(Enc([], c.eobrun, c.be), AcPart(sc, z));
      RunAlone(Absorb(Enc([], c.eobrun, c.be), AcPart(sc, z)));
    } else if sc.ah == 0 {
      NarrowDCs(sc, c.dc, mcu, 0);
    } else {
      NarrowDCBits(sc, sc.al, mcu, 0);
    }
  }

  lemma RunAlone(e: Enc)
    requires EncOk(e)
    ensures EncOk(Enc([], e.eobrun, e.be))
  {
  }

  lemma {:induction false} NarrowAll(sc: PScan, c: Coder, mcus: seq<Mcu>)
    requires Shaped(sc, mcus) && |c.dc| == |sc.dcNo| && CoderNarrow(sc, c)
    ensures CoderNarrow(sc, CodeAll(sc, c, mcus))
    decreases |mcus|
  {
    hide CodeMcu, CoderNarrow;
    if mcus != [] {
      NarrowMcu(sc, c, mcus[0]);
      NarrowAll(sc, CodeMcu(sc, c, mcus[0]), mcus[1..]);
    }
  }

  lemma NarrowInterval(sc: PScan, mcus: seq<Mcu>)
    requires Shaped(sc, mcus)
    ensures LogFits(sc, IntervalLog(sc, mcus))
  {
    hide CodeAll, Narrow, EobTokens;
    NarrowAll(sc, Fresh(sc), mcus);
    if sc.ss == 0 {
      DCKeepsRun(sc, Fresh(sc), mcus);
    }
    var c := CodeAll(sc, Fresh(sc), mcus);
    NarrowFlush(c.eobrun, c.be);
  }

  lemma {:induction false} NarrowWhole(sc: PScan, mcus: seq<Mcu>)
    requires Shaped(sc, mcus)
    ensures LogFits(sc, WholeLog(sc, mcus))
    decreases |mcus|
  {
    hide IntervalLog, Narrow;
    if LastInterval(sc, |mcus|) {
      NarrowInterval(sc, mcus);
    } else {
      NarrowInterval(sc, mcus[..sc.interval]);
      NarrowWhole(sc, mcus[sc.interval..]);
    }
  }

  // ----- Counts -----

  /** How often a log uses each symbol of a table. */
  ghost function LogCounts(log: seq<Out>, no: nat): (c: seq<nat>)
    ensures |c| == SYMBOLS
  {
    seq(SYMBOLS, s requires 0 <= s < SYMBOLS => LogCount(log, no, s))
  }

  lemma LogCountsIs(counts: seq<seq<nat>>, log: seq<Out>)
    ensures CountsLog(counts, log) <==> forall no: nat :: no < |counts| ==> counts[no] == LogCounts(log, no)
  {
    if forall no: nat :: no < |counts| ==> counts[no] == LogCounts(log, no) {
      forall no: nat, s: nat | no < |counts| && s < SYMBOLS
        ensures |counts[no]| == SYMBOLS && counts[no][s] == LogCount(log, no, s)
      {
        assert counts[no] == LogCounts(log, no);
      }
    }
  }

  ghost predicate Uses(log: seq<Out>, no: nat, s: nat)
  {
    exists i :: 0 <= i < |log| && IsSymbol(log[i], no, s)
  }

  lemma {:induction false} CountedUses(log: seq<Out>, no: nat, s: nat)
    ensures LogCount(log, no, s) > 0 <==> Uses(log, no, s)
    decreases |log|
  {
    if log != [] {
      var n := |log| - 1;
      CountedUses(log[..n], no, s);
      if Uses(log[..n], no, s) {
        var i :| 0 <= i < n && IsSymbol(log[..n][i], no, s);
        assert IsSymbol(log[i], no, s);
      }
      if Uses(log, no, s) {
        var i :| 0 <= i < |log| && IsSymbol(log[i], no, s);
        assert i < n ==> IsSymbol(log[..n][i], no, s);
      }
    }
  }

  // ----- How many symbols -----

  /** How many entries of a log are symbols. */
  function LogSymbols(log: seq<Out>): (n: nat)
  {
    if log == [] then 0 else LogSymbols(log[..|log| - 1]) + if log[|log| - 1].tok.Sym? then 1 else 0
  }

  lemma {:induction false} LogSymbolsAppend(a: seq<Out>, b: seq<Out>)
    ensures LogSymbols(a + b) == LogSymbols(a) + LogSymbols(b)
    decreases |b|
  {
    if b == [] {
      assert a + b == a;
    } else {
      var n := |b| - 1;
      assert (a + b)[..|a| + n] == a + b[..n];
      LogSymbolsAppend(a, b[..n]);
    }
  }

  lemma {:induction false} TagSymbols(no: nat, toks: seq<Token>)
    ensures LogSymbols(Tag(no, toks)) == Symbols(toks)
    decreases |toks|
  {
    if toks != [] {
      var n := |toks| - 1;
      TagSymbols(no, toks[..n]);
      assert Tag(no, toks)[..n] == Tag(no, toks[..n]);
      assert toks == toks[..n] + [toks[n]];
      SymbolsAppend(toks[..n], [toks[n]]);
      assert [toks[n]][1..] == [];
    }
  }

  /** No more occurrences are counted than there are symbols. */
  lemma {:induction false} LogCountsSum(log: seq<Out>, no: nat)
    ensures Sum(LogCounts(log, no)) <= LogSymbols(log)
    decreases |log|
  {
    var c := LogCounts(log, no);
    if log == [] {
      SumZero(c);
    } else {
      var o := log[|log| - 1];
      var before := LogCounts(log[..|log| - 1], no);
      LogCountsSum(log[..|log| - 1], no);
      if o.tok.Sym? && o.tbl == no && o.tok.s < SYMBOLS {
        SumUpdate(before, o.tok.s, before[o.tok.s] + 1);
        assert c == before[o.tok.s := before[o.tok.s] + 1];
      } else {
        assert c == before;
      }
    }
  }

  lemma SymbolsPair(a: Token, b: Token)
    ensures Symbols([a]) == (if a.Sym? then 1 else 0)
    ensures Symbols([a, b]) == (if a.Sym? then 1 else 0) + if b.Sym? then 1 else 0
  {
    assert [a, b][1..] == [b] && [b][1..] == [] && [a][1..] == [];
  }

  lemma {:induction false} BitSymbols(b: seq<bool>)
    ensures Symbols(BitTokens(b)) == 0
  {
    if b != [] {
      BitSymbols(b[1..]);
      assert BitTokens(b)[1..] == BitTokens(b[1..]);
    }
  }

  lemma FlushSymbols(e: nat, be: seq<bool>)
    ensures Symbols(FlushTokens(e, be)) == Pending(e)
  {
    if e > 0 {
      hide Log2, BitTokens;
      BitSymbols(be);
      SymbolsPair(Sym(true, Log2(e) * 16), Raw(e, Log2(e)));
      SymbolsAppend(EobTokens(e), BitTokens(be));
    }
  }

  /** A pending run will need a symbol. */
  function Pending(e: nat): nat
  {
    if e > 0 then 1 else 0
  }

  lemma {:induction false} FirstSymbols(z: Block, k: nat, se: nat, al: nat, r: nat)
    requires k <= se + 1 <= DCTSIZE2
    ensures Symbols(FirstPart(z, k, se, al, r).toks) <= se + 1 - k + r
    decreases DCTSIZE2 - k, r
  {
    hide Magnitude, Approx, NBits;
    if k > se {
    } else if Magnitude(z[k], al) == 0 {
      FirstSymbols(z, k + 1, se, al, r + 1);
    } else if r > 15 {
      FirstSymbols(z, k, se, al, r - 16);
      SymbolsPair(Sym(true, ZRL), Bad);
      SymbolsAppend([Sym(true, ZRL)], FirstPart(z, k, se, al, r - 16).toks);
    } else {
      FirstSymbols(z, k + 1, se, al, 0);
      var v := Approx(z[k], al);
      SymbolsPair(Bad, Bad);
      SymbolsPair(Sym(true, r * 16 + NBits(Abs(v))), Raw(ValueWord(v), NBits(Abs(v))));
      SymbolsAppend(CoefPair(v, r), FirstPart(z, k + 1, se, al, 0).toks);
    }
  }

  lemma {:induction false} RefineSymbols(z: Block, k: nat, se: nat, al: nat, r: nat, br: seq<bool>, eob: nat)
    requires k <= se + 1 <= DCTSIZE2
    ensures Symbols(RefinePart(z, k, se, al, r, br, eob).toks) <= se + 1 - k + r
    decreases DCTSIZE2 - k, r
  {
    hide Magnitude, BitTokens;
    BitSymbols(br);
    if k > se {
    } else if Magnitude(z[k], al) == 0 {
      RefineSymbols(z, k + 1, se, al, r + 1, br, eob);
    } else if r > 15 && k <= eob {
      var q := RefinePart(z, k, se, al, r - 16, [], eob).toks;
      RefineSymbols(z, k, se, al, r - 16, [], eob);
      SymbolsPair(Sym(true, ZRL), Bad);
      SymbolsAppend(BitTokens(br), q);
      SymbolsAppend([Sym(true, ZRL)], BitTokens(br) + q);
    } else if Magnitude(z[k], al) > 1 {
      RefineSymbols(z, k + 1, se, al, r, br + [Odd(Magnitude(z[k], al))], eob);
    } else {
      var q := RefinePart(z, k + 1, se, al, 0, [], eob).toks;
      RefineSymbols(z, k + 1, se, al, 0, [], eob);
      SymbolsPair(Sym(true, r * 16 + 1), Raw(if z[k] < 0 then 0 else 1, 1));
      SymbolsAppend(BitTokens(br), q);
      SymbolsAppend(NewPair(z[k], r), BitTokens(br) + q);
    }
  }

  lemma AcSymbols(sc: PScan, z: Block)
    requires PScanOk(sc) && sc.ss > 0
    ensures Symbols(AcPart(sc, z).toks) <= DCTSIZE2 - 1
  {
    hide FirstPart, RefinePart, LastNew;
    if sc.ah == 0 {
      FirstSymbols(z, sc.ss, sc.se, sc.al, 0);
    } else {
      RefineSymbols(z, sc.ss, sc.se, sc.al, 0, [], LastNew(z, sc.ss, sc.se, sc.al));
    }
  }

  /** A block adds its own symbols and at most one for the run it ends or joins. */
  lemma AbsorbSymbols(s: Enc, p: Part)
    ensures Symbols(Absorb(s, p).toks) + Pending(Absorb(s, p).eobrun) <=
      Symbols(s.toks) + Pending(s.eobrun) + Symbols(p.toks) + 1
  {
    hide FlushTokens, MustFlush;
    var fl := FlushTokens(s.eobrun, s.be);
    FlushSymbols(s.eobrun, s.be);
    SymbolsAppend(s.toks, fl);
    SymbolsAppend(s.toks + fl, p.toks);
    var b := Begin(s, p);
    FlushSymbols(b.eobrun + 1, b.be + p.bits);
    SymbolsAppend(b.toks, FlushTokens(b.eobrun + 1, b.be + p.bits));
  }

  lemma {:induction false} DCFirstSymbols(sc: PScan, dc: seq<int>, mcu: Mcu, i: nat)
    requires PScanOk(sc) && sc.ss == 0 && sc.ah == 0 && |dc| == |sc.dcNo| && i <= |mcu| == |sc.membership|
    ensures LogSymbols(DCFirstLog(sc, dc, mcu, i)) <= |mcu| - i
    decreases |mcu| - i
  {
    hide DCTokens, Shifted;
    if i < |mcu| {
      var c := sc.membership[i];
      var v := Shifted(mcu[i][0], sc.al);
      DCFirstSymbols(sc, dc[c := v], mcu, i + 1);
      DiffSymbols(v - dc[c]);
      TagSymbols(sc.dcNo[c], DCTokens(v - dc[c]));
      LogSymbolsAppend(Tag(sc.dcNo[c], DCTokens(v - dc[c])), DCFirstLog(sc, dc[c := v], mcu, i + 1));
    }
  }

  lemma DiffSymbols(diff: int)
    ensures Symbols(DCTokens(diff)) <= 1
  {
    hide NBits;
    SymbolsPair(Bad, Bad);
    SymbolsPair(Sym(false, NBits(Abs(diff))), Raw(ValueWord(diff), NBits(Abs(diff))));
    assert [Sym(false, NBits(Abs(diff)))] + [] == [Sym(false, NBits(Abs(diff)))];
  }

  lemma {:induction false} DCRefineSymbols(al: nat, mcu: Mcu, i: nat)
    requires i <= |mcu|
    ensures LogSymbols(DCRefineLog(al, mcu, i)) == 0
    decreases |mcu| - i
  {
    if i < |mcu| {
      DCRefineSymbols(al, mcu, i + 1);
      var o := Out(0, DCBit(mcu[i][0], al));
      assert [o][..0] == [];
      LogSymbolsAppend([o], DCRefineLog(al, mcu, i + 1));
    }
  }

  /** The symbols a coder has emitted or will have to. */
  function Owed(c: Coder): nat
  {
    LogSymbols(c.log) + Pending(c.eobrun)
  }

  /** The number of coefficients in a scan's blocks. */
  function Coefficients(sc: PScan, n: nat): nat
  {
    DCTSIZE2 * |sc.membership| * n
  }

  lemma CoefficientsSplit(sc: PScan, a: nat, b: nat)
    ensures Coefficients(sc, a + b) == Coefficients(sc, a) + Coefficients(sc, b)
  {
  }

  lemma McuSymbols(sc: PScan, c: Coder, mcu: Mcu)
    requires PScanOk(sc) && |c.dc| == |sc.dcNo| && |mcu| == |sc.membership|
    ensures Owed(CodeMcu(sc, c, mcu)) <= Owed(c) + Coefficients(sc, 1)
  {
    hide Absorb, AcPart, Zigzag, DCFirstLog, DCRefineLog, DCFirstNext, LogSymbols, Symbols, Tag;
    if sc.ss > 0 {
      var p := AcPart(sc, Zigzag(mcu[0]));
      var e := Absorb(Enc([], c.eobrun, c.be), p);
      AcSymbols(sc, Zigzag(mcu[0]));
      AbsorbSymbols(Enc([], c.eobrun, c.be), p);
      NoSymbols();
      TagSymbols(sc.acNo, e.toks);
      LogSymbolsAppend(c.log, Tag(sc.acNo, e.toks));
    } else if sc.ah == 0 {
      DCFirstSymbols(sc, c.dc, mcu, 0);
      LogSymbolsAppend(c.log, DCFirstLog(sc, c.dc, mcu, 0));
    } else {
      DCRefineSymbols(sc.al, mcu, 0);
      LogSymbolsAppend(c.log, DCRefineLog(sc.al, mcu, 0));
    }
  }

  lemma NoSymbols()
    ensures Symbols([]) == 0
  {
  }

  lemma {:induction false} AllSymbols(sc: PScan, c: Coder, mcus: seq<Mcu>)
    requires Shaped(sc, mcus) && |c.dc| == |sc.dcNo|
    ensures Owed(CodeAll(sc, c, mcus)) <= Owed(c) + Coefficients(sc, |mcus|)
    decreases |mcus|
  {
    hide CodeMcu, Owed, Coefficients;
    if mcus != [] {
      McuSymbols(sc, c, mcus[0]);
      AllSymbols(sc, CodeMcu(sc, c, mcus[0]), mcus[1..]);
      CoefficientsSplit(sc, 1, |mcus| - 1);
    }
  }

  lemma IntervalSymbols(sc: PScan, mcus: seq<Mcu>)
    requires Shaped(sc, mcus)
    ensures LogSymbols(IntervalLog(sc, mcus)) <= Coefficients(sc, |mcus|)
  {
    hide CodeAll, FlushTokens, Tag, Coefficients;
    var c := CodeAll(sc, Fresh(sc), mcus);
    AllSymbols(sc, Fresh(sc), mcus);
    FlushSymbols(c.eobrun, c.be);
    TagSymbols(sc.acNo, FlushTokens(c.eobrun, c.be));
    LogSymbolsAppend(c.log, Tag(sc.acNo, FlushTokens(c.eobrun, c.be)));
  }

  /** A scan uses at most one symbol for each of its coefficients, the
      end-of-band runs included. */
  lemma {:induction false} WholeSymbols(sc: PScan, mcus: seq<Mcu>)
    requires Shaped(sc, mcus)
    ensures LogSymbols(WholeLog(sc, mcus)) <= Coefficients(sc, |mcus|)
    decreases |mcus|
  {
    hide IntervalLog, LogSymbols, Coefficients;
    if LastInterval(sc, |mcus|) {
      IntervalSymbols(sc, mcus);
    } else {
      IntervalSymbols(sc, mcus[..sc.interval]);
      WholeSymbols(sc, mcus[sc.interval..]);
      LogSymbolsAppend(IntervalLog(sc, mcus[..sc.interval]), WholeLog(sc, mcus[sc.interval..]));
      CoefficientsSplit(sc, sc.interval, |mcus| - sc.interval);
    }
  }

  // ----- Every table has work -----

  ghost predicate UsesTable(log: seq<Out>, no: nat)
  {
    exists i :: 0 <= i < |log| && log[i].tok.Sym? && log[i].tbl == no
  }

  lemma UsesMore(a: seq<Out>, b: seq<Out>, no: nat)
    requires UsesTable(a, no) || UsesTable(b, no)
    ensures UsesTable(a + b, no)
  {
    if i :| 0 <= i < |a| && a[i].tok.Sym? && a[i].tbl == no {
      assert (a + b)[i] == a[i];
    } else {
      var i :| 0 <= i < |b| && b[i].tok.Sym? && b[i].tbl == no;
      assert (a + b)[|a| + i] == b[i];
    }
  }

  lemma {:induction false} FirstHead(z: Block, k: nat, se: nat, al: nat, r: nat)
    requires k <= se + 1 <= DCTSIZE2
    ensures var t := FirstPart(z, k, se, al, r).toks; t == [] || !t[0].Raw?
    decreases DCTSIZE2 - k, r
  {
    hide Magnitude, Approx, NBits;
    if k <= se && Magnitude(z[k], al) == 0 {
      FirstHead(z, k + 1, se, al, r + 1);
    }
  }

  lemma {:induction false} RefineHead(z: Block, k: nat, se: nat, al: nat, r: nat, br: seq<bool>, eob: nat)
    requires k <= se + 1 <= DCTSIZE2
    ensures var t := RefinePart(z, k, se, al, r, br, eob).toks; t == [] || !t[0].Raw?
    decreases DCTSIZE2 - k, r
  {
    hide Magnitude, BitTokens;
    if k <= se {
      if Magnitude(z[k], al) == 0 {
        RefineHead(z, k + 1, se, al, r + 1, br, eob);
      } else if !(r > 15 && k <= eob) && Magnitude(z[k], al) > 1 {
        RefineHead(z, k + 1, se, al, r, br + [Odd(Magnitude(z[k], al))], eob);
      }
    }
  }

  /** A block joins the run or emits a symbol. */
  lemma AcWorks(sc: PScan, z: Block)
    requires PScanOk(sc) && sc.ss > 0
    ensures var p := AcPart(sc, z); Trailing(p) || (p.toks != [] && !p.toks[0].Raw?)
  {
    hide FirstPart, RefinePart, LastNew, AllNarrow;
    NarrowAc(sc, z);
    if sc.ah == 0 {
      FirstHead(z, sc.ss, sc.se, sc.al, 0);
    } else {
      RefineHead(z, sc.ss, sc.se, sc.al, 0, [], LastNew(z, sc.ss, sc.se, sc.al));
    }
  }

  /** After a block there is a pending run or a token that is not raw bits. */
  lemma AbsorbWorks(s: Enc, p: Part)
    requires Trailing(p) || (p.toks != [] && !p.toks[0].Raw?)
    ensures Absorb(s, p).eobrun > 0 || exists i :: 0 <= i < |Absorb(s, p).toks| && !Absorb(s, p).toks[i].Raw?
  {
    hide BitTokens, MustFlush, Log2;
    var b := Begin(s, p);
    var e := Absorb(s, p);
    if e.eobrun == 0 {
      if Trailing(p) {
        assert e.toks == b.toks + FlushTokens(b.eobrun + 1, b.be + p.bits);
        assert e.toks[|b.toks|] == Sym(true, Log2(b.eobrun + 1) * 16);
      } else {
        var f := Flush(s).toks;
        assert e.toks[|f|] == p.toks[0];
      }
    }
  }

  /** The coder will use the table, or has met a coefficient out of range. */
  ghost predicate Works(sc: PScan, c: Coder)
  {
    c.eobrun > 0 || UsesTable(c.log, sc.acNo) || !NoBad(c.log)
  }

  lemma McuWorks(sc: PScan, c: Coder, mcu: Mcu)
    requires PScanOk(sc) && sc.ss > 0 && |c.dc| == |sc.dcNo| && |mcu| == |sc.membership|
    ensures Works(sc, CodeMcu(sc, c, mcu))
  {
    hide Absorb, AcPart, Zigzag, Trailing;
    var p := AcPart(sc, Zigzag(mcu[0]));
    var e := Absorb(Enc([], c.eobrun, c.be), p);
    AcWorks(sc, Zigzag(mcu[0]));
    AbsorbWorks(Enc([], c.eobrun, c.be), p);
    if e.eobrun == 0 {
      var i :| 0 <= i < |e.toks| && !e.toks[i].Raw?;
      var log := c.log + Tag(sc.acNo, e.toks);
      assert log[|c.log| + i] == Out(sc.acNo, e.toks[i]);
    }
  }

  lemma {:induction false} AllWorks(sc: PScan, c: Coder, mcus: seq<Mcu>)
    requires Shaped(sc, mcus) && sc.ss > 0 && |c.dc| == |sc.dcNo| && mcus != []
    ensures Works(sc, CodeAll(sc, c, mcus))
    decreases |mcus|
  {
    hide CodeMcu, Works;
    McuWorks(sc, c, mcus[0]);
    if |mcus| > 1 {
      AllWorks(sc, CodeMcu(sc, c, mcus[0]), mcus[1..]);
    }
  }

  lemma AcIntervalUses(sc: PScan, mcus: seq<Mcu>)
    requires Shaped(sc, mcus) && sc.ss > 0 && mcus != [] && NoBad(IntervalLog(sc, mcus))
    ensures UsesTable(IntervalLog(sc, mcus), sc.acNo)
  {
    hide CodeAll, BitTokens, Log2;
    var c := CodeAll(sc, Fresh(sc), mcus);
    AllWorks(sc, Fresh(sc), mcus);
    var fl := FlushTokens(c.eobrun, c.be);
    if c.eobrun > 0 {
      assert Tag(sc.acNo, fl)[0] == Out(sc.acNo, Sym(true, Log2(c.eobrun) * 16));
      assert UsesTable(Tag(sc.acNo, fl), sc.acNo);
    } else {
      assert c.log + [] == c.log;
    }
    UsesMore(c.log, Tag(sc.acNo, fl), sc.acNo);
  }

  lemma {:induction false} DCMcuUses(sc: PScan, dc: seq<int>, mcu: Mcu, i: nat, j: nat)
    requires PScanOk(sc) && sc.ss == 0 && sc.ah == 0 && |dc| == |sc.dcNo| && i <= j < |mcu| == |sc.membership|
    requires NoBad(DCFirstLog(sc, dc, mcu, i))
    ensures UsesTable(DCFirstLog(sc, dc, mcu, i), sc.dcNo[sc.membership[j]])
    decreases |mcu| - i
  {
    hide NBits, Shifted;
    var c := sc.membership[i];
    var v := Shifted(mcu[i][0], sc.al);
    var a, b := Tag(sc.dcNo[c], DCTokens(v - dc[c])), DCFirstLog(sc, dc[c := v], mcu, i + 1);
    NoBadParts(a, b);
    if i == j {
      assert a[0].tok != Bad;
      assert UsesTable(a, sc.dcNo[c]);
    } else {
      DCMcuUses(sc, dc[c := v], mcu, i + 1, j);
    }
    UsesMore(a, b, sc.dcNo[sc.membership[j]]);
  }

  lemma NoBadParts(a: seq<Out>, b: seq<Out>)
    requires NoBad(a + b)
    ensures NoBad(a) && NoBad(b)
  {
    forall i | 0 <= i < |a|
      ensures a[i].tok != Bad
    {
      assert (a + b)[i] == a[i];
    }
    forall i | 0 <= i < |b|
      ensures b[i].tok != Bad
    {
      assert (a + b)[|a| + i] == b[i];
    }
  }

  lemma DCIntervalUses(sc: PScan, mcus: seq<Mcu>, j: nat)
    requires Shaped(sc, mcus) && sc.ss == 0 && sc.ah == 0 && mcus != [] && j < |sc.membership|
    requires NoBad(IntervalLog(sc, mcus))
    ensures UsesTable(IntervalLog(sc, mcus), sc.dcNo[sc.membership[j]])
  {
    hide CodeAll, FlushTokens, DCFirstLog, DCFirstNext, NoBad;
    assert mcus == [mcus[0]] + mcus[1..];
    var rest := IntervalExtends(sc, [mcus[0]], mcus[1..]);
    OneMcu(sc, mcus[0]);
    var log := DCFirstLog(sc, Zeroes(|sc.dcNo|), mcus[0], 0);
    NoBadParts(log, rest);
    DCMcuUses(sc, Zeroes(|sc.dcNo|), mcus[0], 0, j);
    UsesMore(log, rest, sc.dcNo[sc.membership[j]]);
  }

  lemma OneMcu(sc: PScan, mcu: Mcu)
    requires PScanOk(sc) && sc.ss == 0 && sc.ah == 0 && |mcu| == |sc.membership|
    ensures CodeAll(sc, Fresh(sc), [mcu]).log == DCFirstLog(sc, Zeroes(|sc.dcNo|), mcu, 0)
  {
    hide DCFirstLog, DCFirstNext;
    assert [mcu][1..] == [];
    var f := Fresh(sc);
    assert CodeAll(sc, f, [mcu]) == CodeAll(sc, CodeMcu(sc, f, mcu), []);
    assert [] + DCFirstLog(sc, Zeroes(|sc.dcNo|), mcu, 0) == DCFirstLog(sc, Zeroes(|sc.dcNo|), mcu, 0);
  }

  /** Every component of a scan has a block in each MCU: sampling factors are at
      least 1. */
  ghost predicate EveryComponent(sc: PScan)
  {
    forall c: nat :: c < |sc.dcNo| ==> c in sc.membership
  }

  lemma IntervalUses(sc: PScan, mcus: seq<Mcu>, no: nat)
    requires Shaped(sc, mcus) && mcus != [] && EveryComponent(sc) && NeedsTable(sc, no)
    requires NoBad(IntervalLog(sc, mcus))
    ensures UsesTable(IntervalLog(sc, mcus), no)
  {
    hide IntervalLog, NoBad;
    if sc.ss > 0 {
      AcIntervalUses(sc, mcus);
    } else {
      var c: nat :| c < |sc.dcNo| && sc.dcNo[c] == no;
      assert c in sc.membership;
      var j: nat :| j < |sc.membership| && sc.membership[j] == c;
      DCIntervalUses(sc, mcus, j);
    }
  }

  /** A scan in range uses every table it needs. */
  lemma WholeUses(sc: PScan, mcus: seq<Mcu>, no: nat) returns (s: nat)
    requires Shaped(sc, mcus) && mcus != [] && EveryComponent(sc) && NeedsTable(sc, no)
    requires NoBad(WholeLog(sc, mcus))
    ensures Uses(WholeLog(sc, mcus), no, s)
  {
    hide IntervalLog, NoBad, NeedsTable;
    var log := WholeLog(sc, mcus);
    if LastInterval(sc, |mcus|) {
      IntervalUses(sc, mcus, no);
    } else {
      var a, b := IntervalLog(sc, mcus[..sc.interval]), WholeLog(sc, mcus[sc.interval..]);
      NoBadParts(a, b);
      IntervalUses(sc, mcus[..sc.interval], no);
      UsesMore(a, b, no);
    }
    var i :| 0 <= i < |log| && log[i].tok.Sym? && log[i].tbl == no;
    s := log[i].tok.s;
    assert IsSymbol(log[i], no, s);
  }

  // ----- What the table generator asks for -----

  /** The counts of a progressive scan meet what the table generator asks for. */
  lemma ProgressiveCountable(sc: PScan, log: seq<Out>, no: nat, used: nat)
    requires LogFits(sc, log) && Uses(log, no, used) && LogSymbols(log) < MAX_COUNT
    ensures Countable(LogCounts(log, no)) && Sum(WithPseudo(LogCounts(log, no))) <= LogSymbols(log) + 1
  {
    hide LogSymbols;
    var counts := LogCounts(log, no);
    CountedUses(log, no, used);
    var i :| 0 <= i < |log| && IsSymbol(log[i], no, used);
    assert OutFits(sc, log[i]);
    assert counts[used] > 0;
    Unused(sc, log, no, 12);
    Unused(sc, log, no, 13);
    assert counts[12] == 0 && counts[13] == 0;
    Gather.TwoUnused(WithPseudo(counts), 12, 13);
    LogCountsSum(log, no);
    SumUpdate(counts, 256, 1);
  }

  lemma Unused(sc: PScan, log: seq<Out>, no: nat, s: nat)
    requires LogFits(sc, log) && 12 <= s < 16
    ensures LogCount(log, no, s) == 0
  {
    CountedUses(log, no, s);
    forall i | 0 <= i < |log|
      ensures !IsSymbol(log[i], no, s)
    {
      assert OutFits(sc, log[i]);
    }
  }

  /** How often a scan uses each symbol of a table. */
  ghost function PassCounts(sc: PScan, mcus: seq<Mcu>, no: nat): (c: seq<nat>)
    requires Shaped(sc, mcus)
    ensures |c| == SYMBOLS
  {
    LogCounts(WholeLog(sc, mcus), no)
  }

  lemma NeededCountable(sc: PScan, mcus: seq<Mcu>, no: nat)
    requires Shaped(sc, mcus) && mcus != [] && EveryComponent(sc) && NeedsTable(sc, no)
    requires NoBad(WholeLog(sc, mcus)) && Coefficients(sc, |mcus|) < MAX_COUNT
    ensures Countable(PassCounts(sc, mcus, no))
    ensures Sum(WithPseudo(PassCounts(sc, mcus, no))) <= Coefficients(sc, |mcus|) + 1
  {
    hide WholeLog, NoBad, NeedsTable, Countable, LogCounts, LogSymbols, LogFits, Uses, Coefficients;
    var s := WholeUses(sc, mcus, no);
    NarrowWhole(sc, mcus);
    WholeSymbols(sc, mcus);
    ProgressiveCountable(sc, WholeLog(sc, mcus), no, s);
  }

  /** Below nine million coefficients every table can be generated. */
  lemma SmallScanTabulated(sc: PScan, mcus: seq<Mcu>, no: nat)
    requires Shaped(sc, mcus) && mcus != [] && EveryComponent(sc) && NeedsTable(sc, no)
    requires NoBad(WholeLog(sc, mcus)) && Coefficients(sc, |mcus|) < 9227465 - 1
    ensures Tabulated(PassCounts(sc, mcus, no))
  {
    hide WholeLog, NoBad, NeedsTable, Countable, Tabulated, PassCounts, Coefficients;
    NeededCountable(sc, mcus, no);
    HuffmanDepth.NoOverflow(PassCounts(sc, mcus, no));
  }

  /** A DC table codes categories only. */
  lemma DCSymbols(sc: PScan, mcus: seq<Mcu>, no: nat, s: nat)
    requires Shaped(sc, mcus) && sc.ss == 0 && s < SYMBOLS && PassCounts(sc, mcus, no)[s] > 0
    ensures s <= MAX_COEF_BITS + 1
  {
    hide WholeLog;
    var log := WholeLog(sc, mcus);
    NarrowWhole(sc, mcus);
    CountedUses(log, no, s);
    var i :| 0 <= i < |log| && IsSymbol(log[i], no, s);
    assert OutFits(sc, log[i]);
  }
}
