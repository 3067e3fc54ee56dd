/** The counts of a whole sequential statistics pass: what they are, how large
    they get, and that every table of the scan has a symbol to code. */
module SeqCounts {
  import opened Arith
  import opened ZigzagOrder
  import opened OptimalTable
  import opened GeneratedTables
  import opened SeqTokens
  import opened SeqScan
  import opened HuffEntropy
  import opened Gather
  import HuffmanDepth

  /** The state at the start of a statistics pass. */
  function GStart(sc: Scan): GState
  {
    GState(Zeroes(|sc.dcNo|), sc.interval)
  }

  /** How often a scan uses each symbol of a table. */
  ghost function ScanCounts(sc: Scan, mcus: seq<Mcu>, isAc: bool, no: nat): (c: seq<nat>)
    requires AllShaped(sc, mcus)
    ensures |c| == SYMBOLS
  {
    CountsOf(ScanToks(sc, GStart(sc), mcus, isAc, no), isAc)
  }

  ghost function CountsOf(toks: seq<Token>, isAc: bool): (c: seq<nat>)
    ensures |c| == SYMBOLS
  {
    seq(SYMBOLS, s requires 0 <= s < SYMBOLS => Count(toks, isAc, s))
  }

  lemma CountedIs(c: seq<nat>, toks: seq<Token>, isAc: bool)
    ensures Counted(Zero(), c, toks, isAc) <==> c == CountsOf(toks, isAc)
  {
  }

  // ----- How many symbols -----

  /** No more occurrences are counted than there are symbols. */
  lemma {:induction false} CountsSum(toks: seq<Token>, isAc: bool)
    ensures Sum(CountsOf(toks, isAc)) <= Symbols(toks)
  {
    var c := CountsOf(toks, isAc);
    if toks == [] {
      SumZero(c);
    } else {
      var before := CountsOf(toks[1..], isAc);
      CountsSum(toks[1..], isAc);
      if toks[0].Sym? && toks[0].ac == isAc && toks[0].s < SYMBOLS {
        var s := toks[0].s;
        SumUpdate(before, s, before[s] + 1);
        assert c == before[s := before[s] + 1];
      } else {
        assert c == before;
      }
    }
  }

  lemma {:induction false} ACSymbols(z: Block, k: nat, r: nat)
    requires k <= DCTSIZE2
    ensures Symbols(ACTokens(z, k, r)) <= DCTSIZE2 - k + r
    decreases DCTSIZE2 - k, r
  {
    if k < DCTSIZE2 {
      if z[k] == 0 {
        ACSymbols(z, k + 1, r + 1);
      } else if r > 15 {
        ACSymbols(z, k, r - 16);
        SymbolsAppend([Sym(true, ZRL)], ACTokens(z, k, r - 16));
      } else {
        ACSymbols(z, k + 1, 0);
        PairSymbols(z[k], r);
        SymbolsAppend(CoefPair(z[k], r), ACTokens(z, k + 1, 0));
      }
    }
  }

  lemma PairSymbols(v: int, r: nat)
    ensures Symbols(CoefPair(v, r)) <= 1
  {
    var p := CoefPair(v, r);
    if |p| == 2 {
      assert p[1..] == [p[1]] && p[1..][1..] == [];
      assert Symbols(p[1..]) == 0;
    } else {
      assert p[1..] == [];
    }
  }

  /** At most one symbol for each coefficient. */
  lemma BlockSymbols(z: Block, pred: int)
    ensures Symbols(BlockTokens(z, pred)) <= DCTSIZE2
  {
    ACSymbols(z, 1, 0);
    var d := DCTokens(z[0] - pred);
    SymbolsAppend(d, ACTokens(z, 1, 0));
    if |d| == 2 {
      assert d[1..] == [d[1]] && d[1..][1..] == [];
    } else {
      assert d[1..] == [];
    }
  }

  lemma {:induction false} McuSymbols(sc: Scan, dc: seq<int>, mcu: Mcu, i: nat, isAc: bool, no: nat)
    requires Shaped(sc, dc, mcu) && i <= |mcu|
    ensures Symbols(McuToks(sc, dc, mcu, i, isAc, no)) <= DCTSIZE2 * (|mcu| - i)
    decreases |mcu| - i
  {
    hide BlockTokens, Zigzag;
    if i < |mcu| {
      var here := if TableNo(sc, i, isAc) == no then BlockToks(sc, dc, mcu, i) else [];
      BlockSymbols(Zigzag(mcu[i]), dc[sc.membership[i]]);
      McuSymbols(sc, DcNext(sc, dc, mcu, i), mcu, i + 1, isAc, no);
      SymbolsAppend(here, McuToks(sc, DcNext(sc, dc, mcu, i), mcu, i + 1, isAc, no));
    }
  }

  /** The number of coefficients in a scan. */
  function Coefficients(sc: Scan, n: nat): nat
  {
    DCTSIZE2 * |sc.membership| * n
  }

  lemma OneMore(sc: Scan, n: nat)
    requires n > 0
    ensures Coefficients(sc, n) == DCTSIZE2 * |sc.membership| + Coefficients(sc, n - 1)
  {
  }

  lemma {:induction false} ScanSymbols(sc: Scan, g: GState, mcus: seq<Mcu>, isAc: bool, no: nat)
    requires AllShaped(sc, mcus) && |g.dc| == |sc.dcNo|
    ensures Symbols(ScanToks(sc, g, mcus, isAc, no)) <= Coefficients(sc, |mcus|)
    decreases |mcus|
  {
    hide McuToks, Coefficients, DcAfter;
    if mcus != [] {
      var a, b := McuToks(sc, GBegin(sc, g), mcus[0], 0, isAc, no),
        ScanToks(sc, GNext(sc, g, mcus[0]), mcus[1..], isAc, no);
      McuSymbols(sc, GBegin(sc, g), mcus[0], 0, isAc, no);
      ScanSymbols(sc, GNext(sc, g, mcus[0]), mcus[1..], isAc, no);
      SymbolsAppend(a, b);
      OneMore(sc, |mcus|);
    }
  }

  lemma SumWithPseudo(c: seq<nat>)
    requires |c| == SYMBOLS
    ensures Sum(WithPseudo(c)) <= Sum(c) + 1
  {
    SumUpdate(c, 256, 1);
  }

  // ----- Every table has work -----

  lemma {:induction false} SomeAC(z: Block, k: nat, r: nat) returns (s: nat)
    requires k <= DCTSIZE2 && (k < DCTSIZE2 || r > 0) && Bad !in ACTokens(z, k, r)
    ensures Sym(true, s) in ACTokens(z, k, r)
    decreases DCTSIZE2 - k, r
  {
    if k == DCTSIZE2 {
      s := EOB;
    } else if z[k] == 0 {
      s := SomeAC(z, k + 1, r + 1);
    } else if r > 15 {
      s := ZRL;
    } else {
      var pair := CoefPair(z[k], r);
      assert pair[0] in pair && pair[0] in ACTokens(z, k, r);
      s := pair[0].s;
    }
  }

  /** A block in range uses a symbol of each of its tables. */
  lemma BlockUses(z: Block, pred: int, isAc: bool) returns (s: nat)
    requires Bad !in BlockTokens(z, pred)
    ensures Sym(isAc, s) in BlockTokens(z, pred)
  {
    if isAc {
      s := SomeAC(z, 1, 0);
    } else {
      var d := DCTokens(z[0] - pred);
      assert d[0] in d && d[0] in BlockTokens(z, pred);
      s := d[0].s;
    }
  }

  lemma {:induction false} McuUses(sc: Scan, dc: seq<int>, mcu: Mcu, i: nat, j: nat, isAc: bool) returns (s: nat)
    requires Shaped(sc, dc, mcu) && i <= j < |mcu| && McuInRange(sc, dc, mcu, i)
    ensures Sym(isAc, s) in McuToks(sc, dc, mcu, i, isAc, TableNo(sc, j, isAc))
    decreases |mcu| - i
  {
    hide BlockTokens, Zigzag;
    if i == j {
      s := BlockUses(Zigzag(mcu[i]), dc[sc.membership[i]], isAc);
    } else {
      s := McuUses(sc, DcNext(sc, dc, mcu, i), mcu, i + 1, j, isAc);
    }
  }

  /** What the counts of a scan come to: a table generator can work on them. */
  lemma UsedCountable(sc: Scan, mcus: seq<Mcu>, j: nat, isAc: bool)
    requires AllShaped(sc, mcus) && mcus != [] && j < |sc.membership| && ScanInRange(sc, GStart(sc), mcus)
    requires Coefficients(sc, |mcus|) < MAX_COUNT
    ensures Countable(ScanCounts(sc, mcus, isAc, TableNo(sc, j, isAc)))
    ensures Sum(WithPseudo(ScanCounts(sc, mcus, isAc, TableNo(sc, j, isAc)))) <= Coefficients(sc, |mcus|) + 1
  {
    hide McuToks, ScanToks, McuInRange, Coefficients, Countable, CountsOf, Counted, AlphabetOnly, WithPseudo;
    var no := TableNo(sc, j, isAc);
    var toks := ScanToks(sc, GStart(sc), mcus, isAc, no);
    var used := ScanUses(sc, mcus, j, isAc);
    ScanAlphabet(sc, GStart(sc), mcus, isAc, no);
    CountsSum(toks, isAc);
    ScanSymbols(sc, GStart(sc), mcus, isAc, no);
    SumWithPseudo(CountsOf(toks, isAc));
    CountedIs(CountsOf(toks, isAc), toks, isAc);
    ScanCountable(CountsOf(toks, isAc), toks, isAc, used);
  }

  lemma ScanUses(sc: Scan, mcus: seq<Mcu>, j: nat, isAc: bool) returns (s: nat)
    requires AllShaped(sc, mcus) && mcus != [] && j < |sc.membership| && ScanInRange(sc, GStart(sc), mcus)
    ensures Sym(isAc, s) in ScanToks(sc, GStart(sc), mcus, isAc, TableNo(sc, j, isAc))
  {
    hide McuToks, McuInRange;
    s := McuUses(sc, GBegin(sc, GStart(sc)), mcus[0], 0, j, isAc);
  }

  /** Below nine million coefficients no code gets longer than 32 bits, so every
      table of the scan can be generated. */
  lemma SmallScanTabulated(sc: Scan, mcus: seq<Mcu>, j: nat, isAc: bool)
    requires AllShaped(sc, mcus) && mcus != [] && j < |sc.membership| && ScanInRange(sc, GStart(sc), mcus)
    requires Coefficients(sc, |mcus|) < 9227465 - 1
    ensures Tabulated(ScanCounts(sc, mcus, isAc, TableNo(sc, j, isAc)))
  {
    hide ScanCounts, Coefficients, Countable, Tabulated, WithPseudo, ScanInRange;
    UsedCountable(sc, mcus, j, isAc);
    HuffmanDepth.NoOverflow(ScanCounts(sc, mcus, isAc, TableNo(sc, j, isAc)));
  }

  /** A DC table codes categories only. */
  lemma DCSymbols(sc: Scan, mcus: seq<Mcu>, isAc: bool, no: nat, s: nat)
    requires AllShaped(sc, mcus) && s < 256 && ScanCounts(sc, mcus, isAc, no)[s] > 0
    ensures isAc || s <= MAX_COEF_BITS + 1
  {
    hide ScanToks;
    var toks := ScanToks(sc, GStart(sc), mcus, isAc, no);
    ScanAlphabet(sc, GStart(sc), mcus, isAc, no);
    CountedOccurs(toks, isAc, s);
    assert InAlphabet(isAc, s);
  }
}
