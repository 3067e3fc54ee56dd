/** Which coefficients a progressive scan can code: what "out of range" means in numbers. */
module ProgRanges {
  import opened Arith
  import opened Bits
  import opened ZigzagOrder
  import opened SeqTokens
  import opened ProgTokens
  import opened ProgFirst
  import opened ProgRefine
  import opened ProgScan
  import opened ProgEncoder
  import opened ProgPass

  // ----- One block -----

  /** A coefficient has at most ten bits beside the lowest al. */
  predicate Reaches(c: int, al: nat)
  {
    -1024 * Pow2(al) < c < 1024 * Pow2(al)
  }

  lemma QuotientBelow(v: nat, p: nat, n: nat)
    requires p > 0
    ensures v / p < n <==> v < n * p
  {
    var q := v / p;
    assert v == q * p + v % p;
    if n <= q {
      assert (q - n) * p >= 0;
    } else {
      assert (n - q - 1) * p >= 0;
    }
  }

  lemma ApproxInRange(c: int, al: nat)
    ensures -1023 <= Approx(c, al) <= 1023 <==> Reaches(c, al)
    ensures Magnitude(c, al) == 0 ==> Reaches(c, al)
  {
    QuotientBelow(Abs(c), Pow2(al), 1024);
  }

  /** A block of a first AC scan can be coded if and only if its band does. */
  lemma {:induction false} FirstInRange(z: Block, k: nat, se: nat, al: nat, r: nat)
    requires k <= se + 1 <= 64
    ensures Bad !in FirstPart(z, k, se, al, r).toks <==> forall j :: k <= j <= se ==> Reaches(z[j], al)
    decreases |z| - k, r
  {
    hide Magnitude, Approx, CoefPair, Reaches;
    if k <= se {
      ApproxInRange(z[k], al);
      PairInRange(Approx(z[k], al), r);
      if Magnitude(z[k], al) == 0 {
        FirstInRange(z, k + 1, se, al, r + 1);
      } else if r > 15 {
        FirstInRange(z, k, se, al, r - 16);
      } else {
        FirstInRange(z, k + 1, se, al, 0);
      }
    }
  }

  lemma {:induction false} BitsInRange(b: seq<bool>)
    ensures Bad !in BitTokens(b)
  {
    if b != [] {
      BitsInRange(b[1..]);
    }
  }

  /** In a refinement nothing is out of range. */
  lemma {:induction false} RefineInRange(z: Block, k: nat, se: nat, al: nat, r: nat, br: seq<bool>, eob: nat)
    requires k <= se + 1 <= 64
    ensures Bad !in RefinePart(z, k, se, al, r, br, eob).toks
    decreases |z| - k, r
  {
    hide Magnitude, BitTokens;
    BitsInRange(br);
    if k <= se {
      var m := Magnitude(z[k], al);
      if m == 0 {
        RefineInRange(z, k + 1, se, al, r + 1, br, eob);
      } else if r > 15 && k <= eob {
        RefineInRange(z, k, se, al, r - 16, [], eob);
      } else if m > 1 {
        RefineInRange(z, k + 1, se, al, r, br + [Odd(m)], eob);
      } else {
        RefineInRange(z, k + 1, se, al, 0, [], eob);
      }
    }
  }

  /** The band of a block is in range for an AC scan. */
  ghost predicate BandFits(sc: PScan, z: Block)
  {
    sc.ah > 0 || forall j :: sc.ss <= j <= sc.se && j < 64 ==> Reaches(z[j], sc.al)
  }

  lemma PartInRange(sc: PScan, z: Block)
    requires PScanOk(sc) && sc.ss > 0
    ensures Bad !in AcPart(sc, z).toks <==> BandFits(sc, z)
  {
    hide FirstPart, RefinePart, Reaches;
    if sc.ah == 0 {
      FirstInRange(z, sc.ss, sc.se, sc.al, 0);
    } else {
      RefineInRange(z, sc.ss, sc.se, sc.al, 0, [], LastNew(z, sc.ss, sc.se, sc.al));
    }
  }

  // ----- Logs -----

  lemma NoBadTag(tbl: nat, toks: seq<Token>)
    ensures NoBad(Tag(tbl, toks)) <==> Bad !in toks
  {
    var log := Tag(tbl, toks);
    forall i | 0 <= i < |toks|
      ensures log[i].tok == toks[i]
    {
    }
  }

  lemma NoBadAppend(a: seq<Out>, b: seq<Out>)
    ensures NoBad(a + b) <==> NoBad(a) && NoBad(b)
  {
    if NoBad(a + b) {
      forall i | 0 <= i < |a|
        ensures a[i].tok != Bad
      {
        assert (a + b)[i] == a[i];
      }
      forall i | 0 <= i < |b|
        ensures b[i].tok != Bad
      {
        assert (a + b)[|a| + i] == b[i];
      }
    }
  }

  lemma FlushInRange(e: nat, be: seq<bool>)
    ensures Bad !in FlushTokens(e, be)
  {
    BitsInRange(be);
  }

  lemma AbsorbInRange(s: Enc, p: Part)
    ensures Bad !in Absorb(s, p).toks <==> Bad !in s.toks && Bad !in p.toks
  {
    hide FlushTokens;
    FlushInRange(s.eobrun, s.be);
    var b := Begin(s, p);
    FlushInRange(b.eobrun + 1, b.be + p.bits);
  }

  lemma McuInRange(sc: PScan, c: Coder, mcu: Mcu)
    requires PScanOk(sc) && |c.dc| == |sc.dcNo| && |mcu| == |sc.membership| && sc.ss > 0
    ensures NoBad(CodeMcu(sc, c, mcu).log) <==> NoBad(c.log) && BandFits(sc, Zigzag(mcu[0]))
  {
    hide Absorb, AcPart, Zigzag, Tag, NoBad, BandFits;
    var z := Zigzag(mcu[0]);
    var e := Enc([], c.eobrun, c.be);
    PartInRange(sc, z);
    AbsorbInRange(e, AcPart(sc, z));
    NoBadTag(sc.acNo, Absorb(e, AcPart(sc, z)).toks);
    NoBadAppend(c.log, Tag(sc.acNo, Absorb(e, AcPart(sc, z)).toks));
  }

  lemma {:induction false} AllInRange(sc: PScan, c: Coder, mcus: seq<Mcu>)
    requires Shaped(sc, mcus) && |c.dc| == |sc.dcNo| && sc.ss > 0
    ensures NoBad(CodeAll(sc, c, mcus).log) <==>
            NoBad(c.log) && forall m :: 0 <= m < |mcus| ==> BandFits(sc, Zigzag(mcus[m][0]))
    decreases |mcus|
  {
    hide CodeMcu, NoBad, BandFits, Zigzag;
    if mcus != [] {
      McuInRange(sc, c, mcus[0]);
      AllInRange(sc, CodeMcu(sc, c, mcus[0]), mcus[1..]);
      var rest := mcus[1..];
      assert forall m :: 1 <= m < |mcus| ==> mcus[m] == rest[m - 1];
    }
  }

  lemma IntervalInRange(sc: PScan, mcus: seq<Mcu>)
    requires Shaped(sc, mcus) && sc.ss > 0
    ensures NoBad(IntervalLog(sc, mcus)) <==> forall m :: 0 <= m < |mcus| ==> BandFits(sc, Zigzag(mcus[m][0]))
  {
    hide CodeAll, BandFits, Zigzag, FlushTokens, Tag;
    var c := CodeAll(sc, Fresh(sc), mcus);
    AllInRange(sc, Fresh(sc), mcus);
    FlushInRange(c.eobrun, c.be);
    NoBadTag(sc.acNo, FlushTokens(c.eobrun, c.be));
    NoBadAppend(c.log, Tag(sc.acNo, FlushTokens(c.eobrun, c.be)));
  }

  /** An AC scan can be coded, tables aside, if and only if it is a refinement or every
      coefficient of its band has at most ten bits above the lowest al. */
  lemma {:induction false} AcScanInRange(sc: PScan, mcus: seq<Mcu>)
    requires Shaped(sc, mcus) && sc.ss > 0
    ensures NoBad(WholeLog(sc, mcus)) <==> forall m :: 0 <= m < |mcus| ==> BandFits(sc, Zigzag(mcus[m][0]))
    decreases |mcus|
  {
    hide IntervalLog, NoBad, BandFits, Zigzag;
    if LastInterval(sc, |mcus|) {
      IntervalInRange(sc, mcus);
    } else {
      var k := sc.interval;
      var front, rest := mcus[..k], mcus[k..];
      IntervalInRange(sc, front);
      AcScanInRange(sc, rest);
      NoBadAppend(IntervalLog(sc, front), WholeLog(sc, rest));
      assert forall m :: 0 <= m < k ==> mcus[m] == front[m];
      assert forall m :: k <= m < |mcus| ==> mcus[m] == rest[m - k];
    }
  }

  // ----- DC scans -----

  /** In a first DC scan, one block after the other: the difference of the shifted value
      to the one before it fits eleven bits. */
  lemma DCStepInRange(sc: PScan, dc: seq<int>, mcu: Mcu, i: nat)
    requires PScanOk(sc) && sc.ss == 0 && sc.ah == 0 && |dc| == |sc.dcNo| && i <= |mcu| == |sc.membership|
    ensures NoBad(DCFirstLog(sc, dc, mcu, i)) <==>
      i == |mcu| ||
      (var c, v := sc.membership[i], mcu[i][0] / Pow2(sc.al);
       -2047 <= v - dc[c] <= 2047 && NoBad(DCFirstLog(sc, dc[c := v], mcu, i + 1)))
  {
    hide NoBad, DCTokens, Tag;
    if i < |mcu| {
      var c, v := sc.membership[i], Shifted(mcu[i][0], sc.al);
      DCInRange(v - dc[c]);
      NoBadTag(sc.dcNo[c], DCTokens(v - dc[c]));
      NoBadAppend(Tag(sc.dcNo[c], DCTokens(v - dc[c])), DCFirstLog(sc, dc[c := v], mcu, i + 1));
    } else {
      assert DCFirstLog(sc, dc, mcu, i) == [];
      assert NoBad([]) by { NothingBad(); }
    }
  }

  lemma NothingBad()
    ensures NoBad([])
  {
  }

  lemma {:induction false} DCRefineInRange(al: nat, mcu: Mcu, i: nat)
    requires i <= |mcu|
    ensures NoBad(DCRefineLog(al, mcu, i))
    decreases |mcu| - i
  {
    if i < |mcu| {
      DCRefineInRange(al, mcu, i + 1);
    }
  }

  predicate SmallDc(dc: seq<int>)
  {
    forall c :: 0 <= c < |dc| ==> -1023 <= dc[c] <= 1023
  }

  predicate SmallMcu(mcu: Mcu)
  {
    forall i :: 0 <= i < |mcu| ==> -1023 <= mcu[i][0] <= 1023
  }

  /** Shifting brings a number nearer to zero, or to minus one. */
  lemma SmallShifted(c: int, p: nat)
    requires p > 0
    ensures c >= 0 ==> 0 <= c / p <= c
    ensures c < 0 ==> c <= c / p < 0
  {
    DivMod(c, p);
    Between(c, p, c / p, c % p);
  }

  lemma Between(c: int, p: nat, q: int, r: int)
    requires p > 0 && 0 <= r < p && c == p * q + r
    ensures c >= 0 ==> 0 <= q <= c
    ensures c < 0 ==> c <= q < 0
  {
    if q >= 0 {
      NonNegative(p - 1, q);
      assert p * q == q + (p - 1) * q;
    } else {
      NonNegative(p - 1, -q - 1);
      assert p * q == q + 1 - p - (p - 1) * (-q - 1);
    }
  }

  lemma {:induction false} SmallDCs(sc: PScan, dc: seq<int>, mcu: Mcu, i: nat)
    requires PScanOk(sc) && sc.ss == 0 && sc.ah == 0 && |dc| == |sc.dcNo| && i <= |mcu| == |sc.membership|
    requires SmallMcu(mcu) && SmallDc(dc)
    ensures NoBad(DCFirstLog(sc, dc, mcu, i)) && SmallDc(DCFirstNext(sc, dc, mcu, i))
    decreases |mcu| - i
  {
    hide NoBad, DCFirstLog;
    DCStepInRange(sc, dc, mcu, i);
    if i < |mcu| {
      SmallShifted(mcu[i][0], Pow2(sc.al));
      SmallDCs(sc, dc[sc.membership[i] := Shifted(mcu[i][0], sc.al)], mcu, i + 1);
    }
  }

  lemma {:induction false} SmallAll(sc: PScan, c: Coder, mcus: seq<Mcu>)
    requires Shaped(sc, mcus) && |c.dc| == |sc.dcNo| && sc.ss == 0 && NoBad(c.log) && SmallDc(c.dc)
    requires forall m :: 0 <= m < |mcus| ==> SmallMcu(mcus[m])
    ensures NoBad(CodeAll(sc, c, mcus).log)
    decreases |mcus|
  {
    hide NoBad, DCFirstLog, DCRefineLog, DCFirstNext, SmallMcu, SmallDc;
    if mcus != [] {
      if sc.ah == 0 {
        SmallDCs(sc, c.dc, mcus[0], 0);
        NoBadAppend(c.log, DCFirstLog(sc, c.dc, mcus[0], 0));
      } else {
        DCRefineInRange(sc.al, mcus[0], 0);
        NoBadAppend(c.log, DCRefineLog(sc.al, mcus[0], 0));
      }
      SmallAll(sc, CodeMcu(sc, c, mcus[0]), mcus[1..]);
    }
  }

  lemma SmallInterval(sc: PScan, mcus: seq<Mcu>)
    requires Shaped(sc, mcus) && sc.ss == 0 && forall m :: 0 <= m < |mcus| ==> SmallMcu(mcus[m])
    ensures NoBad(IntervalLog(sc, mcus))
  {
    hide CodeAll, SmallMcu, FlushTokens, Tag;
    var c := CodeAll(sc, Fresh(sc), mcus);
    SmallAll(sc, Fresh(sc), mcus);
    FlushInRange(c.eobrun, c.be);
    NoBadTag(sc.acNo, FlushTokens(c.eobrun, c.be));
    NoBadAppend(c.log, Tag(sc.acNo, FlushTokens(c.eobrun, c.be)));
  }

  /** DC values of at most ten bits are never out of range, in any DC scan. */
  lemma {:induction false} SmallDcScanInRange(sc: PScan, mcus: seq<Mcu>)
    requires Shaped(sc, mcus) && sc.ss == 0 && forall m :: 0 <= m < |mcus| ==> SmallMcu(mcus[m])
    ensures NoBad(WholeLog(sc, mcus))
    decreases |mcus|
  {
    hide IntervalLog, NoBad, SmallMcu;
    if LastInterval(sc, |mcus|) {
      SmallInterval(sc, mcus);
    } else {
      var k := sc.interval;
      SmallInterval(sc, mcus[..k]);
      SmallDcScanInRange(sc, mcus[k..]);
      NoBadAppend(IntervalLog(sc, mcus[..k]), WholeLog(sc, mcus[k..]));
    }
  }
}
