/** jpeg_simple_progression (jcparam.c): the recommended progressive script. */
module SimpleScript {
  import opened ZigzagOrder
  import opened ScanScript

  // ----- The script as a value -----

  /** One scan of one component. */
  function One(ci: int, ss: int, se: int, ah: int, al: int): seq<ScanInfo>
  {
    [ScanInfo([ci], ss, se, ah, al)]
  }

  /** The same scan of every component. */
  function Each(ncomps: nat, ss: int, se: int, ah: int, al: int): (r: seq<ScanInfo>)
    ensures |r| == ncomps
  {
    if ncomps == 0 then [] else Each(ncomps - 1, ss, se, ah, al) + One(ncomps - 1, ss, se, ah, al)
  }

  /** An interleaved DC scan if the components fit one, else one scan each. */
  function DC(ncomps: nat, ah: int, al: int): (r: seq<ScanInfo>)
    ensures |r| == if ncomps <= MAX_COMPS_IN_SCAN then 1 else ncomps
  {
    if ncomps <= MAX_COMPS_IN_SCAN then [ScanInfo(seq(ncomps, i => i), 0, 0, ah, al)] else Each(ncomps, 0, 0, ah, al)
  }

  function General(ncomps: nat): seq<ScanInfo>
  {
    DC(ncomps, 0, 1) + (Each(ncomps, 1, 5, 0, 2) + (Each(ncomps, 6, 63, 0, 2) + (Each(ncomps, 1, 63, 2, 1) +
    (DC(ncomps, 1, 0) + Each(ncomps, 1, 63, 1, 0)))))
  }

  function YCbCr(): seq<ScanInfo>
  {
    DC(3, 0, 1) + (One(0, 1, 5, 0, 2) + (One(2, 1, 63, 0, 1) + (One(1, 1, 63, 0, 1) + (One(0, 6, 63, 0, 2) +
    (One(0, 1, 63, 2, 1) + (DC(3, 1, 0) + (One(2, 1, 63, 1, 0) + (One(1, 1, 63, 1, 0) + One(0, 1, 63, 1, 0)))))))))
  }

  function Simple(ncomps: nat, ycc: bool): seq<ScanInfo>
  {
    if ncomps == 3 && ycc then YCbCr() else General(ncomps)
  }

  // ----- Filling it in -----

  method FillAScan(space: array<ScanInfo>, scanptr: nat, ci: int, ss: int, se: int, ah: int, al: int)
    returns (next: nat)
    requires scanptr < space.Length
    modifies space
    ensures next == scanptr + 1 && space[..next] == old(space[..scanptr]) + One(ci, ss, se, ah, al)
  {
    space[scanptr] := ScanInfo([ci], ss, se, ah, al);
    next := scanptr + 1;
  }

  method FillScans(space: array<ScanInfo>, scanptr: nat, ncomps: nat, ss: int, se: int, ah: int, al: int)
    returns (next: nat)
    requires scanptr + ncomps <= space.Length
    modifies space
    ensures next == scanptr + ncomps && space[..next] == old(space[..scanptr]) + Each(ncomps, ss, se, ah, al)
  {
    next := scanptr;
    for ci := 0 to ncomps
      invariant next == scanptr + ci && space[..next] == old(space[..scanptr]) + Each(ci, ss, se, ah, al)
    {
      space[next] := ScanInfo([ci], ss, se, ah, al);
      next := next + 1;
    }
  }

  method FillDcScans(space: array<ScanInfo>, scanptr: nat, ncomps: nat, ah: int, al: int) returns (next: nat)
    requires scanptr + |DC(ncomps, ah, al)| <= space.Length
    modifies space
    ensures next == scanptr + |DC(ncomps, ah, al)| && space[..next] == old(space[..scanptr]) + DC(ncomps, ah, al)
  {
    if ncomps <= MAX_COMPS_IN_SCAN {
      var comps := [];
      for ci := 0 to ncomps
        invariant comps == seq(ci, i => i)
        invariant space[..] == old(space[..])
      {
        comps := comps + [ci];
      }
      space[scanptr] := ScanInfo(comps, 0, 0, ah, al);
      next := scanptr + 1;
    } else {
      next := FillScans(space, scanptr, ncomps, 0, 0, ah, al);
    }
  }

  /** The scans counted in advance are exactly the scans filled in. */
  method SimpleProgression(ncomps: nat, ycc: bool) returns (space: array<ScanInfo>, nscans: nat)
    ensures nscans <= space.Length && fresh(space)
    ensures nscans ==
      if ncomps == 3 && ycc then 10 else if ncomps > 4 then 6 * ncomps else 2 + 4 * ncomps
    ensures space[..nscans] == Simple(ncomps, ycc)
  {
    if ncomps == 3 && ycc {
      nscans := 10;
    } else if ncomps > MAX_COMPS_IN_SCAN {
      nscans := 6 * ncomps;
    } else {
      nscans := 2 + 4 * ncomps;
    }
    space := new ScanInfo[if nscans > 10 then nscans else 10](_ => ScanInfo([], 0, 0, 0, 0));
    var scanptr := 0;
    if ncomps == 3 && ycc {
      scanptr := FillYCbCr(space);
    } else {
      scanptr := FillGeneral(space, ncomps);
    }
  }

  method FillYCbCr(space: array<ScanInfo>) returns (scanptr: nat)
    requires space.Length >= 10
    modifies space
    ensures scanptr == 10 && space[..10] == YCbCr()
  {
    hide DC, One;
    assert |DC(3, 0, 1)| == 1 == |DC(3, 1, 0)|;
    scanptr := FillDcScans(space, 0, 3, 0, 1);
    scanptr := FillAScan(space, scanptr, 0, 1, 5, 0, 2);
    scanptr := FillAScan(space, scanptr, 2, 1, 63, 0, 1);
    scanptr := FillAScan(space, scanptr, 1, 1, 63, 0, 1);
    scanptr := FillAScan(space, scanptr, 0, 6, 63, 0, 2);
    scanptr := FillAScan(space, scanptr, 0, 1, 63, 2, 1);
    scanptr := FillDcScans(space, scanptr, 3, 1, 0);
    scanptr := FillAScan(space, scanptr, 2, 1, 63, 1, 0);
    scanptr := FillAScan(space, scanptr, 1, 1, 63, 1, 0);
    scanptr := FillAScan(space, scanptr, 0, 1, 63, 1, 0);
  }

  lemma DCSize(ncomps: nat)
    ensures |DC(ncomps, 0, 1)| == |DC(ncomps, 1, 0)| == if ncomps <= MAX_COMPS_IN_SCAN then 1 else ncomps
  {
  }

  lemma Regroup(a: seq<ScanInfo>, b: seq<ScanInfo>, c: seq<ScanInfo>, d: seq<ScanInfo>, e: seq<ScanInfo>,
                f: seq<ScanInfo>)
    ensures ((((([] + a) + b) + c) + d) + e) + f == a + (b + (c + (d + (e + f))))
  {
  }

  method FillGeneral(space: array<ScanInfo>, ncomps: nat) returns (scanptr: nat)
    requires space.Length >= if ncomps > MAX_COMPS_IN_SCAN then 6 * ncomps else 2 + 4 * ncomps
    modifies space
    ensures scanptr == (if ncomps > MAX_COMPS_IN_SCAN then 6 * ncomps else 2 + 4 * ncomps)
    ensures space[..scanptr] == General(ncomps)
  {
    hide Each, DC;
    DCSize(ncomps);
    Regroup(DC(ncomps, 0, 1), Each(ncomps, 1, 5, 0, 2), Each(ncomps, 6, 63, 0, 2),
      Each(ncomps, 1, 63, 2, 1), DC(ncomps, 1, 0),
            Each(ncomps, 1, 63, 1, 0));
    scanptr := FillDcScans(space, 0, ncomps, 0, 1);
    scanptr := FillScans(space, scanptr, ncomps, 1, 5, 0, 2);
    scanptr := FillScans(space, scanptr, ncomps, 6, 63, 0, 2);
    scanptr := FillScans(space, scanptr, ncomps, 1, 63, 2, 1);
    scanptr := FillDcScans(space, scanptr, ncomps, 1, 0);
    scanptr := FillScans(space, scanptr, ncomps, 1, 63, 1, 0);
  }

  // ----- What it does to every coefficient -----

  function At(covered: bool, ah: int, al: int): seq<(int, int)>
  {
    if covered then [(ah, al)] else []
  }

  lemma OneChain(ci: int, ss: int, se: int, ah: int, al: int, c: int, k: int)
    ensures Chain(One(ci, ss, se, ah, al), c, k) == At(c == ci && ss <= k <= se, ah, al)
  {
    assert One(ci, ss, se, ah, al)[..0] == [];
    assert Chain([], c, k) == [];
  }

  lemma {:induction false} EachChain(ncomps: nat, ss: int, se: int, ah: int, al: int, c: int, k: int)
    ensures Chain(Each(ncomps, ss, se, ah, al), c, k) == At(0 <= c < ncomps && ss <= k <= se, ah, al)
  {
    NoChains();
    hide Chain, One;
    if ncomps > 0 {
      EachChain(ncomps - 1, ss, se, ah, al, c, k);
      OneChain(ncomps - 1, ss, se, ah, al, c, k);
      ChainAppend(Each(ncomps - 1, ss, se, ah, al), One(ncomps - 1, ss, se, ah, al), c, k);
    }
  }

  lemma DCChain(ncomps: nat, ah: int, al: int, c: int, k: int)
    ensures Chain(DC(ncomps, ah, al), c, k) == At(0 <= c < ncomps && k == 0, ah, al)
  {
    if ncomps <= MAX_COMPS_IN_SCAN {
      var s := ScanInfo(seq(ncomps, i => i), 0, 0, ah, al);
      assert 0 <= c < ncomps ==> s.comps[c] == c;
      assert [s][..0] == [];
      assert Chain([], c, k) == [];
    } else {
      EachChain(ncomps, 0, 0, ah, al, c, k);
    }
  }

  /** The steps every coefficient goes through, by its position. */
  lemma GeneralChain(n: nat, c: int, k: int)
    ensures Chain(General(n), c, k) ==
      if 0 <= c < n && k == 0 then [(0, 1), (1, 0)]
      else if 0 <= c < n && 1 <= k <= 63 then [(0, 2), (2, 1), (1, 0)]
      else []
  {
    hide Chain, Each, DC;
    var p5 := Each(n, 1, 63, 1, 0);
    var p4 := DC(n, 1, 0) + p5;
    var p3 := Each(n, 1, 63, 2, 1) + p4;
    var p2 := Each(n, 6, 63, 0, 2) + p3;
    var p1 := Each(n, 1, 5, 0, 2) + p2;
    ChainAppend(DC(n, 0, 1), p1, c, k);
    ChainAppend(Each(n, 1, 5, 0, 2), p2, c, k);
    ChainAppend(Each(n, 6, 63, 0, 2), p3, c, k);
    ChainAppend(Each(n, 1, 63, 2, 1), p4, c, k);
    ChainAppend(DC(n, 1, 0), p5, c, k);
    DCChain(n, 0, 1, c, k);
    DCChain(n, 1, 0, c, k);
    EachChain(n, 1, 5, 0, 2, c, k);
    EachChain(n, 6, 63, 0, 2, c, k);
    EachChain(n, 1, 63, 2, 1, c, k);
    EachChain(n, 1, 63, 1, 0, c, k);
  }

  lemma YCbCrChain(c: int, k: int)
    ensures Chain(YCbCr(), c, k) ==
      if 0 <= c < 3 && k == 0 then [(0, 1), (1, 0)]
      else if c == 0 && 1 <= k <= 63 then [(0, 2), (2, 1), (1, 0)]
      else if 0 < c < 3 && 1 <= k <= 63 then [(0, 1), (1, 0)]
      else []
  {
    hide Chain, One, DC;
    var p8 := One(1, 1, 63, 1, 0) + One(0, 1, 63, 1, 0);
    var p7 := One(2, 1, 63, 1, 0) + p8;
    var p6 := DC(3, 1, 0) + p7;
    var p5 := One(0, 1, 63, 2, 1) + p6;
    var p4 := One(0, 6, 63, 0, 2) + p5;
    var p3 := One(1, 1, 63, 0, 1) + p4;
    var p2 := One(2, 1, 63, 0, 1) + p3;
    var p1 := One(0, 1, 5, 0, 2) + p2;
    ChainAppend(DC(3, 0, 1), p1, c, k);
    ChainAppend(One(0, 1, 5, 0, 2), p2, c, k);
    ChainAppend(One(2, 1, 63, 0, 1), p3, c, k);
    ChainAppend(One(1, 1, 63, 0, 1), p4, c, k);
    ChainAppend(One(0, 6, 63, 0, 2), p5, c, k);
    ChainAppend(One(0, 1, 63, 2, 1), p6, c, k);
    ChainAppend(DC(3, 1, 0), p7, c, k);
    ChainAppend(One(2, 1, 63, 1, 0), p8, c, k);
    ChainAppend(One(1, 1, 63, 1, 0), One(0, 1, 63, 1, 0), c, k);
    DCChain(3, 0, 1, c, k);
    DCChain(3, 1, 0, c, k);
    OneChain(0, 1, 5, 0, 2, c, k);
    OneChain(2, 1, 63, 0, 1, c, k);
    OneChain(1, 1, 63, 0, 1, c, k);
    OneChain(0, 6, 63, 0, 2, c, k);
    OneChain(0, 1, 63, 2, 1, c, k);
    OneChain(2, 1, 63, 1, 0, c, k);
    OneChain(1, 1, 63, 1, 0, c, k);
    OneChain(0, 1, 63, 1, 0, c, k);
  }

  /** Entries with parameters in range, AC entries for components below n. */
  ghost predicate EntriesOk(s: seq<ScanInfo>, n: nat)
  {
    forall i :: 0 <= i < |s| ==> CompsOk(s[i], n) && BandOk(s[i])
  }

  lemma {:induction false} EachOk(k: nat, n: nat, ss: int, se: int, ah: int, al: int)
    requires k <= n && 0 <= ss <= se < DCTSIZE2 && 0 <= ah <= 2 && 0 <= al <= 2 && (ss == 0 ==> se == 0)
    ensures EntriesOk(Each(k, ss, se, ah, al), n)
  {
    if k > 0 {
      EachOk(k - 1, n, ss, se, ah, al);
    }
  }

  lemma DCOk(n: nat, ah: int, al: int)
    requires n > 0 && 0 <= ah <= 2 && 0 <= al <= 2
    ensures EntriesOk(DC(n, ah, al), n)
  {
    if n > MAX_COMPS_IN_SCAN {
      EachOk(n, n, 0, 0, ah, al);
    }
  }

  /** Every AC scan comes after the first DC scan. */
  lemma DCFirst(n: nat, ah: int, al: int, rest: seq<ScanInfo>, i: nat)
    requires EntriesOk(DC(n, ah, al) + rest, n) && i < |DC(n, ah, al) + rest|
    requires forall j :: 0 <= j < |DC(n, ah, al)| ==> DC(n, ah, al)[j].ss == 0
    ensures AfterDC((DC(n, ah, al) + rest)[..i], (DC(n, ah, al) + rest)[i])
  {
    hide DC, BandOk;
    var d := DC(n, ah, al);
    var script := d + rest;
    if script[i].ss != 0 {
      assert i >= |d|;
      assert script[..i] == d + rest[..i - |d|];
      forall c | c in script[i].comps
        ensures Chain(script[..i], c, 0) != []
      {
        ChainAppend(d, rest[..i - |d|], c, 0);
        DCChain(n, ah, al, c, 0);
        assert CompsOk(script[i], n);
      }
    }
  }

  lemma {:induction false} EachBand(n: nat, ss: int, se: int, ah: int, al: int)
    ensures forall j :: 0 <= j < n ==> Each(n, ss, se, ah, al)[j].ss == ss
  {
    if n > 0 {
      EachBand(n - 1, ss, se, ah, al);
    }
  }

  lemma Assemble(n: nat, script: seq<ScanInfo>, rest: seq<ScanInfo>)
    requires n > 0 && script == DC(n, 0, 1) + rest && EntriesOk(script, n) && AllProper(script)
    ensures ScriptOk(script, n)
  {
    hide CompsOk, BandOk, AllProper, DC, Each, AfterDC;
    DCAlone(n);
    forall i | 0 <= i < |script|
      ensures AfterDC(script[..i], script[i])
    {
      DCFirst(n, 0, 1, rest, i);
    }
  }

  lemma DCAlone(n: nat)
    ensures forall j :: 0 <= j < |DC(n, 0, 1)| ==> DC(n, 0, 1)[j].ss == 0
  {
    EachBand(n, 0, 0, 0, 1);
  }

  lemma GeneralOk(n: nat)
    requires n > 0
    ensures ScriptOk(General(n), n)
  {
    hide CompsOk, BandOk, DC, Each;
    var rest := Each(n, 1, 5, 0, 2) +
      (Each(n, 6, 63, 0, 2) + (Each(n, 1, 63, 2, 1) + (DC(n, 1, 0) + Each(n, 1, 63, 1, 0))));
    DCOk(n, 0, 1);
    DCOk(n, 1, 0);
    EachOk(n, n, 1, 5, 0, 2);
    EachOk(n, n, 6, 63, 0, 2);
    EachOk(n, n, 1, 63, 2, 1);
    EachOk(n, n, 1, 63, 1, 0);
    forall c, k
      ensures ProperChain(Chain(General(n), c, k))
    {
      GeneralChain(n, c, k);
    }
    Assemble(n, General(n), rest);
  }

  lemma OneOk(ci: int, ss: int, se: int, ah: int, al: int)
    requires 0 <= ci < 3 && 1 <= ss <= se < DCTSIZE2 && 0 <= ah <= 2 && 0 <= al <= 2
    ensures EntriesOk(One(ci, ss, se, ah, al), 3)
  {
  }

  lemma BothOk(a: seq<ScanInfo>, b: seq<ScanInfo>, n: nat) returns (c: seq<ScanInfo>)
    requires EntriesOk(a, n) && EntriesOk(b, n)
    ensures c == a + b && EntriesOk(c, n)
  {
    hide CompsOk, BandOk;
    c := a + b;
  }

  lemma YCbCrProper(c: int, k: int)
    ensures ProperChain(if 0 <= c < 3 && k == 0 then [(0, 1), (1, 0)]
      else if c == 0 && 1 <= k <= 63 then [(0, 2), (2, 1), (1, 0)]
      else if 0 < c < 3 && 1 <= k <= 63 then [(0, 1), (1, 0)]
      else [])
  {
  }

  lemma YCbCrOk()
    ensures ScriptOk(YCbCr(), 3)
  {
    hide DC, One, EntriesOk, Chain, ProperChain;
    var rest := One(0, 1, 5, 0, 2) +
      (One(2, 1, 63, 0, 1) + (One(1, 1, 63, 0, 1) + (One(0, 6, 63, 0, 2) + (One(0, 1, 63, 2, 1) +
      (DC(3, 1, 0) + (One(2, 1, 63, 1, 0) + (One(1, 1, 63, 1, 0) + One(0, 1, 63, 1, 0))))))));
    DCOk(3, 0, 1);
    DCOk(3, 1, 0);
    var a := One(0, 1, 63, 1, 0);
    OneOk(0, 1, 5, 0, 2);
    OneOk(2, 1, 63, 0, 1);
    OneOk(1, 1, 63, 0, 1);
    OneOk(0, 6, 63, 0, 2);
    OneOk(0, 1, 63, 2, 1);
    OneOk(2, 1, 63, 1, 0);
    OneOk(1, 1, 63, 1, 0);
    OneOk(0, 1, 63, 1, 0);
    a := BothOk(One(1, 1, 63, 1, 0), a, 3);
    a := BothOk(One(2, 1, 63, 1, 0), a, 3);
    a := BothOk(DC(3, 1, 0), a, 3);
    a := BothOk(One(0, 1, 63, 2, 1), a, 3);
    a := BothOk(One(0, 6, 63, 0, 2), a, 3);
    a := BothOk(One(1, 1, 63, 0, 1), a, 3);
    a := BothOk(One(2, 1, 63, 0, 1), a, 3);
    a := BothOk(One(0, 1, 5, 0, 2), a, 3);
    a := BothOk(DC(3, 0, 1), a, 3);
    forall c, k
      ensures ProperChain(Chain(YCbCr(), c, k))
    {
      YCbCrChain(c, k);
      YCbCrProper(c, k);
    }
    Assemble(3, YCbCr(), rest);
  }

  /** The recommended script is always accepted, and ends with every bit of all
      64 coefficients of every component sent. */
  lemma SimpleAccepted(ncomps: nat, ycc: bool)
    requires ncomps > 0
    ensures Acceptable(Simple(ncomps, ycc), ncomps) && ProgressiveScript(Simple(ncomps, ycc))
    ensures forall c, k :: 0 <= c < ncomps && 0 <= k < DCTSIZE2 ==> LastAl(Chain(Simple(ncomps, ycc), c, k)) == 0
  {
    var script := Simple(ncomps, ycc);
    DCAlone(ncomps);
    if ncomps == 3 && ycc {
      YCbCrOk();
    } else {
      GeneralOk(ncomps);
    }
    forall c, k
      ensures 0 <= c < ncomps && 0 <= k < DCTSIZE2 ==> Chain(script, c, k) != [] && LastAl(Chain(script, c, k)) == 0
    {
      GeneralChain(ncomps, c, k);
      YCbCrChain(c, k);
    }
  }
}
