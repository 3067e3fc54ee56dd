/** The first scan of an AC band (section G.1.2.2 of T.81). */
module ProgFirst {
  import opened Arith
  import opened Bits
  import opened ZigzagOrder
  import opened DerivedTable
  import opened SeqTokens
  import opened ProgTokens

  /** The coefficients from k to se, after r zeros. */
  function FirstPart(z: Block, k: nat, se: nat, al: nat, r: nat): Part
    requires k <= se + 1 <= DCTSIZE2
    decreases |z| - k, r
  {
    if k > se then Part([], r, [])
    else if Magnitude(z[k], al) == 0 then FirstPart(z, k + 1, se, al, r + 1)
    else if r > 15 then
      var p := FirstPart(z, k, se, al, r - 16);
      p.(toks := [Sym(true, ZRL)] + p.toks)
    else
      var p := FirstPart(z, k + 1, se, al, 0);
      p.(toks := CoefPair(Approx(z[k], al), r) + p.toks)
  }

  /** Decoding from position k on. */
  function DecodeFirstAC(t: Table, k: nat, se: nat, got: Block, s: seq<bool>): Option<(Block, nat, seq<bool>)>
    requires se < DCTSIZE2
    decreases |got| - k
  {
    if k > se then Some((got, 0, s))
    else
      match t.read(s)
      case None => None
      case Some((rs, s1)) =>
        var n, r := rs % 16, rs / 16;
        if n == 0 then
          if r == 15 then
            if k + 16 <= se then DecodeFirstAC(t, k + 16, se, got, s1) else None
          else
            match Receive(r, s1)
            case None => None
            case Some((v, s2)) => Some((got, Pow2(r) + v - 1, s2))
        else if k + r > se then None
        else
          match Receive(n, s1)
          case None => None
          case Some((v, s2)) => DecodeFirstAC(t, k + r + 1, se, got[k + r := Extend(v, n)], s2)
  }

  /** A block of a first scan: inside a run it keeps its zeros. */
  function FirstDecoder(t: Table, ss: nat, se: nat): BlockDecoder
    requires se < DCTSIZE2
  {
    (h: Block, e: nat, s: seq<bool>) =>
      if e > 0 then Some((h, e - 1, s)) else DecodeFirstAC(t, ss, se, h, s)
  }

  /** h with the band ss..se replaced by the approximation of z. */
  function Band(h: Block, z: Block, ss: nat, se: nat, al: nat): Block
  {
    seq(DCTSIZE2, i requires 0 <= i < DCTSIZE2 => if ss <= i <= se then Approx(z[i], al) else h[i])
  }

  lemma StepFirstZrl(t: Table, k: nat, se: nat, got: Block, s: seq<bool>, s1: seq<bool>)
    requires k + 16 <= se < DCTSIZE2 && t.read(s) == Some((ZRL, s1))
    ensures DecodeFirstAC(t, k, se, got, s) == DecodeFirstAC(t, k + 16, se, got, s1)
  {
  }

  lemma StepFirstCoef(t: Table, k: nat, se: nat, q: nat, n: nat, v: nat, got: Block, s: seq<bool>, s1: seq<bool>,
                      s2: seq<bool>)
    requires q <= 15 && k + q <= se < DCTSIZE2 && 1 <= n <= 15
    requires t.read(s) == Some((q * 16 + n, s1)) && Receive(n, s1) == Some((v, s2))
    ensures DecodeFirstAC(t, k, se, got, s) == DecodeFirstAC(t, k + q + 1, se, got[k + q := Extend(v, n)], s2)
  {
    assert (q * 16 + n) % 16 == n && (q * 16 + n) / 16 == q;
  }

  lemma StepFirstEob(t: Table, k: nat, se: nat, r: nat, v: nat, got: Block, s: seq<bool>, s1: seq<bool>, s2: seq<bool>)
    requires r < 15 && k <= se < DCTSIZE2
    requires t.read(s) == Some((r * 16, s1)) && Receive(r, s1) == Some((v, s2))
    ensures DecodeFirstAC(t, k, se, got, s) == Some((got, Pow2(r) + v - 1, s2))
  {
    assert (r * 16) % 16 == 0 && (r * 16) / 16 == r;
  }

  /** Where the decoder stands when the encoder is at k after r zeros. */
  ghost predicate FirstAt(h: Block, z: Block, ss: nat, k: nat, se: nat, al: nat, r: nat, got: Block)
  {
    && ss + r <= k <= se + 1 <= DCTSIZE2
    && (forall i :: 0 <= i < DCTSIZE2 ==> got[i] == if ss <= i < k - r then Approx(z[i], al) else h[i])
    && (forall i :: k - r <= i < k ==> Magnitude(z[i], al) == 0)
    && (forall i :: ss <= i <= se ==> h[i] == 0)
  }

  /** What ends the block's part of the stream: nothing, or a run of e bands. */
  ghost predicate Ends(p: Part, e: nat, ac: Codes, rest: seq<bool>, tail: seq<bool>)
  {
    if Trailing(p) then
      1 <= e <= MAX_EOBRUN && AllSendable(EobTokens(e), ac, ac) && tail == RunBits(e, p.bits, ac) + rest
    else e == 1 && tail == rest
  }

  lemma ZeroApprox(c: int, al: nat)
    ensures Magnitude(c, al) == 0 <==> Approx(c, al) == 0
    ensures Abs(Approx(c, al)) == Magnitude(c, al)
  {
  }

  lemma FirstZrlCase(t: Table, z: Block, k: nat, se: nat, al: nat, r: nat, got: Block, tail: seq<bool>)
    requires TableOk(t) && r <= k <= se < DCTSIZE2 && Magnitude(z[k], al) != 0 && r > 15
    requires AllSendable(FirstPart(z, k, se, al, r).toks, t.codes, t.codes)
    ensures AllSendable(FirstPart(z, k, se, al, r - 16).toks, t.codes, t.codes)
    ensures DecodeFirstAC(t, k - r, se, got, Render(FirstPart(z, k, se, al, r).toks, t.codes, t.codes) + tail) ==
      DecodeFirstAC(t, k - r + 16, se, got, Render(FirstPart(z, k, se, al, r - 16).toks, t.codes, t.codes) + tail)
  {
    hide DecodeFirstAC;
    var b := FirstPart(z, k, se, al, r - 16).toks;
    RenderAppend([Sym(true, ZRL)], b, t.codes, t.codes, tail);
    RenderOne(Sym(true, ZRL), t.codes, t.codes);
    var s' := Render(b, t.codes, t.codes) + tail;
    SymDecodes(t, ZRL, s');
    StepFirstZrl(t, k - r, se, got, Render(FirstPart(z, k, se, al, r).toks, t.codes, t.codes) + tail, s');
  }

  lemma FirstCoefReads(t: Table, v: int, r: nat, rest: seq<bool>, k: nat, se: nat, got: Block)
    requires TableOk(t) && v != 0 && r <= 15 && AllSendable(CoefPair(v, r), t.codes, t.codes)
    requires k + r <= se < DCTSIZE2
    ensures DecodeFirstAC(t, k, se, got, Render(CoefPair(v, r), t.codes, t.codes) + rest) ==
      DecodeFirstAC(t, k + r + 1, se, got[k + r := v], rest)
  {
    hide DecodeFirstAC;
    var n := NBits(Abs(v));
    var w := ValueWord(v);
    assert n <= MAX_COEF_BITS;
    RenderTwo(Sym(true, r * 16 + n), Raw(w, n), t.codes, t.codes, rest);
    SymDecodes(t, r * 16 + n, ToBits(w, n) + rest);
    ReceiveToBits(w, n, rest);
    ExtendValue(v, n);
    StepFirstCoef(t, k, se, r, n, w % Pow2(n), got, Render(CoefPair(v, r), t.codes, t.codes) + rest,
                  ToBits(w, n) + rest, rest);
  }

  lemma FirstCoefCase(t: Table, z: Block, k: nat, se: nat, al: nat, r: nat, got: Block, tail: seq<bool>)
    requires TableOk(t) && r <= k <= se < DCTSIZE2 && Magnitude(z[k], al) != 0 && r <= 15
    requires AllSendable(FirstPart(z, k, se, al, r).toks, t.codes, t.codes)
    ensures AllSendable(FirstPart(z, k + 1, se, al, 0).toks, t.codes, t.codes)
    ensures DecodeFirstAC(t, k - r, se, got, Render(FirstPart(z, k, se, al, r).toks, t.codes, t.codes) + tail) ==
      DecodeFirstAC(t, k + 1, se, got[k := Approx(z[k], al)],
        Render(FirstPart(z, k + 1, se, al, 0).toks, t.codes, t.codes) + tail)
  {
    hide DecodeFirstAC, CoefPair, Approx;
    var b := FirstPart(z, k + 1, se, al, 0).toks;
    var v := Approx(z[k], al);
    ZeroApprox(z[k], al);
    RenderAppend(CoefPair(v, r), b, t.codes, t.codes, tail);
    FirstCoefReads(t, v, r, Render(b, t.codes, t.codes) + tail, k - r, se, got);
  }

  /** At the end of the band everything is in place. */
  lemma BandDone(h: Block, z: Block, ss: nat, se: nat, al: nat, r: nat, got: Block)
    requires FirstAt(h, z, ss, se + 1, se, al, r, got)
    ensures got == Band(h, z, ss, se, al)
  {
    forall i | 0 <= i < DCTSIZE2
      ensures got[i] == Band(h, z, ss, se, al)[i]
    {
      if se + 1 - r <= i <= se {
        ZeroApprox(z[i], al);
      }
    }
  }

  lemma FirstEobReads(t: Table, k: nat, se: nat, got: Block, e: nat, rest: seq<bool>)
    requires TableOk(t) && k <= se < DCTSIZE2 && 1 <= e <= MAX_EOBRUN && AllSendable(EobTokens(e), t.codes, t.codes)
    ensures DecodeFirstAC(t, k, se, got, Render(EobTokens(e), t.codes, t.codes) + rest) == Some((got, e - 1, rest))
  {
    hide DecodeFirstAC, EobTokens, Render, AllSendable, TableOk;
    var s1 := EobReads(t, e, rest);
    StepFirstEob(t, k, se, Log2(e), e - Pow2(Log2(e)), got, Render(EobTokens(e), t.codes, t.codes) + rest, s1, rest);
  }

  lemma FirstEndCase(t: Table, h: Block, z: Block, ss: nat, se: nat, al: nat, r: nat, got: Block, e: nat,
                     rest: seq<bool>, tail: seq<bool>)
    requires TableOk(t) && FirstAt(h, z, ss, se + 1, se, al, r, got)
    requires Ends(Part([], r, []), e, t.codes, rest, tail)
    ensures DecodeFirstAC(t, se + 1 - r, se, got, tail) == Some((Band(h, z, ss, se, al), e - 1, rest))
  {
    hide EobTokens, Band, TableOk, Render, AllSendable, Approx;
    BandDone(h, z, ss, se, al, r, got);
    if r > 0 {
      hide DecodeFirstAC;
      var x := Render(EobTokens(e), t.codes, t.codes);
      assert (x + []) + rest == x + rest;
      FirstEobReads(t, se + 1 - r, se, got, e, rest);
    }
  }

  lemma {:induction false} FirstRoundTrip(t: Table, h: Block, z: Block, ss: nat, k: nat, se: nat, al: nat, r: nat,
                                          got: Block,
                                          e: nat, rest: seq<bool>, tail: seq<bool>)
    requires TableOk(t) && FirstAt(h, z, ss, k, se, al, r, got)
    requires AllSendable(FirstPart(z, k, se, al, r).toks, t.codes, t.codes)
    requires Ends(FirstPart(z, k, se, al, r), e, t.codes, rest, tail)
    ensures DecodeFirstAC(t, k - r, se, got, Render(FirstPart(z, k, se, al, r).toks, t.codes, t.codes) + tail) ==
      Some((Band(h, z, ss, se, al), e - 1, rest))
    decreases DCTSIZE2 - k, r
  {
    hide DecodeFirstAC, TableOk, Approx, Band, RunBits, EobTokens, Render, AllSendable, CoefPair;
    if k > se {
      NoTokens(t.codes, tail);
      FirstEndCase(t, h, z, ss, se, al, r, got, e, rest, tail);
    } else if Magnitude(z[k], al) == 0 {
      FirstRoundTrip(t, h, z, ss, k + 1, se, al, r + 1, got, e, rest, tail);
    } else if r > 15 {
      FirstZrlCase(t, z, k, se, al, r, got, tail);
      ZerosInHistory(h, z, ss, k, se, al, r, got);
      FirstRoundTrip(t, h, z, ss, k, se, al, r - 16, got, e, rest, tail);
    } else {
      FirstCoefCase(t, z, k, se, al, r, got, tail);
      ZerosInHistory(h, z, ss, k, se, al, r, got);
      FirstRoundTrip(t, h, z, ss, k + 1, se, al, 0, got[k := Approx(z[k], al)], e, rest, tail);
    }
  }

  /** The zeros the decoder skips are what the history holds. */
  lemma ZerosInHistory(h: Block, z: Block, ss: nat, k: nat, se: nat, al: nat, r: nat, got: Block)
    requires FirstAt(h, z, ss, k, se, al, r, got) && k <= se
    ensures r > 15 ==> FirstAt(h, z, ss, k, se, al, r - 16, got)
    ensures FirstAt(h, z, ss, k + 1, se, al, 0, got[k := Approx(z[k], al)])
  {
    forall i | k - r <= i < k
      ensures Approx(z[i], al) == 0
    {
      ZeroApprox(z[i], al);
    }
  }

  lemma {:induction false} FirstPartFacts(z: Block, k: nat, se: nat, al: nat, r: nat)
    requires k <= se + 1 <= DCTSIZE2
    ensures FirstPart(z, k, se, al, r).bits == []
    ensures FirstPart(z, k, se, al, r).toks == [] ==>
      FirstPart(z, k, se, al, r).zeros == r + se + 1 - k && forall i :: k <= i <= se ==> Magnitude(z[i], al) == 0
    decreases DCTSIZE2 - k, r
  {
    if k <= se {
      if Magnitude(z[k], al) == 0 {
        FirstPartFacts(z, k + 1, se, al, r + 1);
      } else if r > 15 {
        FirstPartFacts(z, k, se, al, r - 16);
      } else {
        FirstPartFacts(z, k + 1, se, al, 0);
      }
    }
  }

  /** A first scan's decoder reads every block as it was sent. */
  lemma FirstReads(t: Table, h: Block, z: Block, ss: nat, se: nat, al: nat)
    requires TableOk(t) && 1 <= ss <= se < DCTSIZE2 && forall i :: ss <= i <= se ==> h[i] == 0
    ensures Reads(FirstDecoder(t, ss, se), h, Band(h, z, ss, se, al), FirstPart(z, ss, se, al, 0), t.codes)
  {
    hide DecodeFirstAC, TableOk, FirstPart, RunBits, EobTokens, Render, AllSendable, Band;
    var p := FirstPart(z, ss, se, al, 0);
    var out := Band(h, z, ss, se, al);
    var dec := FirstDecoder(t, ss, se);
    FirstPartFacts(z, ss, se, al, 0);
    assert FirstAt(h, z, ss, ss, se, al, 0, h);
    forall rest: seq<bool> | !Trailing(p) && AllSendable(p.toks, t.codes, t.codes)
      ensures dec(h, 0, Render(p.toks, t.codes, t.codes) + rest) == Some((out, 0, rest))
    {
      FirstRoundTrip(t, h, z, ss, ss, se, al, 0, h, 1, rest, rest);
    }
    forall e: nat, rest: seq<bool> |
      Trailing(p) && 1 <= e <= MAX_EOBRUN && AllSendable(p.toks, t.codes, t.codes) &&
        AllSendable(EobTokens(e), t.codes, t.codes)
      ensures dec(h, 0, Render(p.toks, t.codes, t.codes) + (RunBits(e, p.bits, t.codes) + rest)) ==
        Some((out, e - 1, rest))
    {
      FirstRoundTrip(t, h, z, ss, ss, se, al, 0, h, e, rest, RunBits(e, p.bits, t.codes) + rest);
    }
    if p.toks == [] {
      EmptyBand(h, z, ss, se, al);
      forall e: nat, rest: seq<bool> | 1 <= e
        ensures dec(h, e, p.bits + rest) == Some((out, e - 1, rest))
      {
        assert p.bits + rest == rest;
      }
    }
  }

  lemma EmptyBand(h: Block, z: Block, ss: nat, se: nat, al: nat)
    requires forall i :: ss <= i <= se < DCTSIZE2 ==> h[i] == 0 && Magnitude(z[i], al) == 0
    requires se < DCTSIZE2
    ensures Band(h, z, ss, se, al) == h
  {
    forall i | 0 <= i < DCTSIZE2
      ensures Band(h, z, ss, se, al)[i] == h[i]
    {
      ZeroApprox(z[i], al);
    }
  }
}
