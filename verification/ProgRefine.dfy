/** A refinement scan of an AC band (section G.1.2.3 of T.81). */
module ProgRefine {
  import opened Arith
  import opened Bits
  import opened ZigzagOrder
  import opened DerivedTable
  import opened SeqTokens
  import opened ProgTokens
  import opened ProgFirst

  function Odd(m: nat): bool
  {
    m % 2 == 1
  }

  /** The pre-pass: the last coefficient that becomes nonzero, or 0. */
  function LastNew(z: Block, k: nat, se: nat, al: nat): (eob: nat)
    requires 1 <= k <= se + 1 <= DCTSIZE2
    ensures forall i :: k <= i <= se && Magnitude(z[i], al) == 1 ==> i <= eob
    ensures eob <= se && (k <= eob ==> Magnitude(z[eob], al) == 1)
    decreases |z| - k
  {
    if k > se then 0
    else
      var later := LastNew(z, k + 1, se, al);
      if later > k then later else if Magnitude(z[k], al) == 1 then k else 0
  }

  /** The coefficients from k to se, after r zeros and with the correction bits
      br not sent yet. */
  function RefinePart(z: Block, k: nat, se: nat, al: nat, r: nat, br: seq<bool>, eob: nat): Part
    requires k <= se + 1 <= DCTSIZE2
    decreases |z| - k, r
  {
    if k > se then Part([], r, br)
    else
      var m := Magnitude(z[k], al);
      if m == 0 then RefinePart(z, k + 1, se, al, r + 1, br, eob)
      else if r > 15 && k <= eob then
        var p := RefinePart(z, k, se, al, r - 16, [], eob);
        p.(toks := [Sym(true, ZRL)] + (BitTokens(br) + p.toks))
      else if m > 1 then RefinePart(z, k + 1, se, al, r, br + [Odd(m)], eob)
      else
        var p := RefinePart(z, k + 1, se, al, 0, [], eob);
        p.(toks := NewPair(z[k], r) + (BitTokens(br) + p.toks))
  }

  /** A coefficient that becomes nonzero after r zeros: only its sign is new. */
  function NewPair(c: int, r: nat): seq<Token>
  {
    [Sym(true, r * 16 + 1), Raw(if c < 0 then 0 else 1, 1)]
  }

  // ----- Decoding -----

  /** A coefficient one bit more precise. */
  function Refined(c: int, b: bool): int
  {
    if c < 0 then 2 * c - Bit(b) else 2 * c + Bit(b)
  }

  /** From k on, passes r zeros, correcting the nonzero coefficients on the way,
      and stops at the next zero or behind the band. */
  function Correct(k: nat, se: nat, r: nat, got: Block, s: seq<bool>): Option<(nat, Block, seq<bool>)>
    requires se < DCTSIZE2
    decreases |got| - k
  {
    if k > se then Some((k, got, s))
    else if got[k] != 0 then
      if s == [] then None else Correct(k + 1, se, r, got[k := Refined(got[k], s[0])], s[1..])
    else if r == 0 then Some((k, got, s))
    else Correct(k + 1, se, r - 1, got, s)
  }

  /** What is left of the band when it ends in a run. */
  function CorrectRest(k: nat, se: nat, got: Block, s: seq<bool>): Option<(Block, seq<bool>)>
    requires se < DCTSIZE2
  {
    match Correct(k, se, DCTSIZE2, got, s)
    case None => None
    case Some((_, b, s')) => Some((b, s'))
  }

  function DecodeRefineAC(t: Table, k: nat, se: nat, got: Block, s: seq<bool>): Option<(Block, nat, seq<bool>)>
    requires se < DCTSIZE2
    decreases |got| - k
  {
    if k > se then Some((got, 0, s))
    else
      match t.read(s)
      case None => None
      case Some((rs, s1)) =>
        var n, r := rs % 16, rs / 16;
        if n == 0 && r < 15 then
          match Receive(r, s1)
          case None => None
          case Some((v, s2)) =>
            (match CorrectRest(k, se, got, s2)
             case None => None
             case Some((b, s3)) => Some((b, Pow2(r) + v - 1, s3)))
        else if n > 1 then None
        else
          match Receive(n, s1)
          case None => None
          case Some((v, s2)) =>
            match Correct(k, se, r, got, s2)
            case None => None
            case Some((k', b, s3)) =>
              if k' < k || k' > se then None
              else DecodeRefineAC(t, k' + 1, se, if n == 0 then b else b[k' := if v == 1 then 1 else -1], s3)
  }

  /** A block of a refinement scan: inside a run only correction bits. */
  function DecodeRefineBlock(t: Table, ss: nat, se: nat, h: Block, e: nat,
                             s: seq<bool>): Option<(Block, nat, seq<bool>)>
    requires se < DCTSIZE2
  {
    if e == 0 then DecodeRefineAC(t, ss, se, h, s)
    else
      match CorrectRest(ss, se, h, s)
      case None => None
      case Some((b, s')) => Some((b, e - 1, s'))
  }

  function RefineDecoder(t: Table, ss: nat, se: nat): BlockDecoder
    requires se < DCTSIZE2
  {
    (h: Block, e: nat, s: seq<bool>) => DecodeRefineBlock(t, ss, se, h, e, s)
  }

  // ----- Zeros and correction bits between two positions -----

  function Zeros(z: Block, p: nat, k: nat, al: nat): (n: nat)
    requires k <= DCTSIZE2
  {
    if k <= p then 0 else Zeros(z, p, k - 1, al) + if Magnitude(z[k - 1], al) == 0 then 1 else 0
  }

  function Corrections(z: Block, p: nat, k: nat, al: nat): (b: seq<bool>)
    requires k <= DCTSIZE2
  {
    if k <= p then []
    else Corrections(z, p, k - 1, al) + if Magnitude(z[k - 1], al) == 0 then [] else [Odd(Magnitude(z[k - 1], al))]
  }

  lemma {:induction false} EveryoneCounts(z: Block, p: nat, k: nat, al: nat)
    requires p <= k <= DCTSIZE2
    ensures Zeros(z, p, k, al) + |Corrections(z, p, k, al)| == k - p
  {
    if p < k {
      EveryoneCounts(z, p, k - 1, al);
    }
  }

  /** The history a refinement starts from: one bit less of each coefficient. */
  ghost predicate History(h: Block, z: Block, ss: nat, se: nat, al: nat)
  {
    && 1 <= ss <= se < DCTSIZE2
    && forall i :: ss <= i <= se ==> h[i] == Approx(z[i], al + 1)
  }

  lemma HalfMagnitude(c: int, al: nat)
    ensures Magnitude(c, al + 1) == Magnitude(c, al) / 2
    ensures Refined(Approx(c, al + 1), Odd(Magnitude(c, al))) == Approx(c, al) || Magnitude(c, al) == 1
    ensures Magnitude(c, al) <= 1 <==> Approx(c, al + 1) == 0
    ensures Magnitude(c, al) == 1 ==> Approx(c, al) == if c < 0 then -1 else 1
  {
    hide Shr;
    ShrHalf(Abs(c), al);
  }

  lemma SkipOne(h: Block, z: Block, ss: nat, se: nat, al: nat, k: nat, q: nat, rest: seq<bool>)
    requires History(h, z, ss, se, al) && ss <= k <= se && Magnitude(z[k], al) != 1
    requires Magnitude(z[k], al) == 0 ==> q > 0
    ensures
      var zero := Magnitude(z[k], al) == 0;
      Correct(k, se, q, Band(h, z, ss, k - 1, al), (if zero then [] else [Odd(Magnitude(z[k], al))]) + rest) ==
        Correct(k + 1, se, if zero then q - 1 else q, Band(h, z, ss, k, al), rest)
  {
    hide Approx, Magnitude;
    var got := Band(h, z, ss, k - 1, al);
    HalfMagnitude(z[k], al);
    ZeroApprox(z[k], al);
    if Magnitude(z[k], al) == 0 {
      assert [] + rest == rest;
      assert got == Band(h, z, ss, k, al);
    } else {
      var b := Odd(Magnitude(z[k], al));
      assert ([b] + rest)[1..] == rest;
      assert got[k := Refined(got[k], b)] == Band(h, z, ss, k, al);
    }
  }

  /** Passing the coefficients from p to k reads their correction bits. */
  lemma {:induction false} SkipReads(h: Block, z: Block, ss: nat, se: nat, al: nat, p: nat, k: nat, q: nat,
                                     rest: seq<bool>)
    requires History(h, z, ss, se, al) && ss <= p <= k <= se + 1
    requires forall i :: p <= i < k ==> Magnitude(z[i], al) != 1
    requires Zeros(z, p, k, al) <= q
    ensures Correct(p, se, q, Band(h, z, ss, p - 1, al), Corrections(z, p, k, al) + rest) ==
      Correct(k, se, q - Zeros(z, p, k, al), Band(h, z, ss, k - 1, al), rest)
    decreases k - p
  {
    assert ss >= 1;
    hide Correct, Band, History, Magnitude;
    if p < k {
      var c := if Magnitude(z[k - 1], al) == 0 then [] else [Odd(Magnitude(z[k - 1], al))];
      SkipReads(h, z, ss, se, al, p, k - 1, q, c + rest);
      SkipOne(h, z, ss, se, al, k - 1, q - Zeros(z, p, k - 1, al), rest);
      Associate(Corrections(z, p, k - 1, al), c, rest);
    } else {
      assert [] + rest == rest;
    }
  }

  /** Passing exactly the zeros before k stops at k. */
  lemma StopAt(h: Block, z: Block, ss: nat, se: nat, al: nat, p: nat, k: nat, rest: seq<bool>)
    requires History(h, z, ss, se, al) && ss <= p <= k <= se
    requires forall i :: p <= i < k ==> Magnitude(z[i], al) != 1
    requires Magnitude(z[k], al) <= 1
    ensures Correct(p, se, Zeros(z, p, k, al), Band(h, z, ss, p - 1, al), Corrections(z, p, k, al) + rest) ==
      Some((k, Band(h, z, ss, k - 1, al), rest))
  {
    hide Magnitude, Zeros, Corrections, Approx;
    HalfMagnitude(z[k], al);
    SkipReads(h, z, ss, se, al, p, k, Zeros(z, p, k, al), rest);
  }

  /** Trailing zeros add to the count and bring no correction bits. */
  lemma {:induction false} TailZeros(z: Block, p: nat, j: nat, k: nat, al: nat)
    requires p <= j <= k <= DCTSIZE2 && forall i :: j <= i < k ==> Magnitude(z[i], al) == 0
    ensures Zeros(z, p, k, al) == Zeros(z, p, j, al) + k - j
    ensures Corrections(z, p, k, al) == Corrections(z, p, j, al)
    decreases k - j
  {
    hide Magnitude;
    if j < k {
      TailZeros(z, p, j, k - 1, al);
    }
  }

  // ----- Round trip of one block -----

  /** The encoder is at k and its last symbol covered the positions before p: r
      zeros and the correction bits br are waiting. Before the last new
      coefficient only zeros follow the sixteenth one. */
  ghost predicate RefineAt(z: Block, p: nat, k: nat, se: nat, al: nat, r: nat, br: seq<bool>, eob: nat)
  {
    && p <= k <= se + 1 <= DCTSIZE2 && eob <= se
    && r == Zeros(z, p, k, al) && br == Corrections(z, p, k, al)
    && (forall i :: p <= i < k ==> Magnitude(z[i], al) != 1)
    && (forall i :: k <= i <= se && Magnitude(z[i], al) == 1 ==> i <= eob)
    && (k <= eob ==> forall i :: p <= i < k && k + 15 <= i + r ==> Magnitude(z[i], al) == 0)
  }

  lemma {:induction false} WithBits(head: seq<Token>, br: seq<bool>, b: seq<Token>, ac: Codes, tail: seq<bool>)
    requires AllSendable(head + (BitTokens(br) + b), ac, ac)
    ensures AllSendable(head, ac, ac) && AllSendable(b, ac, ac)
    ensures Render(head + (BitTokens(br) + b), ac, ac) + tail ==
      Render(head, ac, ac) + (br + (Render(b, ac, ac) + tail))
  {
    hide Render, AllSendable, BitTokens;
    RenderAppend(head, BitTokens(br) + b, ac, ac, tail);
    RenderAppend(BitTokens(br), b, ac, ac, tail);
    BitsRender(br, ac);
  }

  lemma StepZrl(t: Table, k: nat, se: nat, got: Block, s: seq<bool>, s1: seq<bool>, k': nat, b: Block, s2: seq<bool>)
    requires k <= k' <= se < DCTSIZE2
    requires t.read(s) == Some((ZRL, s1)) && Correct(k, se, 15, got, s1) == Some((k', b, s2))
    ensures DecodeRefineAC(t, k, se, got, s) == DecodeRefineAC(t, k' + 1, se, b, s2)
  {
    hide Correct;
  }

  lemma StepNew(t: Table, k: nat, se: nat, r: nat, v: nat, got: Block, s: seq<bool>, s1: seq<bool>, s2: seq<bool>,
                k': nat, b: Block, s3: seq<bool>)
    requires k <= k' <= se < DCTSIZE2 && r <= 15
    requires t.read(s) == Some((r * 16 + 1, s1)) && Receive(1, s1) == Some((v, s2))
    requires Correct(k, se, r, got, s2) == Some((k', b, s3))
    ensures DecodeRefineAC(t, k, se, got, s) == DecodeRefineAC(t, k' + 1, se, b[k' := if v == 1 then 1 else -1], s3)
  {
    hide Correct;
    assert (r * 16 + 1) % 16 == 1 && (r * 16 + 1) / 16 == r;
  }

  lemma StepEob(t: Table, k: nat, se: nat, r: nat, v: nat, got: Block, s: seq<bool>, s1: seq<bool>, s2: seq<bool>,
                b: Block, s3: seq<bool>)
    requires r < 15 && k <= se < DCTSIZE2
    requires t.read(s) == Some((r * 16, s1)) && Receive(r, s1) == Some((v, s2))
    requires CorrectRest(k, se, got, s2) == Some((b, s3))
    ensures DecodeRefineAC(t, k, se, got, s) == Some((b, Pow2(r) + v - 1, s3))
  {
    hide CorrectRest;
    assert (r * 16) % 16 == 0 && (r * 16) / 16 == r;
  }

  lemma NothingBetween(z: Block, k: nat, al: nat)
    requires k <= DCTSIZE2
    ensures Zeros(z, k, k, al) == 0 && Corrections(z, k, k, al) == []
  {
  }

  lemma PassZero(z: Block, p: nat, k: nat, se: nat, al: nat, r: nat, br: seq<bool>, eob: nat)
    requires RefineAt(z, p, k, se, al, r, br, eob) && k <= se && Magnitude(z[k], al) == 0
    ensures RefineAt(z, p, k + 1, se, al, r + 1, br, eob)
  {
    hide Magnitude;
  }

  lemma PassOld(z: Block, p: nat, k: nat, se: nat, al: nat, r: nat, br: seq<bool>, eob: nat)
    requires RefineAt(z, p, k, se, al, r, br, eob) && k <= se && Magnitude(z[k], al) > 1 && (r <= 15 || k > eob)
    ensures RefineAt(z, p, k + 1, se, al, r, br + [Odd(Magnitude(z[k], al))], eob)
  {
    hide Magnitude;
  }

  lemma PassNew(z: Block, p: nat, k: nat, se: nat, al: nat, r: nat, br: seq<bool>, eob: nat)
    requires RefineAt(z, p, k, se, al, r, br, eob) && k <= se
    ensures RefineAt(z, k + 1, k + 1, se, al, 0, [], eob)
    ensures Magnitude(z[k], al) == 1 ==> k <= eob
  {
    hide Magnitude;
  }

  /** A ZRL covers the positions up to the sixteenth zero. */
  lemma ZrlCovers(z: Block, p: nat, k: nat, se: nat, al: nat, r: nat, br: seq<bool>, eob: nat)
    requires RefineAt(z, p, k, se, al, r, br, eob) && k <= eob && r > 15
    ensures p + r <= k && Magnitude(z[k - r + 15], al) == 0
    ensures Zeros(z, p, k - r + 15, al) == 15 && Corrections(z, p, k - r + 15, al) == br
    ensures RefineAt(z, k - r + 16, k, se, al, r - 16, [], eob)
  {
    hide Magnitude, Zeros, Corrections;
    EveryoneCounts(z, p, k, al);
    var j := k - r + 15;
    TailZeros(z, p, j, k, al);
    TailZeros(z, j + 1, j + 1, k, al);
    NothingBetween(z, j + 1, al);
  }

  lemma SameBand(h: Block, z: Block, ss: nat, se: nat, al: nat, k: nat)
    requires History(h, z, ss, se, al) && ss <= k <= se && Magnitude(z[k], al) <= 1
    ensures Band(h, z, ss, k, al) == Band(h, z, ss, k - 1, al)[k := Approx(z[k], al)]
    ensures Magnitude(z[k], al) == 0 ==> Band(h, z, ss, k, al) == Band(h, z, ss, k - 1, al)
  {
    hide Magnitude, Approx;
    HalfMagnitude(z[k], al);
    ZeroApprox(z[k], al);
  }

  lemma RefineZrlCase(t: Table, h: Block, z: Block, ss: nat, p: nat, k: nat, se: nat, al: nat, r: nat, br: seq<bool>,
                      eob: nat,
                      tail: seq<bool>)
    requires TableOk(t) && History(h, z, ss, se, al) && ss <= p && RefineAt(z, p, k, se, al, r, br, eob)
    requires k <= eob && r > 15 && Magnitude(z[k], al) != 0
    requires AllSendable(RefinePart(z, k, se, al, r, br, eob).toks, t.codes, t.codes)
    ensures AllSendable(RefinePart(z, k, se, al, r - 16, [], eob).toks, t.codes, t.codes)
    ensures k >= p + r && RefineAt(z, k - r + 16, k, se, al, r - 16, [], eob)
    ensures DecodeRefineAC(t, p, se, Band(h, z, ss, p - 1, al),
      Render(RefinePart(z, k, se, al, r, br, eob).toks, t.codes, t.codes) + tail) ==
      DecodeRefineAC(t, k - r + 16, se, Band(h, z, ss, k - r + 15, al),
        Render(RefinePart(z, k, se, al, r - 16, [], eob).toks, t.codes, t.codes) + tail)
  {
    hide DecodeRefineAC, Band, Magnitude, Corrections, Zeros, Render, BitTokens, AllSendable, TableOk;
    var j := k - r + 15;
    ZrlCovers(z, p, k, se, al, r, br, eob);
    var b := RefinePart(z, k, se, al, r - 16, [], eob).toks;
    WithBits([Sym(true, ZRL)], br, b, t.codes, tail);
    OneSymbol(t, ZRL, br + (Render(b, t.codes, t.codes) + tail));
    StopAt(h, z, ss, se, al, p, j, Render(b, t.codes, t.codes) + tail);
    SameBand(h, z, ss, se, al, j);
    StepZrl(t, p, se, Band(h, z, ss, p - 1, al),
            Render(RefinePart(z, k, se, al, r, br, eob).toks, t.codes, t.codes) + tail,
      br + (Render(b, t.codes, t.codes) + tail), j, Band(h, z, ss, j - 1, al), Render(b, t.codes, t.codes) + tail);
  }

  lemma OneSymbol(t: Table, s: nat, rest: seq<bool>)
    requires TableOk(t) && AllSendable([Sym(true, s)], t.codes, t.codes)
    ensures t.read(Render([Sym(true, s)], t.codes, t.codes) + rest) == Some((s, rest))
  {
    hide TableOk;
    assert Sendable(Sym(true, s), t.codes, t.codes);
    RenderOne(Sym(true, s), t.codes, t.codes);
    SymDecodes(t, s, rest);
  }

  lemma NewPairReads(t: Table, c: int, r: nat, rest: seq<bool>) returns (s1: seq<bool>)
    requires TableOk(t) && AllSendable(NewPair(c, r), t.codes, t.codes)
    ensures t.read(Render(NewPair(c, r), t.codes, t.codes) + rest) == Some((r * 16 + 1, s1))
    ensures Receive(1, s1) == Some((if c < 0 then 0 else 1, rest))
  {
    hide TableOk;
    var v := if c < 0 then 0 else 1;
    RenderTwo(Sym(true, r * 16 + 1), Raw(v, 1), t.codes, t.codes, rest);
    s1 := ToBits(v, 1) + rest;
    SymDecodes(t, r * 16 + 1, s1);
    ReceiveToBits(v, 1, rest);
    assert Pow2(1) == 2;
  }

  lemma RefineNewCase(t: Table, h: Block, z: Block, ss: nat, p: nat, k: nat, se: nat, al: nat, r: nat, br: seq<bool>,
                      eob: nat,
                      tail: seq<bool>)
    requires TableOk(t) && History(h, z, ss, se, al) && ss <= p && RefineAt(z, p, k, se, al, r, br, eob)
    requires k <= se && r <= 15 && Magnitude(z[k], al) == 1
    requires AllSendable(RefinePart(z, k, se, al, r, br, eob).toks, t.codes, t.codes)
    ensures AllSendable(RefinePart(z, k + 1, se, al, 0, [], eob).toks, t.codes, t.codes)
    ensures RefineAt(z, k + 1, k + 1, se, al, 0, [], eob)
    ensures DecodeRefineAC(t, p, se, Band(h, z, ss, p - 1, al),
      Render(RefinePart(z, k, se, al, r, br, eob).toks, t.codes, t.codes) + tail) ==
      DecodeRefineAC(t, k + 1, se, Band(h, z, ss, k, al),
        Render(RefinePart(z, k + 1, se, al, 0, [], eob).toks, t.codes, t.codes) + tail)
  {
    hide DecodeRefineAC, Band, Magnitude, Render, BitTokens, AllSendable, TableOk, NewPair, Approx, Correct;
    var b := RefinePart(z, k + 1, se, al, 0, [], eob).toks;
    WithBits(NewPair(z[k], r), br, b, t.codes, tail);
    var s2 := br + (Render(b, t.codes, t.codes) + tail);
    var s1 := NewPairReads(t, z[k], r, s2);
    StopAt(h, z, ss, se, al, p, k, Render(b, t.codes, t.codes) + tail);
    SameBand(h, z, ss, se, al, k);
    HalfMagnitude(z[k], al);
    StepNew(t, p, se, r, if z[k] < 0 then 0 else 1, Band(h, z, ss, p - 1, al),
      Render(RefinePart(z, k, se, al, r, br, eob).toks, t.codes, t.codes) + tail, s1, s2,
      k, Band(h, z, ss, k - 1, al), Render(b, t.codes, t.codes) + tail);
  }

  /** The rest of a band that ends in a run. */
  lemma RestReads(h: Block, z: Block, ss: nat, se: nat, al: nat, p: nat, rest: seq<bool>)
    requires History(h, z, ss, se, al) && ss <= p <= se + 1
    requires forall i :: p <= i <= se ==> Magnitude(z[i], al) != 1
    ensures CorrectRest(p, se, Band(h, z, ss, p - 1, al), Corrections(z, p, se + 1, al) + rest) ==
      Some((Band(h, z, ss, se, al), rest))
  {
    hide Magnitude, Corrections, Zeros, Band;
    EveryoneCounts(z, p, se + 1, al);
    SkipReads(h, z, ss, se, al, p, se + 1, DCTSIZE2, rest);
  }

  lemma RefineEndCase(t: Table, h: Block, z: Block, ss: nat, p: nat, se: nat, al: nat, r: nat, br: seq<bool>, eob: nat,
                      e: nat, rest: seq<bool>, tail: seq<bool>)
    requires TableOk(t) && History(h, z, ss, se, al) && ss <= p && RefineAt(z, p, se + 1, se, al, r, br, eob)
    requires Ends(Part([], r, br), e, t.codes, rest, tail)
    ensures DecodeRefineAC(t, p, se, Band(h, z, ss, p - 1, al), tail) == Some((Band(h, z, ss, se, al), e - 1, rest))
  {
    hide EobTokens, Band, TableOk, Render, AllSendable, Magnitude, Corrections, Zeros, Correct, CorrectRest;
    EveryoneCounts(z, p, se + 1, al);
    if p <= se {
      hide DecodeRefineAC;
      var x := Render(EobTokens(e), t.codes, t.codes);
      Associate(x, br, rest);
      var s1 := EobReads(t, e, br + rest);
      RestReads(h, z, ss, se, al, p, rest);
      StepEob(t, p, se, Log2(e), e - Pow2(Log2(e)), Band(h, z, ss, p - 1, al), tail, s1, br + rest,
              Band(h, z, ss, se, al), rest);
    }
  }

  lemma {:induction false} RefineRoundTrip(t: Table, h: Block, z: Block, ss: nat, p: nat, k: nat, se: nat, al: nat,
                                           r: nat,
                                           br: seq<bool>, eob: nat, e: nat, rest: seq<bool>, tail: seq<bool>)
    requires TableOk(t) && History(h, z, ss, se, al) && ss <= p && RefineAt(z, p, k, se, al, r, br, eob)
    requires AllSendable(RefinePart(z, k, se, al, r, br, eob).toks, t.codes, t.codes)
    requires Ends(RefinePart(z, k, se, al, r, br, eob), e, t.codes, rest, tail)
    ensures DecodeRefineAC(t, p, se, Band(h, z, ss, p - 1, al),
      Render(RefinePart(z, k, se, al, r, br, eob).toks, t.codes, t.codes) + tail) ==
      Some((Band(h, z, ss, se, al), e - 1, rest))
    decreases DCTSIZE2 - k, r
  {
    hide DecodeRefineAC, TableOk, Band, RunBits, EobTokens, Render, AllSendable, NewPair, Magnitude, History, BitTokens;
    if k > se {
      NoTokens(t.codes, tail);
      RefineEndCase(t, h, z, ss, p, se, al, r, br, eob, e, rest, tail);
    } else if Magnitude(z[k], al) == 0 {
      PassZero(z, p, k, se, al, r, br, eob);
      RefineRoundTrip(t, h, z, ss, p, k + 1, se, al, r + 1, br, eob, e, rest, tail);
    } else if r > 15 && k <= eob {
      RefineZrlCase(t, h, z, ss, p, k, se, al, r, br, eob, tail);
      RefineRoundTrip(t, h, z, ss, k - r + 16, k, se, al, r - 16, [], eob, e, rest, tail);
    } else if Magnitude(z[k], al) > 1 {
      PassOld(z, p, k, se, al, r, br, eob);
      RefineRoundTrip(t, h, z, ss, p, k + 1, se, al, r, br + [Odd(Magnitude(z[k], al))], eob, e, rest, tail);
    } else {
      PassNew(z, p, k, se, al, r, br, eob);
      RefineNewCase(t, h, z, ss, p, k, se, al, r, br, eob, tail);
      RefineRoundTrip(t, h, z, ss, k + 1, k + 1, se, al, 0, [], eob, e, rest, tail);
    }
  }

  // ----- Blocks in a run -----

  lemma {:induction false} RefinePartFacts(z: Block, p: nat, k: nat, se: nat, al: nat, r: nat, br: seq<bool>, eob: nat)
    requires RefineAt(z, p, k, se, al, r, br, eob) && 1 <= p && k <= se + 1 <= DCTSIZE2
    ensures |RefinePart(z, k, se, al, r, br, eob).bits| < DCTSIZE2
    ensures RefinePart(z, k, se, al, r, br, eob).toks == [] ==>
      && (forall i :: p <= i <= se ==> Magnitude(z[i], al) != 1)
      && RefinePart(z, k, se, al, r, br, eob).zeros == Zeros(z, p, se + 1, al)
      && RefinePart(z, k, se, al, r, br, eob).bits == Corrections(z, p, se + 1, al)
    decreases DCTSIZE2 - k, r
  {
    hide Magnitude, BitTokens, RefineAt, Zeros, Corrections;
    if k > se {
      AtEnd(z, p, k, se, al, r, br, eob);
    } else if Magnitude(z[k], al) == 0 {
      PassZero(z, p, k, se, al, r, br, eob);
      RefinePartFacts(z, p, k + 1, se, al, r + 1, br, eob);
    } else if r > 15 && k <= eob {
      ZrlCovers(z, p, k, se, al, r, br, eob);
      RefinePartFacts(z, k - r + 16, k, se, al, r - 16, [], eob);
    } else if Magnitude(z[k], al) > 1 {
      PassOld(z, p, k, se, al, r, br, eob);
      RefinePartFacts(z, p, k + 1, se, al, r, br + [Odd(Magnitude(z[k], al))], eob);
    } else {
      PassNew(z, p, k, se, al, r, br, eob);
      RefinePartFacts(z, k + 1, k + 1, se, al, 0, [], eob);
    }
  }

  lemma AtEnd(z: Block, p: nat, k: nat, se: nat, al: nat, r: nat, br: seq<bool>, eob: nat)
    requires RefineAt(z, p, k, se, al, r, br, eob) && 1 <= p && k > se
    ensures k == se + 1 && |br| < DCTSIZE2
    ensures r == Zeros(z, p, k, al) && br == Corrections(z, p, k, al)
    ensures forall i :: p <= i <= se ==> Magnitude(z[i], al) != 1
  {
    hide Magnitude, Zeros, Corrections;
    EveryoneCounts(z, p, k, al);
  }

  /** The part of a whole block. */
  function RefineBlock(z: Block, ss: nat, se: nat, al: nat): Part
    requires 1 <= ss <= se < DCTSIZE2
  {
    RefinePart(z, ss, se, al, 0, [], LastNew(z, ss, se, al))
  }

  lemma BeforeBand(h: Block, z: Block, ss: nat, al: nat)
    requires ss >= 1
    ensures Band(h, z, ss, ss - 1, al) == h
  {
  }

  /** A refinement scan's decoder, starting from the history of the block, reads
      every block as it was sent. */
  lemma RefineReads(t: Table, h: Block, z: Block, ss: nat, se: nat, al: nat)
    requires TableOk(t) && History(h, z, ss, se, al)
    ensures Reads(RefineDecoder(t, ss, se), h, Band(h, z, ss, se, al), RefineBlock(z, ss, se, al), t.codes)
  {
    hide DecodeRefineAC, CorrectRest, TableOk, RefinePart, RunBits, EobTokens, Render, AllSendable, Band, Magnitude;
    var eob := LastNew(z, ss, se, al);
    var p := RefineBlock(z, ss, se, al);
    var out := Band(h, z, ss, se, al);
    var dec := RefineDecoder(t, ss, se);
    BeforeBand(h, z, ss, al);
    EveryoneCounts(z, ss, se + 1, al);
    RefinePartFacts(z, ss, ss, se, al, 0, [], eob);
    forall rest: seq<bool> | !Trailing(p) && AllSendable(p.toks, t.codes, t.codes)
      ensures dec(h, 0, Render(p.toks, t.codes, t.codes) + rest) == Some((out, 0, rest))
    {
      RefineRoundTrip(t, h, z, ss, ss, ss, se, al, 0, [], eob, 1, rest, rest);
    }
    forall e: nat, rest: seq<bool> |
      Trailing(p) && 1 <= e <= MAX_EOBRUN && AllSendable(p.toks, t.codes, t.codes) &&
        AllSendable(EobTokens(e), t.codes, t.codes)
      ensures dec(h, 0, Render(p.toks, t.codes, t.codes) + (RunBits(e, p.bits, t.codes) + rest)) ==
        Some((out, e - 1, rest))
    {
      RefineRoundTrip(t, h, z, ss, ss, ss, se, al, 0, [], eob, e, rest, RunBits(e, p.bits, t.codes) + rest);
    }
    if p.toks == [] {
      forall e: nat, rest: seq<bool> | 1 <= e
        ensures dec(h, e, p.bits + rest) == Some((out, e - 1, rest))
      {
        RestReads(h, z, ss, se, al, ss, rest);
      }
    }
  }
}
