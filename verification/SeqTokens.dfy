/** What one block becomes in a sequential scan (sections F.1.2.1 and F.1.2.2 of
    T.81), and the decoding procedure that reads it back (section F.2.2). */
module SeqTokens {
  import opened Arith
  import opened Bits
  import opened CodeLengths
  import opened DerivedTable
  import opened ZigzagOrder

  const MAX_COEF_BITS := 10
  const WORD := 0x1_0000_0000
  const ZRL := 0xF0
  const EOB := 0

  /** A Huffman symbol, `n` raw bits, or a coefficient that is out of range. */
  datatype Token = Sym(ac: bool, s: nat) | Raw(v: nat, n: nat) | Bad

  function Abs(v: int): nat
  {
    if v < 0 then -v else v
  }

  /** Number of bits in the magnitude v. */
  function NBits(v: nat): (n: nat)
    ensures v == 0 <==> n == 0
  {
    if v == 0 then 0 else 1 + NBits(v / 2)
  }

  lemma {:induction false} NBitsRange(v: nat)
    requires v > 0
    ensures Pow2(NBits(v) - 1) <= v < Pow2(NBits(v))
  {
    if v > 1 {
      NBitsRange(v / 2);
    }
  }

  /** The value bits: the number itself, or one less when negative, as an
      unsigned word of which the low bits are sent. */
  function ValueWord(v: int): (r: nat)
  {
    (if v < 0 then v - 1 else v) % WORD
  }

  function DCTokens(diff: int): seq<Token>
  {
    var n := NBits(Abs(diff));
    if n > MAX_COEF_BITS + 1 then [Bad]
    else [Sym(false, n)] + if n > 0 then [Raw(ValueWord(diff), n)] else []
  }

  /** What stands for a nonzero coefficient after r < 16 zeros. */
  function CoefPair(v: int, r: nat): seq<Token>
  {
    var n := NBits(Abs(v));
    if n > MAX_COEF_BITS then [Bad] else [Sym(true, r * 16 + n), Raw(ValueWord(v), n)]
  }

  /** The coefficients from position k on, after r zeros. */
  function ACTokens(z: Block, k: nat, r: nat): seq<Token>
    requires k <= DCTSIZE2
    decreases |z| - k, r
  {
    if k == DCTSIZE2 then if r > 0 then [Sym(true, EOB)] else []
    else if z[k] == 0 then ACTokens(z, k + 1, r + 1)
    else if r > 15 then [Sym(true, ZRL)] + ACTokens(z, k, r - 16)
    else CoefPair(z[k], r) + ACTokens(z, k + 1, 0)
  }

  function BlockTokens(z: Block, pred: int): seq<Token>
  {
    DCTokens(z[0] - pred) + ACTokens(z, 1, 0)
  }

  // ----- What the tokens are, in numbers -----

  lemma FewBits(v: nat, n: nat)
    ensures NBits(v) <= n <==> v < Pow2(n)
  {
    if v > 0 {
      NBitsRange(v);
      if NBits(v) <= n {
        Pow2Mono(NBits(v), n);
      } else {
        Pow2Mono(n, NBits(v) - 1);
      }
    }
  }

  lemma CoefLimits()
    ensures Pow2(10) == 1024 && Pow2(11) == 2048
  {
    Pow2Constants();
    assert Pow2(11) == 2 * Pow2(10) && Pow2(10) == 2 * Pow2(9) && Pow2(9) == 2 * Pow2(8);
  }

  lemma DCInRange(diff: int)
    ensures Bad !in DCTokens(diff) <==> -2047 <= diff <= 2047
  {
    FewBits(Abs(diff), 11);
    CoefLimits();
  }

  lemma PairInRange(v: int, r: nat)
    ensures Bad !in CoefPair(v, r) <==> -1023 <= v <= 1023
  {
    FewBits(Abs(v), 10);
    CoefLimits();
  }

  lemma {:induction false} ACInRange(z: Block, k: nat, r: nat)
    requires k <= 64
    ensures Bad !in ACTokens(z, k, r) <==> forall j :: k <= j < 64 ==> -1023 <= z[j] <= 1023
    decreases |z| - k, r
  {
    hide CoefPair;
    if k < 64 {
      if z[k] == 0 {
        ACInRange(z, k + 1, r + 1);
      } else if r > 15 {
        ACInRange(z, k, r - 16);
      } else {
        PairInRange(z[k], r);
        ACInRange(z, k + 1, 0);
      }
    }
  }

  /** The DC difference of a block fits eleven bits and its other coefficients fit ten. */
  predicate BlockFits(z: Block, pred: int)
  {
    -2047 <= z[0] - pred <= 2047 && forall k :: 1 <= k < 64 ==> -1023 <= z[k] <= 1023
  }

  /** Exactly then it can be coded, tables aside. */
  lemma BlockInRange(z: Block, pred: int)
    ensures Bad !in BlockTokens(z, pred) <==> BlockFits(z, pred)
  {
    hide DCTokens, ACTokens;
    DCInRange(z[0] - pred);
    ACInRange(z, 1, 0);
  }

  /** The symbol 0x00 ends a block whose last coefficients are zero, and no other. */
  lemma {:induction false} EndSymbol(z: Block, k: nat, r: nat)
    requires k <= 64 && (r > 0 || k < 64) && forall j :: k <= j < 64 ==> z[j] == 0
    ensures ACTokens(z, k, r) == [Sym(true, 0x00)]
    decreases |z| - k
  {
    if k < 64 {
      EndSymbol(z, k + 1, r + 1);
    }
  }

  /** Before a nonzero coefficient the symbol 0xF0 stands for sixteen zeros; then comes
      16 r + n for the r zeros left and the n bits of the coefficient, and these bits. */
  lemma NextSymbol(z: Block, k: nat, r: nat)
    requires k < 64 && z[k] != 0
    ensures r > 15 ==> ACTokens(z, k, r) == [Sym(true, 0xF0)] + ACTokens(z, k, r - 16)
    ensures r <= 15 && -1023 <= z[k] <= 1023 ==>
      var n := NBits(Abs(z[k]));
      && n > 0 && Pow2(n - 1) <= Abs(z[k]) < Pow2(n)
      && ACTokens(z, k, r) == [Sym(true, 16 * r + n), Raw(ValueWord(z[k]), n)] + ACTokens(z, k + 1, 0)
  {
    NBitsRange(Abs(z[k]));
    PairInRange(z[k], r);
  }

  /** The DC difference: its number of bits as a symbol, and the bits if there are any. */
  lemma DCSymbol(diff: int)
    requires -2047 <= diff <= 2047
    ensures diff == 0 ==> DCTokens(diff) == [Sym(false, 0)]
    ensures diff != 0 ==>
      var n := NBits(Abs(diff));
      && n > 0 && Pow2(n - 1) <= Abs(diff) < Pow2(n)
      && DCTokens(diff) == [Sym(false, n), Raw(ValueWord(diff), n)]
  {
    DCInRange(diff);
    if diff != 0 {
      NBitsRange(Abs(diff));
    }
  }

  /** How many tokens are symbols. */
  function Symbols(toks: seq<Token>): (n: nat)
  {
    if toks == [] then 0 else (if toks[0].Sym? then 1 else 0) + Symbols(toks[1..])
  }

  lemma {:induction false} SymbolsAppend(a: seq<Token>, b: seq<Token>)
    ensures Symbols(a + b) == Symbols(a) + Symbols(b)
  {
    if a == [] {
      assert a + b == b;
    } else {
      assert (a + b)[0] == a[0] && (a + b)[1..] == a[1..] + b;
      SymbolsAppend(a[1..], b);
    }
  }

  // ----- Emission -----

  type Reader = seq<bool> -> Option<(nat, seq<bool>)>

  /** A table as the encoder holds it, and the procedure that reads its codes. */
  datatype Table = Table(codes: Codes, read: Reader)

  /** Reading gives back every symbol that has a code. */
  ghost predicate TableOk(t: Table)
  {
    forall s: nat, rest: seq<bool> :: HasCode(t.codes, s) ==> t.read(SymBits(t.codes, s) + rest) == Some((s, rest))
  }

  /** The table that a header describes. */
  function HeaderTable(codes: Codes, bits: seq<nat>, huffval: seq<nat>): Table
    requires |bits| == MAX_LEN + 1
  {
    Table(codes, s => Decode(bits, huffval, s))
  }

  /** A derived table is read back by the decoding procedure of the standard. */
  lemma DerivedTableOk(codes: Codes, bits: seq<nat>, huffval: seq<nat>)
    requires Derived(codes, bits, huffval)
    ensures TableOk(HeaderTable(codes, bits, huffval))
  {
    forall s: nat, rest: seq<bool> | HasCode(codes, s)
      ensures Decode(bits, huffval, SymBits(codes, s) + rest) == Some((s, rest))
    {
      DecodeSymbol(codes, bits, huffval, s, rest);
    }
  }

  predicate HasCode(t: Codes, s: nat)
  {
    s < |t.si| && s < |t.co| && t.si[s] > 0
  }

  function SymBits(t: Codes, s: nat): seq<bool>
    requires HasCode(t, s)
  {
    ToBits(t.co[s], t.si[s])
  }

  predicate Sendable(tok: Token, dc: Codes, ac: Codes)
  {
    match tok
    case Sym(isAc, s) => HasCode(if isAc then ac else dc, s)
    case Raw(v, n) => true
    case Bad => false
  }

  ghost predicate AllSendable(toks: seq<Token>, dc: Codes, ac: Codes)
  {
    toks == [] || (Sendable(toks[0], dc, ac) && AllSendable(toks[1..], dc, ac))
  }

  /** The bits of a run of tokens, all of which can be sent. */
  ghost function Render(toks: seq<Token>, dc: Codes, ac: Codes): seq<bool>
    requires AllSendable(toks, dc, ac)
  {
    if toks == [] then []
    else TokenBits(toks[0], dc, ac) + Render(toks[1..], dc, ac)
  }

  function TokenBits(tok: Token, dc: Codes, ac: Codes): seq<bool>
    requires Sendable(tok, dc, ac)
  {
    match tok
    case Sym(isAc, s) => SymBits(if isAc then ac else dc, s)
    case Raw(v, n) => ToBits(v, n)
  }

  lemma {:induction false} SendableAppend(a: seq<Token>, b: seq<Token>, dc: Codes, ac: Codes)
    ensures AllSendable(a + b, dc, ac) <==> AllSendable(a, dc, ac) && AllSendable(b, dc, ac)
  {
    if a == [] {
      assert a + b == b;
    } else {
      assert (a + b)[0] == a[0] && (a + b)[1..] == a[1..] + b;
      SendableAppend(a[1..], b, dc, ac);
    }
  }

  lemma {:induction false} RenderConcat(a: seq<Token>, b: seq<Token>, dc: Codes, ac: Codes)
    requires AllSendable(a, dc, ac) && AllSendable(b, dc, ac) && AllSendable(a + b, dc, ac)
    ensures Render(a + b, dc, ac) == Render(a, dc, ac) + Render(b, dc, ac)
  {
    if a == [] {
      assert a + b == b;
    } else {
      assert (a + b)[0] == a[0] && (a + b)[1..] == a[1..] + b;
      RenderConcat(a[1..], b, dc, ac);
      var t, x, y := TokenBits(a[0], dc, ac), Render(a[1..], dc, ac), Render(b, dc, ac);
      assert t + (x + y) == (t + x) + y;
    }
  }

  lemma RenderAppend(a: seq<Token>, b: seq<Token>, dc: Codes, ac: Codes, rest: seq<bool>)
    requires AllSendable(a + b, dc, ac)
    ensures AllSendable(a, dc, ac) && AllSendable(b, dc, ac)
    ensures Render(a + b, dc, ac) == Render(a, dc, ac) + Render(b, dc, ac)
    ensures Render(a + b, dc, ac) + rest == Render(a, dc, ac) + (Render(b, dc, ac) + rest)
  {
    SendableAppend(a, b, dc, ac);
    RenderConcat(a, b, dc, ac);
    Associate(Render(a, dc, ac), Render(b, dc, ac), rest);
  }

  lemma Associate(x: seq<bool>, y: seq<bool>, z: seq<bool>)
    ensures (x + y) + z == x + (y + z)
  {
  }

  // ----- Decoding -----

  /** EXTEND of Figure F.12. */
  function Extend(v: int, t: nat): int
  {
    if t == 0 then 0
    else if v < Pow2(t - 1) then v - Pow2(t) + 1
    else v
  }

  /** RECEIVE and EXTEND undo the value bits of a number of n bits. */
  lemma ExtendValue(v: int, n: nat)
    requires v != 0 && n == NBits(Abs(v)) && n <= 16
    ensures Extend(ValueWord(v) % Pow2(n), n) == v
  {
    NBitsRange(Abs(v));
    Pow2Mono(n, 16);
    Pow2Constants();
    assert Pow2(n) == 2 * Pow2(n - 1);
    if v > 0 {
      ModSelf(v, WORD);
      ModSelf(v, Pow2(n));
    } else {
      var p, d := Pow2(n), Pow2(32 - n);
      Pow2Add(n, 32 - n);
      assert p * d == WORD;
      UniqueQuotient(v - 1, WORD, -1, v - 1 + WORD);
      assert ValueWord(v) == v - 1 + p * d;
      WrapLow(v, p, d);
    }
  }

  lemma WrapLow(v: int, p: int, d: int)
    requires p > 0 && v < 0 && v - 1 + p >= 0
    ensures (v - 1 + p * d) % p == v - 1 + p
  {
    assert p * d == p * (d - 1) + p;
    UniqueQuotient(v - 1 + p * d, p, d - 1, v - 1 + p);
  }

  /** Decode the DC difference: a category, then that many bits. */
  function DecodeDC(t: Table, s: seq<bool>): (r: Option<(int, seq<bool>)>)
  {
    match t.read(s)
    case None => None
    case Some((n, s1)) =>
      match Receive(n, s1)
      case None => None
      case Some((v, s2)) => Some((Extend(v, n), s2))
  }

  /** Decode_AC_coefficients of Figure F.13: fill in the coefficients from k
      on. */
  function DecodeAC(t: Table, k: nat, z: Block, s: seq<bool>): (r: Option<(Block, seq<bool>)>)
    requires 1 <= k <= DCTSIZE2
    decreases |z| - k
  {
    if k == DCTSIZE2 then Some((z, s))
    else
      match t.read(s)
      case None => None
      case Some((rs, s1)) =>
        var n, r := rs % 16, rs / 16;
        if n == 0 then
          if r == 15 then
            if k + 16 < DCTSIZE2 then DecodeAC(t, k + 16, z, s1) else None
          else Some((z, s1))
        else if k + r >= DCTSIZE2 then None
        else
          match Receive(n, s1)
          case None => None
          case Some((v, s2)) => DecodeAC(t, k + r + 1, z[k + r := Extend(v, n)], s2)
  }

  function ZeroBlock(): Block
  {
    seq(DCTSIZE2, _ => 0)
  }

  /** A whole block, in zigzag order. */
  function DecodeBlock(dc: Table, ac: Table, pred: int, s: seq<bool>): (r: Option<(Block, seq<bool>)>)
  {
    match DecodeDC(dc, s)
    case None => None
    case Some((diff, s1)) => DecodeAC(ac, 1, ZeroBlock()[0 := diff + pred], s1)
  }

  // ----- Round trip of one block -----

  lemma SymDecodes(t: Table, s: nat, rest: seq<bool>)
    requires TableOk(t) && HasCode(t.codes, s)
    ensures t.read(SymBits(t.codes, s) + rest) == Some((s, rest))
  {
  }

  lemma RenderOne(tok: Token, dc: Codes, ac: Codes)
    requires Sendable(tok, dc, ac)
    ensures AllSendable([tok], dc, ac) && Render([tok], dc, ac) == TokenBits(tok, dc, ac)
  {
    assert [tok][1..] == [];
    assert Render([], dc, ac) == [];
  }

  lemma RenderTwo(a: Token, b: Token, dc: Codes, ac: Codes, rest: seq<bool>)
    requires AllSendable([a, b], dc, ac)
    ensures Sendable(a, dc, ac) && Sendable(b, dc, ac)
    ensures Render([a, b], dc, ac) + rest == TokenBits(a, dc, ac) + (TokenBits(b, dc, ac) + rest)
  {
    assert [a, b][1..] == [b];
    RenderOne(b, dc, ac);
    var x, y := TokenBits(a, dc, ac), TokenBits(b, dc, ac);
    assert (x + y) + rest == x + (y + rest);
  }

  lemma DCRoundTrip(dc: Table, ac: Codes, diff: int, rest: seq<bool>)
    requires TableOk(dc) && AllSendable(DCTokens(diff), dc.codes, ac)
    ensures DecodeDC(dc, Render(DCTokens(diff), dc.codes, ac) + rest) == Some((diff, rest))
  {
    var n := NBits(Abs(diff));
    if n == 0 {
      RenderOne(Sym(false, 0), dc.codes, ac);
      SymDecodes(dc, 0, rest);
    } else {
      assert n <= MAX_COEF_BITS + 1;
      var w := ValueWord(diff);
      assert DCTokens(diff) == [Sym(false, n), Raw(w, n)];
      RenderTwo(Sym(false, n), Raw(w, n), dc.codes, ac, rest);
      SymDecodes(dc, n, ToBits(w, n) + rest);
      ReceiveToBits(w, n, rest);
      ExtendValue(diff, n);
    }
  }

  /** Positions before k are decoded; the rest are still zero. */
  ghost predicate Agrees(z: Block, got: Block, k: nat)
    requires k <= DCTSIZE2
  {
    && (forall i :: 0 <= i < k ==> got[i] == z[i])
    && (forall i :: k <= i < DCTSIZE2 ==> got[i] == 0)
  }

  lemma StepZrl(ac: Table, k: nat, got: Block, s: seq<bool>, s1: seq<bool>)
    requires 1 <= k && k + 16 < DCTSIZE2 && ac.read(s) == Some((ZRL, s1))
    ensures DecodeAC(ac, k, got, s) == DecodeAC(ac, k + 16, got, s1)
  {
  }

  lemma StepCoef(ac: Table, k: nat, q: nat, n: nat, v: nat, got: Block, s: seq<bool>, s1: seq<bool>, s2: seq<bool>)
    requires 1 <= k && q <= 15 && k + q < DCTSIZE2 && 1 <= n <= 15
    requires ac.read(s) == Some((q * 16 + n, s1)) && Receive(n, s1) == Some((v, s2))
    ensures DecodeAC(ac, k, got, s) == DecodeAC(ac, k + q + 1, got[k + q := Extend(v, n)], s2)
  {
    assert (q * 16 + n) % 16 == n && (q * 16 + n) / 16 == q;
  }

  /** s is what the coefficients from k on, after r zeros, are sent as. */
  ghost predicate Sent(dc: Codes, ac: Codes, z: Block, k: nat, r: nat, rest: seq<bool>, s: seq<bool>)
    requires k <= DCTSIZE2
  {
    AllSendable(ACTokens(z, k, r), dc, ac) && s == Render(ACTokens(z, k, r), dc, ac) + rest
  }

  lemma ZeroCase(dc: Codes, ac: Codes, z: Block, k: nat, r: nat, rest: seq<bool>, s: seq<bool>)
    requires k < DCTSIZE2 && z[k] == 0 && Sent(dc, ac, z, k, r, rest, s)
    ensures Sent(dc, ac, z, k + 1, r + 1, rest, s)
  {
  }

  lemma ZrlBits(dc: Codes, ac: Codes, z: Block, k: nat, r: nat, rest: seq<bool>, s: seq<bool>) returns (s': seq<bool>)
    requires k < DCTSIZE2 && z[k] != 0 && r > 15 && Sent(dc, ac, z, k, r, rest, s)
    ensures Sent(dc, ac, z, k, r - 16, rest, s') && HasCode(ac, ZRL) && s == SymBits(ac, ZRL) + s'
  {
    var b := ACTokens(z, k, r - 16);
    RenderAppend([Sym(true, ZRL)], b, dc, ac, rest);
    RenderOne(Sym(true, ZRL), dc, ac);
    s' := Render(b, dc, ac) + rest;
  }

  lemma ZrlCase(dc: Codes, ac: Table, z: Block, k: nat, r: nat, got: Block, rest: seq<bool>, s: seq<bool>)
    returns (s': seq<bool>)
    requires TableOk(ac) && 1 <= k - r && k < DCTSIZE2 && z[k] != 0 && r > 15
    requires Sent(dc, ac.codes, z, k, r, rest, s)
    ensures Sent(dc, ac.codes, z, k, r - 16, rest, s')
    ensures DecodeAC(ac, k - r, got, s) == DecodeAC(ac, k - r + 16, got, s')
  {
    hide Sent;
    s' := ZrlBits(dc, ac.codes, z, k, r, rest, s);
    SymDecodes(ac, ZRL, s');
    StepZrl(ac, k - r, got, s, s');
  }

  lemma CoefCase(dc: Codes, ac: Table, z: Block, k: nat, r: nat, got: Block, rest: seq<bool>, s: seq<bool>)
    returns (s': seq<bool>)
    requires TableOk(ac) && 1 <= k - r && k < DCTSIZE2 && z[k] != 0 && r <= 15
    requires Sent(dc, ac.codes, z, k, r, rest, s)
    ensures Sent(dc, ac.codes, z, k + 1, 0, rest, s')
    ensures DecodeAC(ac, k - r, got, s) == DecodeAC(ac, k + 1, got[k := z[k]], s')
  {
    hide Sent, DecodeAC, CoefPair;
    s' := CoefBits(dc, ac.codes, z, k, r, rest, s);
    CoefReads(dc, ac, z[k], r, s', k - r, got);
  }

  lemma CoefBits(dc: Codes, ac: Codes, z: Block, k: nat, r: nat, rest: seq<bool>, s: seq<bool>) returns (s': seq<bool>)
    requires k < DCTSIZE2 && z[k] != 0 && r <= 15 && Sent(dc, ac, z, k, r, rest, s)
    ensures Sent(dc, ac, z, k + 1, 0, rest, s')
    ensures AllSendable(CoefPair(z[k], r), dc, ac) && s == Render(CoefPair(z[k], r), dc, ac) + s'
  {
    hide CoefPair;
    var b := ACTokens(z, k + 1, 0);
    RenderAppend(CoefPair(z[k], r), b, dc, ac, rest);
    s' := Render(b, dc, ac) + rest;
  }

  lemma CoefReads(dc: Codes, ac: Table, v: int, r: nat, rest: seq<bool>, k: nat, got: Block)
    requires TableOk(ac) && v != 0 && r <= 15 && AllSendable(CoefPair(v, r), dc, ac.codes)
    requires 1 <= k && k + r < DCTSIZE2
    ensures DecodeAC(ac, k, got, Render(CoefPair(v, r), dc, ac.codes) + rest) ==
      DecodeAC(ac, k + r + 1, got[k + r := v], rest)
  {
    var n := NBits(Abs(v));
    var w := ValueWord(v);
    assert n <= MAX_COEF_BITS;
    RenderTwo(Sym(true, r * 16 + n), Raw(w, n), dc, ac.codes, rest);
    SymDecodes(ac, r * 16 + n, ToBits(w, n) + rest);
    ReceiveToBits(w, n, rest);
    ExtendValue(v, n);
    StepCoef(ac, k, r, n, w % Pow2(n), got, Render(CoefPair(v, r), dc, ac.codes) + rest, ToBits(w, n) + rest, rest);
  }

  lemma EndCase(dc: Codes, ac: Table, z: Block, r: nat, rest: seq<bool>, s: seq<bool>)
    requires TableOk(ac) && 1 <= DCTSIZE2 - r
    requires Sent(dc, ac.codes, z, DCTSIZE2, r, rest, s)
    ensures DecodeAC(ac, DCTSIZE2 - r, z, s) == Some((z, rest))
  {
    if r > 0 {
      RenderOne(Sym(true, EOB), dc, ac.codes);
      SymDecodes(ac, EOB, rest);
    } else {
      assert s == rest;
    }
  }

  lemma {:induction false} ACRoundTrip(dc: Codes, ac: Table, z: Block, k: nat, r: nat, got: Block, rest: seq<bool>,
                                       s: seq<bool>)
    requires TableOk(ac) && 1 <= k - r && k <= DCTSIZE2
    requires Sent(dc, ac.codes, z, k, r, rest, s)
    requires Agrees(z, got, k - r)
    requires forall i :: k - r <= i < k ==> z[i] == 0
    ensures DecodeAC(ac, k - r, got, s) == Some((z, rest))
    decreases DCTSIZE2 - k, r
  {
    hide DecodeAC, Sent, TableOk;
    if k == DCTSIZE2 {
      assert got == z;
      EndCase(dc, ac, z, r, rest, s);
    } else if z[k] == 0 {
      ZeroCase(dc, ac.codes, z, k, r, rest, s);
      ACRoundTrip(dc, ac, z, k + 1, r + 1, got, rest, s);
    } else if r > 15 {
      var s' := ZrlCase(dc, ac, z, k, r, got, rest, s);
      ACRoundTrip(dc, ac, z, k, r - 16, got, rest, s');
    } else {
      var s' := CoefCase(dc, ac, z, k, r, got, rest, s);
      ACRoundTrip(dc, ac, z, k + 1, 0, got[k := z[k]], rest, s');
    }
  }

  /** Decoding the bits of a block gives the block back. */
  lemma BlockRoundTrip(dc: Table, ac: Table, z: Block, pred: int, rest: seq<bool>)
    requires TableOk(dc) && TableOk(ac)
    requires AllSendable(BlockTokens(z, pred), dc.codes, ac.codes)
    ensures DecodeBlock(dc, ac, pred, Render(BlockTokens(z, pred), dc.codes, ac.codes) + rest) == Some((z, rest))
  {
    hide DecodeAC, Sent, TableOk, DecodeDC, BlockTokens, Render, AllSendable;
    var s := Render(BlockTokens(z, pred), dc.codes, ac.codes) + rest;
    var s' := DCPart(dc, ac.codes, z, pred, rest, s);
    var got := ZeroBlock()[0 := z[0]];
    ACRoundTrip(dc.codes, ac, z, 1, 0, got, rest, s');
  }

  lemma DCPart(dc: Table, ac: Codes, z: Block, pred: int, rest: seq<bool>, s: seq<bool>) returns (s': seq<bool>)
    requires TableOk(dc) && AllSendable(BlockTokens(z, pred), dc.codes, ac)
    requires s == Render(BlockTokens(z, pred), dc.codes, ac) + rest
    ensures Sent(dc.codes, ac, z, 1, 0, rest, s') && DecodeDC(dc, s) == Some((z[0] - pred, s'))
  {
    var a, b := DCTokens(z[0] - pred), ACTokens(z, 1, 0);
    RenderAppend(a, b, dc.codes, ac, rest);
    s' := Render(b, dc.codes, ac) + rest;
    DCRoundTrip(dc, ac, z[0] - pred, s');
  }
}
