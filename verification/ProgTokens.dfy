/** Progressive AC scans (section G.1.2 of T.81) as tokens: what a block
    contributes on its own, how end-of-band runs are shared between blocks, and
    the decoding procedure. */
module ProgTokens {
  import opened Arith
  import opened Bits
  import opened ZigzagOrder
  import opened DerivedTable
  import opened SeqTokens

  const MAX_EOBRUN := 0x7FFF
  const MAX_CORR_BITS := 1000

  /** The point transform of an AC coefficient: division by 2^al towards zero. */
  function Approx(c: int, al: nat): int
  {
    if c < 0 then 0 - Shr(-c, al) else Shr(c, al)
  }

  function Magnitude(c: int, al: nat): nat
  {
    Shr(Abs(c), al)
  }

  // ----- End-of-band runs -----

  function Log2(e: nat): (n: nat)
    requires e > 0
  {
    NBits(e) - 1
  }

  /** The symbol for a run of e bands that end here. */
  function EobTokens(e: nat): seq<Token>
    requires e > 0
  {
    var n := Log2(e);
    [Sym(true, n * 16)] + if n > 0 then [Raw(e, n)] else []
  }

  /** Correction bits, one token each. */
  function BitTokens(b: seq<bool>): seq<Token>
  {
    if b == [] then [] else [Raw(Bit(b[0]), 1)] + BitTokens(b[1..])
  }

  /** emit_eobrun: the pending run, if any, and its correction bits. */
  function FlushTokens(e: nat, be: seq<bool>): seq<Token>
  {
    if e == 0 then [] else EobTokens(e) + BitTokens(be)
  }

  /** What a block emits itself, and what it leaves to the end-of-band run: the
      zeros after its last symbol and the correction bits among them. */
  datatype Part = Part(toks: seq<Token>, zeros: nat, bits: seq<bool>)

  predicate Trailing(p: Part)
  {
    p.zeros > 0 || p.bits != []
  }

  /** The encoder between blocks: what it has emitted, the pending run and the
      pending correction bits. */
  datatype Enc = Enc(toks: seq<Token>, eobrun: nat, be: seq<bool>)

  function Flush(s: Enc): Enc
  {
    Enc(s.toks + FlushTokens(s.eobrun, s.be), 0, if s.eobrun == 0 then s.be else [])
  }

  /** A block's own tokens go out behind the pending run. */
  function Begin(s: Enc, p: Part): Enc
  {
    if p.toks == [] then s
    else
      var f := Flush(s);
      f.(toks := f.toks + p.toks)
  }

  predicate MustFlush(s: Enc)
  {
    s.eobrun == MAX_EOBRUN || |s.be| > MAX_CORR_BITS - DCTSIZE2 + 1
  }

  function Absorb(s: Enc, p: Part): Enc
  {
    var b := Begin(s, p);
    if !Trailing(p) then b
    else
      var t := b.(eobrun := b.eobrun + 1, be := b.be + p.bits);
      if MustFlush(t) then Flush(t) else t
  }

  /** The run after a block, in terms of the run that its own tokens left. */
  lemma AbsorbedRun(s: Enc, p: Part, b: Enc, all: seq<bool>)
    requires b == Begin(s, p) && all == b.be + p.bits
    ensures !Trailing(p) ==> Absorb(s, p) == b
    ensures Trailing(p) && !MustFlush(Enc([], b.eobrun + 1, all)) ==> Absorb(s, p) == Enc(b.toks, b.eobrun + 1, all)
    ensures Trailing(p) && MustFlush(Enc([], b.eobrun + 1, all)) ==>
      Absorb(s, p) == Enc(b.toks + FlushTokens(b.eobrun + 1, all), 0, [])
  {
    hide FlushTokens, Begin;
  }

  function AbsorbAll(s: Enc, ps: seq<Part>): Enc
    decreases |ps|
  {
    if ps == [] then s else AbsorbAll(Absorb(s, ps[0]), ps[1..])
  }

  /** Between blocks the run is below its limit, the correction bits leave room
      for another block, and there are none without a run. */
  ghost predicate EncOk(s: Enc)
  {
    && s.eobrun < MAX_EOBRUN
    && |s.be| <= MAX_CORR_BITS - DCTSIZE2 + 1
    && (s.eobrun == 0 ==> s.be == [])
  }

  ghost predicate PartOk(p: Part)
  {
    && (p.toks == [] ==> Trailing(p))
    && |p.bits| < DCTSIZE2
  }

  lemma AbsorbKeeps(s: Enc, p: Part)
    requires EncOk(s) && PartOk(p)
    ensures EncOk(Absorb(s, p))
    ensures |Begin(s, p).be + p.bits| <= MAX_CORR_BITS && Begin(s, p).eobrun + 1 <= MAX_EOBRUN
  {
  }

  /** In numbers: a run is forced out just when it comes to 32767 blocks, or when more than
      937 correction bits wait, so that the next block's 63 still fit a buffer of 1000. */
  lemma ForcedOut(s: Enc, p: Part)
    requires EncOk(s) && PartOk(p) && Trailing(p)
    ensures s.eobrun < 32767 && |s.be| <= 937 && |Begin(s, p).be + p.bits| <= 1000
    ensures Absorb(s, p).eobrun == 0 <==> Begin(s, p).eobrun + 1 == 32767 || |Begin(s, p).be + p.bits| > 937
    ensures Absorb(s, p).eobrun != 0 ==>
      Absorb(s, p).eobrun == Begin(s, p).eobrun + 1 && Absorb(s, p).be == Begin(s, p).be + p.bits
  {
    hide FlushTokens;
    AbsorbKeeps(s, p);
    AbsorbedRun(s, p, Begin(s, p), Begin(s, p).be + p.bits);
  }

  // ----- Decoding a run of blocks -----

  /** Decodes one block: from its history and the current run, the new block,
      the run after it and the bits left. */
  type BlockDecoder = (Block, nat, seq<bool>) -> Option<(Block, nat, seq<bool>)>

  datatype Decoded = Decoded(blocks: seq<Block>, eobrun: nat, rest: seq<bool>)

  function DecodeMany(dec: BlockDecoder, hs: seq<Block>, e: nat, s: seq<bool>): Option<Decoded>
    decreases |hs|
  {
    if hs == [] then Some(Decoded([], e, s))
    else
      match dec(hs[0], e, s)
      case None => None
      case Some((b, e', s')) =>
        match DecodeMany(dec, hs[1..], e', s')
        case None => None
        case Some(d) => Some(Decoded([b] + d.blocks, d.eobrun, d.rest))
  }

  lemma {:induction false} DecodeSnoc(dec: BlockDecoder, hs: seq<Block>, h: Block, e: nat, s: seq<bool>,
                                      bs: seq<Block>, e1: nat, s1: seq<bool>, b: Block, e2: nat, s2: seq<bool>)
    requires DecodeMany(dec, hs, e, s) == Some(Decoded(bs, e1, s1))
    requires dec(h, e1, s1) == Some((b, e2, s2))
    ensures DecodeMany(dec, hs + [h], e, s) == Some(Decoded(bs + [b], e2, s2))
    decreases |hs|
  {
    if hs == [] {
      assert (hs + [h])[1..] == [];
      assert bs == [] && [b] + [] == bs + [b];
    } else {
      assert (hs + [h])[0] == hs[0] && (hs + [h])[1..] == hs[1..] + [h];
      var (b0, e0, s0) := dec(hs[0], e, s).value;
      var d := DecodeMany(dec, hs[1..], e0, s0).value;
      DecodeSnoc(dec, hs[1..], h, e0, s0, d.blocks, e1, s1, b, e2, s2);
      assert [b0] + (d.blocks + [b]) == ([b0] + d.blocks) + [b];
    }
  }

  /** The bits of a pending run that turns out to be e long, its correction bits
      so far included. */
  ghost function RunBits(e: nat, be: seq<bool>, ac: Codes): seq<bool>
    requires e > 0 && AllSendable(EobTokens(e), ac, ac)
  {
    Render(EobTokens(e), ac, ac) + be
  }

  /** A decoder reads a block as the encoder means it: its own tokens, then,
      when it ends in a run, the run's symbol and the block's correction bits;
      inside a run only the correction bits. */
  ghost predicate Reads(dec: BlockDecoder, h: Block, out: Block, p: Part, ac: Codes)
  {
    && PartOk(p)
    && (forall rest: seq<bool> ::
          !Trailing(p) && AllSendable(p.toks, ac, ac) ==>
            dec(h, 0, Render(p.toks, ac, ac) + rest) == Some((out, 0, rest)))
    && (forall e: nat, rest: seq<bool> ::
          Trailing(p) && 1 <= e <= MAX_EOBRUN && AllSendable(p.toks, ac, ac) && AllSendable(EobTokens(e), ac, ac) ==>
            dec(h, 0, Render(p.toks, ac, ac) + (RunBits(e, p.bits, ac) + rest)) == Some((out, e - 1, rest)))
    && (forall e: nat, rest: seq<bool> ::
          p.toks == [] && 1 <= e ==> dec(h, e, p.bits + rest) == Some((out, e - 1, rest)))
  }

  /** With no run pending, the tokens decode to the blocks. */
  ghost predicate Idle(dec: BlockDecoder, hs: seq<Block>, outs: seq<Block>, toks: seq<Token>, ac: Codes)
    requires AllSendable(toks, ac, ac)
  {
    forall rest: seq<bool> ::
      DecodeMany(dec, hs, 0, Render(toks, ac, ac) + rest) == Some(Decoded(outs, 0, rest))
  }

  /** With e0 bands pending, the tokens and a run of any length e from e0 on
      decode to the blocks, with the excess still to come. */
  ghost predicate Pending(dec: BlockDecoder, hs: seq<Block>, outs: seq<Block>, toks: seq<Token>, e0: nat, be: seq<bool>,
                          ac: Codes)
    requires AllSendable(toks, ac, ac) && e0 > 0
  {
    forall e: nat, rest: seq<bool> :: e0 <= e <= MAX_EOBRUN && AllSendable(EobTokens(e), ac, ac) ==>
      DecodeMany(dec, hs, 0, Render(toks, ac, ac) + (RunBits(e, be, ac) + rest)) == Some(Decoded(outs, e - e0, rest))
  }

  /** What has been emitted so far, whatever the pending run grows to, decodes
      to the blocks so far. */
  ghost predicate Follows(dec: BlockDecoder, hs: seq<Block>, outs: seq<Block>, s: Enc, ac: Codes)
  {
    && AllSendable(s.toks, ac, ac)
    && (s.eobrun == 0 ==> s.be == [] && Idle(dec, hs, outs, s.toks, ac))
    && (s.eobrun > 0 ==> Pending(dec, hs, outs, s.toks, s.eobrun, s.be, ac))
  }

  lemma {:induction false} BitsRender(b: seq<bool>, ac: Codes)
    ensures AllSendable(BitTokens(b), ac, ac) && Render(BitTokens(b), ac, ac) == b
  {
    if b != [] {
      BitsRender(b[1..], ac);
      var t := BitTokens(b);
      assert t[1..] == BitTokens(b[1..]);
      OneBit(b[0]);
      assert [b[0]] + b[1..] == b;
    }
  }

  lemma OneBit(b: bool)
    ensures ToBits(Bit(b), 1) == [b]
  {
    assert Shr(Bit(b), 0) == Bit(b) by { assert Pow2(0) == 1; }
    assert ToBits(Bit(b), 0) == [];
  }

  lemma FlushRender(e: nat, be: seq<bool>, ac: Codes)
    requires e > 0
    ensures AllSendable(FlushTokens(e, be), ac, ac) <==> AllSendable(EobTokens(e), ac, ac)
    ensures AllSendable(EobTokens(e), ac, ac) ==> Render(FlushTokens(e, be), ac, ac) == RunBits(e, be, ac)
  {
    hide EobTokens;
    BitsRender(be, ac);
    SendableAppend(EobTokens(e), BitTokens(be), ac, ac);
    if AllSendable(EobTokens(e), ac, ac) {
      RenderAppend(EobTokens(e), BitTokens(be), ac, ac, []);
    }
  }

  /** Forcing the run out keeps what was emitted decodable. */
  lemma FlushFollows(dec: BlockDecoder, hs: seq<Block>, outs: seq<Block>, s: Enc, ac: Codes)
    requires Follows(dec, hs, outs, s, ac) && s.eobrun <= MAX_EOBRUN
    requires AllSendable(Flush(s).toks, ac, ac)
    ensures Follows(dec, hs, outs, Flush(s), ac)
  {
    hide DecodeMany, EobTokens, BitTokens, RunBits;
    if s.eobrun > 0 {
      RenderAppend(s.toks, FlushTokens(s.eobrun, s.be), ac, ac, []);
      FlushRender(s.eobrun, s.be, ac);
      forall rest: seq<bool>
        ensures DecodeMany(dec, hs, 0, Render(Flush(s).toks, ac, ac) + rest) == Some(Decoded(outs, 0, rest))
      {
        Associate(Render(s.toks, ac, ac), RunBits(s.eobrun, s.be, ac), rest);
      }
    } else {
      assert s.toks + [] == s.toks;
    }
  }

  /** A block that emits nothing joins the run. */
  lemma JoinRun(dec: BlockDecoder, hs: seq<Block>, outs: seq<Block>, s: Enc, h: Block, out: Block, p: Part, ac: Codes)
    requires Follows(dec, hs, outs, s, ac) && Reads(dec, h, out, p, ac) && p.toks == [] && s.eobrun < MAX_EOBRUN
    ensures Pending(dec, hs + [h], outs + [out], s.toks, s.eobrun + 1, s.be + p.bits, ac)
  {
    hide DecodeMany, EobTokens, Render;
    forall e: nat, rest: seq<bool> | s.eobrun + 1 <= e <= MAX_EOBRUN && AllSendable(EobTokens(e), ac, ac)
      ensures DecodeMany(dec, hs + [h], 0, Render(s.toks, ac, ac) + (RunBits(e, s.be + p.bits, ac) + rest)) ==
        Some(Decoded(outs + [out], e - (s.eobrun + 1), rest))
    {
      var stream := Render(s.toks, ac, ac) + (RunBits(e, s.be + p.bits, ac) + rest);
      if s.eobrun == 0 {
        var tail := RunBits(e, p.bits, ac) + rest;
        assert s.be + p.bits == p.bits;
        NoTokens(ac, tail);
        DecodeSnoc(dec, hs, h, 0, stream, outs, 0, tail, out, e - 1, rest);
      } else {
        var x := Render(EobTokens(e), ac, ac);
        Associate(x, s.be, p.bits);
        Associate(RunBits(e, s.be, ac), p.bits, rest);
        DecodeSnoc(dec, hs, h, 0, stream, outs, e - s.eobrun, p.bits + rest, out, e - s.eobrun - 1, rest);
      }
    }
  }

  lemma NoTokens(ac: Codes, tail: seq<bool>)
    ensures Render([], ac, ac) + tail == tail
  {
  }

  /** A block's own tokens behind a flushed run. */
  lemma OwnTokens(dec: BlockDecoder, hs: seq<Block>, outs: seq<Block>, toks: seq<Token>, h: Block, out: Block, p: Part,
                  ac: Codes)
    requires AllSendable(toks, ac, ac) && AllSendable(toks + p.toks, ac, ac)
    requires Idle(dec, hs, outs, toks, ac) && Reads(dec, h, out, p, ac)
    ensures !Trailing(p) ==> Idle(dec, hs + [h], outs + [out], toks + p.toks, ac)
    ensures Trailing(p) ==> Pending(dec, hs + [h], outs + [out], toks + p.toks, 1, p.bits, ac)
  {
    hide DecodeMany, EobTokens, RunBits;
    RenderAppend(toks, p.toks, ac, ac, []);
    var x, y := Render(toks, ac, ac), Render(p.toks, ac, ac);
    if !Trailing(p) {
      forall rest: seq<bool>
        ensures DecodeMany(dec, hs + [h], 0, Render(toks + p.toks, ac, ac) + rest) ==
          Some(Decoded(outs + [out], 0, rest))
      {
        Associate(x, y, rest);
        DecodeSnoc(dec, hs, h, 0, x + (y + rest), outs, 0, y + rest, out, 0, rest);
      }
    } else {
      forall e: nat, rest: seq<bool> | 1 <= e <= MAX_EOBRUN && AllSendable(EobTokens(e), ac, ac)
        ensures DecodeMany(dec, hs + [h], 0, Render(toks + p.toks, ac, ac) + (RunBits(e, p.bits, ac) + rest)) ==
          Some(Decoded(outs + [out], e - 1, rest))
      {
        var tail := RunBits(e, p.bits, ac) + rest;
        Associate(x, y, tail);
        DecodeSnoc(dec, hs, h, 0, x + (y + tail), outs, 0, y + tail, out, e - 1, rest);
      }
    }
  }

  /** Absorbing a block keeps what was emitted decodable. */
  lemma AbsorbFollows(dec: BlockDecoder, hs: seq<Block>, outs: seq<Block>, s: Enc, h: Block, out: Block, p: Part,
                      ac: Codes)
    requires EncOk(s) && Follows(dec, hs, outs, s, ac) && Reads(dec, h, out, p, ac)
    requires AllSendable(Absorb(s, p).toks, ac, ac)
    ensures Follows(dec, hs + [h], outs + [out], Absorb(s, p), ac)
  {
    hide DecodeMany, EobTokens, RunBits, Reads, Idle, Pending;
    ReadsOk(dec, h, out, p, ac);
    var b := Begin(s, p);
    var t := if Trailing(p) then b.(eobrun := b.eobrun + 1, be := b.be + p.bits) else b;
    FlushPrefix(t, ac);
    if p.toks == [] {
      JoinRun(dec, hs, outs, s, h, out, p, ac);
    } else {
      SendableAppend(Flush(s).toks, p.toks, ac, ac);
      FlushFollows(dec, hs, outs, s, ac);
      OwnTokens(dec, hs, outs, Flush(s).toks, h, out, p, ac);
      assert [] + p.bits == p.bits;
    }
    if Trailing(p) && MustFlush(t) {
      FlushFollows(dec, hs + [h], outs + [out], t, ac);
    }
  }

  lemma ReadsOk(dec: BlockDecoder, h: Block, out: Block, p: Part, ac: Codes)
    requires Reads(dec, h, out, p, ac)
    ensures PartOk(p)
  {
  }

  /** What is sendable after a flush was before it. */
  lemma FlushPrefix(s: Enc, ac: Codes)
    ensures AllSendable(Flush(s).toks, ac, ac) ==> AllSendable(s.toks, ac, ac)
  {
    SendableAppend(s.toks, FlushTokens(s.eobrun, s.be), ac, ac);
  }

  ghost predicate ReadsAll(dec: BlockDecoder, hs: seq<Block>, outs: seq<Block>, ps: seq<Part>, ac: Codes)
  {
    |hs| == |outs| == |ps| && forall i :: 0 <= i < |hs| ==> Reads(dec, hs[i], outs[i], ps[i], ac)
  }

  lemma {:induction false} AbsorbAllFollows(dec: BlockDecoder, hs0: seq<Block>, outs0: seq<Block>, s: Enc,
                                            hs: seq<Block>, outs: seq<Block>, ps: seq<Part>, ac: Codes)
    requires EncOk(s) && Follows(dec, hs0, outs0, s, ac) && ReadsAll(dec, hs, outs, ps, ac)
    requires AllSendable(AbsorbAll(s, ps).toks, ac, ac)
    ensures EncOk(AbsorbAll(s, ps)) && Follows(dec, hs0 + hs, outs0 + outs, AbsorbAll(s, ps), ac)
    decreases |hs|
  {
    hide Reads, Follows, Absorb, EncOk;
    if hs == [] {
      assert hs0 + hs == hs0 && outs0 + outs == outs0;
    } else {
      var t := Absorb(s, ps[0]);
      AbsorbPrefix(t, ps[1..], ac);
      ReadsOk(dec, hs[0], outs[0], ps[0], ac);
      AbsorbKeeps(s, ps[0]);
      AbsorbFollows(dec, hs0, outs0, s, hs[0], outs[0], ps[0], ac);
      AbsorbAllFollows(dec, hs0 + [hs[0]], outs0 + [outs[0]], t, hs[1..], outs[1..], ps[1..], ac);
      assert (hs0 + [hs[0]]) + hs[1..] == hs0 + hs && (outs0 + [outs[0]]) + outs[1..] == outs0 + outs;
    }
  }

  lemma {:induction false} AbsorbPrefix(s: Enc, ps: seq<Part>, ac: Codes)
    requires AllSendable(AbsorbAll(s, ps).toks, ac, ac)
    ensures AllSendable(s.toks, ac, ac)
    decreases |ps|
  {
    if ps != [] {
      AbsorbPrefix(Absorb(s, ps[0]), ps[1..], ac);
      AbsorbExtends(s, ps[0]);
      var more :| Absorb(s, ps[0]).toks == s.toks + more;
      SendableAppend(s.toks, more, ac, ac);
    }
  }

  lemma AbsorbExtends(s: Enc, p: Part)
    ensures exists more :: Absorb(s, p).toks == s.toks + more
  {
    hide FlushTokens, MustFlush;
    var b := Begin(s, p);
    var fl := FlushTokens(s.eobrun, s.be);
    if p.toks == [] {
      assert b.toks == s.toks + [];
    } else {
      assert b.toks == s.toks + (fl + p.toks);
    }
    var m :| b.toks == s.toks + m;
    var t := b.(eobrun := b.eobrun + 1, be := b.be + p.bits);
    if Trailing(p) && MustFlush(t) {
      assert Absorb(s, p).toks == s.toks + (m + FlushTokens(t.eobrun, t.be));
    }
  }

  lemma FreshFollows(dec: BlockDecoder, ac: Codes)
    ensures Follows(dec, [], [], Enc([], 0, []), ac)
  {
    forall rest: seq<bool>
      ensures DecodeMany(dec, [], 0, Render([], ac, ac) + rest) == Some(Decoded([], 0, rest))
    {
      NoTokens(ac, rest);
    }
  }

  /** The tokens of a restart interval: its blocks in turn, then the run that is
      still pending. */
  function IntervalTokens(ps: seq<Part>): seq<Token>
  {
    Flush(AbsorbAll(Enc([], 0, []), ps)).toks
  }

  /** Decoding a restart interval gives back its blocks, whatever padding
      follows. */
  lemma IntervalDecodes(dec: BlockDecoder, hs: seq<Block>, outs: seq<Block>, ps: seq<Part>, ac: Codes, rest: seq<bool>)
    requires ReadsAll(dec, hs, outs, ps, ac) && AllSendable(IntervalTokens(ps), ac, ac)
    ensures DecodeMany(dec, hs, 0, Render(IntervalTokens(ps), ac, ac) + rest) == Some(Decoded(outs, 0, rest))
  {
    hide Reads, AbsorbAll;
    var s := Enc([], 0, []);
    FreshFollows(dec, ac);
    FlushPrefix(AbsorbAll(s, ps), ac);
    AbsorbAllFollows(dec, [], [], s, hs, outs, ps, ac);
    assert [] + hs == hs && [] + outs == outs;
    FlushFollows(dec, hs, outs, AbsorbAll(s, ps), ac);
  }

  // ----- Reading a run symbol -----

  /** An EOBn symbol and its n bits, as a decoder meets them. */
  lemma EobReads(t: Table, e: nat, x: seq<bool>) returns (s1: seq<bool>)
    requires TableOk(t) && 1 <= e <= MAX_EOBRUN && AllSendable(EobTokens(e), t.codes, t.codes)
    ensures Log2(e) <= 14 && Pow2(Log2(e)) <= e
    ensures t.read(Render(EobTokens(e), t.codes, t.codes) + x) == Some((Log2(e) * 16, s1))
    ensures Receive(Log2(e), s1) == Some((e - Pow2(Log2(e)), x))
  {
    hide NBits, Render, AllSendable, TableOk, Receive, ToBits;
    var n := Log2(e);
    LogRange(e);
    if n > 0 {
      assert EobTokens(e) == [Sym(true, n * 16), Raw(e, n)];
      RenderTwo(Sym(true, n * 16), Raw(e, n), t.codes, t.codes, x);
      s1 := ToBits(e, n) + x;
      ReceiveToBits(e, n, x);
      UniqueQuotient(e, Pow2(n), 1, e - Pow2(n));
    } else {
      assert EobTokens(e) == [Sym(true, 0)];
      OneSendable(Sym(true, 0), t.codes);
      RenderOne(Sym(true, 0), t.codes, t.codes);
      s1 := x;
      ReceiveNone(x);
      assert e == 1 && Pow2(0) == 1;
    }
    SymDecodes(t, n * 16, s1);
  }

  lemma OneSendable(tok: Token, ac: Codes)
    ensures AllSendable([tok], ac, ac) <==> Sendable(tok, ac, ac)
  {
    assert [tok][1..] == [];
  }

  lemma ReceiveNone(x: seq<bool>)
    ensures Receive(0, x) == Some((0, x))
  {
  }

  lemma LogRange(e: nat)
    requires 1 <= e <= MAX_EOBRUN
    ensures Log2(e) <= 14 && Pow2(Log2(e)) <= e < 2 * Pow2(Log2(e))
  {
    NBitsRange(e);
    var n := Log2(e);
    assert Pow2(15) == 0x8000;
    if n > 14 {
      Pow2Mono(15, n);
    }
  }
}
