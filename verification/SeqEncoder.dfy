/** encode_mcu_huff and its parts: tokens through the bit accumulator to a
    destination that may suspend. */
module SeqEncoder {
  import opened Bits
  import opened Stuffing
  import opened BitWriter
  import opened ZigzagOrder
  import opened DerivedTable
  import opened SeqTokens

  datatype Status = Ok | Suspended | BadCoef | MissingCode

  // ----- What an emission amounts to -----

  /** The bytes an emission writes, the bits it leaves pending, and the error
      that ends it, if any. */
  datatype Run = Run(bytes: seq<nat>, pending: seq<bool>, err: Status)

  function SendBits(pending: seq<bool>, b: seq<bool>): (r: Run)
    ensures r.err == Ok
  {
    Run(Stuff(pending + b), Rest(pending + b), Ok)
  }

  function SendCode(pending: seq<bool>, code: nat, size: nat): Run
  {
    if size == 0 then Run([], pending, MissingCode) else SendBits(pending, ToBits(code, size))
  }

  function SendToken(pending: seq<bool>, tok: Token, dc: Codes, ac: Codes): Run
  {
    match tok
    case Sym(isAc, s) =>
      var t := if isAc then ac else dc;
      if HasCode(t, s) then SendBits(pending, SymBits(t, s)) else Run([], pending, MissingCode)
    case Raw(v, n) => SendBits(pending, ToBits(v, n))
    case Bad => Run([], pending, BadCoef)
  }

  /** First a, then b from where a left off; an error in a ends it. */
  function Then(a: Run, b: Run): Run
  {
    if a.err != Ok then a else Run(a.bytes + b.bytes, b.pending, b.err)
  }

  function SendTokens(pending: seq<bool>, toks: seq<Token>, dc: Codes, ac: Codes): (r: Run)
    decreases |toks|
  {
    if toks == [] then Run([], pending, Ok)
    else
      var a := SendToken(pending, toks[0], dc, ac);
      Then(a, SendTokens(a.pending, toks[1..], dc, ac))
  }

  lemma {:induction false} SendAppend(pending: seq<bool>, a: seq<Token>, b: seq<Token>, dc: Codes, ac: Codes)
    ensures SendTokens(pending, a + b, dc, ac) ==
      Then(SendTokens(pending, a, dc, ac), SendTokens(SendTokens(pending, a, dc, ac).pending, b, dc, ac))
    decreases |a|
  {
    hide SendToken;
    if a == [] {
      assert a + b == b;
      var r := SendTokens(pending, b, dc, ac);
      assert [] + r.bytes == r.bytes;
    } else {
      var h := SendToken(pending, a[0], dc, ac);
      assert (a + b)[0] == a[0] && (a + b)[1..] == a[1..] + b;
      SendAppend(h.pending, a[1..], b, dc, ac);
      var x := SendTokens(h.pending, a[1..], dc, ac);
      var y := SendTokens(x.pending, b, dc, ac);
      assert h.bytes + (x.bytes + y.bytes) == (h.bytes + x.bytes) + y.bytes;
    }
  }

  /** What stops a run of tokens: a coefficient out of range or a symbol without a code,
      whichever comes first. */
  lemma {:induction false} WhatStops(pending: seq<bool>, toks: seq<Token>, dc: Codes, ac: Codes)
    ensures var st := SendTokens(pending, toks, dc, ac).err;
      && (st == Ok ==> Bad !in toks && AllSendable(toks, dc, ac)) && (st == BadCoef ==> Bad in toks)
      && (st == MissingCode ==> exists i :: 0 <= i < |toks| && toks[i].Sym? && !Sendable(toks[i], dc, ac))
      && (st == Ok || st == BadCoef || st == MissingCode)
    decreases |toks|
  {
    if toks != [] {
      var p := SendToken(pending, toks[0], dc, ac).pending;
      WhatStops(p, toks[1..], dc, ac);
      if SendToken(pending, toks[0], dc, ac).err == Ok && SendTokens(p, toks[1..], dc, ac).err == MissingCode {
        var i :| 0 <= i < |toks[1..]| && toks[1..][i].Sym? && !Sendable(toks[1..][i], dc, ac);
        assert toks[i + 1].Sym? && !Sendable(toks[i + 1], dc, ac);
      }
    }
  }

  /** What stops a block. */
  lemma BlockStops(pending: seq<bool>, z: Block, pred: int, dc: Codes, ac: Codes)
    ensures var st := SendTokens(pending, BlockTokens(z, pred), dc, ac).err;
      && (st == Ok ==> BlockFits(z, pred)) && (st == BadCoef ==> !BlockFits(z, pred))
      && (st == MissingCode ==> SymbolMissing(BlockTokens(z, pred), dc, ac))
  {
    hide BlockTokens, SendTokens;
    var toks := BlockTokens(z, pred);
    WhatStops(pending, toks, dc, ac);
    BlockInRange(z, pred);
  }

  ghost predicate SymbolMissing(toks: seq<Token>, dc: Codes, ac: Codes)
  {
    exists i :: 0 <= i < |toks| && toks[i].Sym? && !Sendable(toks[i], dc, ac)
  }

  /** Sending bits in two goes is sending them at once. */
  lemma SendTwice(pending: seq<bool>, a: seq<bool>, b: seq<bool>)
    ensures Then(SendBits(pending, a), SendBits(SendBits(pending, a).pending, b)) == SendBits(pending, a + b)
  {
    assert pending + (a + b) == (pending + a) + b;
    StuffAppend(pending + a, b);
  }

  /** Without an error, sending tokens is sending their bits. */
  lemma {:induction false} SendRenders(pending: seq<bool>, toks: seq<Token>, dc: Codes, ac: Codes)
    requires |pending| < 8
    ensures SendTokens(pending, toks, dc, ac).err == Ok <==> AllSendable(toks, dc, ac)
    ensures AllSendable(toks, dc, ac) ==> SendTokens(pending, toks, dc, ac) == SendBits(pending, Render(toks, dc, ac))
    decreases |toks|
  {
    if toks == [] {
      assert pending + [] == pending;
    } else {
      var h := SendToken(pending, toks[0], dc, ac);
      SendRenders(h.pending, toks[1..], dc, ac);
      if AllSendable(toks, dc, ac) {
        var x := TokenBits(toks[0], dc, ac);
        SendTwice(pending, x, Render(toks[1..], dc, ac));
      }
    }
  }

  lemma ZeroTokens(z: Block, k: nat, r: nat)
    requires k < DCTSIZE2 && z[k] == 0
    ensures ACTokens(z, k, r) == ACTokens(z, k + 1, r + 1)
  {
  }

  lemma SendOne(pending: seq<bool>, tok: Token, dc: Codes, ac: Codes)
    ensures SendTokens(pending, [tok], dc, ac) == SendToken(pending, tok, dc, ac)
  {
    var a := SendToken(pending, tok, dc, ac);
    assert [tok][1..] == [];
    assert a.bytes + [] == a.bytes;
  }

  lemma SendPair(pending: seq<bool>, x: Token, y: Token, dc: Codes, ac: Codes)
    ensures SendTokens(pending, [x, y], dc, ac) ==
      Then(SendToken(pending, x, dc, ac), SendToken(SendToken(pending, x, dc, ac).pending, y, dc, ac))
  {
    assert [x, y][1..] == [y];
    SendOne(SendToken(pending, x, dc, ac).pending, y, dc, ac);
  }

  /** A derived table's arrays, with sizes that fit the accumulator. */
  ghost predicate TableSized(t: Codes)
  {
    |t.co| == 256 && |t.si| == 256 && forall s :: 0 <= s < 256 ==> t.si[s] <= 16
  }

  /** Number of bits needed for a magnitude. */
  method MagnitudeBits(v: nat) returns (nbits: nat)
    ensures nbits == NBits(v)
  {
    nbits := 0;
    var temp := v;
    while temp != 0
      invariant nbits + NBits(temp) == NBits(v)
    {
      nbits := nbits + 1;
      temp := temp / 2;
    }
  }

  // ----- The working state -----

  /** What the encoder has of the destination, its accumulator and its DC
      predictions while it writes one MCU. `out` is everything written so far;
      `free` is the room left before the destination must be asked to empty its
      buffer; it then offers `cap` bytes, or refuses when it suspends. */
  class Work {
    const cap: nat
    const suspends: bool
    var out: seq<nat>
    var free: nat
    var putBuffer: nat
    var putBits: nat
    var lastDc: seq<int>
    ghost var pending: seq<bool>

    ghost predicate Valid()
      reads this
    {
      && cap > 0 && free > 0
      && putBits == |pending| < 8
      && Holds(putBuffer, pending)
    }

    constructor (cap: nat, suspends: bool, out: seq<nat>, free: nat, putBuffer: nat, putBits: nat, lastDc: seq<int>,
                 ghost pending: seq<bool>)
      requires cap > 0 && free > 0 && putBits == |pending| < 8 && Holds(putBuffer, pending)
      ensures Valid()
      ensures this.cap == cap && this.suspends == suspends && this.out == out && this.free == free
      ensures this.putBuffer == putBuffer && this.putBits == putBits
      ensures this.lastDc == lastDc && this.pending == pending
    {
      this.cap, this.suspends, this.out, this.free := cap, suspends, out, free;
      this.putBuffer, this.putBits, this.lastDc, this.pending := putBuffer, putBits, lastDc, pending;
    }

    /** What has happened since the state with output out0 and room free0, when
        an emission came to r: unless the destination ran full, exactly r's
        bytes were written. */
    ghost predicate After(out0: seq<nat>, free0: nat, r: Run, st: Status)
      reads this
    {
      if suspends && |r.bytes| >= free0 then st == Suspended
      else
        && st == r.err
        && (st == Ok ==>
              && Valid() && out == out0 + r.bytes && pending == r.pending
              && (suspends ==> free == free0 - |r.bytes|))
    }

    /** One emission after another. */
    lemma Chain(out0: seq<nat>, free0: nat, a: Run, out1: seq<nat>, free1: nat, b: Run, st: Status)
      requires a.err == Ok && out1 == out0 + a.bytes
      requires suspends ==> |a.bytes| < free0 && free1 == free0 - |a.bytes|
      requires After(out1, free1, b, st)
      ensures After(out0, free0, Then(a, b), st)
    {
      assert (out0 + a.bytes) + b.bytes == out0 + (a.bytes + b.bytes);
    }

    /** Once stopped, nothing more is emitted. */
    lemma Stop(out0: seq<nat>, free0: nat, a: Run, b: Run, st: Status)
      requires After(out0, free0, a, st) && st != Ok
      ensures After(out0, free0, Then(a, b), st)
    {
    }

    /** emit_byte; false when the destination suspends. */
    method EmitByte(b: nat) returns (ok: bool)
      requires free > 0 && cap > 0
      modifies `out, `free
      ensures ok <==> !(suspends && old(free) == 1)
      ensures out == old(out) + [b]
      ensures ok ==> free > 0 && (suspends ==> free == old(free) - 1)
    {
      out := out + [b];
      free := free - 1;
      if free == 0 {
        if suspends {
          return false;
        }
        free := cap;
      }
      return true;
    }

    /** A data byte, with its stuffed zero if it is 0xFF; false when the destination
        suspends. */
    method EmitDataByte(c: nat) returns (ok: bool)
      requires free > 0 && cap > 0
      modifies `out, `free
      ensures ok <==> !(suspends && |StuffByte(c)| >= old(free))
      ensures ok ==>
        free > 0 && out == old(out) + StuffByte(c) && (suspends ==> free == old(free) - |StuffByte(c)|)
    {
      ok := EmitByte(c);
      if ok && c == FF {
        ok := EmitByte(0);
      }
    }

    /** emit_bits. */
    method EmitBits(code: nat, size: nat) returns (st: Status)
      requires Valid() && size <= 16
      modifies `out, `free, `putBuffer, `putBits, `pending
      ensures After(old(out), old(free), SendCode(old(pending), code, size), st)
    {
      hide Stuff, Rest, StuffByte, BitWriter.Holds, Merge, TopByte, ToBits, Value;
      if size == 0 {
        assert out + [] == out;
        return MissingCode;
      }
      ghost var all := pending + ToBits(code, size);
      var bits := putBits + size;
      var buf: nat := Merge(putBuffer, putBits, code, size);
      MergeHolds(putBuffer, pending, code, size);
      ghost var done, left := [], all;
      while bits >= 8
        invariant cap > 0 && free > 0 && bits == |left| <= 24 && Holds(buf, left)
        invariant Stuff(all) == done + Stuff(left) && Rest(all) == Rest(left)
        invariant out == old(out) + done
        invariant suspends ==> free == old(free) - |done| && |done| < old(free)
      {
        var c := TopByte(buf);
        TopByteHolds(buf, left);
        ShiftHolds(buf, left);
        ByteOff(left, done);
        var ok := EmitDataByte(c);
        done := done + StuffByte(c);
        left := left[8..];
        if !ok {
          return Suspended;
        }
        buf := (buf * 256) % BitWriter.WORD;
        bits := bits - 8;
      }
      ByteOff(left, done);
      putBuffer, putBits, pending := buf, bits, left;
      return Ok;
    }

    /** The first byte of what is left goes to what is done. */
    lemma ByteOff(left: seq<bool>, done: seq<nat>)
      ensures |left| < 8 ==> Stuff(left) == [] && Rest(left) == left
      ensures |left| >= 8 ==>
        && done + Stuff(left) == (done + StuffByte(Value(left[..8]))) + Stuff(left[8..])
        && Rest(left) == Rest(left[8..])
    {
    }

    /** A Huffman symbol of a table. */
    method EmitSymbol(t: Codes, s: nat, ghost isAc: bool, ghost dc: Codes, ghost ac: Codes) returns (st: Status)
      requires Valid() && TableSized(t) && s < 256 && t == if isAc then ac else dc
      modifies `out, `free, `putBuffer, `putBits, `pending
      ensures After(old(out), old(free), SendToken(old(pending), Sym(isAc, s), dc, ac), st)
    {
      st := EmitBits(t.co[s], t.si[s]);
    }

    /** A symbol and the value bits that follow it. */
    method EmitPair(t: Codes, s: nat, ghost isAc: bool, v: int, n: nat, ghost dc: Codes, ghost ac: Codes)
      returns (st: Status)
      requires Valid() && TableSized(t) && s < 256 && t == (if isAc then ac else dc) && 1 <= n <= 16
      modifies `out, `free, `putBuffer, `putBits, `pending
      ensures After(old(out), old(free), SendTokens(old(pending), [Sym(isAc, s), Raw(ValueWord(v), n)], dc, ac), st)
    {
      ghost var out0, free0, p0 := out, free, pending;
      ghost var a := SendToken(p0, Sym(isAc, s), dc, ac);
      ghost var b := SendToken(a.pending, Raw(ValueWord(v), n), dc, ac);
      SendPair(p0, Sym(isAc, s), Raw(ValueWord(v), n), dc, ac);
      st := EmitSymbol(t, s, isAc, dc, ac);
      if st != Ok {
        Stop(out0, free0, a, b, st);
        return;
      }
      ghost var out1, free1 := out, free;
      var temp2 := v;
      if v < 0 {
        temp2 := temp2 - 1;
      }
      st := EmitBits(temp2 % SeqTokens.WORD, n);
      Chain(out0, free0, a, out1, free1, b, st);
    }

    /** The DC difference, per section F.1.2.1. */
    method EncodeDC(diff: int, dc: Codes, ghost ac: Codes) returns (st: Status)
      requires Valid() && TableSized(dc)
      modifies `out, `free, `putBuffer, `putBits, `pending
      ensures After(old(out), old(free), SendTokens(old(pending), DCTokens(diff), dc, ac), st)
    {
      var nbits := MagnitudeBits(if diff < 0 then -diff else diff);
      if nbits > MAX_COEF_BITS + 1 {
        SendOne(pending, Bad, dc, ac);
        return BadCoef;
      }
      if nbits == 0 {
        SendOne(pending, Sym(false, 0), dc, ac);
        st := EmitSymbol(dc, 0, false, dc, ac);
      } else {
        st := EmitPair(dc, nbits, false, diff, nbits, dc, ac);
      }
    }

    /** A nonzero AC coefficient after r < 16 zeros. */
    method EncodeCoef(v: int, r: nat, ghost dc: Codes, ac: Codes) returns (st: Status)
      requires Valid() && TableSized(ac) && v != 0 && r <= 15
      modifies `out, `free, `putBuffer, `putBits, `pending
      ensures After(old(out), old(free), SendTokens(old(pending), CoefPair(v, r), dc, ac), st)
    {
      var nbits := MagnitudeBits(if v < 0 then -v else v);
      if nbits > MAX_COEF_BITS {
        SendOne(pending, Bad, dc, ac);
        return BadCoef;
      }
      st := EmitPair(ac, r * 16 + nbits, true, v, nbits, dc, ac);
    }

    /** The AC coefficients, per section F.1.2.2. */
    method EncodeAC(block: Block, ghost dc: Codes, ac: Codes) returns (st: Status)
      requires Valid() && TableSized(ac)
      modifies `out, `free, `putBuffer, `putBits, `pending
      ensures After(old(out), old(free), SendTokens(old(pending), ACTokens(Zigzag(block), 1, 0), dc, ac), st)
    {
      hide SendTokens, Natural, ACTokens;
      ghost var out0, free0, p0 := out, free, pending;
      ghost var z := Zigzag(block);
      ghost var goal := SendTokens(p0, ACTokens(z, 1, 0), dc, ac);
      ghost var sofar := Run([], p0, Ok);
      var r := 0;
      var k := 1;
      while k < DCTSIZE2
        invariant 1 <= k <= DCTSIZE2
        invariant sofar.err == Ok && After(out0, free0, sofar, Ok)
        invariant goal == Then(sofar, SendTokens(sofar.pending, ACTokens(z, k, r), dc, ac))
        decreases DCTSIZE2 - k
      {
        var temp := block[Natural(k)];
        if temp == 0 {
          ZeroTokens(z, k, r);
          r := r + 1;
        } else {
          while r > 15
            invariant sofar.err == Ok && After(out0, free0, sofar, Ok)
            invariant goal == Then(sofar, SendTokens(sofar.pending, ACTokens(z, k, r), dc, ac))
          {
            st, sofar := EmitZrl(z, k, r, dc, ac, out0, free0, sofar, goal);
            if st != Ok {
              return;
            }
            r := r - 16;
          }
          st, sofar := EmitNext(temp, z, k, r, dc, ac, out0, free0, sofar, goal);
          if st != Ok {
            return;
          }
          r := 0;
        }
        k := k + 1;
      }
      st := EmitEnd(z, r, dc, ac, out0, free0, sofar, goal);
    }

    /** The end-of-block symbol, if the block ends in zeros. */
    method EmitEnd(ghost z: Block, r: nat, ghost dc: Codes, ac: Codes,
                   ghost out0: seq<nat>, ghost free0: nat, ghost sofar: Run, ghost goal: Run)
      returns (st: Status)
      requires Valid() && TableSized(ac)
      requires sofar.err == Ok && After(out0, free0, sofar, Ok)
      requires goal == Then(sofar, SendTokens(sofar.pending, ACTokens(z, DCTSIZE2, r), dc, ac))
      modifies `out, `free, `putBuffer, `putBits, `pending
      ensures After(out0, free0, goal, st)
    {
      if r > 0 {
        ghost var out1, free1 := out, free;
        SendOne(sofar.pending, Sym(true, EOB), dc, ac);
        st := EmitSymbol(ac, EOB, true, dc, ac);
        Chain(out0, free0, sofar, out1, free1, SendToken(sofar.pending, Sym(true, EOB), dc, ac), st);
      } else {
        assert SendTokens(sofar.pending, [], dc, ac) == Run([], sofar.pending, Ok);
        assert sofar.bytes + [] == sofar.bytes;
        st := Ok;
      }
    }

    /** One ZRL symbol of the run of r zeros before position k. */
    method EmitZrl(ghost z: Block, ghost k: nat, ghost r: nat, ghost dc: Codes, ac: Codes,
                   ghost out0: seq<nat>, ghost free0: nat, ghost sofar: Run, ghost goal: Run)
      returns (st: Status, ghost now: Run)
      requires Valid() && TableSized(ac) && k < DCTSIZE2 && z[k] != 0 && r > 15
      requires sofar.err == Ok && After(out0, free0, sofar, Ok)
      requires goal == Then(sofar, SendTokens(sofar.pending, ACTokens(z, k, r), dc, ac))
      modifies `out, `free, `putBuffer, `putBits, `pending
      ensures st != Ok ==> After(out0, free0, goal, st)
      ensures st == Ok ==> now.err == Ok && After(out0, free0, now, Ok) && Valid()
      ensures st == Ok ==> goal == Then(now, SendTokens(now.pending, ACTokens(z, k, r - 16), dc, ac))
    {
      ghost var out1, free1 := out, free;
      ghost var a := [Sym(true, ZRL)];
      ghost var step := SendTokens(sofar.pending, a, dc, ac);
      ghost var rest := SendTokens(step.pending, ACTokens(z, k, r - 16), dc, ac);
      SendAppend(sofar.pending, a, ACTokens(z, k, r - 16), dc, ac);
      SendOne(sofar.pending, a[0], dc, ac);
      ThenAssoc(sofar, step, rest);
      st := EmitSymbol(ac, ZRL, true, dc, ac);
      Chain(out0, free0, sofar, out1, free1, step, st);
      now := Then(sofar, step);
      if st != Ok {
        Stop(out0, free0, now, rest, st);
      }
    }

    /** The coefficient at position k, after r < 16 zeros. */
    method EmitNext(v: int, ghost z: Block, ghost k: nat, r: nat, ghost dc: Codes, ac: Codes,
                    ghost out0: seq<nat>, ghost free0: nat, ghost sofar: Run, ghost goal: Run)
      returns (st: Status, ghost now: Run)
      requires Valid() && TableSized(ac) && k < DCTSIZE2 && z[k] == v != 0 && r <= 15
      requires sofar.err == Ok && After(out0, free0, sofar, Ok)
      requires goal == Then(sofar, SendTokens(sofar.pending, ACTokens(z, k, r), dc, ac))
      modifies `out, `free, `putBuffer, `putBits, `pending
      ensures st != Ok ==> After(out0, free0, goal, st)
      ensures st == Ok ==> now.err == Ok && After(out0, free0, now, Ok) && Valid()
      ensures st == Ok ==> goal == Then(now, SendTokens(now.pending, ACTokens(z, k + 1, 0), dc, ac))
    {
      ghost var out1, free1 := out, free;
      ghost var step := SendTokens(sofar.pending, CoefPair(v, r), dc, ac);
      ghost var rest := SendTokens(step.pending, ACTokens(z, k + 1, 0), dc, ac);
      SendAppend(sofar.pending, CoefPair(v, r), ACTokens(z, k + 1, 0), dc, ac);
      ThenAssoc(sofar, step, rest);
      st := EncodeCoef(v, r, dc, ac);
      Chain(out0, free0, sofar, out1, free1, step, st);
      now := Then(sofar, step);
      if st != Ok {
        Stop(out0, free0, now, rest, st);
      }
    }

    /** encode_one_block. */
    method EncodeOneBlock(block: Block, pred: int, dc: Codes, ac: Codes) returns (st: Status)
      requires Valid() && TableSized(dc) && TableSized(ac)
      modifies `out, `free, `putBuffer, `putBits, `pending
      ensures After(old(out), old(free), SendTokens(old(pending), BlockTokens(Zigzag(block), pred), dc, ac), st)
      ensures st == Ok ==> BlockFits(Zigzag(block), pred)
      ensures st == BadCoef ==> !BlockFits(Zigzag(block), pred)
      ensures st == MissingCode ==> SymbolMissing(BlockTokens(Zigzag(block), pred), dc, ac)
    {
      hide BlockFits, SymbolMissing, BlockTokens, TableSized, SendTokens, Zigzag, Valid;
      BlockStops(pending, Zigzag(block), pred, dc, ac);
      st := EncodeDCAndAC(block, pred, dc, ac);
    }

    /** First the DC difference, then the AC coefficients. */
    method EncodeDCAndAC(block: Block, pred: int, dc: Codes, ac: Codes) returns (st: Status)
      requires Valid() && TableSized(dc) && TableSized(ac)
      modifies `out, `free, `putBuffer, `putBits, `pending
      ensures After(old(out), old(free), SendTokens(old(pending), BlockTokens(Zigzag(block), pred), dc, ac), st)
    {
      ghost var out0, free0, p0 := out, free, pending;
      ghost var z := Zigzag(block);
      ghost var a := SendTokens(p0, DCTokens(z[0] - pred), dc, ac);
      ghost var b := SendTokens(a.pending, ACTokens(z, 1, 0), dc, ac);
      SendAppend(p0, DCTokens(z[0] - pred), ACTokens(z, 1, 0), dc, ac);
      st := EncodeDC(block[0] - pred, dc, ac);
      if st != Ok {
        Stop(out0, free0, a, b, st);
        return;
      }
      ghost var out1, free1 := out, free;
      st := EncodeAC(block, dc, ac);
      Chain(out0, free0, a, out1, free1, b, st);
    }

    /** flush_bits: complete the byte in progress with ones. */
    method FlushBits() returns (st: Status)
      requires Valid()
      modifies `out, `free, `putBuffer, `putBits, `pending
      ensures After(old(out), old(free), Run(SendBits(old(pending), Ones(7)).bytes, [], Ok), st)
    {
      SevenBits();
      st := EmitBits(0x7F, 7);
      if st != Ok {
        return;
      }
      putBuffer, putBits, pending := 0, 0, [];
      ZeroBits(24);
      assert ToBits(0, 24) == [] + Zeros(24);
    }

    /** emit_restart: flush, the marker, predictions back to zero. */
    method EmitRestart(restartNum: nat) returns (st: Status)
      requires Valid()
      modifies `out, `free, `putBuffer, `putBits, `pending, `lastDc
      ensures After(old(out), old(free),
                    Run(SendBits(old(pending), Ones(7)).bytes + [FF, RST0 + restartNum], [], Ok), st)
      ensures st == Ok ==> lastDc == seq(|old(lastDc)|, _ => 0)
    {
      ghost var flushed := SendBits(pending, Ones(7)).bytes;
      st := FlushBits();
      if st != Ok {
        return;
      }
      RunTwo(old(out) + flushed, FF, RST0 + restartNum);
      assert (old(out) + flushed) + [FF, RST0 + restartNum] == old(out) + (flushed + [FF, RST0 + restartNum]);
      var ok := EmitByte(FF);
      if !ok {
        return Suspended;
      }
      ok := EmitByte(RST0 + restartNum);
      if !ok {
        return Suspended;
      }
      lastDc := seq(|lastDc|, _ => 0);
    }
  }

  lemma RunTwo(bytes: seq<nat>, x: nat, y: nat)
    ensures (bytes + [x]) + [y] == bytes + [x, y]
  {
  }

  lemma ThenAssoc(a: Run, b: Run, c: Run)
    ensures Then(Then(a, b), c) == Then(a, Then(b, c))
  {
    if a.err == Ok && b.err == Ok {
      assert (a.bytes + b.bytes) + c.bytes == a.bytes + (b.bytes + c.bytes);
    }
  }

  lemma SevenBits()
    ensures ToBits(0x7F, 7) == Ones(7)
  {
    forall i: nat | i < 7
      ensures ToBits(0x7F, 7)[i] == true
    {
    }
  }
}
