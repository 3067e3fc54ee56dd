/** The progressive Huffman encoder object of jcphuff.c: output and statistics
    passes over DC and AC scans, with its end-of-band run and correction-bit
    buffer. */
module ProgEncoder {
  import opened Arith
  import opened Bits
  import opened Stuffing
  import opened BitWriter
  import opened ZigzagOrder
  import opened OptimalTable
  import opened SeqTokens
  import opened SeqEncoder
  import opened ProgTokens
  import opened ProgFirst
  import opened ProgRefine
  import opened ProgScan

  // ----- Counting a log -----

  predicate IsSymbol(o: Out, no: nat, s: nat)
  {
    o.tok.Sym? && o.tbl == no && o.tok.s == s
  }

  /** How often a symbol of table no occurs. */
  function LogCount(log: seq<Out>, no: nat, s: nat): (n: nat)
  {
    if log == [] then 0
    else LogCount(log[..|log| - 1], no, s) + if IsSymbol(log[|log| - 1], no, s) then 1 else 0
  }

  ghost predicate CountsLog(counts: seq<seq<nat>>, log: seq<Out>)
  {
    forall no: nat :: no < |counts| ==>
      |counts[no]| == SYMBOLS && forall s: nat :: s < SYMBOLS ==> counts[no][s] == LogCount(log, no, s)
  }

  lemma CountedSymbol(counts: seq<seq<nat>>, log: seq<Out>, no: nat, s: nat, isAc: bool)
    requires CountsLog(counts, log) && no < |counts| && s < SYMBOLS
    ensures CountsLog(counts[no := counts[no][s := counts[no][s] + 1]], log + [Out(no, Sym(isAc, s))])
  {
    var o := Out(no, Sym(isAc, s));
    assert (log + [o])[..|log|] == log;
  }

  /** Tokens without symbols leave the counts alone. */
  lemma {:induction false} CountedRaws(counts: seq<seq<nat>>, log: seq<Out>, more: seq<Out>)
    requires CountsLog(counts, log) && forall i :: 0 <= i < |more| ==> more[i].tok.Raw?
    ensures CountsLog(counts, log + more)
    decreases |more|
  {
    if more == [] {
      assert log + more == log;
    } else {
      var n := |more| - 1;
      CountedRaws(counts, log, more[..n]);
      assert (log + more)[..|log| + n] == log + more[..n];
    }
  }

  ghost predicate NoBad(log: seq<Out>)
  {
    forall i :: 0 <= i < |log| ==> log[i].tok != Bad
  }

  ghost predicate TablesSized(sc: PScan)
  {
    forall i :: 0 <= i < |sc.tables| ==> TableSized(sc.tables[i].codes)
  }

  /** What emitting a log comes to. Suspended stands for the can't-suspend
      error of a destination that refuses to empty its buffer. */
  ghost predicate EndsAs(sc: PScan, gather: bool, suspends: bool, log: seq<Out>, st: Status)
  {
    match st
    case Ok => NoBad(log) && (gather || LogSendable(log, sc.tables))
    case Suspended => !gather && suspends
    case BadCoef => !NoBad(log)
    case MissingCode => !gather && !LogSendable(log, sc.tables)
  }

  lemma EndsAsPrefix(sc: PScan, gather: bool, suspends: bool, a: seq<Out>, b: seq<Out>, st: Status)
    requires EndsAs(sc, gather, suspends, a, st) && st != Ok
    ensures EndsAs(sc, gather, suspends, a + b, st)
  {
    if NoBad(a + b) {
      forall i | 0 <= i < |a|
        ensures a[i].tok != Bad
      {
        assert (a + b)[i] == a[i];
      }
    }
    if LogSendable(a + b, sc.tables) {
      SplitSendable(a, b, sc.tables);
    }
  }

  // ----- The state between two emissions -----

  /** The state of the bit output after a log, from the byte position where the
      restart interval began. */
  ghost predicate Written(sc: PScan, before: seq<nat>, log: seq<Out>, out: seq<nat>, pending: seq<bool>)
  {
    && LogSendable(log, sc.tables)
    && out == before + Stuff(LogBits(log, sc.tables))
    && pending == Rest(LogBits(log, sc.tables))
  }

  lemma WrittenMore(sc: PScan, before: seq<nat>, log: seq<Out>, out: seq<nat>, pending: seq<bool>, o: Out, r: Run,
                    out': seq<nat>)
    requires Written(sc, before, log, out, pending) && OutSendable(o, sc.tables)
    requires r == SendBits(pending, OutBits(o, sc.tables)) && out' == out + r.bytes
    ensures Written(sc, before, log + [o], out', r.pending)
  {
    hide LogBits, OutBits, OutSendable, Stuff, Rest;
    assert LogSendable([o], sc.tables);
    hide LogSendable;
    LogBitsAppend(log, [o], sc.tables);
    OneOut(o, sc.tables);
    StuffAppend(LogBits(log, sc.tables), OutBits(o, sc.tables));
    AssociateBytes(before, Stuff(LogBits(log, sc.tables)), r.bytes);
  }

  /** Position of the highest bit of a run length. */
  method FloorLog2(e: nat) returns (nbits: nat)
    requires e > 0
    ensures nbits == Log2(e)
  {
    var temp := e;
    nbits := 0;
    NBitsHalf(temp);
    while temp / 2 != 0
      invariant temp > 0 && nbits + NBits(temp) == NBits(e)
    {
      temp := temp / 2;
      nbits := nbits + 1;
      NBitsHalf(temp);
    }
  }

  lemma NBitsHalf(v: nat)
    requires v > 0
    ensures NBits(v) == 1 + NBits(v / 2) && NBits(v) > 0
  {
  }

  class Phuff {
    const sc: PScan
    const gather: bool
    const w: Work
    const bitBuffer: array<bool>
    var counts: seq<seq<nat>>
    var lastDc: seq<int>
    var eobrun: nat
    var be: nat
    var restartsToGo: nat
    var nextRestartNum: nat
    ghost var start: seq<nat>     // everything written before this restart interval
    ghost var seg: seq<Out>       // what this restart interval has emitted
    ghost var before: seq<Out>    // what earlier ones have
    ghost var seg0: seq<Out>      // seg when the block in progress began
    ghost var e0: Enc             // the run that was pending then
    ghost var own: seq<Token>     // what the block itself has emitted since

    /** Output and counters agree with what was emitted. */
    ghost predicate Tracks()
      reads `counts, `start, `seg, `before, w
    {
      && PScanOk(sc) && TablesSized(sc)
      && (gather ==> |counts| == |sc.tables| && CountsLog(counts, before + seg) && NoBad(before) && NoBad(seg))
      && (!gather ==> w.Valid() && Written(sc, start, seg, w.out, w.pending))
    }

    lemma TracksEnds()
      requires Tracks()
      ensures EndsAs(sc, gather, w.suspends, seg, Ok)
    {
    }

    /** start_pass_phuff. */
    constructor (sc: PScan, gather: bool, cap: nat, suspends: bool, out: seq<nat>, free: nat)
      requires PScanOk(sc) && TablesSized(sc) && cap > 0 && free > 0
      ensures Valid() && Cur() == Fresh(sc) && restartsToGo == sc.interval && nextRestartNum == 0
      ensures fresh(w) && fresh(bitBuffer)
      ensures this.sc == sc && this.gather == gather && w.suspends == suspends && w.out == out
      ensures start == out && before == []
    {
      ZeroBits(24);
      assert ToBits(0, 24) == [] + BitWriter.Zeros(24);
      this.sc, this.gather := sc, gather;
      w := new Work(cap, suspends, out, free, 0, 0, [], []);
      bitBuffer := new bool[MAX_CORR_BITS];
      counts := seq(|sc.tables|, _ => seq(SYMBOLS, _ => 0));
      lastDc := Zeroes(|sc.dcNo|);
      eobrun, be := 0, 0;
      restartsToGo, nextRestartNum := sc.interval, 0;
      start, seg, before := out, [], [];
      seg0, e0, own := [], Enc([], 0, []), [];
      new;
      assert out + [] == out;
    }

    /** One Huffman symbol: emitted, or just counted. */
    method EmitSymbol(no: nat, s: nat, ghost isAc: bool) returns (st: Status)
      requires Tracks() && no < |sc.tables| && s < 256
      modifies w, `counts, `seg
      ensures EndsAs(sc, gather, w.suspends, old(seg) + [Out(no, Sym(isAc, s))], st)
      ensures st == Ok ==> Tracks() && seg == old(seg) + [Out(no, Sym(isAc, s))]
    {
      ghost var o := Out(no, Sym(isAc, s));
      if gather {
        counts := counts[no := counts[no][s := counts[no][s] + 1]];
        CountedSymbol(old(counts), before + seg, no, s, isAc);
        assert (before + seg) + [o] == before + (seg + [o]);
        seg := seg + [o];
        return Ok;
      }
      var codes := sc.tables[no].codes;
      st := w.EmitBits(codes.co[s], codes.si[s]);
      if st == Ok {
        WrittenMore(sc, start, seg, old(w.out), old(w.pending), o, SendBits(old(w.pending), SymBits(codes, s)), w.out);
        seg := seg + [o];
      } else if st == MissingCode {
        assert (seg + [o])[|seg|] == o;
      }
    }

    /** emit_bits with bits other than a symbol's code. */
    method EmitRaw(no: nat, v: nat, n: nat) returns (st: Status)
      requires Tracks() && 1 <= n <= 16
      modifies w, `seg
      ensures EndsAs(sc, gather, w.suspends, old(seg) + [Out(no, Raw(v, n))], st)
      ensures st == Ok ==> Tracks() && seg == old(seg) + [Out(no, Raw(v, n))]
    {
      ghost var o := Out(no, Raw(v, n));
      if gather {
        CountedRaws(counts, before + seg, [o]);
        assert (before + seg) + [o] == before + (seg + [o]);
        seg := seg + [o];
        return Ok;
      }
      st := w.EmitBits(v, n);
      if st == Ok {
        WrittenMore(sc, start, seg, old(w.out), old(w.pending), o, SendBits(old(w.pending), ToBits(v, n)), w.out);
        seg := seg + [o];
      }
    }

    /** emit_buffered_bits. */
    method EmitBuffered(from: nat, n: nat) returns (st: Status)
      requires Tracks() && from + n <= bitBuffer.Length
      modifies w, `seg
      ensures EndsAs(sc, gather, w.suspends, old(seg) + Tag(sc.acNo, BitTokens(bitBuffer[from..from + n])), st)
      ensures st == Ok ==> Tracks() && seg == old(seg) + Tag(sc.acNo, BitTokens(bitBuffer[from..from + n]))
    {
      assert Tag(sc.acNo, BitTokens([])) == [];
      hide BitTokens, Tag, Written, CountsLog, LogSendable, BitWriter.Holds;
      ghost var bits := bitBuffer[from..from + n];
      ghost var goal := seg + Tag(sc.acNo, BitTokens(bits));
      if gather {
        BitTokensRaw(sc.acNo, bits);
        CountedRaws(counts, before + seg, Tag(sc.acNo, BitTokens(bits)));
        AssociateLog(before, seg, Tag(sc.acNo, BitTokens(bits)));
        seg := goal;
        return Ok;
      }
      var pos := from;
      var left := n;
      while left > 0
        invariant from <= pos && pos + left == from + n
        invariant Tracks() && goal == seg + Tag(sc.acNo, BitTokens(bitBuffer[pos..from + n]))
      {
        ghost var rest := bitBuffer[pos + 1..from + n];
        NextBitToken(sc.acNo, bitBuffer[pos], rest);
        assert bitBuffer[pos..from + n] == [bitBuffer[pos]] + rest;
        ghost var o := Out(sc.acNo, Raw(Bit(bitBuffer[pos]), 1));
        ghost var more := Tag(sc.acNo, BitTokens(rest));
        AssociateLog(seg, [o], more);
        ghost var seg0 := seg;
        st := EmitRaw(sc.acNo, Bit(bitBuffer[pos]), 1);
        if st != Ok {
          EndsAsPrefix(sc, gather, w.suspends, seg0 + [o], more, st);
          return;
        }
        pos := pos + 1;
        left := left - 1;
      }
      assert bitBuffer[pos..from + n] == [];
      assert seg + [] == seg;
      st := Ok;
    }

    /** The symbol of the pending run and its extra bits. */
    method EmitRunSymbol() returns (st: Status)
      requires Tracks() && sc.acNo < |sc.tables| && 0 < eobrun <= MAX_EOBRUN
      modifies w, `counts, `seg
      ensures var run := RunSymbol(sc.acNo, eobrun) + RunExtra(sc.acNo, eobrun);
        && EndsAs(sc, gather, w.suspends, old(seg) + run, st)
        && (st == Ok ==> Tracks() && seg == old(seg) + run)
    {
      hide Log2, Tracks, EndsAs;
      var nbits := FloorLog2(eobrun);
      // The source's error for more than 14 bits cannot arise.
      LogRange(eobrun);
      ghost var a, b := RunSymbol(sc.acNo, eobrun), RunExtra(sc.acNo, eobrun);
      AssociateLog(seg, a, b);
      st := EmitSymbol(sc.acNo, nbits * 16, true);
      if st != Ok {
        EndsAsPrefix(sc, gather, w.suspends, old(seg) + a, b, st);
      } else if nbits != 0 {
        st := EmitRaw(sc.acNo, eobrun, nbits);
      } else {
        assert seg + b == seg;
        TracksEnds();
      }
    }

    /** emit_eobrun: the pending run and its correction bits. */
    method EmitEobrun() returns (st: Status)
      requires Tracks() && eobrun <= MAX_EOBRUN && be <= bitBuffer.Length
      requires if eobrun == 0 then be == 0 else sc.acNo < |sc.tables|
      modifies w, `counts, `seg, `eobrun, `be
      ensures var flushed := Tag(sc.acNo, FlushTokens(old(eobrun), bitBuffer[..old(be)]));
        && EndsAs(sc, gather, w.suspends, old(seg) + flushed, st)
        && (st == Ok ==> Tracks() && seg == old(seg) + flushed && eobrun == 0 && be == 0)
    {
      TracksEnds();
      if eobrun == 0 {
        NothingTagged(sc.acNo, seg);
        return Ok;
      }
      hide Tracks, EndsAs, FlushTokens, RunSymbol, RunExtra, BitTokens;
      ghost var seg0, bits := seg, bitBuffer[..be];
      ghost var run, c := RunSymbol(sc.acNo, eobrun) + RunExtra(sc.acNo, eobrun), Tag(sc.acNo, BitTokens(bits));
      FlushLog(sc.acNo, eobrun, bits, seg);
      st := EmitRunSymbol();
      if st != Ok {
        EndsAsPrefix(sc, gather, w.suspends, seg0 + run, c, st);
        return;
      }
      eobrun := 0;
      assert bitBuffer[0..0 + be] == bits;
      st := EmitBuffered(0, be);
      be := 0;
    }

    // ----- One AC block -----

    /** The pending run and its correction bits. */
    ghost function PendingRun(): Enc
      requires be <= bitBuffer.Length
      reads `eobrun, `be, bitBuffer
    {
      Enc([], eobrun, bitBuffer[..be])
    }

    ghost predicate RunOk()
      reads `eobrun, `be, bitBuffer
    {
      && bitBuffer.Length == MAX_CORR_BITS
      && eobrun < MAX_EOBRUN && be <= MAX_CORR_BITS - DCTSIZE2 + 1
      && (eobrun == 0 ==> be == 0)
    }

    /** Until the block emits something of its own, the run stays pending. */
    ghost predicate Coding()
      reads `seg, `eobrun, `be, `seg0, `e0, `own, bitBuffer
    {
      && bitBuffer.Length == MAX_CORR_BITS && EncOk(e0) && e0.toks == []
      && if own != [] then Opened()
         else seg == seg0 && eobrun == e0.eobrun && be == |e0.be| <= MAX_CORR_BITS && bitBuffer[..be] == e0.be
    }

    /** The run went out, and the block's own tokens after it. */
    ghost predicate Opened()
      reads `seg, `eobrun, `be, `seg0, `e0, `own
    {
      seg == OpenLog(sc.acNo, seg0, e0, own) && eobrun == 0 && be == 0
    }

    /** Emit the pending run, unless the block has done so. */
    method Open() returns (st: Status)
      requires Tracks() && Coding() && sc.acNo < |sc.tables|
      modifies w, `counts, `seg, `eobrun, `be
      ensures EndsAs(sc, gather, w.suspends, OpenLog(sc.acNo, seg0, e0, own), st)
      ensures st == Ok ==> Tracks() && Opened()
    {
      hide Tracks, EndsAs, FlushTokens, Tag, OpenLog;
      ghost var flushed := bitBuffer[..be];
      NoRun(sc.acNo, seg, flushed);
      NothingMore(sc.acNo, seg0, e0);
      st := EmitEobrun();
    }

    method OpenSymbol(s: nat) returns (st: Status)
      requires Tracks() && Opened() && sc.acNo < |sc.tables| && s < 256
      modifies w, `counts, `seg, `own
      ensures EndsAs(sc, gather, w.suspends, OpenLog(sc.acNo, seg0, e0, own), st)
      ensures own == old(own) + [Sym(true, s)] && (st == Ok ==> Tracks() && Opened())
    {
      hide Tracks, EndsAs, FlushTokens, OpenLog;
      OpenMore(sc.acNo, seg0, e0, own, [Sym(true, s)]);
      SingleTag(sc.acNo, Sym(true, s));
      st := EmitSymbol(sc.acNo, s, true);
      own := own + [Sym(true, s)];
    }

    method OpenRaw(v: nat, n: nat) returns (st: Status)
      requires Tracks() && Opened() && 1 <= n <= 16
      modifies w, `seg, `own
      ensures EndsAs(sc, gather, w.suspends, OpenLog(sc.acNo, seg0, e0, own), st)
      ensures own == old(own) + [Raw(v, n)] && (st == Ok ==> Tracks() && Opened())
    {
      hide Tracks, EndsAs, FlushTokens, OpenLog;
      OpenMore(sc.acNo, seg0, e0, own, [Raw(v, n)]);
      SingleTag(sc.acNo, Raw(v, n));
      st := EmitRaw(sc.acNo, v, n);
      own := own + [Raw(v, n)];
    }

    method OpenBuffered(from: nat, n: nat) returns (st: Status)
      requires Tracks() && Opened() && from + n <= bitBuffer.Length
      modifies w, `seg, `own
      ensures EndsAs(sc, gather, w.suspends, OpenLog(sc.acNo, seg0, e0, own), st)
      ensures own == old(own) + BitTokens(bitBuffer[from..from + n]) && (st == Ok ==> Tracks() && Opened())
    {
      hide Tracks, EndsAs, FlushTokens, BitTokens, OpenLog;
      OpenMore(sc.acNo, seg0, e0, own, BitTokens(bitBuffer[from..from + n]));
      st := EmitBuffered(from, n);
      own := own + BitTokens(bitBuffer[from..from + n]);
    }

    /** What the block in progress comes to when its part is p. */
    ghost function Goal(p: Part): seq<Out>
      reads `seg0, `e0
    {
      seg0 + Tag(sc.acNo, Absorb(e0, p).toks)
    }

    /** An error on the way is an error of the whole block. */
    lemma Stopped(p: Part, more: seq<Token>, st: Status)
      requires EndsAs(sc, gather, w.suspends, OpenLog(sc.acNo, seg0, e0, own), st) && st != Ok
      requires p.toks == own + more != [] && e0.toks == [] && EncOk(e0)
      ensures EndsAs(sc, gather, w.suspends, Goal(p), st)
    {
      hide EndsAs, FlushTokens;
      var rest := GoalExtends(sc.acNo, seg0, e0, own, more, p);
      EndsAsPrefix(sc, gather, w.suspends, OpenLog(sc.acNo, seg0, e0, own), rest, st);
    }

    /** A block's own tokens are out, behind the run that was pending. */
    lemma Begun(p: Part)
      requires Coding() && p.toks == own
      ensures seg == seg0 + Tag(sc.acNo, Begin(e0, p).toks) && PendingRun() == Begin(e0, p).(toks := [])
    {
      hide FlushTokens, Tag, OpenLog;
      BeginLog(sc.acNo, seg0, e0, own, p);
    }

    /** The run grows by one if the block ends in zeros or correction bits, and
        is forced out when the counter or the buffer might overflow next time.
        A first scan tests only the counter; it buffers nothing. */
    method EndBlock(r: nat, br: nat, ghost p: Part) returns (st: Status)
      requires Tracks() && Coding() && sc.acNo < |sc.tables| && be + br <= bitBuffer.Length
      requires p == Part(own, r, bitBuffer[be..be + br])
      modifies w, `counts, `seg, `eobrun, `be
      ensures EndsAs(sc, gather, w.suspends, Goal(p), st)
      ensures st == Ok ==> Tracks() && RunOk() && seg == Goal(p) && PendingRun() == Absorb(e0, p).(toks := [])
    {
      hide Tracks, EndsAs, FlushTokens, Tag, OpenLog, Absorb, Begin;
      ghost var b := Begin(e0, p);
      AbsorbedRun(e0, p, b, b.be + p.bits);
      Begun(p);
      TracksEnds();
      if r > 0 || br > 0 {
        eobrun := eobrun + 1;
        ghost var all := bitBuffer[..be] + bitBuffer[be..be + br];
        be := be + br;
        assert bitBuffer[..be] == all;
        if eobrun == MAX_EOBRUN || be > MAX_CORR_BITS - DCTSIZE2 + 1 {
          FlushedLog(sc.acNo, seg0, b.toks, FlushTokens(eobrun, all));
          st := EmitEobrun();
          return;
        }
      }
      st := Ok;
    }

    lemma CodingFits()
      requires Coding()
      ensures be + DCTSIZE2 - 1 <= bitBuffer.Length == MAX_CORR_BITS
    {
    }

    /** A block begins. */
    ghost method BeginBlock()
      requires RunOk()
      modifies `seg0, `e0, `own
      ensures seg0 == seg && e0 == PendingRun() && own == [] && Coding()
    {
      seg0, e0, own := seg, PendingRun(), [];
    }

    /** One coefficient of a first scan, after some zeros. */
    method FirstCoef(coef: int, k: nat, zeros: nat, ghost z: Block, ghost p: Part) returns (st: Status, r: nat)
      requires Tracks() && Coding() && sc.acNo < |sc.tables|
      requires k <= sc.se < DCTSIZE2 && z[k] == coef
      requires p == Behind(own, FirstPart(z, k, sc.se, sc.al, zeros))
      modifies w, `counts, `seg, `eobrun, `be, `own
      ensures st != Ok ==> EndsAs(sc, gather, w.suspends, Goal(p), st)
      ensures st == Ok ==> Tracks() && Coding() && p == Behind(own, FirstPart(z, k + 1, sc.se, sc.al, r))
    {
      hide Tracks, EndsAs, FlushTokens, OpenLog, FirstPart, Goal;
      r := zeros;
      st := Ok;
      FirstStep(z, k, sc.se, sc.al, zeros);
      if coef == 0 {
        NoMagnitude(sc.al);
        r := r + 1;
        return;
      }
      var temp := if coef < 0 then -coef else coef;
      temp := Shr(temp, sc.al);
      if temp == 0 {
        r := r + 1;
        return;
      }
      st := Open();
      if st != Ok {
        Stopped(p, FirstPart(z, k, sc.se, sc.al, r).toks, st);
        return;
      }
      while r > 15
        invariant Tracks() && Opened() && Coding0()
        invariant p == Behind(own, FirstPart(z, k, sc.se, sc.al, r))
      {
        FirstStep(z, k, sc.se, sc.al, r);
        ghost var q := FirstPart(z, k, sc.se, sc.al, r - 16).toks;
        assert own + ([Sym(true, ZRL)] + q) == (own + [Sym(true, ZRL)]) + q;
        st := OpenSymbol(ZRL);
        if st != Ok {
          Stopped(p, q, st);
          return;
        }
        r := r - 16;
      }
      FirstStep(z, k, sc.se, sc.al, r);
      st := FirstValue(coef, temp, r, p, FirstPart(z, k + 1, sc.se, sc.al, 0).toks);
      r := 0;
    }

    ghost predicate Coding0()
      reads `e0, bitBuffer
    {
      bitBuffer.Length == MAX_CORR_BITS && EncOk(e0) && e0.toks == []
    }

    /** Symbol and value bits of a coefficient of magnitude temp. */
    method FirstValue(coef: int, temp: nat, r: nat, ghost p: Part, ghost later: seq<Token>) returns (st: Status)
      requires Tracks() && Opened() && Coding0() && sc.acNo < |sc.tables|
      requires temp == Magnitude(coef, sc.al) != 0 && r <= 15
      requires p.toks == own + (CoefPair(Approx(coef, sc.al), r) + later)
      modifies w, `counts, `seg, `own
      ensures st != Ok ==> EndsAs(sc, gather, w.suspends, Goal(p), st)
      ensures st == Ok ==> Tracks() && Opened() && own == old(own) + CoefPair(Approx(coef, sc.al), r)
    {
      hide Tracks, FlushTokens, OpenLog, Goal;
      ghost var v := Approx(coef, sc.al);
      ZeroApprox(coef, sc.al);
      var nbits := MagnitudeBits(temp);
      if nbits > MAX_COEF_BITS {
        OutOfRange(own, later, p);
        return BadCoef;
      }
      var temp2: int := temp;
      if coef < 0 {
        temp2 := -temp2 - 1;
      }
      hide EndsAs;
      ghost var x, y := Sym(true, r * 16 + nbits), Raw(temp2 % SeqTokens.WORD, nbits);
      assert CoefPair(v, r) == [x, y];
      assert own + ([x, y] + later) == (own + [x]) + ([y] + later);
      assert own + ([x, y] + later) == (own + [x] + [y]) + later;
      assert own + [x, y] == own + [x] + [y];
      st := OpenSymbol(r * 16 + nbits);
      if st != Ok {
        Stopped(p, [y] + later, st);
        return;
      }
      st := OpenRaw(temp2 % SeqTokens.WORD, nbits);
      if st != Ok {
        Stopped(p, later, st);
      }
    }

    /** A coefficient out of range spoils the whole block. */
    lemma OutOfRange(own: seq<Token>, later: seq<Token>, p: Part)
      requires p.toks == own + ([Bad] + later) && EncOk(e0) && e0.toks == []
      ensures !NoBad(Goal(p))
    {
      hide FlushTokens;
      assert own + ([Bad] + later) == (own + [Bad]) + later;
      var rest := GoalExtends(sc.acNo, seg0, e0, own + [Bad], later, p);
      OpenMore(sc.acNo, seg0, e0, own, [Bad]);
      var a := OpenLog(sc.acNo, seg0, e0, own);
      assert Goal(p) == (a + Tag(sc.acNo, [Bad])) + rest;
      assert Goal(p)[|a|].tok == Bad;
    }

    /** encode_mcu_AC_first: the block's band. */
    method EncodeAcFirst(block: Block) returns (st: Status)
      requires Tracks() && RunOk() && PScanOk(sc) && sc.ss > 0 && sc.ah == 0
      modifies w, `counts, `seg, `eobrun, `be, `seg0, `e0, `own
      ensures var e := Absorb(old(PendingRun()), FirstPart(Zigzag(block), sc.ss, sc.se, sc.al, 0));
        && EndsAs(sc, gather, w.suspends, old(seg) + Tag(sc.acNo, e.toks), st)
        && (st == Ok ==>
              Tracks() && RunOk() && seg == old(seg) + Tag(sc.acNo, e.toks) && PendingRun() == e.(toks := []))
    {
      hide Tracks, EndsAs, Natural, Absorb, FirstPart, Opened, EncOk;
      ghost var z := Zigzag(block);
      ghost var p := FirstPart(z, sc.ss, sc.se, sc.al, 0);
      BeginBlock();
      NothingOwn(p);
      var r := 0;
      var k := sc.ss;
      while k <= sc.se
        invariant sc.ss <= k <= sc.se + 1 && seg0 == old(seg) && e0 == old(PendingRun())
        invariant Tracks() && Coding()
        invariant p == Behind(own, FirstPart(z, k, sc.se, sc.al, r))
        decreases sc.se + 1 - k
      {
        st, r := FirstCoef(block[Natural(k)], k, r, z, p);
        if st != Ok {
          return;
        }
        k := k + 1;
      }
      EndOfFirst(z, k, sc.se, sc.al, r, own, p);
      CodingFits();
      assert bitBuffer[be..be + 0] == [];
      st := EndBlock(r, 0, p);
    }

    /** The correction bits of the block in progress, behind those of the run. */
    ghost predicate Buffers(from: nat, br: nat)
      reads `be, bitBuffer
    {
      from == be && from + br < bitBuffer.Length
    }

    /** The pre-pass of encode_mcu_AC_refine: magnitudes, and where the last new
        coefficient is. */
    method PrePass(block: Block, absvalues: array<nat>) returns (eob: nat)
      requires 1 <= sc.ss <= sc.se < DCTSIZE2 == absvalues.Length
      modifies absvalues
      ensures forall i :: sc.ss <= i <= sc.se ==> absvalues[i] == Magnitude(Zigzag(block)[i], sc.al)
      ensures eob == LastNew(Zigzag(block), sc.ss, sc.se, sc.al)
    {
      hide Magnitude, LastNew, Natural;
      ghost var z := Zigzag(block);
      eob := 0;
      var k := sc.ss;
      while k <= sc.se
        invariant sc.ss <= k <= sc.se + 1
        invariant forall i :: sc.ss <= i < k ==> absvalues[i] == Magnitude(z[i], sc.al)
        invariant forall i :: sc.ss <= i < k && Magnitude(z[i], sc.al) == 1 ==> i <= eob
        invariant eob == 0 || (sc.ss <= eob < k && Magnitude(z[eob], sc.al) == 1)
        decreases sc.se + 1 - k
      {
        var temp := block[Natural(k)];
        temp := MagnitudeOf(temp, sc.al);
        absvalues[k] := temp;
        if temp == 1 {
          eob := k;
        }
        k := k + 1;
      }
      LastNewIs(z, sc.ss, sc.se, sc.al, eob);
    }

    /** Append a correction bit behind those buffered so far. */
    method PutBit(pos: nat, b: bool)
      requires Coding() && be <= pos < bitBuffer.Length
      modifies bitBuffer
      ensures Coding() && bitBuffer[..pos] == old(bitBuffer[..pos]) && bitBuffer[pos] == b
    {
      hide OpenLog;
      bitBuffer[pos] := b;
      assert bitBuffer[..be] == old(bitBuffer[..pos])[..be];
    }

    /** A symbol that covers the correction bits waiting in the buffer: the run
        goes out first, then the symbol, a sign bit for a new coefficient, and
        the bits. */
    method Group(s: nat, ghost head: seq<Token>, sign: nat, from: nat, br: nat, ghost p: Part, ghost q: Part)
      returns (st: Status)
      requires Tracks() && Coding() && sc.acNo < |sc.tables| && s < 256 && from + br <= bitBuffer.Length
      requires head == if s % 16 == 1 then [Sym(true, s), Raw(sign, 1)] else [Sym(true, s)]
      requires p == Behind(own, Behind(head + BitTokens(bitBuffer[from..from + br]), q))
      modifies w, `counts, `seg, `eobrun, `be, `own
      ensures st != Ok ==> EndsAs(sc, gather, w.suspends, Goal(p), st)
      ensures st == Ok ==> Tracks() && Coding() && be == 0 && p == Behind(own, q)
    {
      hide Tracks, EndsAs, OpenLog, Goal, BitTokens;
      ghost var bits := BitTokens(bitBuffer[from..from + br]);
      GroupTokens(own, head, bits, q.toks);
      st := Open();
      if st != Ok {
        Stopped(p, head + bits + q.toks, st);
        return;
      }
      st := OpenSymbol(s);
      if st != Ok {
        Stopped(p, head[1..] + bits + q.toks, st);
        return;
      }
      if s % 16 == 1 {
        st := OpenRaw(sign, 1);
        if st != Ok {
          Stopped(p, bits + q.toks, st);
          return;
        }
      }
      assert own == old(own) + head;
      st := OpenBuffered(from, br);
      if st != Ok {
        Stopped(p, q.toks, st);
      }
    }

    /** One coefficient of a refinement scan, of magnitude temp. */
    method RefineCoef(coef: int, temp: nat, k: nat, zeros: nat, from0: nat, br0: nat, eob: nat, ghost z: Block,
                      ghost p: Part)
      returns (st: Status, r: nat, from: nat, br: nat)
      requires Tracks() && Coding() && Buffers(from0, br0) && sc.acNo < |sc.tables|
      requires k <= sc.se < DCTSIZE2 && z[k] == coef && temp == Magnitude(coef, sc.al) && (temp == 1 ==> k <= eob)
      requires p == Behind(own, RefinePart(z, k, sc.se, sc.al, zeros, bitBuffer[from0..from0 + br0], eob))
      modifies w, bitBuffer, `counts, `seg, `eobrun, `be, `own
      ensures st != Ok ==> EndsAs(sc, gather, w.suspends, Goal(p), st)
      ensures st == Ok ==>
        Tracks() && Coding() && from == be <= old(be) && br <= br0 + 1 && from + br <= bitBuffer.Length
      ensures st == Ok ==> p == Behind(own, RefinePart(z, k + 1, sc.se, sc.al, r, bitBuffer[from..from + br], eob))
    {
      hide Tracks, EndsAs, FlushTokens, OpenLog, RefinePart, Goal, Magnitude, Coding, Opened, BitTokens;
      st, r, from, br := Ok, zeros, from0, br0;
      RefineStep(z, k, sc.se, sc.al, r, bitBuffer[from..from + br], eob);
      if temp == 0 {
        r := r + 1;
        return;
      }
      while r > 15 && k <= eob
        invariant st == Ok && Tracks() && Coding() && Buffers(from, br) && from <= old(be) && br <= br0
        invariant p == Behind(own, RefinePart(z, k, sc.se, sc.al, r, bitBuffer[from..from + br], eob))
        decreases r
      {
        ghost var bits := bitBuffer[from..from + br];
        ghost var q := RefinePart(z, k, sc.se, sc.al, r - 16, [], eob);
        RefineStep(z, k, sc.se, sc.al, r, bits, eob);
        st := Group(ZRL, [Sym(true, ZRL)], 0, from, br, p, q);
        if st != Ok {
          return;
        }
        r := r - 16;
        from := 0;
        br := 0;
        assert bitBuffer[from..from + br] == [];
      }
      RefineStep(z, k, sc.se, sc.al, r, bitBuffer[from..from + br], eob);
      if temp > 1 {
        ghost var bits := bitBuffer[from..from + br];
        PutBit(from + br, temp % 2 == 1);
        br := br + 1;
        assert bitBuffer[from..from + br] == bits + [Odd(temp)];
        return;
      }
      ghost var q := RefinePart(z, k + 1, sc.se, sc.al, 0, [], eob);
      assert (r * 16 + 1) % 16 == 1;
      st := Group(r * 16 + 1, NewPair(coef, r), if coef < 0 then 0 else 1, from, br, p, q);
      r, from, br := 0, 0, 0;
      assert bitBuffer[from..from + br] == [];
    }

    /** encode_mcu_AC_refine: the block's band. */
    method EncodeAcRefine(block: Block) returns (st: Status)
      requires Tracks() && RunOk() && PScanOk(sc) && sc.ss > 0 && sc.ah > 0
      modifies w, bitBuffer, `counts, `seg, `eobrun, `be, `seg0, `e0, `own
      ensures var e := Absorb(old(PendingRun()), RefineBlock(Zigzag(block), sc.ss, sc.se, sc.al));
        && EndsAs(sc, gather, w.suspends, old(seg) + Tag(sc.acNo, e.toks), st)
        && (st == Ok ==>
              Tracks() && RunOk() && seg == old(seg) + Tag(sc.acNo, e.toks) && PendingRun() == e.(toks := []))
    {
      hide Tracks, EndsAs, Natural, Absorb, RefinePart, Opened, EncOk, Magnitude, LastNew, Tag;
      ghost var z := Zigzag(block);
      var absvalues := new nat[DCTSIZE2];
      var eob := PrePass(block, absvalues);
      ghost var p := RefineBlock(z, sc.ss, sc.se, sc.al);
      BeginBlock();
      NothingOwn(p);
      var r, br, from := 0, 0, be;
      var k := sc.ss;
      CodingFits();
      assert bitBuffer[from..from + br] == [];
      while k <= sc.se
        invariant sc.ss <= k <= sc.se + 1 && seg0 == old(seg) && e0 == old(PendingRun())
        invariant forall i :: sc.ss <= i <= sc.se ==> absvalues[i] == Magnitude(z[i], sc.al)
        invariant Tracks() && Coding() && from == be && 0 <= br <= k - sc.ss && from + br <= bitBuffer.Length
        invariant p == Behind(own, RefinePart(z, k, sc.se, sc.al, r, bitBuffer[from..from + br], eob))
        decreases sc.se + 1 - k
      {
        CodingFits();
        st, r, from, br := RefineCoef(block[Natural(k)], absvalues[k], k, r, from, br, eob, z, p);
        if st != Ok {
          return;
        }
        k := k + 1;
      }
      EndOfRefine(z, k, sc.se, sc.al, r, bitBuffer[from..from + br], eob, own, p);
      st := EndBlock(r, br, p);
    }

    // ----- DC scans -----

    /** The difference of a DC value to its prediction. */
    method EncodeDiff(diff: int, no: nat) returns (st: Status)
      requires Tracks() && no < |sc.tables|
      modifies w, `counts, `seg
      ensures EndsAs(sc, gather, w.suspends, old(seg) + Tag(no, DCTokens(diff)), st)
      ensures st == Ok ==> Tracks() && seg == old(seg) + Tag(no, DCTokens(diff))
    {
      hide Tracks;
      var temp2 := diff;
      var temp := diff;
      if temp < 0 {
        temp := -temp;
        temp2 := temp2 - 1;
      }
      var nbits := MagnitudeBits(temp);
      if nbits > MAX_COEF_BITS + 1 {
        assert (seg + Tag(no, [Bad]))[|seg|].tok == Bad;
        return BadCoef;
      }
      hide EndsAs;
      ghost var a, b := [Out(no, Sym(false, nbits))], if nbits > 0 then [Out(no, Raw(ValueWord(diff), nbits))] else [];
      assert Tag(no, DCTokens(diff)) == a + b;
      AssociateLog(seg, a, b);
      st := EmitSymbol(no, nbits, false);
      if st != Ok {
        EndsAsPrefix(sc, gather, w.suspends, old(seg) + a, b, st);
      } else if nbits != 0 {
        st := EmitRaw(no, temp2 % SeqTokens.WORD, nbits);
      } else {
        assert (old(seg) + a) + b == old(seg) + a;
      }
    }

    /** A DC value: transformed, predicted, the difference coded. */
    method EncodeDc(value: int, ci: nat) returns (st: Status)
      requires Tracks() && ci < |lastDc| && ci < |sc.dcNo| && sc.dcNo[ci] < |sc.tables|
      modifies w, `counts, `seg, `lastDc
      ensures var temp2 := Shifted(value, sc.al); var here := Tag(sc.dcNo[ci], DCTokens(temp2 - old(lastDc)[ci]));
        && lastDc == old(lastDc)[ci := temp2]
        && EndsAs(sc, gather, w.suspends, old(seg) + here, st)
        && (st == Ok ==> Tracks() && seg == old(seg) + here)
    {
      hide Tracks, EndsAs, Shifted, DCTokens;
      var temp2 := Shifted(value, sc.al);
      var temp := temp2 - lastDc[ci];
      lastDc := lastDc[ci := temp2];
      st := EncodeDiff(temp, sc.dcNo[ci]);
    }

    /** Block blkn of an MCU. */
    method EncodeDcBlock(mcu: Mcu, blkn: nat, ghost goal: seq<Out>) returns (st: Status)
      requires Tracks() && PScanOk(sc) && sc.ss == 0 && sc.ah == 0 && |lastDc| == |sc.dcNo|
      requires blkn < |mcu| == |sc.membership|
      requires goal == seg + DCFirstLog(sc, lastDc, mcu, blkn)
      modifies w, `counts, `seg, `lastDc
      ensures |lastDc| == |sc.dcNo| && if st == Ok then Tracks() else EndsAs(sc, gather, w.suspends, goal, st)
      ensures st == Ok ==> goal == seg + DCFirstLog(sc, lastDc, mcu, blkn + 1)
      ensures DCFirstNext(sc, lastDc, mcu, blkn + 1) == DCFirstNext(sc, old(lastDc), mcu, blkn)
    {
      hide Tracks, EndsAs, Shifted, DCTokens, Tag, DCFirstLog, DCFirstNext;
      var ci := sc.membership[blkn];
      DCFirstStep(sc, lastDc, mcu, blkn, seg);
      ghost var here := seg + Tag(sc.dcNo[ci], DCTokens(Shifted(mcu[blkn][0], sc.al) - lastDc[ci]));
      st := EncodeDc(mcu[blkn][0], ci);
      if st != Ok {
        EndsAsPrefix(sc, gather, w.suspends, here, DCFirstLog(sc, lastDc, mcu, blkn + 1), st);
      }
    }

    /** encode_mcu_DC_first: the data blocks. */
    method EncodeDcFirst(mcu: Mcu) returns (st: Status)
      requires Tracks() && PScanOk(sc) && sc.ss == 0 && sc.ah == 0 && |lastDc| == |sc.dcNo| && |mcu| == |sc.membership|
      modifies w, `counts, `seg, `lastDc
      ensures EndsAs(sc, gather, w.suspends, old(seg) + DCFirstLog(sc, old(lastDc), mcu, 0), st)
      ensures st == Ok ==> Tracks() && seg == old(seg) + DCFirstLog(sc, old(lastDc), mcu, 0)
      ensures st == Ok ==> lastDc == DCFirstNext(sc, old(lastDc), mcu, 0)
    {
      hide Tracks, EndsAs, DCFirstLog, DCFirstNext, PScanOk;
      ghost var goal := seg + DCFirstLog(sc, lastDc, mcu, 0);
      for blkn := 0 to |mcu|
        invariant Tracks() && |lastDc| == |sc.dcNo|
        invariant goal == seg + DCFirstLog(sc, lastDc, mcu, blkn)
        invariant DCFirstNext(sc, lastDc, mcu, blkn) == DCFirstNext(sc, old(lastDc), mcu, 0)
      {
        st := EncodeDcBlock(mcu, blkn, goal);
        if st != Ok {
          return;
        }
      }
      DCFirstEnd(sc, lastDc, mcu, seg);
      TracksEnds();
      st := Ok;
    }

    /** encode_mcu_DC_refine: the data blocks. */
    method EncodeDcRefine(mcu: Mcu) returns (st: Status)
      requires Tracks()
      modifies w, `counts, `seg
      ensures EndsAs(sc, gather, w.suspends, old(seg) + DCRefineLog(sc.al, mcu, 0), st)
      ensures st == Ok ==> Tracks() && seg == old(seg) + DCRefineLog(sc.al, mcu, 0)
    {
      TracksEnds();
      hide Tracks, EndsAs, Shifted;
      ghost var goal := seg + DCRefineLog(sc.al, mcu, 0);
      for blkn := 0 to |mcu|
        invariant Tracks() && EndsAs(sc, gather, w.suspends, seg, Ok)
        invariant goal == seg + DCRefineLog(sc.al, mcu, blkn)
      {
        var temp := mcu[blkn][0];
        ghost var later := DCRefineLog(sc.al, mcu, blkn + 1);
        ghost var seg1, o := seg, Out(0, DCBit(temp, sc.al));
        AssociateLog(seg1, [o], later);
        st := EmitRaw(0, Shifted(temp, sc.al) % SeqTokens.WORD, 1);
        if st != Ok {
          EndsAsPrefix(sc, gather, w.suspends, seg1 + [o], later, st);
          return;
        }
      }
      assert seg + [] == seg;
      st := Ok;
    }

    // ----- MCUs and restart intervals -----

    ghost predicate Valid()
      reads `counts, `start, `seg, `before, w, `eobrun, `be, bitBuffer, `lastDc, `nextRestartNum
    {
      && Tracks() && RunOk() && |lastDc| == |sc.dcNo| && nextRestartNum < 8
      && if sc.ss == 0 then eobrun == 0 else lastDc == Zeroes(|sc.dcNo|)
    }

    /** Where the coder stands in its restart interval. */
    ghost function Cur(): Coder
      requires be <= bitBuffer.Length
      reads `seg, `eobrun, `be, `lastDc, bitBuffer
    {
      Coder(seg, eobrun, bitBuffer[..be], lastDc)
    }

    /** The marker, behind the completed byte. */
    method EmitMarker(restartNum: nat) returns (st: Status)
      requires Tracks() && !gather
      modifies w
      ensures st == Ok || (st == Suspended && w.suspends)
      ensures LogSendable(seg, sc.tables)
      ensures st == Ok ==>
        w.Valid() && w.pending == [] && w.out == start + IntervalBytes(sc, seg) + [FF, RST0 + restartNum]
    {
      hide IntervalBytes, Holds, LogBits, LogSendable, Stuff, Rest;
      WrittenPadded(sc, start, seg, w.out, w.pending);
      ghost var out1, padding := w.out, SendBits(w.pending, Ones(7)).bytes;
      AssociateBytes(out1, padding, [FF, RST0 + restartNum]);
      st := w.EmitRestart(restartNum);
    }

    /** A restart interval begins. */
    ghost method BeginInterval()
      requires PScanOk(sc) && TablesSized(sc)
      requires gather ==> |counts| == |sc.tables| && CountsLog(counts, before + seg) && NoBad(before) && NoBad(seg)
      requires !gather ==> w.Valid() && w.pending == []
      modifies `seg, `start, `before
      ensures Tracks() && seg == [] && start == w.out && before == old(before) + old(seg)
    {
      before := before + seg;
      start := w.out;
      seg := [];
      assert before + [] == before;
      assert start + [] == start;
    }

    /** emit_restart. */
    method EmitRestart(restartNum: nat) returns (st: Status)
      requires Valid()
      modifies w, `counts, `seg, `start, `before, `eobrun, `be, `lastDc
      ensures EndsAs(sc, gather, w.suspends, old(Finish(sc, Cur())), st)
      ensures st == Ok ==> Valid() && Cur() == Fresh(sc) && before == old(before) + old(Finish(sc, Cur()))
      ensures st == Ok && !gather ==>
        && LogSendable(old(Finish(sc, Cur())), sc.tables)
        && start == old(start) + IntervalBytes(sc, old(Finish(sc, Cur()))) + [FF, RST0 + restartNum]
    {
      hide EndsAs, FlushTokens, IntervalBytes, LogSendable, CountsLog, Written, Holds, Tag, EncOk;
      st := EmitEobrun();
      if st != Ok {
        return;
      }
      TracksEnds();
      if !gather {
        st := EmitMarker(restartNum);
        if st != Ok {
          SuspendedEnds(sc, w.suspends, seg);
          return;
        }
      }
      BeginInterval();
      if sc.ss == 0 {
        lastDc := Zeroes(|sc.dcNo|);
      } else {
        eobrun := 0;
        be := 0;
      }
      assert bitBuffer[..be] == [];
    }

    ghost predicate RestartDue()
      reads `restartsToGo
    {
      sc.interval > 0 && restartsToGo == 0
    }

    /** Where the data blocks of the next MCU start from. */
    ghost function StartOfMcu(): Coder
      requires be <= bitBuffer.Length
      reads `seg, `eobrun, `be, `lastDc, `restartsToGo, bitBuffer
    {
      if RestartDue() then Fresh(sc) else Cur()
    }

    /** The data blocks of an MCU, by the kind of scan. */
    method EncodeBlocks(mcu: Mcu) returns (st: Status)
      requires Valid() && |mcu| == |sc.membership|
      modifies w, bitBuffer, `counts, `seg, `eobrun, `be, `lastDc, `seg0, `e0, `own
      ensures EndsAs(sc, gather, w.suspends, CodeMcu(sc, old(Cur()), mcu).log, st)
      ensures st == Ok ==> Valid() && Cur() == CodeMcu(sc, old(Cur()), mcu)
    {
      assert PScanOk(sc);
      hide Tracks, EndsAs, Zigzag, Absorb, DCFirstLog, DCFirstNext, DCRefineLog, FirstPart, RefineBlock, Tag;
      if sc.ah == 0 {
        if sc.ss == 0 {
          st := EncodeDcFirst(mcu);
        } else {
          st := EncodeAcFirst(mcu[0]);
        }
      } else {
        if sc.ss == 0 {
          st := EncodeDcRefine(mcu);
        } else {
          st := EncodeAcRefine(mcu[0]);
        }
      }
    }

    /** One MCU: a restart if one is due, the data blocks, and the countdown to
        the next restart. */
    method EncodeMcu(mcu: Mcu) returns (st: Status)
      requires Valid() && |mcu| == |sc.membership|
      modifies this, w, bitBuffer
      ensures st != Ok ==>
        || (old(RestartDue()) && EndsAs(sc, gather, w.suspends, old(Finish(sc, Cur())), st))
        || EndsAs(sc, gather, w.suspends, CodeMcu(sc, old(StartOfMcu()), mcu).log, st)
      ensures st == Ok ==> Valid() && Cur() == CodeMcu(sc, old(StartOfMcu()), mcu)
      ensures st == Ok && !old(RestartDue()) ==> before == old(before) && start == old(start)
      ensures st == Ok && old(RestartDue()) ==> before == old(before) + old(Finish(sc, Cur()))
      ensures st == Ok && old(RestartDue()) && !gather ==>
        && LogSendable(old(Finish(sc, Cur())), sc.tables)
        && start == old(start) + IntervalBytes(sc, old(Finish(sc, Cur()))) + [FF, RST0 + old(nextRestartNum)]
      ensures st == Ok ==>
        nextRestartNum == if old(RestartDue()) then (old(nextRestartNum) + 1) % 8 else old(nextRestartNum)
      ensures st == Ok && sc.interval > 0 ==>
        restartsToGo == (if old(RestartDue()) then sc.interval else old(restartsToGo)) - 1
    {
      hide EndsAs, CodeMcu, Tracks, IntervalBytes, FlushTokens, LogSendable, EncOk, RunOk, Fresh, Finish;
      if sc.interval != 0 && restartsToGo == 0 {
        st := EmitRestart(nextRestartNum);
        if st != Ok {
          return;
        }
      }
      st := EncodeBlocks(mcu);
      if st != Ok {
        return;
      }
      if sc.interval != 0 {
        if restartsToGo == 0 {
          restartsToGo := sc.interval;
          nextRestartNum := nextRestartNum + 1;
          nextRestartNum := nextRestartNum % 8;
        }
        restartsToGo := restartsToGo - 1;
      }
    }

    /** finish_pass_phuff, and the flushing part of finish_pass_gather_phuff. */
    method FinishPass() returns (st: Status)
      requires Valid()
      modifies w, `counts, `seg, `eobrun, `be
      ensures EndsAs(sc, gather, w.suspends, old(Finish(sc, Cur())), st)
      ensures st == Ok && gather ==> |counts| == |sc.tables| && CountsLog(counts, before + old(Finish(sc, Cur())))
      ensures st == Ok && gather ==> NoBad(before + old(Finish(sc, Cur())))
      ensures st == Ok && !gather ==>
        LogSendable(old(Finish(sc, Cur())), sc.tables) && w.out == start + IntervalBytes(sc, old(Finish(sc, Cur())))
    {
      hide EndsAs, FlushTokens, IntervalBytes, LogSendable, CountsLog, Written, Holds, Tag, EncOk;
      st := EmitEobrun();
      if st != Ok {
        return;
      }
      TracksEnds();
      if !gather {
        WrittenPadded(sc, start, seg, w.out, w.pending);
        st := w.FlushBits();
        if st != Ok {
          SuspendedEnds(sc, w.suspends, seg);
        }
      }
    }
  }

  lemma DCFirstStep(sc: PScan, dc: seq<int>, mcu: Mcu, i: nat, log: seq<Out>)
    requires PScanOk(sc) && sc.ss == 0 && sc.ah == 0 && |dc| == |sc.dcNo| && i < |mcu| == |sc.membership|
    ensures sc.membership[i] < |sc.dcNo| && sc.dcNo[sc.membership[i]] < |sc.tables|
    ensures var c, v := sc.membership[i], Shifted(mcu[i][0], sc.al); var here := Tag(sc.dcNo[c], DCTokens(v - dc[c]));
      && log + DCFirstLog(sc, dc, mcu, i) == (log + here) + DCFirstLog(sc, dc[c := v], mcu, i + 1)
      && DCFirstNext(sc, dc, mcu, i) == DCFirstNext(sc, dc[c := v], mcu, i + 1)
  {
    hide Shifted, DCTokens, Tag;
    var c, v := sc.membership[i], Shifted(mcu[i][0], sc.al);
    AssociateLog(log, Tag(sc.dcNo[c], DCTokens(v - dc[c])), DCFirstLog(sc, dc[c := v], mcu, i + 1));
  }

  lemma DCFirstEnd(sc: PScan, dc: seq<int>, mcu: Mcu, log: seq<Out>)
    requires PScanOk(sc) && sc.ss == 0 && sc.ah == 0 && |dc| == |sc.dcNo| && |mcu| == |sc.membership|
    ensures log + DCFirstLog(sc, dc, mcu, |mcu|) == log && DCFirstNext(sc, dc, mcu, |mcu|) == dc
  {
  }

  lemma SuspendedEnds(sc: PScan, suspends: bool, log: seq<Out>)
    requires suspends
    ensures EndsAs(sc, false, suspends, log, Suspended)
  {
  }

  /** Completing the byte in progress with ones. */
  lemma WrittenPadded(sc: PScan, start: seq<nat>, log: seq<Out>, out: seq<nat>, pending: seq<bool>)
    requires Written(sc, start, log, out, pending)
    ensures out + SendBits(pending, Ones(7)).bytes == start + IntervalBytes(sc, log)
  {
    hide LogBits, Stuff, Rest, Pad, LogSendable;
    var bits := LogBits(log, sc.tables);
    StuffAppend(bits, Ones(7));
    SevenOnes(bits);
    AssociateBytes(start, Stuff(bits), SendBits(pending, Ones(7)).bytes);
  }

  lemma EndOfRefine(z: Block, k: nat, se: nat, al: nat, r: nat, br: seq<bool>, eob: nat, own: seq<Token>, p: Part)
    requires k == se + 1 <= DCTSIZE2 && p == Behind(own, RefinePart(z, k, se, al, r, br, eob))
    ensures p == Part(own, r, br)
  {
    assert own + [] == own;
  }

  lemma GroupTokens(own: seq<Token>, head: seq<Token>, bits: seq<Token>, q: seq<Token>)
    requires head != []
    ensures own + ((head + bits) + q) == own + (head + bits + q)
    ensures own + ((head + bits) + q) == (own + [head[0]]) + (head[1..] + bits + q)
    ensures own + ((head + bits) + q) == (own + head) + (bits + q)
    ensures own + ((head + bits) + q) == (own + head + bits) + q
  {
  }

  method MagnitudeOf(c: int, al: nat) returns (m: nat)
    ensures m == Magnitude(c, al)
  {
    var temp := c;
    if temp < 0 {
      temp := -temp;
    }
    m := Shr(temp, al);
  }

  lemma {:induction false} LastNewIs(z: Block, k: nat, se: nat, al: nat, eob: nat)
    requires 1 <= k <= se + 1 <= DCTSIZE2
    requires forall i :: k <= i <= se && Magnitude(z[i], al) == 1 ==> i <= eob
    requires eob == 0 || (k <= eob <= se && Magnitude(z[eob], al) == 1)
    ensures LastNew(z, k, se, al) == eob
  {
    hide Magnitude;
  }

  lemma RefineStep(z: Block, k: nat, se: nat, al: nat, r: nat, br: seq<bool>, eob: nat)
    requires k <= se < DCTSIZE2
    ensures var m, p := Magnitude(z[k], al), RefinePart(z, k, se, al, r, br, eob);
      && (m == 0 ==> p == RefinePart(z, k + 1, se, al, r + 1, br, eob))
      && (m != 0 && r > 15 && k <= eob ==>
            p == Behind([Sym(true, ZRL)] + BitTokens(br), RefinePart(z, k, se, al, r - 16, [], eob)))
      && (m > 1 && (r <= 15 || k > eob) ==> p == RefinePart(z, k + 1, se, al, r, br + [Odd(m)], eob))
      && (m == 1 && (r <= 15 || k > eob) ==>
            p == Behind(NewPair(z[k], r) + BitTokens(br), RefinePart(z, k + 1, se, al, 0, [], eob)))
  {
    hide Magnitude, BitTokens, NewPair;
    var m := Magnitude(z[k], al);
    if m != 0 && r > 15 && k <= eob {
      var q := RefinePart(z, k, se, al, r - 16, [], eob).toks;
      assert [Sym(true, ZRL)] + (BitTokens(br) + q) == ([Sym(true, ZRL)] + BitTokens(br)) + q;
    } else if m == 1 {
      var q := RefinePart(z, k + 1, se, al, 0, [], eob).toks;
      assert NewPair(z[k], r) + (BitTokens(br) + q) == (NewPair(z[k], r) + BitTokens(br)) + q;
    }
  }

  /** A part's tokens behind others. */
  function Behind(own: seq<Token>, p: Part): Part
  {
    p.(toks := own + p.toks)
  }

  lemma NothingOwn(p: Part)
    ensures p == Behind([], p)
  {
    assert [] + p.toks == p.toks;
  }

  lemma NoMagnitude(al: nat)
    ensures Magnitude(0, al) == 0
  {
    DivNonNegative(0, Pow2(al));
    UniqueQuotient(0, Pow2(al), 0, 0);
  }

  lemma FirstStep(z: Block, k: nat, se: nat, al: nat, r: nat)
    requires k <= se < DCTSIZE2
    ensures Magnitude(z[k], al) == 0 ==> FirstPart(z, k, se, al, r) == FirstPart(z, k + 1, se, al, r + 1)
    ensures Magnitude(z[k], al) != 0 && r > 15 ==>
      FirstPart(z, k, se, al, r) == Behind([Sym(true, ZRL)], FirstPart(z, k, se, al, r - 16))
    ensures Magnitude(z[k], al) != 0 && r <= 15 ==>
      FirstPart(z, k, se, al, r) == Behind(CoefPair(Approx(z[k], al), r), FirstPart(z, k + 1, se, al, 0))
    ensures Magnitude(z[k], al) != 0 ==> FirstPart(z, k, se, al, r).toks != []
  {
    hide Magnitude;
  }

  lemma EndOfFirst(z: Block, k: nat, se: nat, al: nat, r: nat, own: seq<Token>, p: Part)
    requires k == se + 1 <= DCTSIZE2 && p == Behind(own, FirstPart(z, k, se, al, r))
    ensures p == Part(own, r, [])
  {
    assert own + [] == own;
  }

  /** The log when the pending run and then `own` went out. */
  function OpenLog(no: nat, seg0: seq<Out>, e0: Enc, own: seq<Token>): seq<Out>
  {
    seg0 + Tag(no, FlushTokens(e0.eobrun, e0.be) + own)
  }

  lemma OpenMore(no: nat, seg0: seq<Out>, e0: Enc, own: seq<Token>, more: seq<Token>)
    ensures OpenLog(no, seg0, e0, own + more) == OpenLog(no, seg0, e0, own) + Tag(no, more)
  {
    hide FlushTokens;
    var f := FlushTokens(e0.eobrun, e0.be);
    assert f + (own + more) == (f + own) + more;
    TagAppend(no, f + own, more);
    AssociateLog(seg0, Tag(no, f + own), Tag(no, more));
  }

  lemma GoalExtends(no: nat, seg0: seq<Out>, e0: Enc, own: seq<Token>, more: seq<Token>, p: Part)
    returns (rest: seq<Out>)
    requires p.toks == own + more != [] && e0.toks == [] && EncOk(e0)
    ensures seg0 + Tag(no, Absorb(e0, p).toks) == OpenLog(no, seg0, e0, own) + rest
  {
    hide FlushTokens;
    var f := FlushTokens(e0.eobrun, e0.be);
    var b := Begin(e0, p);
    var late := if Trailing(p) && MustFlush(b.(eobrun := 1, be := p.bits)) then FlushTokens(1, p.bits) else [];
    assert [] + p.bits == p.bits && [] + f == f;
    assert b == Enc(f + p.toks, 0, []);
    assert f + (own + more) + late == (f + own) + (more + late);
    assert f + (own + more) + [] == (f + own) + (more + []);
    TagAppend(no, f + own, more + late);
    rest := Tag(no, more + late);
    AssociateLog(seg0, Tag(no, f + own), rest);
  }

  lemma BeginLog(no: nat, seg0: seq<Out>, e0: Enc, own: seq<Token>, p: Part)
    requires p.toks == own && e0.toks == []
    ensures seg0 + Tag(no, Begin(e0, p).toks) == if own == [] then seg0 else OpenLog(no, seg0, e0, own)
  {
    hide FlushTokens;
    var f := FlushTokens(e0.eobrun, e0.be);
    assert [] + f == f;
    assert seg0 + Tag(no, []) == seg0;
  }

  lemma FlushedLog(no: nat, seg0: seq<Out>, toks: seq<Token>, f: seq<Token>)
    ensures seg0 + Tag(no, toks + f) == (seg0 + Tag(no, toks)) + Tag(no, f)
  {
    TagAppend(no, toks, f);
    AssociateLog(seg0, Tag(no, toks), Tag(no, f));
  }

  lemma SingleTag(no: nat, t: Token)
    ensures Tag(no, [t]) == [Out(no, t)]
  {
  }

  lemma NoRun(no: nat, log: seq<Out>, be: seq<bool>)
    ensures log + Tag(no, FlushTokens(0, be)) == log
  {
  }

  lemma NothingMore(no: nat, seg0: seq<Out>, e0: Enc)
    ensures OpenLog(no, seg0, e0, []) == seg0 + Tag(no, FlushTokens(e0.eobrun, e0.be))
  {
    var f := FlushTokens(e0.eobrun, e0.be);
    assert f + [] == f;
  }

  lemma BitTokensRaw(no: nat, b: seq<bool>)
    ensures forall i :: 0 <= i < |Tag(no, BitTokens(b))| ==> Tag(no, BitTokens(b))[i].tok.Raw?
  {
    if b != [] {
      BitTokensRaw(no, b[1..]);
      NextBitToken(no, b[0], b[1..]);
      assert [b[0]] + b[1..] == b;
    }
  }

  lemma NothingTagged(no: nat, log: seq<Out>)
    ensures log + Tag(no, []) == log
  {
  }

  lemma NextBitToken(no: nat, b: bool, rest: seq<bool>)
    ensures Tag(no, BitTokens([b] + rest)) == [Out(no, Raw(Bit(b), 1))] + Tag(no, BitTokens(rest))
  {
    assert ([b] + rest)[1..] == rest;
  }

  /** The parts of an end-of-band run's log. */
  function RunSymbol(no: nat, e: nat): seq<Out>
    requires e > 0
  {
    [Out(no, Sym(true, Log2(e) * 16))]
  }

  function RunExtra(no: nat, e: nat): seq<Out>
    requires e > 0
  {
    if Log2(e) > 0 then [Out(no, Raw(e, Log2(e)))] else []
  }

  lemma FlushLog(no: nat, e: nat, be: seq<bool>, log: seq<Out>)
    requires e > 0
    ensures log + Tag(no, FlushTokens(e, be)) == (log + (RunSymbol(no, e) + RunExtra(no, e))) + Tag(no, BitTokens(be))
  {
    var run, c := RunSymbol(no, e) + RunExtra(no, e), Tag(no, BitTokens(be));
    RunLog(no, e);
    hide EobTokens, RunSymbol, RunExtra, Tag, BitTokens;
    TagAppend(no, EobTokens(e), BitTokens(be));
    AssociateLog(log, run, c);
  }

  lemma RunLog(no: nat, e: nat)
    requires e > 0
    ensures Tag(no, EobTokens(e)) == RunSymbol(no, e) + RunExtra(no, e)
  {
    hide Log2;
  }

  lemma AssociateLog(x: seq<Out>, y: seq<Out>, z: seq<Out>)
    ensures (x + y) + z == x + (y + z)
  {
  }
}
