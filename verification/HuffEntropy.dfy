/** The sequential Huffman entropy encoder of jchuff.c: the output pass with its
    suspension protocol, the statistics-gathering pass, and their agreement. */
module HuffEntropy {
  import opened Arith
  import opened Bits
  import opened Stuffing
  import opened BitWriter
  import opened ZigzagOrder
  import opened DerivedTable
  import opened OptimalTable
  import opened SeqTokens
  import opened SeqEncoder
  import opened SeqScan

  ghost predicate CodesSized(sc: Scan)
    requires ScanOk(sc)
  {
    forall i :: 0 <= i < |sc.membership| ==> TableSized(DCTable(sc, i).codes) && TableSized(ACTable(sc, i).codes)
  }

  /** The encoder object during an output pass, with the part of the destination
      it uses. */
  class Encoder {
    const sc: Scan
    const cap: nat
    const suspends: bool
    var out: seq<nat>         // everything before next_output_byte
    var free: nat             // room left in the buffer
    var putBuffer: nat        // saved bit buffer
    var putBits: nat
    var lastDc: seq<int>      // saved DC predictions
    var restartsToGo: nat
    var nextRestartNum: nat
    ghost var pending: seq<bool>

    ghost predicate Valid()
      reads this
    {
      && ScanOk(sc) && CodesSized(sc)
      && cap > 0 && free > 0
      && putBits == |pending| < 8 && Holds(putBuffer, pending)
      && |lastDc| == |sc.dcNo| && nextRestartNum < 8
    }

    ghost function State(): Saved
      reads this
    {
      Saved(pending, lastDc, restartsToGo, nextRestartNum)
    }

    /** start_pass_huff for output. */
    constructor (sc: Scan, cap: nat, suspends: bool, out: seq<nat>, free: nat)
      requires ScanOk(sc) && CodesSized(sc) && cap > 0 && free > 0
      ensures Valid() && State() == StartScan(sc)
      ensures this.sc == sc && this.cap == cap && this.suspends == suspends && this.out == out && this.free == free
    {
      this.sc, this.cap, this.suspends, this.out, this.free := sc, cap, suspends, out, free;
      lastDc := Zeroes(|sc.dcNo|);
      putBuffer, putBits, pending := 0, 0, [];
      restartsToGo, nextRestartNum := sc.interval, 0;
      ZeroBits(24);
      assert ToBits(0, 24) == [] + Zeros(24);
    }

    /** The application makes room again after a suspension. */
    method MakeRoom(room: nat)
      requires Valid() && room > 0
      modifies `free
      ensures Valid() && free == room
    {
      free := room;
    }

    /** encode_mcu_huff: all of the MCU or, on suspension or error, nothing. */
    method EncodeMcu(mcu: Mcu) returns (st: Status)
      requires Valid() && |mcu| == |sc.membership|
      modifies this
      ensures Valid()
      ensures var r := McuRun(sc, old(State()), mcu);
        && (suspends && |r.bytes| >= old(free) ==> st == Suspended)
        && (!(suspends && |r.bytes| >= old(free)) ==> st == r.err)
        && (st == Ok ==> out == old(out) + r.bytes && State() == McuNext(sc, old(State()), mcu))
        && (st == Ok && suspends ==> free == old(free) - |r.bytes|)
      ensures st != Ok ==> out == old(out) && State() == old(State()) && free == old(free)
    {
      hide SendBlocks, Stuff, DcAfter;
      var w := new Work(cap, suspends, out, free, putBuffer, putBits, lastDc, pending);
      st := EncodeInto(w, mcu);
      if st != Ok {
        return;
      }
      out, free := w.out, w.free;
      putBuffer, putBits, lastDc, pending := w.putBuffer, w.putBits, w.lastDc, w.pending;
      if sc.interval != 0 {
        if restartsToGo == 0 {
          restartsToGo := sc.interval;
          nextRestartNum := nextRestartNum + 1;
          nextRestartNum := nextRestartNum % 8;
        }
        restartsToGo := restartsToGo - 1;
      }
    }

    /** The restart marker, if one is due, and the data blocks. */
    method EncodeInto(w: Work, mcu: Mcu) returns (st: Status)
      requires Valid() && |mcu| == |sc.membership|
      requires w.Valid() && w.out == out && w.free == free && w.pending == pending && w.lastDc == lastDc
      requires w.suspends == suspends
      modifies w
      ensures w.After(out, free, McuRun(sc, State(), mcu), st)
      ensures st == Ok ==> w.lastDc == DcAfter(sc, McuStart(sc, State()).1, mcu, 0)
    {
      hide SendBlocks, Stuff, DcAfter;
      ghost var (start, dc0) := McuStart(sc, State());
      assert out + [] == out;
      if sc.interval != 0 && restartsToGo == 0 {
        st := w.EmitRestart(nextRestartNum);
        if st != Ok {
          w.Stop(out, free, start, SendBlocks(sc, start.pending, dc0, mcu, 0), st);
          return;
        }
      }
      st := EncodeBlocks(w, mcu, out, free, start, dc0);
    }

    /** The data blocks of one MCU. */
    method EncodeBlocks(w: Work, mcu: Mcu, ghost out0: seq<nat>, ghost free0: nat, ghost start: Run,
                        ghost dc0: seq<int>)
      returns (st: Status)
      requires ScanOk(sc) && CodesSized(sc) && |mcu| == |sc.membership| && |dc0| == |sc.dcNo|
      requires w.Valid() && w.After(out0, free0, start, Ok) && start.err == Ok && w.lastDc == dc0
      modifies w
      ensures w.After(out0, free0, Then(start, SendBlocks(sc, start.pending, dc0, mcu, 0)), st)
      ensures st == Ok ==> w.lastDc == DcAfter(sc, dc0, mcu, 0)
    {
      hide SendTokens, BlockTokens, Zigzag;
      ghost var goal := Then(start, SendBlocks(sc, start.pending, dc0, mcu, 0));
      ghost var sofar := start;
      for blkn := 0 to |mcu|
        invariant |w.lastDc| == |sc.dcNo| && w.Valid()
        invariant DcAfter(sc, w.lastDc, mcu, blkn) == DcAfter(sc, dc0, mcu, 0)
        invariant sofar.err == Ok && w.After(out0, free0, sofar, Ok)
        invariant goal == Then(sofar, SendBlocks(sc, sofar.pending, w.lastDc, mcu, blkn))
      {
        var ci := sc.membership[blkn];
        ghost var dc := w.lastDc;
        ghost var out1, free1 := w.out, w.free;
        ghost var step := SendTokens(sofar.pending, BlockToks(sc, dc, mcu, blkn),
          DCTable(sc, blkn).codes, ACTable(sc, blkn).codes);
        ghost var rest := SendBlocks(sc, step.pending, DcNext(sc, dc, mcu, blkn), mcu, blkn + 1);
        ThenAssoc(sofar, step, rest);
        st := w.EncodeOneBlock(mcu[blkn], w.lastDc[ci], sc.dc[sc.dcNo[ci]].codes, sc.ac[sc.acNo[ci]].codes);
        w.Chain(out0, free0, sofar, out1, free1, step, st);
        sofar := Then(sofar, step);
        if st != Ok {
          w.Stop(out0, free0, sofar, rest, st);
          return;
        }
        w.lastDc := w.lastDc[ci := mcu[blkn][0]];
      }
      assert sofar.bytes + [] == sofar.bytes;
      return Ok;
    }

    /** finish_pass_huff; Suspended stands for the can't-suspend error. */
    method FinishPass() returns (st: Status)
      requires Valid()
      modifies this
      ensures var bytes := SendBits(old(pending), Ones(7)).bytes;
        && (st == Ok <==> !(suspends && |bytes| >= old(free)))
        && (st == Ok || st == Suspended)
        && (st == Ok ==> out == old(out) + bytes && pending == [] && Valid())
      ensures st != Ok ==> out == old(out) && State() == old(State()) && free == old(free) && Valid()
    {
      var w := new Work(cap, suspends, out, free, putBuffer, putBits, lastDc, pending);
      st := w.FlushBits();
      if st == Ok {
        out, free := w.out, w.free;
        putBuffer, putBits, pending := w.putBuffer, w.putBits, w.pending;
      }
    }
  }

  // ----- A whole scan, with any pattern of suspensions -----

  lemma FirstOfScan(sc: Scan, s: Saved, mcus: seq<Mcu>)
    requires AllShaped(sc, mcus) && |s.dc| == |sc.dcNo| && mcus != []
    ensures ScanRun(sc, s, mcus) == Then(McuRun(sc, s, mcus[0]), ScanRun(sc, McuNext(sc, s, mcus[0]), mcus[1..]))
  {
  }

  /** What the first MCUs of a scan put out, and the state they leave. */
  function AfterMcus(sc: Scan, mcus: seq<Mcu>): (r: (Run, Saved))
    requires AllShaped(sc, mcus)
    ensures |r.1.dc| == |sc.dcNo|
    decreases |mcus|
  {
    if mcus == [] then (Run([], [], Ok), StartScan(sc))
    else
      var (a, s) := AfterMcus(sc, mcus[..|mcus| - 1]);
      (Then(a, McuRun(sc, s, mcus[|mcus| - 1])), McuNext(sc, s, mcus[|mcus| - 1]))
  }

  lemma OneMoreMcu(sc: Scan, mcus: seq<Mcu>, mcu: Mcu)
    requires AllShaped(sc, mcus) && |mcu| == |sc.membership|
    ensures var (a, s) := AfterMcus(sc, mcus);
      AllShaped(sc, mcus + [mcu]) && AfterMcus(sc, mcus + [mcu]) == (Then(a, McuRun(sc, s, mcu)), McuNext(sc, s, mcu))
  {
    hide McuRun, McuNext;
    assert (mcus + [mcu])[..|mcus|] == mcus;
  }

  /** An MCU that cannot be coded ends the scan. */
  lemma {:induction false} ErrorStays(sc: Scan, a: seq<Mcu>, b: seq<Mcu>)
    requires AllShaped(sc, b) && a <= b && AllShaped(sc, a) && AfterMcus(sc, a).0.err != Ok
    ensures AfterMcus(sc, b).0.err != Ok
    decreases |b|
  {
    hide McuRun, McuNext;
    if |a| < |b| {
      ErrorStays(sc, a, b[..|b| - 1]);
    } else {
      assert a == b;
    }
  }

  /** A scan continues after its first MCUs from the state they leave. */
  lemma {:induction false} ScanInTwo(sc: Scan, a: seq<Mcu>, b: seq<Mcu>)
    requires AllShaped(sc, a + b) && AllShaped(sc, a) && AllShaped(sc, b)
    ensures ScanRun(sc, StartScan(sc), a + b) == Then(AfterMcus(sc, a).0, ScanRun(sc, AfterMcus(sc, a).1, b))
    decreases |a|
  {
    hide McuRun, McuNext;
    if a == [] {
      assert a + b == b;
      ScanFromHere(sc, StartScan(sc), b, Run([], [], Ok), ScanRun(sc, StartScan(sc), b));
    } else {
      var n := |a| - 1;
      assert a + b == a[..n] + ([a[n]] + b);
      ScanInTwo(sc, a[..n], [a[n]] + b);
      var (x, s) := AfterMcus(sc, a[..n]);
      FirstOfScan(sc, s, [a[n]] + b);
      ThenAssoc(x, McuRun(sc, s, a[n]), ScanRun(sc, McuNext(sc, s, a[n]), b));
    }
  }

  /** After all MCUs only the flush is left. */
  lemma AllButFlush(sc: Scan, mcus: seq<Mcu>)
    requires AllShaped(sc, mcus)
    ensures ScanRun(sc, StartScan(sc), mcus) ==
      Then(AfterMcus(sc, mcus).0, Run(SendBits(AfterMcus(sc, mcus).1.pending, Ones(7)).bytes, [], Ok))
  {
    hide AfterMcus;
    assert mcus + [] == mcus;
    ScanInTwo(sc, mcus, []);
    EmptyScan(sc, AfterMcus(sc, mcus).1);
  }

  /** A run on its own, without a destination, never suspends. */
  lemma {:induction false} TokensDontSuspend(pending: seq<bool>, toks: seq<Token>, dc: Codes, ac: Codes)
    ensures SendTokens(pending, toks, dc, ac).err != Suspended
    decreases |toks|
  {
    if toks != [] {
      TokensDontSuspend(SendToken(pending, toks[0], dc, ac).pending, toks[1..], dc, ac);
    }
  }

  lemma {:induction false} BlocksDontSuspend(sc: Scan, pending: seq<bool>, dc: seq<int>, mcu: Mcu, i: nat)
    requires Shaped(sc, dc, mcu) && i <= |mcu|
    ensures SendBlocks(sc, pending, dc, mcu, i).err != Suspended
    decreases |mcu| - i
  {
    hide BlockTokens, Zigzag;
    if i < |mcu| {
      var a := SendTokens(pending, BlockToks(sc, dc, mcu, i), DCTable(sc, i).codes, ACTable(sc, i).codes);
      TokensDontSuspend(pending, BlockToks(sc, dc, mcu, i), DCTable(sc, i).codes, ACTable(sc, i).codes);
      BlocksDontSuspend(sc, a.pending, DcNext(sc, dc, mcu, i), mcu, i + 1);
    }
  }

  lemma McuDoesntSuspend(sc: Scan, s: Saved, mcu: Mcu)
    requires Shaped(sc, s.dc, mcu)
    ensures McuRun(sc, s, mcu).err != Suspended
  {
    hide SendBlocks;
    var (r, dc) := McuStart(sc, s);
    BlocksDontSuspend(sc, r.pending, dc, mcu, 0);
  }

  /** The rooms left after the first room that is enough, counting from the one there is;
      whether there is one. */
  function RoomsLeft(need: nat, free: nat, rooms: seq<nat>): (r: (bool, seq<nat>))
    ensures !r.0 ==> r.1 == []
    decreases |rooms|
  {
    if need < free then (true, rooms)
    else if rooms == [] then (false, [])
    else RoomsLeft(need, rooms[0], rooms[1..])
  }

  /** Encode one MCU; each time the destination suspends, the application makes the next
      amount of room and the same MCU is offered again. It stays suspended only if no room
      is enough. */
  method EncodeRetrying(e: Encoder, mcu: Mcu, rooms: seq<nat>) returns (st: Status, left: seq<nat>)
    requires e.Valid() && |mcu| == |e.sc.membership| && forall i :: 0 <= i < |rooms| ==> rooms[i] > 0
    modifies e
    ensures e.Valid() && forall i :: 0 <= i < |left| ==> left[i] > 0
    ensures var r := McuRun(e.sc, old(e.State()), mcu);
      && (st == Suspended <==> e.suspends && !RoomsLeft(|r.bytes|, old(e.free), rooms).0)
      && left == (if e.suspends then RoomsLeft(|r.bytes|, old(e.free), rooms).1 else rooms)
      && (st != Suspended ==> st == r.err)
      && (st == Ok ==> e.out == old(e.out) + r.bytes && e.State() == McuNext(e.sc, old(e.State()), mcu))
      && (st != Ok ==> e.out == old(e.out) && e.State() == old(e.State()))
  {
    hide McuRun, McuNext;
    McuDoesntSuspend(e.sc, e.State(), mcu);
    left := rooms;
    ghost var r, s := McuRun(e.sc, e.State(), mcu), e.State();
    ghost var goal := RoomsLeft(|r.bytes|, e.free, rooms);
    st := e.EncodeMcu(mcu);
    while st == Suspended && left != []
      invariant e.Valid() && forall i :: 0 <= i < |left| ==> left[i] > 0
      invariant e.suspends ==> goal == if st == Suspended then RoomsLeft(|r.bytes|, e.free, left) else (true, left)
      invariant st == Suspended ==> e.suspends && |r.bytes| >= e.free
      invariant !e.suspends ==> left == rooms
      invariant st != Suspended ==> st == r.err
      invariant st == Ok ==> e.out == old(e.out) + r.bytes && e.State() == McuNext(e.sc, s, mcu)
      invariant st != Ok ==> e.out == old(e.out) && e.State() == s
      decreases |left|
    {
      e.MakeRoom(left[0]);
      left := left[1..];
      st := e.EncodeMcu(mcu);
    }
  }

  /** A scan, from its start to its final flush. Whatever room the application
      makes after each suspension, a scan that completes has written exactly the
      bytes of the uninterrupted one, and they decode to its MCUs. It ends suspended
      only if no more room is made, or if the flush, which must not suspend, has too
      little of it. */
  method EncodeScan(e: Encoder, mcus: seq<Mcu>, rooms: seq<nat>) returns (st: Status, left: seq<nat>)
    requires e.Valid() && e.State() == StartScan(e.sc) && AllShaped(e.sc, mcus)
    requires forall i :: 0 <= i < |rooms| ==> rooms[i] > 0
    modifies e
    ensures st == Ok ==>
      && ScanRun(e.sc, StartScan(e.sc), mcus).err == Ok
      && e.out == old(e.out) + ScanRun(e.sc, StartScan(e.sc), mcus).bytes
    ensures st == Ok && TablesOk(e.sc) ==>
      && Bytes(e.out[|old(e.out)|..])
      && DecodeScan(e.sc, |mcus|, 0, e.out[|old(e.out)|..]) == Some(mcus)
    ensures st == BadCoef || st == MissingCode ==> ScanRun(e.sc, StartScan(e.sc), mcus).err == st
    ensures st == Suspended ==>
      e.suspends && (left == [] || |SendBits(e.State().pending, Ones(7)).bytes| >= e.free)
    ensures !e.suspends ==> st == ScanRun(e.sc, StartScan(e.sc), mcus).err
  {
    hide McuRun, McuNext, ScanRun, DecodeScan, TablesOk, Unstuff, Then;
    ghost var goal := ScanRun(e.sc, StartScan(e.sc), mcus);
    ghost var sofar := Run([], [], Ok);
    ScanFromHere(e.sc, e.State(), mcus, sofar, goal);
    left := rooms;
    for i := 0 to |mcus|
      invariant e.Valid() && forall i :: 0 <= i < |left| ==> left[i] > 0
      invariant sofar.err == Ok && e.out == old(e.out) + sofar.bytes
      invariant AllShaped(e.sc, mcus[i..]) && goal == Then(sofar, ScanRun(e.sc, e.State(), mcus[i..]))
    {
      ghost var s := e.State();
      FirstOfScan(e.sc, s, mcus[i..]);
      assert mcus[i..][0] == mcus[i] && mcus[i..][1..] == mcus[i + 1..];
      ghost var r := McuRun(e.sc, s, mcus[i]);
      st, left := EncodeRetrying(e, mcus[i], left);
      if st != Ok {
        StopsHere(sofar, r, ScanRun(e.sc, McuNext(e.sc, s, mcus[i]), mcus[i + 1..]));
        return;
      }
      ghost var rest := ScanRun(e.sc, e.State(), mcus[i + 1..]);
      OneMcuMore(old(e.out), sofar, r, rest);
      sofar := Then(sofar, r);
    }
    assert mcus[|mcus|..] == [];
    EmptyScan(e.sc, e.State());
    ghost var last := SendBits(e.pending, Ones(7)).bytes;
    OneMcuMore(old(e.out), sofar, Run(last, [], Ok), Run([], [], Ok));
    LastRun(sofar, last);
    st := e.FinishPass();
    if st == Ok {
      Completed(e.sc, mcus, old(e.out), e.out);
    }
  }

  /** What has been sent so far, and one run more. */
  lemma OneMcuMore(before: seq<nat>, sofar: Run, r: Run, rest: Run)
    requires sofar.err == Ok && r.err == Ok
    ensures Then(sofar, Then(r, rest)) == Then(Then(sofar, r), rest) && Then(sofar, r).err == Ok
    ensures (before + sofar.bytes) + r.bytes == before + Then(sofar, r).bytes
  {
    ThenAssoc(sofar, r, rest);
  }

  lemma StopsHere(sofar: Run, r: Run, rest: Run)
    requires sofar.err == Ok
    ensures r.err != Ok ==> Then(sofar, Then(r, rest)).err == r.err
  {
  }

  lemma LastRun(sofar: Run, last: seq<nat>)
    requires sofar.err == Ok
    ensures Then(sofar, Run(last, [], Ok)) == Run(sofar.bytes + last, [], Ok)
  {
  }

  lemma Completed(sc: Scan, mcus: seq<Mcu>, before: seq<nat>, after: seq<nat>)
    requires AllShaped(sc, mcus) && ScanRun(sc, StartScan(sc), mcus).err == Ok
    requires after == before + ScanRun(sc, StartScan(sc), mcus).bytes
    ensures TablesOk(sc) ==>
      && Bytes(after[|before|..])
      && DecodeScan(sc, |mcus|, 0, after[|before|..]) == Some(mcus)
  {
    hide ScanRun, DecodeScan, TablesOk;
    assert after[|before|..] == ScanRun(sc, StartScan(sc), mcus).bytes;
    if TablesOk(sc) {
      ScanRoundTrip(sc, mcus, 0);
    }
  }

  lemma ScanFromHere(sc: Scan, s: Saved, mcus: seq<Mcu>, sofar: Run, goal: Run)
    requires AllShaped(sc, mcus) && |s.dc| == |sc.dcNo|
    requires goal == ScanRun(sc, s, mcus) && sofar.err == Ok && sofar.bytes == []
    ensures mcus[0..] == mcus && goal == Then(sofar, ScanRun(sc, s, mcus[0..]))
  {
    hide ScanRun;
    assert mcus[0..] == mcus;
    assert [] + goal.bytes == goal.bytes;
  }

  lemma EmptyScan(sc: Scan, s: Saved)
    requires ScanOk(sc) && |s.dc| == |sc.dcNo|
    ensures ScanRun(sc, s, []) == Run(SendBits(s.pending, Ones(7)).bytes, [], Ok)
  {
  }

  // ----- Gathering statistics -----

  /** How often a symbol occurs in a run of tokens. */
  function Count(toks: seq<Token>, isAc: bool, s: nat): (n: nat)
  {
    if toks == [] then 0
    else (if toks[0] == Sym(isAc, s) then 1 else 0) + Count(toks[1..], isAc, s)
  }

  lemma {:induction false} CountAppend(a: seq<Token>, b: seq<Token>, isAc: bool, s: nat)
    ensures Count(a + b, isAc, s) == Count(a, isAc, s) + Count(b, isAc, s)
  {
    if a == [] {
      assert a + b == b;
    } else {
      assert (a + b)[0] == a[0] && (a + b)[1..] == a[1..] + b;
      CountAppend(a[1..], b, isAc, s);
    }
  }

  /** Tables of symbol counts, one entry more than there are real symbols. */
  predicate CountTable(c: seq<nat>)
  {
    |c| == SYMBOLS
  }

  /** c' is c with the symbols of some tokens counted in. */
  ghost predicate Counted(c: seq<nat>, c': seq<nat>, toks: seq<Token>, isAc: bool)
  {
    CountTable(c) && CountTable(c') && forall s: nat :: s < SYMBOLS ==> c'[s] == c[s] + Count(toks, isAc, s)
  }

  lemma CountedThen(c: seq<nat>, c1: seq<nat>, c2: seq<nat>, a: seq<Token>, b: seq<Token>, isAc: bool)
    requires Counted(c, c1, a, isAc) && Counted(c1, c2, b, isAc)
    ensures Counted(c, c2, a + b, isAc)
  {
    forall s: nat | s < SYMBOLS
      ensures c2[s] == c[s] + Count(a + b, isAc, s)
    {
      CountAppend(a, b, isAc, s);
    }
  }

  lemma CountedNone(c: seq<nat>, isAc: bool)
    requires CountTable(c)
    ensures Counted(c, c, [], isAc)
  {
  }

  lemma CountSingle(t: Token, isAc: bool, s: nat)
    ensures Count([t], isAc, s) == if t == Sym(isAc, s) then 1 else 0
  {
    assert [t][1..] == [];
    assert Count([], isAc, s) == 0;
  }

  lemma CountDouble(t: Token, u: Token, isAc: bool, s: nat)
    ensures Count([t, u], isAc, s) == (if t == Sym(isAc, s) then 1 else 0) + if u == Sym(isAc, s) then 1 else 0
  {
    assert [t, u][1..] == [u];
    CountSingle(u, isAc, s);
  }

  lemma CountedOne(c: seq<nat>, isAc: bool, s: nat)
    requires CountTable(c) && s < SYMBOLS
    ensures Counted(c, c[s := c[s] + 1], [Sym(isAc, s)], isAc)
  {
    forall x: nat | x < SYMBOLS
      ensures c[s := c[s] + 1][x] == c[x] + Count([Sym(isAc, s)], isAc, x)
    {
      CountSingle(Sym(isAc, s), isAc, x);
    }
  }

  lemma CountedPair(c: seq<nat>, isAc: bool, s: nat, v: nat, n: nat)
    requires CountTable(c) && s < SYMBOLS
    ensures Counted(c, c[s := c[s] + 1], [Sym(isAc, s), Raw(v, n)], isAc)
  {
    forall x: nat | x < SYMBOLS
      ensures c[s := c[s] + 1][x] == c[x] + Count([Sym(isAc, s), Raw(v, n)], isAc, x)
    {
      CountDouble(Sym(isAc, s), Raw(v, n), isAc, x);
    }
  }

  /** The DC part of htest_one_block; false where the source raises its
      bad-coefficient error. */
  method CountDC(diff: int, dcCounts: seq<nat>) returns (ok: bool, counts: seq<nat>)
    requires CountTable(dcCounts)
    ensures ok <==> Bad !in DCTokens(diff)
    ensures ok ==> Counted(dcCounts, counts, DCTokens(diff), false)
  {
    var nbits := MagnitudeBits(if diff < 0 then -diff else diff);
    if nbits > MAX_COEF_BITS + 1 {
      return false, dcCounts;
    }
    counts := dcCounts[nbits := dcCounts[nbits] + 1];
    if nbits > 0 {
      CountedPair(dcCounts, false, nbits, ValueWord(diff), nbits);
    } else {
      CountedOne(dcCounts, false, nbits);
    }
    return true, counts;
  }

  /** The AC part of htest_one_block. */
  method CountAC(block: Block, acCounts: seq<nat>) returns (ok: bool, counts: seq<nat>)
    requires CountTable(acCounts)
    ensures ok <==> Bad !in ACTokens(Zigzag(block), 1, 0)
    ensures ok ==> Counted(acCounts, counts, ACTokens(Zigzag(block), 1, 0), true)
  {
    hide Natural, ACTokens, Counted;
    ghost var z := Zigzag(block);
    ghost var goal := ACTokens(z, 1, 0);
    ghost var done := [];
    assert goal == done + ACTokens(z, 1, 0);
    counts := acCounts;
    CountedNone(acCounts, true);
    var r := 0;
    var k := 1;
    while k < DCTSIZE2
      invariant 1 <= k <= DCTSIZE2 && CountTable(counts)
      invariant goal == done + ACTokens(z, k, r) && Bad !in done
      invariant Counted(acCounts, counts, done, true)
      decreases DCTSIZE2 - k
    {
      var temp := block[Natural(k)];
      if temp == 0 {
        ZeroTokens(z, k, r);
        r := r + 1;
      } else {
        while r > 15
          invariant CountTable(counts)
          invariant goal == done + ACTokens(z, k, r) && Bad !in done
          invariant Counted(acCounts, counts, done, true)
        {
          ZrlTokens(z, k, r);
          CountedOne(counts, true, ZRL);
          CountedThen(acCounts, counts, counts[ZRL := counts[ZRL] + 1], done, [Sym(true, ZRL)], true);
          counts := counts[ZRL := counts[ZRL] + 1];
          done := done + [Sym(true, ZRL)];
          r := r - 16;
        }
        CoefTokens(z, k, r);
        var nbits := MagnitudeBits(if temp < 0 then -temp else temp);
        if nbits > MAX_COEF_BITS {
          assert CoefPair(temp, r) == [Bad];
          assert Bad in [Bad];
          return false, counts;
        }
        var sym := r * 16 + nbits;
        CountedPair(counts, true, sym, ValueWord(temp), nbits);
        CountedThen(acCounts, counts, counts[sym := counts[sym] + 1], done, CoefPair(temp, r), true);
        counts := counts[sym := counts[sym] + 1];
        done := done + CoefPair(temp, r);
        r := 0;
      }
      k := k + 1;
    }
    EndTokens(z, r);
    if r > 0 {
      CountedOne(counts, true, EOB);
      CountedThen(acCounts, counts, counts[EOB := counts[EOB] + 1], done, [Sym(true, EOB)], true);
      counts := counts[EOB := counts[EOB] + 1];
      done := done + [Sym(true, EOB)];
    }
    assert done == goal;
    return true, counts;
  }

  lemma ZrlTokens(z: Block, k: nat, r: nat)
    requires k < DCTSIZE2 && z[k] != 0 && r > 15
    ensures ACTokens(z, k, r) == [Sym(true, ZRL)] + ACTokens(z, k, r - 16)
  {
  }

  lemma CoefTokens(z: Block, k: nat, r: nat)
    requires k < DCTSIZE2 && z[k] != 0 && r <= 15
    ensures ACTokens(z, k, r) == CoefPair(z[k], r) + ACTokens(z, k + 1, 0)
  {
  }

  lemma EndTokens(z: Block, r: nat)
    ensures ACTokens(z, DCTSIZE2, r) == if r > 0 then [Sym(true, EOB)] else []
  {
  }

  /** htest_one_block. */
  method CountBlock(block: Block, pred: int, dcCounts: seq<nat>, acCounts: seq<nat>)
    returns (ok: bool, dc: seq<nat>, ac: seq<nat>)
    requires CountTable(dcCounts) && CountTable(acCounts)
    ensures ok <==> Bad !in BlockTokens(Zigzag(block), pred)
    ensures ok <==> BlockFits(Zigzag(block), pred)
    ensures ok ==> Counted(dcCounts, dc, BlockTokens(Zigzag(block), pred), false)
    ensures ok ==> Counted(acCounts, ac, BlockTokens(Zigzag(block), pred), true)
  {
    hide ACTokens, DCTokens, Counted;
    ghost var a, b := DCTokens(block[0] - pred), ACTokens(Zigzag(block), 1, 0);
    FirstIsDC(block);
    BlockInRange(Zigzag(block), pred);
    ok, dc := CountDC(block[0] - pred, dcCounts);
    ac := acCounts;
    if !ok {
      return;
    }
    ok, ac := CountAC(block, acCounts);
    if !ok {
      return;
    }
    OtherKind(block, pred, dc, acCounts);
    CountedThen(dcCounts, dc, dc, a, b, false);
    CountedThen(acCounts, acCounts, ac, a, b, true);
  }

  /** DC tokens hold no AC symbols and the other way round. */
  lemma OtherKind(block: Block, pred: int, dc: seq<nat>, ac: seq<nat>)
    requires CountTable(dc) && CountTable(ac)
    ensures Counted(dc, dc, ACTokens(Zigzag(block), 1, 0), false)
    ensures Counted(ac, ac, DCTokens(block[0] - pred), true)
  {
    var z := Zigzag(block);
    forall s: nat | s < SYMBOLS
      ensures Count(ACTokens(z, 1, 0), false, s) == 0
    {
      NoDCInAC(z, 1, 0, s);
    }
    CountedZero(dc, ACTokens(z, 1, 0), false);
    var toks := DCTokens(block[0] - pred);
    forall s: nat | s < SYMBOLS
      ensures Count(toks, true, s) == 0
    {
      NoACInDC(block[0] - pred, s);
    }
    CountedZero(ac, toks, true);
  }

  lemma CountedZero(c: seq<nat>, toks: seq<Token>, isAc: bool)
    requires CountTable(c) && forall s: nat :: s < SYMBOLS ==> Count(toks, isAc, s) == 0
    ensures Counted(c, c, toks, isAc)
  {
  }

  lemma NoACInDC(diff: int, s: nat)
    ensures Count(DCTokens(diff), true, s) == 0
  {
    var toks := DCTokens(diff);
    if |toks| == 2 {
      CountDouble(toks[0], toks[1], true, s);
      assert toks == [toks[0], toks[1]];
    } else {
      CountSingle(toks[0], true, s);
      assert toks == [toks[0]];
    }
  }

  lemma {:induction false} NoDCInAC(z: Block, k: nat, r: nat, s: nat)
    requires k <= DCTSIZE2
    ensures Count(ACTokens(z, k, r), false, s) == 0
    decreases DCTSIZE2 - k, r
  {
    if k == DCTSIZE2 {
      if r > 0 {
        CountSingle(Sym(true, EOB), false, s);
      }
    } else if z[k] == 0 {
      NoDCInAC(z, k + 1, r + 1, s);
    } else if r > 15 {
      NoDCInAC(z, k, r - 16, s);
      CountSingle(Sym(true, ZRL), false, s);
      CountAppend([Sym(true, ZRL)], ACTokens(z, k, r - 16), false, s);
    } else {
      NoDCInAC(z, k + 1, 0, s);
      var p := CoefPair(z[k], r);
      if |p| == 2 {
        CountDouble(p[0], p[1], false, s);
        assert p == [p[0], p[1]];
      } else {
        CountSingle(p[0], false, s);
        assert p == [p[0]];
      }
      CountAppend(p, ACTokens(z, k + 1, 0), false, s);
    }
  }
}
