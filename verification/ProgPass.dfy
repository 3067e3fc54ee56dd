/** Whole passes of the progressive encoder: what an output pass writes, what a
    statistics pass counts, and their agreement. */
module ProgPass {
  import opened Stuffing
  import opened SeqTokens
  import opened SeqEncoder
  import opened ProgTokens
  import opened ProgScan
  import opened ProgEncoder

  /** Everything a scan logs. */
  function WholeLog(sc: PScan, mcus: seq<Mcu>): seq<Out>
    requires Shaped(sc, mcus)
    decreases |mcus|
  {
    if LastInterval(sc, |mcus|) then IntervalLog(sc, mcus)
    else IntervalLog(sc, mcus[..sc.interval]) + WholeLog(sc, mcus[sc.interval..])
  }

  lemma {:induction false} WholeSendable(sc: PScan, mcus: seq<Mcu>)
    requires Shaped(sc, mcus)
    ensures LogSendable(WholeLog(sc, mcus), sc.tables) <==> ScanSendable(sc, mcus)
    decreases |mcus|
  {
    hide LogSendable, IntervalLog;
    if !LastInterval(sc, |mcus|) {
      var a, b := IntervalLog(sc, mcus[..sc.interval]), WholeLog(sc, mcus[sc.interval..]);
      WholeSendable(sc, mcus[sc.interval..]);
      if LogSendable(a + b, sc.tables) {
        SplitSendable(a, b, sc.tables);
      } else if LogSendable(a, sc.tables) && LogSendable(b, sc.tables) {
        LogBitsAppend(a, b, sc.tables);
      }
    }
  }

  lemma {:induction false} CodeSnoc(sc: PScan, c: Coder, mcus: seq<Mcu>, m: Mcu)
    requires Shaped(sc, mcus + [m]) && Shaped(sc, mcus) && |m| == |sc.membership| && |c.dc| == |sc.dcNo|
    ensures CodeAll(sc, c, mcus + [m]) == CodeMcu(sc, CodeAll(sc, c, mcus), m)
    decreases |mcus|
  {
    hide CodeMcu;
    if mcus == [] {
      assert (mcus + [m])[1..] == [];
    } else {
      assert (mcus + [m])[1..] == mcus[1..] + [m];
      CodeSnoc(sc, CodeMcu(sc, c, mcus[0]), mcus[1..], m);
    }
  }

  /** How far a pass has come: `mcus[m..i]` in the restart interval in progress,
      everything before m finished. */
  ghost predicate PassAt(sc: PScan, mcus: seq<Mcu>, m: nat, i: nat, togo: nat, cur: Coder, before: seq<Out>)
  {
    && Shaped(sc, mcus) && m <= i <= |mcus|
    && (sc.interval > 0 ==> togo + (i - m) == sc.interval)
    && cur == CodeAll(sc, Fresh(sc), mcus[m..i])
    && WholeLog(sc, mcus) == before + WholeLog(sc, mcus[m..])
  }

  /** What an output pass has finished: the bytes up to the interval in progress,
      which restart marker j will end. */
  ghost predicate OutputAt(sc: PScan, mcus: seq<Mcu>, base: seq<nat>, m: nat, start: seq<nat>, j: nat)
  {
    && Shaped(sc, mcus) && m <= |mcus|
    && (ScanSendable(sc, mcus) <==> ScanSendable(sc, mcus[m..]))
    && (ScanSendable(sc, mcus) ==> base + ScanBytes(sc, mcus, 0) == start + ScanBytes(sc, mcus[m..], j))
  }

  lemma PassBegins(sc: PScan, mcus: seq<Mcu>, base: seq<nat>, togo: nat)
    requires Shaped(sc, mcus) && (sc.interval > 0 ==> togo == sc.interval)
    ensures PassAt(sc, mcus, 0, 0, togo, Fresh(sc), []) && OutputAt(sc, mcus, base, 0, base, 0)
  {
    assert mcus[0..] == mcus && mcus[0..0] == [];
    assert [] + WholeLog(sc, mcus) == WholeLog(sc, mcus);
  }

  /** One more MCU in the interval in progress. */
  lemma PassStep(sc: PScan, mcus: seq<Mcu>, m: nat, i: nat, togo: nat, cur: Coder, before: seq<Out>, togo': nat)
    requires PassAt(sc, mcus, m, i, togo, cur, before) && i < |mcus|
    requires sc.interval > 0 ==> togo > 0 && togo' == togo - 1
    ensures |cur.dc| == |sc.dcNo| && |mcus[i]| == |sc.membership|
    ensures PassAt(sc, mcus, m, i + 1, togo', CodeMcu(sc, cur, mcus[i]), before)
  {
    hide CodeMcu, CodeAll, WholeLog;
    assert mcus[m..i + 1] == mcus[m..i] + [mcus[i]];
    CodeSnoc(sc, Fresh(sc), mcus[m..i], mcus[i]);
  }

  /** A restart: the interval in progress is finished, the next begins. */
  lemma PassRestarts(sc: PScan, mcus: seq<Mcu>, m: nat, i: nat, cur: Coder, before: seq<Out>)
    requires PassAt(sc, mcus, m, i, 0, cur, before) && i < |mcus| && sc.interval > 0
    ensures Finish(sc, cur) == IntervalLog(sc, mcus[m..i])
    ensures PassAt(sc, mcus, i, i, sc.interval, Fresh(sc), before + Finish(sc, cur))
    ensures WholeLog(sc, mcus) == before + Finish(sc, cur) + WholeLog(sc, mcus[i..])
  {
    hide CodeMcu, Finish;
    assert mcus[i..i] == [];
    assert mcus[m..][..sc.interval] == mcus[m..i] && mcus[m..][sc.interval..] == mcus[i..];
    AssociateLog(before, Finish(sc, cur), WholeLog(sc, mcus[i..]));
  }

  lemma OutputRestarts(sc: PScan, mcus: seq<Mcu>, base: seq<nat>, m: nat, i: nat, start: seq<nat>, j: nat,
                       start': seq<nat>)
    requires OutputAt(sc, mcus, base, m, start, j) && m <= i < |mcus| && i - m == sc.interval > 0
    requires LogSendable(IntervalLog(sc, mcus[m..i]), sc.tables)
    requires start' == start + IntervalBytes(sc, IntervalLog(sc, mcus[m..i])) + [FF, RST0 + j]
    ensures OutputAt(sc, mcus, base, i, start', (j + 1) % 8)
  {
    hide LogSendable, IntervalLog, LogBits, Stuff, Pad;
    assert mcus[m..][..sc.interval] == mcus[m..i] && mcus[m..][sc.interval..] == mcus[i..];
    if ScanSendable(sc, mcus) {
      var a, b, c := IntervalBytes(sc, IntervalLog(sc, mcus[m..i])),
        [FF, RST0 + j], ScanBytes(sc, mcus[i..], (j + 1) % 8);
      assert start + (a + b + c) == (start + a + b) + c;
    }
  }

  /** An error in one interval is an error of the scan. */
  lemma StopsPass(sc: PScan, gather: bool, suspends: bool, a: seq<Out>, b: seq<Out>, c: seq<Out>, st: Status)
    requires EndsAs(sc, gather, suspends, b, st) && st != Ok
    ensures EndsAs(sc, gather, suspends, a + b + c, st)
  {
    if NoBad(a + b + c) {
      forall i | 0 <= i < |b|
        ensures b[i].tok != Bad
      {
        assert (a + b + c)[|a| + i] == b[i];
      }
    }
    if LogSendable(a + b + c, sc.tables) {
      SplitSendable(a + b, c, sc.tables);
      SplitSendable(a, b, sc.tables);
    }
  }

  lemma StopsInInterval(sc: PScan, gather: bool, suspends: bool, mcus: seq<Mcu>, m: nat, i: nat, togo: nat, cur: Coder,
                        before: seq<Out>, st: Status)
    requires PassAt(sc, mcus, m, i, togo, cur, before) && i < |mcus| && (sc.interval > 0 ==> togo > 0)
    requires |cur.dc| == |sc.dcNo| && |mcus[i]| == |sc.membership|
    requires EndsAs(sc, gather, suspends, CodeMcu(sc, cur, mcus[i]).log, st) && st != Ok
    ensures EndsAs(sc, gather, suspends, WholeLog(sc, mcus), st)
  {
    hide CodeMcu, CodeAll, EndsAs, WholeLog, Finish;
    var log := CodeMcu(sc, cur, mcus[i]).log;
    var rest := LogsMore(sc, mcus, m, i, togo, cur, before);
    StopsPass(sc, gather, suspends, before, log, rest, st);
    AssociateLog(before, log, rest);
  }

  /** An interval's log extends what was logged up to any of its MCUs. */
  lemma IntervalExtends(sc: PScan, a: seq<Mcu>, b: seq<Mcu>) returns (rest: seq<Out>)
    requires Shaped(sc, a) && Shaped(sc, b) && Shaped(sc, a + b)
    ensures IntervalLog(sc, a + b) == CodeAll(sc, Fresh(sc), a).log + rest
  {
    hide CodeAll, FlushTokens;
    var c := CodeAll(sc, Fresh(sc), a);
    CodeConcat(sc, Fresh(sc), a, b);
    CodeExtends(sc, c, b);
    var last := CodeAll(sc, c, b);
    var more :| last.log == c.log + more;
    rest := more + Tag(sc.acNo, FlushTokens(last.eobrun, last.be));
    AssociateLog(c.log, more, Tag(sc.acNo, FlushTokens(last.eobrun, last.be)));
  }

  /** What an MCU of the interval in progress logs is part of what the rest of
      the scan logs. */
  lemma LogsMore(sc: PScan, mcus: seq<Mcu>, m: nat, i: nat, togo: nat, cur: Coder, before: seq<Out>)
    returns (rest: seq<Out>)
    requires PassAt(sc, mcus, m, i, togo, cur, before) && i < |mcus| && (sc.interval > 0 ==> togo > 0)
    requires |cur.dc| == |sc.dcNo| && |mcus[i]| == |sc.membership|
    ensures WholeLog(sc, mcus[m..]) == CodeMcu(sc, cur, mcus[i]).log + rest
  {
    hide CodeMcu, CodeAll, IntervalLog;
    var n := if LastInterval(sc, |mcus| - m) then |mcus| else m + sc.interval;
    assert mcus[m..i + 1] == mcus[m..i] + [mcus[i]];
    CodeSnoc(sc, Fresh(sc), mcus[m..i], mcus[i]);
    assert mcus[m..n] == mcus[m..i + 1] + mcus[i + 1..n];
    rest := IntervalExtends(sc, mcus[m..i + 1], mcus[i + 1..n]);
    if n == |mcus| {
      assert mcus[m..] == mcus[m..n];
    } else {
      assert mcus[m..][..sc.interval] == mcus[m..n];
      var later := WholeLog(sc, mcus[m..][sc.interval..]);
      AssociateLog(CodeMcu(sc, cur, mcus[i]).log, rest, later);
      rest := rest + later;
    }
  }

  lemma {:induction false} CodeConcat(sc: PScan, c: Coder, a: seq<Mcu>, b: seq<Mcu>)
    requires Shaped(sc, a) && Shaped(sc, b) && Shaped(sc, a + b) && |c.dc| == |sc.dcNo|
    ensures CodeAll(sc, c, a + b) == CodeAll(sc, CodeAll(sc, c, a), b)
    decreases |a|
  {
    hide CodeMcu;
    if a == [] {
      assert a + b == b;
    } else {
      assert (a + b)[0] == a[0] && (a + b)[1..] == a[1..] + b;
      CodeConcat(sc, CodeMcu(sc, c, a[0]), a[1..], b);
    }
  }

  /** Nothing is left after the last MCU but the pending run. */
  lemma PassEnds(sc: PScan, mcus: seq<Mcu>, m: nat, togo: nat, cur: Coder, before: seq<Out>)
    requires PassAt(sc, mcus, m, |mcus|, togo, cur, before)
    ensures LastInterval(sc, |mcus| - m) && IntervalLog(sc, mcus[m..]) == Finish(sc, cur)
    ensures WholeLog(sc, mcus) == before + Finish(sc, cur)
  {
    hide CodeAll, Finish;
    assert mcus[m..|mcus|] == mcus[m..];
  }

  lemma OutputEnds(sc: PScan, mcus: seq<Mcu>, base: seq<nat>, m: nat, start: seq<nat>, j: nat)
    requires OutputAt(sc, mcus, base, m, start, j) && LastInterval(sc, |mcus| - m)
    requires LogSendable(IntervalLog(sc, mcus[m..]), sc.tables)
    ensures ScanSendable(sc, mcus)
    ensures base + ScanBytes(sc, mcus, 0) == start + IntervalBytes(sc, IntervalLog(sc, mcus[m..]))
  {
    hide LogSendable, IntervalLog, LogBits, Stuff, Pad;
  }

  lemma GatheredAll(sc: PScan, log: seq<Out>, suspends: bool)
    requires NoBad(log)
    ensures EndsAs(sc, true, suspends, log, Ok)
  {
  }

  lemma SentAll(sc: PScan, mcus: seq<Mcu>, suspends: bool)
    requires Shaped(sc, mcus) && ScanSendable(sc, mcus)
    ensures EndsAs(sc, false, suspends, WholeLog(sc, mcus), Ok)
  {
    WholeSendable(sc, mcus);
    var log := WholeLog(sc, mcus);
    forall i | 0 <= i < |log|
      ensures log[i].tok != Bad
    {
      assert OutSendable(log[i], sc.tables);
    }
  }

  /** A whole pass over the MCUs of a scan. An output pass that completes has
      written exactly the bytes of the scan; a statistics pass has counted
      exactly the symbols of the same log. A pass fails only for a reason in the
      log: a coefficient out of range, or, on output, a symbol without a code. */
  method EncodePass(e: Phuff, mcus: seq<Mcu>) returns (st: Status)
    requires e.Valid() && e.Cur() == Fresh(e.sc) && e.before == []
    requires e.restartsToGo == e.sc.interval && e.nextRestartNum == 0 && Shaped(e.sc, mcus)
    modifies e, e.w, e.bitBuffer
    ensures EndsAs(e.sc, e.gather, e.w.suspends, WholeLog(e.sc, mcus), st)
    ensures st == Ok && e.gather ==> |e.counts| == |e.sc.tables| && CountsLog(e.counts, WholeLog(e.sc, mcus))
    ensures st == Ok && !e.gather ==>
      ScanSendable(e.sc, mcus) && e.w.out == old(e.start) + ScanBytes(e.sc, mcus, 0)
  {
    hide Phuff.Tracks, EndsAs, CodeMcu, PassAt, OutputAt, WholeLog, ScanSendable, ScanBytes, Finish, Fresh,
      IntervalBytes, LogSendable, CountsLog, IntervalLog;
    ghost var sc, base := e.sc, e.start;
    ghost var m: nat := 0;
    PassBegins(sc, mcus, base, e.restartsToGo);
    for i := 0 to |mcus|
      invariant e.Valid() && m <= i && PassAt(sc, mcus, m, i, e.restartsToGo, e.Cur(), e.before)
      invariant !e.gather ==> OutputAt(sc, mcus, base, m, e.start, e.nextRestartNum)
    {
      st, m := PassMcu(e, mcus, i, m, base);
      if st != Ok {
        return;
      }
    }
    PassEnds(sc, mcus, m, e.restartsToGo, e.Cur(), e.before);
    ghost var log := Finish(sc, e.Cur());
    st := e.FinishPass();
    if st != Ok {
      StopsPass(sc, e.gather, e.w.suspends, e.before, log, [], st);
      assert e.before + log + [] == e.before + log;
    } else if e.gather {
      GatheredAll(sc, WholeLog(sc, mcus), e.w.suspends);
    } else {
      OutputEnds(sc, mcus, base, m, e.start, e.nextRestartNum);
      SentAll(sc, mcus, e.w.suspends);
    }
  }

  lemma PassStops(sc: PScan, gather: bool, suspends: bool, mcus: seq<Mcu>, m: nat, i: nat, togo: nat, cur: Coder,
                  before: seq<Out>,
                  cur0: Coder, before0: seq<Out>, due: bool, st: Status)
    requires PassAt(sc, mcus, m, i, togo, cur, before) && i < |mcus| && (sc.interval > 0 ==> togo > 0)
    requires |cur.dc| == |sc.dcNo| && |mcus[i]| == |sc.membership| && st != Ok
    requires due ==> WholeLog(sc, mcus) == before0 + Finish(sc, cur0) + WholeLog(sc, mcus[i..])
    requires (due && EndsAs(sc, gather, suspends, Finish(sc, cur0), st))
      || EndsAs(sc, gather, suspends, CodeMcu(sc, cur, mcus[i]).log, st)
    ensures EndsAs(sc, gather, suspends, WholeLog(sc, mcus), st)
  {
    hide CodeMcu, CodeAll, EndsAs, WholeLog, Finish;
    if EndsAs(sc, gather, suspends, CodeMcu(sc, cur, mcus[i]).log, st) {
      StopsInInterval(sc, gather, suspends, mcus, m, i, togo, cur, before, st);
    } else {
      StopsPass(sc, gather, suspends, before0, Finish(sc, cur0), WholeLog(sc, mcus[i..]), st);
    }
  }

  /** One MCU of a pass. */
  method PassMcu(e: Phuff, mcus: seq<Mcu>, i: nat, ghost m: nat, ghost base: seq<nat>)
    returns (st: Status, ghost m': nat)
    requires e.Valid() && i < |mcus| && PassAt(e.sc, mcus, m, i, e.restartsToGo, e.Cur(), e.before)
    requires !e.gather ==> OutputAt(e.sc, mcus, base, m, e.start, e.nextRestartNum)
    modifies e, e.w, e.bitBuffer
    ensures st != Ok ==> EndsAs(e.sc, e.gather, e.w.suspends, WholeLog(e.sc, mcus), st)
    ensures st == Ok ==> e.Valid() && m' <= i + 1 && PassAt(e.sc, mcus, m', i + 1, e.restartsToGo, e.Cur(), e.before)
    ensures st == Ok && !e.gather ==> OutputAt(e.sc, mcus, base, m', e.start, e.nextRestartNum)
  {
    hide Phuff.Tracks, EndsAs, CodeMcu, WholeLog, ScanSendable, ScanBytes, Finish, Fresh, IntervalBytes, LogSendable,
      CountsLog, IntervalLog;
    m' := m;
    ghost var start0, before0, togo0, cur0 := e.start, e.before, e.restartsToGo, e.Cur();
    ghost var due := e.RestartDue();
    if due {
      PassRestarts(e.sc, mcus, m, i, cur0, before0);
      m' := i;
    }
    ghost var cur, before, togo := e.StartOfMcu(), if due then before0 + Finish(e.sc, cur0) else before0,
      if due then e.sc.interval else togo0;
    st := e.EncodeMcu(mcus[i]);
    if st == Ok {
      PassStep(e.sc, mcus, m', i, togo, cur, before, e.restartsToGo);
      if due && !e.gather {
        OutputRestarts(e.sc, mcus, base, m, i, start0, old(e.nextRestartNum), e.start);
      }
    } else {
      PassStops(e.sc, e.gather, e.w.suspends, mcus, m', i, togo, cur, before, cur0, before0, due, st);
    }
  }
}
