/** A whole progressive scan: DC and AC, first and refining, with restart
    intervals, and the byte stream that sections F.2 and G.2 of T.81 decode. */
module ProgScan {
  import opened Arith
  import opened Bits
  import opened Stuffing
  import opened ZigzagOrder
  import opened SeqTokens
  import opened ProgTokens
  import opened ProgFirst
  import opened ProgRefine

  /** A token and the number of the table that codes it. */
  datatype Out = Out(tbl: nat, tok: Token)

  type Mcu = seq<Block>

  /** What a scan fixes: its band and bit positions, the component of each block
      of an MCU, the DC table of each component, the AC table, the tables and the
      restart interval (0 for none). */
  datatype PScan = PScan(ss: nat, se: nat, ah: nat, al: nat, membership: seq<nat>, dcNo: seq<nat>, acNo: nat,
                         tables: seq<Table>, interval: nat)

  /** What the script check establishes of a scan (jcmaster.c): DC alone or a
      band of AC coefficients of one component, refined by one bit. */
  ghost predicate PScanOk(sc: PScan)
  {
    && sc.ss <= sc.se < DCTSIZE2 && (sc.ss == 0 ==> sc.se == 0)
    && (sc.ah > 0 ==> sc.ah == sc.al + 1)
    && (sc.ss > 0 ==> |sc.membership| == 1 && sc.acNo < |sc.tables|)
    && (forall i :: 0 <= i < |sc.membership| ==> sc.membership[i] < |sc.dcNo|)
    && (sc.ss == 0 && sc.ah == 0 ==> forall c :: 0 <= c < |sc.dcNo| ==> sc.dcNo[c] < |sc.tables|)
  }

  ghost predicate Shaped(sc: PScan, mcus: seq<Mcu>)
  {
    PScanOk(sc) && forall i :: 0 <= i < |mcus| ==> |mcus[i]| == |sc.membership|
  }

  // ----- Logs of tagged tokens -----

  function Tag(tbl: nat, toks: seq<Token>): (r: seq<Out>)
    ensures |r| == |toks|
  {
    seq(|toks|, i requires 0 <= i < |toks| => Out(tbl, toks[i]))
  }

  lemma TagAppend(tbl: nat, a: seq<Token>, b: seq<Token>)
    ensures Tag(tbl, a + b) == Tag(tbl, a) + Tag(tbl, b)
  {
  }

  predicate OutSendable(o: Out, tables: seq<Table>)
  {
    match o.tok
    case Sym(_, s) => o.tbl < |tables| && HasCode(tables[o.tbl].codes, s)
    case Raw(_, _) => true
    case Bad => false
  }

  ghost predicate LogSendable(log: seq<Out>, tables: seq<Table>)
  {
    forall i :: 0 <= i < |log| ==> OutSendable(log[i], tables)
  }

  function OutBits(o: Out, tables: seq<Table>): seq<bool>
    requires OutSendable(o, tables)
  {
    match o.tok
    case Sym(_, s) => SymBits(tables[o.tbl].codes, s)
    case Raw(v, n) => ToBits(v, n)
  }

  ghost function LogBits(log: seq<Out>, tables: seq<Table>): seq<bool>
    requires LogSendable(log, tables)
  {
    if log == [] then [] else OutBits(log[0], tables) + LogBits(log[1..], tables)
  }

  lemma {:induction false} LogBitsAppend(a: seq<Out>, b: seq<Out>, tables: seq<Table>)
    requires LogSendable(a, tables) && LogSendable(b, tables)
    ensures LogSendable(a + b, tables) && LogBits(a + b, tables) == LogBits(a, tables) + LogBits(b, tables)
  {
    if a == [] {
      assert a + b == b;
    } else {
      assert (a + b)[0] == a[0] && (a + b)[1..] == a[1..] + b;
      LogBitsAppend(a[1..], b, tables);
      Associate(OutBits(a[0], tables), LogBits(a[1..], tables), LogBits(b, tables));
    }
  }

  /** Tokens of one table, tagged or not. */
  lemma {:induction false} TagBits(tbl: nat, toks: seq<Token>, tables: seq<Table>)
    requires tbl < |tables|
    ensures LogSendable(Tag(tbl, toks), tables) <==> AllSendable(toks, tables[tbl].codes, tables[tbl].codes)
    ensures LogSendable(Tag(tbl, toks), tables) ==>
      LogBits(Tag(tbl, toks), tables) == Render(toks, tables[tbl].codes, tables[tbl].codes)
  {
    if toks != [] {
      TagBits(tbl, toks[1..], tables);
      var log := Tag(tbl, toks);
      assert log[1..] == Tag(tbl, toks[1..]);
      assert OutSendable(log[0], tables) <==> Sendable(toks[0], tables[tbl].codes, tables[tbl].codes);
      assert LogSendable(log, tables) <==> OutSendable(log[0], tables) && LogSendable(log[1..], tables) by {
        assert log == [log[0]] + log[1..];
      }
    }
  }

  // ----- Coding one MCU -----

  /** The DC point transform: an arithmetic right shift. */
  function Shifted(c: int, al: nat): int
  {
    c / Pow2(al)
  }

  /** Blocks i and on of an MCU in a first DC scan: differences of the
      transformed values. */
  function DCFirstLog(sc: PScan, dc: seq<int>, mcu: Mcu, i: nat): seq<Out>
    requires PScanOk(sc) && sc.ss == 0 && sc.ah == 0 && |dc| == |sc.dcNo| && i <= |mcu| == |sc.membership|
    decreases |mcu| - i
  {
    if i == |mcu| then []
    else
      var c := sc.membership[i];
      var v := Shifted(mcu[i][0], sc.al);
      Tag(sc.dcNo[c], DCTokens(v - dc[c])) + DCFirstLog(sc, dc[c := v], mcu, i + 1)
  }

  function DCFirstNext(sc: PScan, dc: seq<int>, mcu: Mcu, i: nat): (r: seq<int>)
    requires PScanOk(sc) && |dc| == |sc.dcNo| && i <= |mcu| == |sc.membership|
    ensures |r| == |dc|
    decreases |mcu| - i
  {
    if i == |mcu| then dc else DCFirstNext(sc, dc[sc.membership[i] := Shifted(mcu[i][0], sc.al)], mcu, i + 1)
  }

  /** In a refining DC scan: the next bit of each value. */
  function DCBit(c: int, al: nat): Token
  {
    Raw(Shifted(c, al) % WORD, 1)
  }

  function DCRefineLog(al: nat, mcu: Mcu, i: nat): seq<Out>
    requires i <= |mcu|
    decreases |mcu| - i
  {
    if i == |mcu| then [] else [Out(0, DCBit(mcu[i][0], al))] + DCRefineLog(al, mcu, i + 1)
  }

  /** A block's part in an AC scan. */
  function AcPart(sc: PScan, z: Block): Part
    requires PScanOk(sc) && sc.ss > 0
  {
    if sc.ah == 0 then FirstPart(z, sc.ss, sc.se, sc.al, 0) else RefineBlock(z, sc.ss, sc.se, sc.al)
  }

  /** The coder inside a restart interval: what it has emitted since the
      interval began, the pending end-of-band run with its correction bits, and
      the DC predictions. */
  datatype Coder = Coder(log: seq<Out>, eobrun: nat, be: seq<bool>, dc: seq<int>)

  function Fresh(sc: PScan): Coder
  {
    Coder([], 0, [], Zeroes(|sc.dcNo|))
  }

  function CodeMcu(sc: PScan, c: Coder, mcu: Mcu): (r: Coder)
    requires PScanOk(sc) && |c.dc| == |sc.dcNo| && |mcu| == |sc.membership|
    ensures |r.dc| == |sc.dcNo|
  {
    if sc.ss > 0 then
      var e := Absorb(Enc([], c.eobrun, c.be), AcPart(sc, Zigzag(mcu[0])));
      Coder(c.log + Tag(sc.acNo, e.toks), e.eobrun, e.be, c.dc)
    else if sc.ah == 0 then
      c.(log := c.log + DCFirstLog(sc, c.dc, mcu, 0), dc := DCFirstNext(sc, c.dc, mcu, 0))
    else c.(log := c.log + DCRefineLog(sc.al, mcu, 0))
  }

  function CodeAll(sc: PScan, c: Coder, mcus: seq<Mcu>): (r: Coder)
    requires Shaped(sc, mcus) && |c.dc| == |sc.dcNo|
    ensures |r.dc| == |sc.dcNo|
    decreases |mcus|
  {
    if mcus == [] then c else CodeAll(sc, CodeMcu(sc, c, mcus[0]), mcus[1..])
  }

  /** The log of an interval that ends here: the pending run goes out. */
  function Finish(sc: PScan, c: Coder): seq<Out>
  {
    c.log + Tag(sc.acNo, FlushTokens(c.eobrun, c.be))
  }

  function IntervalLog(sc: PScan, mcus: seq<Mcu>): seq<Out>
    requires Shaped(sc, mcus)
  {
    Finish(sc, CodeAll(sc, Fresh(sc), mcus))
  }

  // ----- A scan -----

  predicate LastInterval(sc: PScan, n: nat)
  {
    sc.interval == 0 || n <= sc.interval
  }

  /** Every interval can be sent: all coefficients in range, all symbols coded. */
  ghost predicate ScanSendable(sc: PScan, mcus: seq<Mcu>)
    requires Shaped(sc, mcus)
    decreases |mcus|
  {
    if LastInterval(sc, |mcus|) then LogSendable(IntervalLog(sc, mcus), sc.tables)
    else LogSendable(IntervalLog(sc, mcus[..sc.interval]), sc.tables) && ScanSendable(sc, mcus[sc.interval..])
  }

  /** The bytes of an interval that ends with a log. */
  ghost function IntervalBytes(sc: PScan, log: seq<Out>): seq<nat>
    requires LogSendable(log, sc.tables)
  {
    Stuff(Pad(LogBits(log, sc.tables)))
  }

  lemma SendableParts(sc: PScan, mcus: seq<Mcu>)
    requires Shaped(sc, mcus) && ScanSendable(sc, mcus)
    ensures LastInterval(sc, |mcus|) ==> LogSendable(IntervalLog(sc, mcus), sc.tables)
    ensures !LastInterval(sc, |mcus|) ==>
      && Shaped(sc, mcus[..sc.interval]) && Shaped(sc, mcus[sc.interval..])
      && LogSendable(IntervalLog(sc, mcus[..sc.interval]), sc.tables) && ScanSendable(sc, mcus[sc.interval..])
  {
    hide LogSendable, IntervalLog, PScanOk;
  }

  /** The bytes of a scan, its intervals padded and separated by markers
      numbered modulo eight from j on. */
  ghost function ScanBytes(sc: PScan, mcus: seq<Mcu>, j: nat): seq<nat>
    requires Shaped(sc, mcus) && ScanSendable(sc, mcus)
    decreases |mcus|
  {
    hide LogSendable, IntervalLog, PScanOk, IntervalBytes, ScanSendable, Shaped;
    SendableParts(sc, mcus);
    if LastInterval(sc, |mcus|) then IntervalBytes(sc, IntervalLog(sc, mcus))
    else
      var k := sc.interval;
      IntervalBytes(sc, IntervalLog(sc, mcus[..k])) + [FF, RST0 + j] + ScanBytes(sc, mcus[k..], (j + 1) % 8)
  }

  // ----- Decoding -----

  /** Blocks i and on of an MCU of a DC scan, given their history. */
  function DecodeDCMcu(sc: PScan, dc: seq<int>, h: Mcu, i: nat, s: seq<bool>): (r: Option<(Mcu, seq<int>, seq<bool>)>)
    requires PScanOk(sc) && sc.ss == 0 && |dc| == |sc.dcNo| && i <= |h| == |sc.membership|
    ensures r.Some? ==> |r.value.1| == |sc.dcNo|
    decreases |h| - i
  {
    if i == |h| then Some(([], dc, s))
    else if sc.ah == 0 then
      var c := sc.membership[i];
      match DecodeDC(sc.tables[sc.dcNo[c]], s)
      case None => None
      case Some((diff, s1)) =>
        match DecodeDCMcu(sc, dc[c := dc[c] + diff], h, i + 1, s1)
        case None => None
        case Some((rest, dc', s2)) => Some(([h[i][0 := dc[c] + diff]] + rest, dc', s2))
    else
      match Receive(1, s)
      case None => None
      case Some((v, s1)) =>
        match DecodeDCMcu(sc, dc, h, i + 1, s1)
        case None => None
        case Some((rest, dc', s2)) => Some(([h[i][0 := 2 * h[i][0] + v]] + rest, dc', s2))
  }

  function DecodeDCs(sc: PScan, dc: seq<int>, hs: seq<Mcu>, s: seq<bool>): Option<seq<Mcu>>
    requires Shaped(sc, hs) && sc.ss == 0 && |dc| == |sc.dcNo|
    decreases |hs|
  {
    if hs == [] then Some([])
    else
      match DecodeDCMcu(sc, dc, hs[0], 0, s)
      case None => None
      case Some((mcu, dc', s1)) =>
        match DecodeDCs(sc, dc', hs[1..], s1)
        case None => None
        case Some(rest) => Some([mcu] + rest)
  }

  function FirstBlocks(sc: PScan, mcus: seq<Mcu>): (bs: seq<Block>)
    requires Shaped(sc, mcus) && sc.ss > 0
    ensures |bs| == |mcus|
  {
    seq(|mcus|, i requires 0 <= i < |mcus| => mcus[i][0])
  }

  function Singles(bs: seq<Block>): (mcus: seq<Mcu>)
    ensures |mcus| == |bs|
  {
    seq(|bs|, i requires 0 <= i < |bs| => [bs[i]])
  }

  function AcDecoder(sc: PScan): BlockDecoder
    requires PScanOk(sc) && sc.ss > 0
  {
    if sc.ah == 0 then FirstDecoder(sc.tables[sc.acNo], sc.ss, sc.se)
    else RefineDecoder(sc.tables[sc.acNo], sc.ss, sc.se)
  }

  /** A restart interval: from the history of its MCUs, in zigzag order, to what
      they are after the scan. */
  function DecodeInterval(sc: PScan, hs: seq<Mcu>, s: seq<bool>): Option<seq<Mcu>>
    requires Shaped(sc, hs)
  {
    if sc.ss == 0 then DecodeDCs(sc, Zeroes(|sc.dcNo|), hs, s)
    else
      match DecodeMany(AcDecoder(sc), FirstBlocks(sc, hs), 0, s)
      case None => None
      case Some(d) => Some(Singles(d.blocks))
  }

  function DecodeScan(sc: PScan, hs: seq<Mcu>, j: nat, bytes: seq<nat>): Option<seq<Mcu>>
    requires Shaped(sc, hs) && Bytes(bytes)
    decreases |hs|
  {
    var (s, rest) := Unstuff(bytes);
    if LastInterval(sc, |hs|) then
      if rest == [] then DecodeInterval(sc, hs, s) else None
    else
      match DecodeInterval(sc, hs[..sc.interval], s)
      case None => None
      case Some(a) =>
        if |rest| >= 2 && rest[0] == FF && rest[1] == RST0 + j && Bytes(rest[2..]) then
          match DecodeScan(sc, hs[sc.interval..], (j + 1) % 8, rest[2..])
          case None => None
          case Some(b) => Some(a + b)
        else None
  }

  // ----- What a scan conveys -----

  /** A block after the scan: h with the scan's band replaced by the
      approximation of z with al bits left out. */
  function Conveyed(sc: PScan, h: Block, z: Block): Block
  {
    if sc.ss == 0 then h[0 := Shifted(z[0], sc.al)] else Band(h, z, sc.ss, sc.se, sc.al)
  }

  /** The history a scan expects: nothing yet of the band in a first AC scan, the
      approximation with one more bit left out in a refining scan. */
  ghost predicate HistoryOk(sc: PScan, h: Block, z: Block)
  {
    if sc.ss == 0 then sc.ah > 0 ==> h[0] == Shifted(z[0], sc.al + 1)
    else if sc.ah == 0 then forall i :: sc.ss <= i <= sc.se < DCTSIZE2 ==> h[i] == 0
    else History(h, z, sc.ss, sc.se, sc.al)
  }

  /** The histories of the MCUs, block by block. */
  ghost predicate Histories(sc: PScan, hs: seq<Mcu>, mcus: seq<Mcu>)
  {
    && Shaped(sc, hs) && Shaped(sc, mcus) && |hs| == |mcus|
    && forall i, b :: 0 <= i < |mcus| && 0 <= b < |sc.membership| ==> HistoryOk(sc, hs[i][b], Zigzag(mcus[i][b]))
  }

  function ConveyedMcu(sc: PScan, h: Mcu, mcu: Mcu): (r: Mcu)
    requires |h| == |mcu|
    ensures |r| == |mcu|
  {
    seq(|mcu|, b requires 0 <= b < |mcu| => Conveyed(sc, h[b], Zigzag(mcu[b])))
  }

  function ConveyedAll(sc: PScan, hs: seq<Mcu>, mcus: seq<Mcu>): (r: seq<Mcu>)
    requires Shaped(sc, hs) && Shaped(sc, mcus) && |hs| == |mcus|
    ensures |r| == |mcus|
  {
    seq(|mcus|, i requires 0 <= i < |mcus| => ConveyedMcu(sc, hs[i], mcus[i]))
  }

  /** Every table that the scan uses reads back the symbols it codes. */
  ghost predicate TablesOk(sc: PScan)
    requires PScanOk(sc)
  {
    && (sc.ss > 0 ==> TableOk(sc.tables[sc.acNo]))
    && (sc.ss == 0 && sc.ah == 0 ==> forall c :: 0 <= c < |sc.dcNo| ==> TableOk(sc.tables[sc.dcNo[c]]))
  }

  // ----- Round trip of a DC interval -----

  /** A refinement adds the next bit of a value. */
  lemma ShiftedStep(c: int, al: nat)
    ensures Shifted(c, al) == 2 * Shifted(c, al + 1) + Shifted(c, al) % 2
  {
    DivDiv(c, Pow2(al), 2);
  }

  lemma DCBitReads(c: int, al: nat, rest: seq<bool>)
    ensures Receive(1, ToBits(Shifted(c, al) % WORD, 1) + rest) == Some((Shifted(c, al) % 2, rest))
  {
    ReceiveToBits(Shifted(c, al) % WORD, 1, rest);
    assert Pow2(1) == 2;
  }

  /** What blocks i and on of an MCU log. */
  function DCLog(sc: PScan, dc: seq<int>, mcu: Mcu, i: nat): seq<Out>
    requires PScanOk(sc) && sc.ss == 0 && |dc| == |sc.dcNo| && i <= |mcu| == |sc.membership|
  {
    if sc.ah == 0 then DCFirstLog(sc, dc, mcu, i) else DCRefineLog(sc.al, mcu, i)
  }

  function DCNext(sc: PScan, dc: seq<int>, mcu: Mcu, i: nat): (r: seq<int>)
    requires PScanOk(sc) && |dc| == |sc.dcNo| && i <= |mcu| == |sc.membership|
    ensures |r| == |dc|
  {
    if sc.ah == 0 then DCFirstNext(sc, dc, mcu, i) else dc
  }

  lemma SplitSendable(a: seq<Out>, b: seq<Out>, tables: seq<Table>)
    requires LogSendable(a + b, tables)
    ensures LogSendable(a, tables) && LogSendable(b, tables)
  {
    forall i | 0 <= i < |a|
      ensures OutSendable(a[i], tables)
    {
      assert (a + b)[i] == a[i];
    }
    forall i | 0 <= i < |b|
      ensures OutSendable(b[i], tables)
    {
      assert (a + b)[|a| + i] == b[i];
    }
  }

  lemma {:induction false} DCMcuRoundTrip(sc: PScan, dc: seq<int>, h: Mcu, mcu: Mcu, i: nat, rest: seq<bool>)
    requires PScanOk(sc) && TablesOk(sc) && sc.ss == 0 && |dc| == |sc.dcNo| && i <= |mcu| == |sc.membership| == |h|
    requires forall b :: i <= b < |mcu| ==> HistoryOk(sc, h[b], Zigzag(mcu[b]))
    requires LogSendable(DCLog(sc, dc, mcu, i), sc.tables)
    ensures DecodeDCMcu(sc, dc, h, i, LogBits(DCLog(sc, dc, mcu, i), sc.tables) + rest) ==
      Some((ConveyedMcu(sc, h, mcu)[i..], DCNext(sc, dc, mcu, i), rest))
    decreases |mcu| - i
  {
    assert LogBits([], sc.tables) + rest == rest;
    hide DecodeDC, DCTokens, Zigzag, LogBits, LogSendable, TableOk, Shifted;
    if i == |mcu| {
      assert ConveyedMcu(sc, h, mcu)[i..] == [];
    } else if sc.ah == 0 {
      DCFirstBlock(sc, dc, h, mcu, i, rest);
    } else {
      DCRefineBlock(sc, dc, h, mcu, i, rest);
    }
  }

  lemma {:induction false} DCFirstBlock(sc: PScan, dc: seq<int>, h: Mcu, mcu: Mcu, i: nat, rest: seq<bool>)
    requires PScanOk(sc) && TablesOk(sc) && sc.ss == 0 && |dc| == |sc.dcNo| && i < |mcu| == |sc.membership| == |h|
    requires forall b :: i <= b < |mcu| ==> HistoryOk(sc, h[b], Zigzag(mcu[b]))
    requires sc.ah == 0 && LogSendable(DCLog(sc, dc, mcu, i), sc.tables)
    ensures DecodeDCMcu(sc, dc, h, i, LogBits(DCLog(sc, dc, mcu, i), sc.tables) + rest) ==
      Some((ConveyedMcu(sc, h, mcu)[i..], DCNext(sc, dc, mcu, i), rest))
    decreases |mcu| - i, 0
  {
    hide DecodeDC, DCTokens, LogBits, LogSendable, TableOk, Shifted, Render, AllSendable;
    var c := sc.membership[i];
    var v := Shifted(mcu[i][0], sc.al);
    var no := sc.dcNo[c];
    var codes := sc.tables[no].codes;
    var a, b := Tag(no, DCTokens(v - dc[c])), DCFirstLog(sc, dc[c := v], mcu, i + 1);
    SplitSendable(a, b, sc.tables);
    LogBitsAppend(a, b, sc.tables);
    TagBits(no, DCTokens(v - dc[c]), sc.tables);
    var tail := LogBits(b, sc.tables) + rest;
    Associate(LogBits(a, sc.tables), LogBits(b, sc.tables), rest);
    DCRoundTrip(sc.tables[no], codes, v - dc[c], tail);
    DCMcuRoundTrip(sc, dc[c := v], h, mcu, i + 1, rest);
    var out := ConveyedMcu(sc, h, mcu);
    ZigzagDC(mcu[i]);
    assert out[i..] == [out[i]] + out[i + 1..];
  }

  lemma {:induction false} DCRefineBlock(sc: PScan, dc: seq<int>, h: Mcu, mcu: Mcu, i: nat, rest: seq<bool>)
    requires PScanOk(sc) && TablesOk(sc) && sc.ss == 0 && |dc| == |sc.dcNo| && i < |mcu| == |sc.membership| == |h|
    requires forall b :: i <= b < |mcu| ==> HistoryOk(sc, h[b], Zigzag(mcu[b]))
    requires sc.ah > 0 && LogSendable(DCLog(sc, dc, mcu, i), sc.tables)
    ensures DecodeDCMcu(sc, dc, h, i, LogBits(DCLog(sc, dc, mcu, i), sc.tables) + rest) ==
      Some((ConveyedMcu(sc, h, mcu)[i..], DCNext(sc, dc, mcu, i), rest))
    decreases |mcu| - i, 0
  {
    hide LogSendable, TableOk, Shifted;
    var t := DCBit(mcu[i][0], sc.al);
    var a, b := [Out(0, t)], DCRefineLog(sc.al, mcu, i + 1);
    SplitSendable(a, b, sc.tables);
    LogBitsAppend(a, b, sc.tables);
    OneOut(Out(0, t), sc.tables);
    var tail := LogBits(b, sc.tables) + rest;
    Associate(LogBits(a, sc.tables), LogBits(b, sc.tables), rest);
    DCBitReads(mcu[i][0], sc.al, tail);
    ShiftedStep(mcu[i][0], sc.al);
    DCMcuRoundTrip(sc, dc, h, mcu, i + 1, rest);
    var out := ConveyedMcu(sc, h, mcu);
    ZigzagDC(mcu[i]);
    assert out[i..] == [out[i]] + out[i + 1..];
  }

  lemma OneOut(o: Out, tables: seq<Table>)
    requires LogSendable([o], tables)
    ensures OutSendable(o, tables) && LogBits([o], tables) == OutBits(o, tables)
  {
    assert OutSendable([o][0], tables);
    assert [o][1..] == [];
    assert LogBits([], tables) == [];
  }

  lemma ZigzagDC(b: Block)
    ensures Zigzag(b)[0] == b[0]
  {
  }

  lemma CodeDC(sc: PScan, c: Coder, mcu: Mcu)
    requires PScanOk(sc) && sc.ss == 0 && |c.dc| == |sc.dcNo| && |mcu| == |sc.membership|
    ensures CodeMcu(sc, c, mcu) == c.(log := c.log + DCLog(sc, c.dc, mcu, 0), dc := DCNext(sc, c.dc, mcu, 0))
  {
  }

  lemma {:induction false} DCIntervalRoundTrip(sc: PScan, c: Coder, hs: seq<Mcu>, mcus: seq<Mcu>, log: seq<Out>,
                                               rest: seq<bool>)
    requires Histories(sc, hs, mcus) && TablesOk(sc) && sc.ss == 0 && |c.dc| == |sc.dcNo| && c.eobrun == 0
    requires CodeAll(sc, c, mcus).log == c.log + log && LogSendable(log, sc.tables)
    ensures DecodeDCs(sc, c.dc, hs, LogBits(log, sc.tables) + rest) == Some(ConveyedAll(sc, hs, mcus))
    decreases |mcus|
  {
    hide DecodeDCMcu, DCLog, DCNext, LogBits, LogSendable, HistoryOk, Conveyed, Zigzag, DCFirstLog, DCRefineLog,
      DCFirstNext;
    if mcus != [] {
      var a := DCLog(sc, c.dc, mcus[0], 0);
      var c' := CodeMcu(sc, c, mcus[0]);
      CodeDC(sc, c, mcus[0]);
      CodeExtends(sc, c', mcus[1..]);
      var b :| CodeAll(sc, c', mcus[1..]).log == c'.log + b;
      assert log == a + b by {
        assert c.log + log == c.log + (a + b);
        assert (c.log + log)[|c.log|..] == log && (c.log + (a + b))[|c.log|..] == a + b;
      }
      SplitSendable(a, b, sc.tables);
      LogBitsAppend(a, b, sc.tables);
      var tail := LogBits(b, sc.tables) + rest;
      Associate(LogBits(a, sc.tables), LogBits(b, sc.tables), rest);
      DCMcuRoundTrip(sc, c.dc, hs[0], mcus[0], 0, tail);
      DCIntervalRoundTrip(sc, c', hs[1..], mcus[1..], b, rest);
      var out := ConveyedAll(sc, hs, mcus);
      assert out[0][0..] == out[0];
      assert out == [out[0]] + ConveyedAll(sc, hs[1..], mcus[1..]);
    }
  }

  lemma {:induction false} CodeExtends(sc: PScan, c: Coder, mcus: seq<Mcu>)
    requires Shaped(sc, mcus) && |c.dc| == |sc.dcNo|
    ensures exists log :: CodeAll(sc, c, mcus).log == c.log + log
    decreases |mcus|
  {
    hide Absorb, DCFirstLog, DCRefineLog, DCFirstNext, AcPart, Zigzag;
    if mcus == [] {
      assert c.log + [] == c.log;
    } else {
      var c' := CodeMcu(sc, c, mcus[0]);
      CodeExtends(sc, c', mcus[1..]);
      var b :| CodeAll(sc, c', mcus[1..]).log == c'.log + b;
      var a := c'.log[|c.log|..];
      assert c'.log == c.log + a;
      assert c'.log + b == c.log + (a + b);
    }
  }

  // ----- Round trip of an AC interval -----

  function Parts(sc: PScan, mcus: seq<Mcu>): (ps: seq<Part>)
    requires Shaped(sc, mcus) && sc.ss > 0
    ensures |ps| == |mcus|
  {
    seq(|mcus|, i requires 0 <= i < |mcus| => AcPart(sc, Zigzag(mcus[i][0])))
  }

  /** What was emitted before does not change what a block adds. */
  lemma AbsorbFrom(s: Enc, p: Part)
    ensures var a := Absorb(Enc([], s.eobrun, s.be), p);
      Absorb(s, p) == Enc(s.toks + a.toks, a.eobrun, a.be)
  {
    hide FlushTokens;
    var fl := FlushTokens(s.eobrun, s.be);
    assert [] + fl == fl;
    assert s.toks + (fl + p.toks) == (s.toks + fl) + p.toks;
    assert s.toks + [] == s.toks;
    var b := Begin(Enc([], s.eobrun, s.be), p);
    assert Begin(s, p).toks == s.toks + b.toks;
    if Trailing(p) {
      var fl2 := FlushTokens(b.eobrun + 1, b.be + p.bits);
      assert s.toks + (b.toks + fl2) == (s.toks + b.toks) + fl2;
    }
  }

  lemma {:induction false} AcCode(sc: PScan, c: Coder, e: Enc, mcus: seq<Mcu>)
    requires Shaped(sc, mcus) && sc.ss > 0 && |c.dc| == |sc.dcNo|
    requires c.log == Tag(sc.acNo, e.toks) && c.eobrun == e.eobrun && c.be == e.be
    ensures var r, x := CodeAll(sc, c, mcus), AbsorbAll(e, Parts(sc, mcus));
      r.log == Tag(sc.acNo, x.toks) && r.eobrun == x.eobrun && r.be == x.be
    decreases |mcus|
  {
    hide Absorb, AcPart, Zigzag;
    if mcus != [] {
      var p := AcPart(sc, Zigzag(mcus[0][0]));
      AbsorbFrom(e, p);
      TagAppend(sc.acNo, e.toks, Absorb(Enc([], e.eobrun, e.be), p).toks);
      assert Parts(sc, mcus)[1..] == Parts(sc, mcus[1..]);
      AcCode(sc, CodeMcu(sc, c, mcus[0]), Absorb(e, p), mcus[1..]);
    }
  }

  lemma AcIntervalLog(sc: PScan, mcus: seq<Mcu>)
    requires Shaped(sc, mcus) && sc.ss > 0
    ensures IntervalLog(sc, mcus) == Tag(sc.acNo, IntervalTokens(Parts(sc, mcus)))
  {
    hide CodeAll, AbsorbAll, Parts, FlushTokens;
    AcCode(sc, Fresh(sc), Enc([], 0, []), mcus);
    var x := AbsorbAll(Enc([], 0, []), Parts(sc, mcus));
    TagAppend(sc.acNo, x.toks, FlushTokens(x.eobrun, x.be));
  }

  lemma AcReads(sc: PScan, h: Block, z: Block)
    requires PScanOk(sc) && TablesOk(sc) && sc.ss > 0 && HistoryOk(sc, h, z)
    ensures Reads(AcDecoder(sc), h, Conveyed(sc, h, z), AcPart(sc, z), sc.tables[sc.acNo].codes)
  {
    hide Reads, FirstDecoder, RefineDecoder, FirstPart, RefineBlock, Band, TableOk;
    if sc.ah == 0 {
      FirstReads(sc.tables[sc.acNo], h, z, sc.ss, sc.se, sc.al);
    } else {
      RefineReads(sc.tables[sc.acNo], h, z, sc.ss, sc.se, sc.al);
    }
  }

  lemma AcIntervalRoundTrip(sc: PScan, hs: seq<Mcu>, mcus: seq<Mcu>, rest: seq<bool>)
    requires Histories(sc, hs, mcus) && TablesOk(sc) && sc.ss > 0
    requires LogSendable(IntervalLog(sc, mcus), sc.tables)
    ensures DecodeInterval(sc, hs, LogBits(IntervalLog(sc, mcus), sc.tables) + rest) == Some(ConveyedAll(sc, hs, mcus))
  {
    hide DecodeMany, IntervalTokens, IntervalLog, LogSendable, LogBits, Reads, AcDecoder, AcPart, HistoryOk, Conveyed,
      Zigzag, TableOk;
    var ac := sc.tables[sc.acNo].codes;
    var ps := Parts(sc, mcus);
    var bs := FirstBlocks(sc, hs);
    var outs := FirstBlocks(sc, ConveyedAll(sc, hs, mcus));
    AcIntervalLog(sc, mcus);
    TagBits(sc.acNo, IntervalTokens(ps), sc.tables);
    forall i | 0 <= i < |bs|
      ensures Reads(AcDecoder(sc), bs[i], outs[i], ps[i], ac)
    {
      AcReads(sc, hs[i][0], Zigzag(mcus[i][0]));
    }
    IntervalDecodes(AcDecoder(sc), bs, outs, ps, ac, rest);
    forall i | 0 <= i < |mcus|
      ensures Singles(outs)[i] == ConveyedAll(sc, hs, mcus)[i]
    {
      assert |ConveyedAll(sc, hs, mcus)[i]| == 1;
    }
    assert Singles(outs) == ConveyedAll(sc, hs, mcus);
  }

  // ----- Round trip of a scan -----

  lemma IntervalRoundTrip(sc: PScan, hs: seq<Mcu>, mcus: seq<Mcu>, rest: seq<bool>)
    requires Histories(sc, hs, mcus) && TablesOk(sc) && LogSendable(IntervalLog(sc, mcus), sc.tables)
    ensures DecodeInterval(sc, hs, LogBits(IntervalLog(sc, mcus), sc.tables) + rest) == Some(ConveyedAll(sc, hs, mcus))
  {
    hide LogSendable, LogBits, CodeAll, HistoryOk, ConveyedAll, TableOk, DecodeDCs;
    if sc.ss == 0 {
      DCKeepsRun(sc, Fresh(sc), mcus);
      var log := CodeAll(sc, Fresh(sc), mcus).log;
      assert [] + log == log && log + Tag(sc.acNo, []) == log;
      DCIntervalRoundTrip(sc, Fresh(sc), hs, mcus, log, rest);
    } else {
      AcIntervalRoundTrip(sc, hs, mcus, rest);
    }
  }

  lemma {:induction false} DCKeepsRun(sc: PScan, c: Coder, mcus: seq<Mcu>)
    requires Shaped(sc, mcus) && sc.ss == 0 && |c.dc| == |sc.dcNo|
    ensures CodeAll(sc, c, mcus).eobrun == c.eobrun && CodeAll(sc, c, mcus).be == c.be
    decreases |mcus|
  {
    hide DCFirstLog, DCRefineLog, DCFirstNext;
    if mcus != [] {
      DCKeepsRun(sc, CodeMcu(sc, c, mcus[0]), mcus[1..]);
    }
  }

  /** Decoding the bytes of a scan against the history of its blocks gives
      exactly what the scan conveys, for any restart interval. */
  lemma {:induction false} ScanRoundTrip(sc: PScan, hs: seq<Mcu>, mcus: seq<Mcu>, j: nat)
    requires Histories(sc, hs, mcus) && TablesOk(sc) && ScanSendable(sc, mcus) && j < 8
    ensures Bytes(ScanBytes(sc, mcus, j))
    ensures DecodeScan(sc, hs, j, ScanBytes(sc, mcus, j)) == Some(ConveyedAll(sc, hs, mcus))
    decreases |mcus|
  {
    hide LogSendable, LogBits, IntervalLog, HistoryOk, TableOk, DecodeInterval, Stuff, Pad, Unstuff, Conveyed, Zigzag;
    if LastInterval(sc, |mcus|) {
      var bits := LogBits(IntervalLog(sc, mcus), sc.tables);
      var ones := PaddedInterval(bits, []);
      assert Stuff(Pad(bits)) + [] == Stuff(Pad(bits));
      IntervalRoundTrip(sc, hs, mcus, ones);
    } else {
      var k := sc.interval;
      var bits := LogBits(IntervalLog(sc, mcus[..k]), sc.tables);
      var later := ScanBytes(sc, mcus[k..], (j + 1) % 8);
      ScanRoundTrip(sc, hs[k..], mcus[k..], (j + 1) % 8);
      var tail := [FF, RST0 + j] + later;
      var ones := PaddedInterval(bits, tail);
      assert Stuff(Pad(bits)) + [FF, RST0 + j] + later == Stuff(Pad(bits)) + tail;
      IntervalRoundTrip(sc, hs[..k], mcus[..k], ones);
      assert tail[2..] == later;
      assert ConveyedAll(sc, hs[..k], mcus[..k]) + ConveyedAll(sc, hs[k..], mcus[k..]) == ConveyedAll(sc, hs, mcus);
    }
  }

  // ----- The bytes, in numbers -----

  /** In the bytes of a finished scan every byte 0xFF is followed by zero or by a restart
      marker's code, and these are 0xD0 to 0xD7 in turn, one between two intervals. */
  lemma {:induction false} ScanBytesInNumbers(sc: PScan, mcus: seq<Mcu>, j: nat, u: nat)
    requires Shaped(sc, mcus) && ScanSendable(sc, mcus) && j < 8 && u % 8 == j
    ensures Paired(ScanBytes(sc, mcus, j))
    ensures MarkerCodes(ScanBytes(sc, mcus, j)) == RestartCodes(u, MarkerCount(sc.interval, |mcus|))
    decreases |mcus|
  {
    hide Stuff, Pad, Paired, MarkerCodes, RestartCodes, IntervalLog, LogSendable, LogBits, PScanOk;
    if LastInterval(sc, |mcus|) {
      LastPaired(Pad(LogBits(IntervalLog(sc, mcus), sc.tables)));
      NoCodes(u);
    } else {
      var k := sc.interval;
      ScanBytesInNumbers(sc, mcus[k..], (j + 1) % 8, u + 1);
      IntervalPaired(Pad(LogBits(IntervalLog(sc, mcus[..k]), sc.tables)), u, MarkerCount(k, |mcus| - k),
                     ScanBytes(sc, mcus[k..], (j + 1) % 8));
    }
  }
}
