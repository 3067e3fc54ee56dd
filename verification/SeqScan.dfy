/** A whole sequential scan: MCUs, restart intervals, and the byte stream that
    section F.2 of T.81 decodes. */
module SeqScan {
  import opened Arith
  import opened Bits
  import opened Stuffing
  import opened ZigzagOrder
  import opened SeqTokens
  import opened SeqEncoder

  /** What a scan fixes: the component of each block of an MCU, the table
      numbers of each component, the tables, and the restart interval (0 for
      none). */
  datatype Scan = Scan(membership: seq<nat>, dcNo: seq<nat>,
    acNo: seq<nat>, dc: seq<Table>, ac: seq<Table>, interval: nat)

  type Mcu = seq<Block>

  ghost predicate ScanOk(sc: Scan)
  {
    && |sc.dcNo| == |sc.acNo|
    && (forall i :: 0 <= i < |sc.membership| ==> sc.membership[i] < |sc.dcNo|)
    && (forall c :: 0 <= c < |sc.dcNo| ==> sc.dcNo[c] < |sc.dc| && sc.acNo[c] < |sc.ac|)
  }

  function DCTable(sc: Scan, i: nat): Table
    requires ScanOk(sc) && i < |sc.membership|
  {
    sc.dc[sc.dcNo[sc.membership[i]]]
  }

  function ACTable(sc: Scan, i: nat): Table
    requires ScanOk(sc) && i < |sc.membership|
  {
    sc.ac[sc.acNo[sc.membership[i]]]
  }

  /** Every table that the blocks use reads back the symbols it codes. */
  ghost predicate TablesOk(sc: Scan)
    requires ScanOk(sc)
  {
    forall i :: 0 <= i < |sc.membership| ==> TableOk(DCTable(sc, i)) && TableOk(ACTable(sc, i))
  }

  ghost predicate Shaped(sc: Scan, dc: seq<int>, mcu: Mcu)
  {
    ScanOk(sc) && |dc| == |sc.dcNo| && |mcu| == |sc.membership|
  }

  /** The tokens of block i of an MCU, given the DC predictions. */
  function BlockToks(sc: Scan, dc: seq<int>, mcu: Mcu, i: nat): seq<Token>
    requires Shaped(sc, dc, mcu) && i < |mcu|
  {
    BlockTokens(Zigzag(mcu[i]), dc[sc.membership[i]])
  }

  function DcNext(sc: Scan, dc: seq<int>, mcu: Mcu, i: nat): (r: seq<int>)
    requires Shaped(sc, dc, mcu) && i < |mcu|
    ensures |r| == |dc|
  {
    dc[sc.membership[i] := mcu[i][0]]
  }

  /** The predictions after blocks i and on. */
  function DcAfter(sc: Scan, dc: seq<int>, mcu: Mcu, i: nat): (r: seq<int>)
    requires Shaped(sc, dc, mcu) && i <= |mcu|
    ensures |r| == |dc|
    decreases |mcu| - i
  {
    if i == |mcu| then dc else DcAfter(sc, DcNext(sc, dc, mcu, i), mcu, i + 1)
  }

  /** What the encoder emits for blocks i and on of an MCU. */
  function SendBlocks(sc: Scan, pending: seq<bool>, dc: seq<int>, mcu: Mcu, i: nat): Run
    requires Shaped(sc, dc, mcu) && i <= |mcu|
    decreases |mcu| - i
  {
    if i == |mcu| then Run([], pending, Ok)
    else
      var a := SendTokens(pending, BlockToks(sc, dc, mcu, i), DCTable(sc, i).codes, ACTable(sc, i).codes);
      Then(a, SendBlocks(sc, a.pending, DcNext(sc, dc, mcu, i), mcu, i + 1))
  }

  /** Every block's coefficients are in range and every symbol has a code. */
  ghost predicate McuSendable(sc: Scan, dc: seq<int>, mcu: Mcu, i: nat)
    requires Shaped(sc, dc, mcu) && i <= |mcu|
    decreases |mcu| - i
  {
    i == |mcu| ||
    (&& AllSendable(BlockToks(sc, dc, mcu, i), DCTable(sc, i).codes, ACTable(sc, i).codes)
     && McuSendable(sc, DcNext(sc, dc, mcu, i), mcu, i + 1))
  }

  ghost function McuBits(sc: Scan, dc: seq<int>, mcu: Mcu, i: nat): seq<bool>
    requires Shaped(sc, dc, mcu) && i <= |mcu| && McuSendable(sc, dc, mcu, i)
    decreases |mcu| - i
  {
    if i == |mcu| then []
    else
      Render(BlockToks(sc, dc, mcu, i), DCTable(sc, i).codes, ACTable(sc, i).codes) +
      McuBits(sc, DcNext(sc, dc, mcu, i), mcu, i + 1)
  }

  /** The encoder ends with an error exactly when some block cannot be sent. */
  lemma {:induction false} SendBlocksBits(sc: Scan, pending: seq<bool>, dc: seq<int>, mcu: Mcu, i: nat)
    requires Shaped(sc, dc, mcu) && i <= |mcu| && |pending| < 8
    ensures SendBlocks(sc, pending, dc, mcu, i).err == Ok <==> McuSendable(sc, dc, mcu, i)
    ensures McuSendable(sc, dc, mcu, i) ==>
      SendBlocks(sc, pending, dc, mcu, i) == SendBits(pending, McuBits(sc, dc, mcu, i))
    decreases |mcu| - i
  {
    if i == |mcu| {
      assert pending + [] == pending;
    } else {
      var toks := BlockToks(sc, dc, mcu, i);
      var a := SendTokens(pending, toks, DCTable(sc, i).codes, ACTable(sc, i).codes);
      SendRenders(pending, toks, DCTable(sc, i).codes, ACTable(sc, i).codes);
      if a.err == Ok {
        SendBlocksBits(sc, a.pending, DcNext(sc, dc, mcu, i), mcu, i + 1);
        if McuSendable(sc, dc, mcu, i) {
          SendTwice(pending, Render(toks, DCTable(sc, i).codes, ACTable(sc, i).codes),
                    McuBits(sc, DcNext(sc, dc, mcu, i), mcu, i + 1));
        }
      }
    }
  }

  // ----- Restart intervals -----

  /** What the encoder carries from one MCU to the next. */
  datatype Saved = Saved(pending: seq<bool>, dc: seq<int>, togo: nat, next: nat)

  ghost predicate SavedOk(sc: Scan, s: Saved)
  {
    |s.pending| < 8 && |s.dc| == |sc.dcNo| && s.next < 8
  }

  function StartScan(sc: Scan): Saved
  {
    Saved([], Zeroes(|sc.dcNo|), sc.interval, 0)
  }

  predicate RestartDue(sc: Scan, s: Saved)
  {
    sc.interval > 0 && s.togo == 0
  }

  /** The restart marker, with the byte in progress completed before it. */
  function RestartRun(s: Saved): Run
  {
    Run(SendBits(s.pending, Ones(7)).bytes + [FF, RST0 + s.next], [], Ok)
  }

  function McuStart(sc: Scan, s: Saved): (r: (Run, seq<int>))
    ensures |s.dc| == |sc.dcNo| ==> |r.1| == |sc.dcNo|
  {
    if RestartDue(sc, s) then (RestartRun(s), Zeroes(|sc.dcNo|)) else (Run([], s.pending, Ok), s.dc)
  }

  /** What encode_mcu_huff emits for one MCU. */
  function McuRun(sc: Scan, s: Saved, mcu: Mcu): Run
    requires Shaped(sc, s.dc, mcu)
  {
    var (r, dc) := McuStart(sc, s);
    Then(r, SendBlocks(sc, r.pending, dc, mcu, 0))
  }

  /** What it carries on. */
  function McuNext(sc: Scan, s: Saved, mcu: Mcu): (n: Saved)
    requires Shaped(sc, s.dc, mcu)
    ensures |n.dc| == |sc.dcNo|
  {
    var dc := DcAfter(sc, McuStart(sc, s).1, mcu, 0);
    var p := McuRun(sc, s, mcu).pending;
    if sc.interval == 0 then Saved(p, dc, s.togo, s.next)
    else if s.togo == 0 then Saved(p, dc, sc.interval - 1, (s.next + 1) % 8)
    else Saved(p, dc, s.togo - 1, s.next)
  }

  ghost predicate AllShaped(sc: Scan, mcus: seq<Mcu>)
  {
    ScanOk(sc) && forall i :: 0 <= i < |mcus| ==> |mcus[i]| == |sc.membership|
  }

  /** The bytes of the rest of a scan, the final flush included. */
  function ScanRun(sc: Scan, s: Saved, mcus: seq<Mcu>): Run
    requires AllShaped(sc, mcus) && |s.dc| == |sc.dcNo|
    decreases |mcus|
  {
    if mcus == [] then Run(SendBits(s.pending, Ones(7)).bytes, [], Ok)
    else Then(McuRun(sc, s, mcus[0]), ScanRun(sc, McuNext(sc, s, mcus[0]), mcus[1..]))
  }

  // ----- Decoding -----

  /** Blocks i and on of an MCU. */
  function DecodeBlocks(sc: Scan, dc: seq<int>, i: nat, s: seq<bool>): Option<(Mcu, seq<int>, seq<bool>)>
    requires ScanOk(sc) && |dc| == |sc.dcNo| && i <= |sc.membership|
    decreases |sc.membership| - i
  {
    if i == |sc.membership| then Some(([], dc, s))
    else
      var c := sc.membership[i];
      match DecodeBlock(DCTable(sc, i), ACTable(sc, i), dc[c], s)
      case None => None
      case Some((z, s1)) =>
        match DecodeBlocks(sc, dc[c := z[0]], i + 1, s1)
        case None => None
        case Some((rest, dc', s2)) => Some(([FromZigzag(z)] + rest, dc', s2))
  }

  /** n MCUs of one restart interval; bits after the last are padding. */
  function DecodeInterval(sc: Scan, dc: seq<int>, n: nat, s: seq<bool>): Option<seq<Mcu>>
    requires ScanOk(sc) && |dc| == |sc.dcNo|
    decreases n
  {
    if n == 0 then Some([])
    else
      match DecodeBlocks(sc, dc, 0, s)
      case None => None
      case Some((mcu, dc', s1)) =>
        if |dc'| != |sc.dcNo| then None
        else
          match DecodeInterval(sc, dc', n - 1, s1)
          case None => None
          case Some(rest) => Some([mcu] + rest)
  }

  /** A scan of n MCUs: restart intervals separated by markers numbered modulo
      eight, from marker number j on. */
  function DecodeScan(sc: Scan, n: nat, j: nat, bytes: seq<nat>): Option<seq<Mcu>>
    requires ScanOk(sc) && Bytes(bytes)
    decreases n
  {
    var (s, rest) := Unstuff(bytes);
    if sc.interval == 0 || n <= sc.interval then
      if rest == [] then DecodeInterval(sc, Zeroes(|sc.dcNo|), n, s) else None
    else
      match DecodeInterval(sc, Zeroes(|sc.dcNo|), sc.interval, s)
      case None => None
      case Some(a) =>
        if |rest| >= 2 && rest[0] == FF && rest[1] == RST0 + j && Bytes(rest[2..]) then
          match DecodeScan(sc, n - sc.interval, (j + 1) % 8, rest[2..])
          case None => None
          case Some(b) => Some(a + b)
        else None
  }

  // ----- Round trip -----

  lemma {:induction false} BlocksRoundTrip(sc: Scan, dc: seq<int>, mcu: Mcu, i: nat, rest: seq<bool>)
    requires Shaped(sc, dc, mcu) && TablesOk(sc) && i <= |mcu| && McuSendable(sc, dc, mcu, i)
    ensures DecodeBlocks(sc, dc, i, McuBits(sc, dc, mcu, i) + rest) == Some((mcu[i..], DcAfter(sc, dc, mcu, i), rest))
    decreases |mcu| - i
  {
    hide DecodeBlock, BlockTokens, Render, AllSendable, Zigzag, FromZigzag;
    if i == |mcu| {
      assert McuBits(sc, dc, mcu, i) + rest == rest;
    } else {
      var c := sc.membership[i];
      var z := Zigzag(mcu[i]);
      var bits := Render(BlockToks(sc, dc, mcu, i), DCTable(sc, i).codes, ACTable(sc, i).codes);
      var tail := McuBits(sc, DcNext(sc, dc, mcu, i), mcu, i + 1) + rest;
      BlockRoundTrip(DCTable(sc, i), ACTable(sc, i), z, dc[c], tail);
      Associate(bits, McuBits(sc, DcNext(sc, dc, mcu, i), mcu, i + 1), rest);
      FirstIsDC(mcu[i]);
      BlocksRoundTrip(sc, DcNext(sc, dc, mcu, i), mcu, i + 1, rest);
      ZigzagRoundTrip(mcu[i]);
      assert [mcu[i]] + mcu[i + 1..] == mcu[i..];
    }
  }

  lemma FirstIsDC(b: Block)
    ensures Zigzag(b)[0] == b[0]
  {
  }

  /** The MCUs of one restart interval can be sent, predictions starting at dc. */
  ghost predicate SegSendable(sc: Scan, dc: seq<int>, mcus: seq<Mcu>)
    requires AllShaped(sc, mcus) && |dc| == |sc.dcNo|
    decreases |mcus|
  {
    mcus == [] || (McuSendable(sc, dc, mcus[0], 0) && SegSendable(sc, DcAfter(sc, dc, mcus[0], 0), mcus[1..]))
  }

  ghost function SegBits(sc: Scan, dc: seq<int>, mcus: seq<Mcu>): seq<bool>
    requires AllShaped(sc, mcus) && |dc| == |sc.dcNo| && SegSendable(sc, dc, mcus)
    decreases |mcus|
  {
    if mcus == [] then []
    else McuBits(sc, dc, mcus[0], 0) + SegBits(sc, DcAfter(sc, dc, mcus[0], 0), mcus[1..])
  }

  lemma {:induction false} IntervalRoundTrip(sc: Scan, dc: seq<int>, mcus: seq<Mcu>, rest: seq<bool>)
    requires AllShaped(sc, mcus) && |dc| == |sc.dcNo| && TablesOk(sc) && SegSendable(sc, dc, mcus)
    ensures DecodeInterval(sc, dc, |mcus|, SegBits(sc, dc, mcus) + rest) == Some(mcus)
    decreases |mcus|
  {
    hide DecodeBlocks, McuBits, McuSendable, TablesOk;
    if mcus != [] {
      var dc' := DcAfter(sc, dc, mcus[0], 0);
      var tail := SegBits(sc, dc', mcus[1..]) + rest;
      Associate(McuBits(sc, dc, mcus[0], 0), SegBits(sc, dc', mcus[1..]), rest);
      BlocksRoundTrip(sc, dc, mcus[0], 0, tail);
      assert mcus[0][0..] == mcus[0];
      IntervalRoundTrip(sc, dc', mcus[1..], rest);
      assert [mcus[0]] + mcus[1..] == mcus;
    }
  }

  /** How many of the coming MCUs belong to the restart interval in progress. */
  function InInterval(sc: Scan, s: Saved, n: nat): (k: nat)
    ensures k <= n
  {
    if sc.interval == 0 || n <= s.togo then n else s.togo
  }

  /** The state after a restart marker. */
  function Restarted(sc: Scan, next: nat): Saved
  {
    Saved([], Zeroes(|sc.dcNo|), sc.interval, (next + 1) % 8)
  }

  /** What a scan emits: the interval in progress as one padded bit string, then,
      if MCUs remain, a marker and the rest from a fresh start. */
  lemma {:induction false} ScanSplits(sc: Scan, s: Saved, mcus: seq<Mcu>)
    requires AllShaped(sc, mcus) && SavedOk(sc, s) && ScanRun(sc, s, mcus).err == Ok
    ensures var k := InInterval(sc, s, |mcus|);
      && SegSendable(sc, s.dc, mcus[..k])
      && (k == |mcus| ==> ScanRun(sc, s, mcus).bytes == Stuff(Pad(s.pending + SegBits(sc, s.dc, mcus[..k]))))
      && (k < |mcus| ==>
            && AllShaped(sc, mcus[k..])
            && ScanRun(sc, Restarted(sc, s.next), mcus[k..]).err == Ok
            && ScanRun(sc, s, mcus).bytes ==
                 Stuff(Pad(s.pending + SegBits(sc, s.dc, mcus[..k]))) + [FF, RST0 + s.next] +
                 ScanRun(sc, Restarted(sc, s.next), mcus[k..]).bytes)
    decreases |mcus|
  {
    var k := InInterval(sc, s, |mcus|);
    if k == 0 {
      assert mcus[..k] == [] && mcus[k..] == mcus;
      assert s.pending + [] == s.pending;
      SevenOnes(s.pending);
      if mcus != [] {
        RestartSplits(sc, s, mcus);
      }
    } else {
      InsideSplits(sc, s, mcus, k);
    }
  }

  lemma RestartSplits(sc: Scan, s: Saved, mcus: seq<Mcu>)
    requires AllShaped(sc, mcus) && SavedOk(sc, s) && mcus != [] && RestartDue(sc, s)
    requires ScanRun(sc, s, mcus).err == Ok
    ensures ScanRun(sc, Restarted(sc, s.next), mcus).err == Ok
    ensures ScanRun(sc, s, mcus).bytes == Stuff(Pad(s.pending)) + [FF, RST0 + s.next] +
      ScanRun(sc, Restarted(sc, s.next), mcus).bytes
  {
    hide SendBlocks, DcAfter;
    var f := Restarted(sc, s.next);
    var r := RestartRun(s);
    var b := SendBlocks(sc, [], f.dc, mcus[0], 0);
    SevenOnes(s.pending);
    assert McuRun(sc, s, mcus[0]) == Then(r, b);
    assert McuRun(sc, f, mcus[0]) == Then(Run([], [], Ok), b);
    assert [] + b.bytes == b.bytes;
    assert McuNext(sc, f, mcus[0]) == McuNext(sc, s, mcus[0]);
    ThenAssoc(r, b, ScanRun(sc, McuNext(sc, s, mcus[0]), mcus[1..]));
  }

  lemma {:induction false} InsideSplits(sc: Scan, s: Saved, mcus: seq<Mcu>, k: nat)
    requires AllShaped(sc, mcus) && SavedOk(sc, s) && ScanRun(sc, s, mcus).err == Ok
    requires k == InInterval(sc, s, |mcus|) > 0
    ensures SegSendable(sc, s.dc, mcus[..k])
    ensures k == |mcus| ==> ScanRun(sc, s, mcus).bytes == Stuff(Pad(s.pending + SegBits(sc, s.dc, mcus[..k])))
    ensures k < |mcus| ==>
      && AllShaped(sc, mcus[k..])
      && ScanRun(sc, Restarted(sc, s.next), mcus[k..]).err == Ok
      && ScanRun(sc, s, mcus).bytes ==
           Stuff(Pad(s.pending + SegBits(sc, s.dc, mcus[..k]))) + [FF, RST0 + s.next] +
           ScanRun(sc, Restarted(sc, s.next), mcus[k..]).bytes
    decreases |mcus|, 0
  {
    hide SendBlocks, DcAfter, McuSendable, McuBits, Stuff, Rest, Pad;
    var m := mcus[0];
    var s' := McuNext(sc, s, m);
    var b := McuRun(sc, s, m);
    FirstMcu(sc, s, m);
    var bits := McuBits(sc, s.dc, m, 0);
    var tail := ScanRun(sc, s', mcus[1..]);
    assert InInterval(sc, s', |mcus[1..]|) == k - 1;
    ScanSplits(sc, s', mcus[1..]);
    assert mcus[1..][..k - 1] == mcus[..k][1..] && mcus[1..][k - 1..] == mcus[k..];
    var later := SegBits(sc, s'.dc, mcus[1..k]);
    assert mcus[..k][1..] == mcus[1..k] && mcus[..k][0] == m;
    assert SegBits(sc, s.dc, mcus[..k]) == bits + later;
    PadAfter(s.pending, bits, later);
    if k < |mcus| {
      Glue(b.bytes, Stuff(Pad(s'.pending + later)), [FF, RST0 + s.next],
           ScanRun(sc, Restarted(sc, s.next), mcus[k..]).bytes);
    }
  }

  lemma Glue(a: seq<nat>, b: seq<nat>, c: seq<nat>, d: seq<nat>)
    ensures a + (b + c + d) == (a + b) + c + d
  {
    assert a + (b + c + d) == a + (b + c) + d;
    assert a + (b + c) == (a + b) + c;
  }

  /** One MCU inside an interval. */
  lemma FirstMcu(sc: Scan, s: Saved, m: Mcu)
    requires Shaped(sc, s.dc, m) && SavedOk(sc, s) && !RestartDue(sc, s) && McuRun(sc, s, m).err == Ok
    ensures McuSendable(sc, s.dc, m, 0)
    ensures McuRun(sc, s, m) == SendBits(s.pending, McuBits(sc, s.dc, m, 0))
    ensures SavedOk(sc, McuNext(sc, s, m)) && McuNext(sc, s, m).dc == DcAfter(sc, s.dc, m, 0)
    ensures McuNext(sc, s, m).pending == Rest(s.pending + McuBits(sc, s.dc, m, 0))
    ensures McuNext(sc, s, m).next == s.next
    ensures sc.interval > 0 ==> McuNext(sc, s, m).togo == s.togo - 1
  {
    hide SendBlocks, DcAfter, McuSendable, McuBits;
    SendBlocksBits(sc, s.pending, s.dc, m, 0);
    var b := SendBlocks(sc, s.pending, s.dc, m, 0);
    assert [] + b.bytes == b.bytes;
  }

  /** Padding at the end is the same whether the front was sent before or not. */
  lemma PadAfter(p: seq<bool>, a: seq<bool>, b: seq<bool>)
    ensures Stuff(p + a) + Stuff(Pad(Rest(p + a) + b)) == Stuff(Pad(p + (a + b)))
  {
    hide Stuff, Rest, Pad;
    var q := Rest(p + a);
    Associate(p, a, b);
    SevenOnes(q + b);
    SevenOnes((p + a) + b);
    StuffAppend(p + a, b + Ones(7));
    Associate(q, b, Ones(7));
    Associate(p + a, b, Ones(7));
  }

  /** Decoding the bytes of a scan gives back its MCUs, for any restart interval
      and any tables that code the symbols used. */
  lemma {:induction false} ScanRoundTrip(sc: Scan, mcus: seq<Mcu>, j: nat)
    requires AllShaped(sc, mcus) && TablesOk(sc) && j < 8
    requires ScanRun(sc, Saved([], Zeroes(|sc.dcNo|), sc.interval, j), mcus).err == Ok
    ensures Bytes(ScanRun(sc, Saved([], Zeroes(|sc.dcNo|), sc.interval, j), mcus).bytes)
    ensures DecodeScan(sc, |mcus|, j, ScanRun(sc, Saved([], Zeroes(|sc.dcNo|), sc.interval, j), mcus).bytes) ==
      Some(mcus)
    decreases |mcus|
  {
    hide SegBits, SegSendable, DecodeInterval, ScanRun, Stuff, Pad, Unstuff, TablesOk;
    var s := Saved([], Zeroes(|sc.dcNo|), sc.interval, j);
    var k := InInterval(sc, s, |mcus|);
    ScanSplits(sc, s, mcus);
    var bits := SegBits(sc, s.dc, mcus[..k]);
    assert s.pending + bits == bits;
    if k == |mcus| {
      var ones := PaddedInterval(bits, []);
      assert Stuff(Pad(bits)) + [] == Stuff(Pad(bits));
      IntervalRoundTrip(sc, s.dc, mcus[..k], ones);
      assert mcus[..k] == mcus;
    } else {
      var later := ScanRun(sc, Restarted(sc, j), mcus[k..]).bytes;
      ScanRoundTrip(sc, mcus[k..], (j + 1) % 8);
      var tail := [FF, RST0 + j] + later;
      var ones := PaddedInterval(bits, tail);
      assert Stuff(Pad(bits)) + [FF, RST0 + j] + later == Stuff(Pad(bits)) + tail;
      IntervalRoundTrip(sc, s.dc, mcus[..k], ones);
      assert tail[2..] == later;
      assert mcus[..k] + mcus[k..] == mcus;
    }
  }

  // ----- Markers -----

  /** The codes of the markers in a byte string, in order. */
  function Markers(s: seq<nat>): seq<nat>
  {
    if |s| < 2 then []
    else if s[0] != FF then Markers(s[1..])
    else if s[1] == 0 then Markers(s[2..])
    else [s[1]] + Markers(s[2..])
  }

  /** Every 0xFF starts a stuffed pair or a marker. */
  predicate WellStuffed(s: seq<nat>)
  {
    if s == [] then true
    else if s[0] != FF then WellStuffed(s[1..])
    else |s| >= 2 && WellStuffed(s[2..])
  }

  /** Restart marker codes from number j on. */
  function RstCodes(j: nat, n: nat): seq<nat>
    decreases n
  {
    if n == 0 then [] else [RST0 + j % 8] + RstCodes(j + 1, n - 1)
  }

  lemma {:induction false} StuffedHasNoMarkers(b: seq<bool>, tail: seq<nat>)
    requires WellStuffed(tail)
    ensures Markers(Stuff(b) + tail) == Markers(tail) && WellStuffed(Stuff(b) + tail)
    decreases |b|
  {
    if |b| < 8 {
      assert Stuff(b) + tail == tail;
    } else {
      var c := Value(b[..8]);
      var rest := Stuff(b[8..]) + tail;
      StuffedHasNoMarkers(b[8..], tail);
      StuffStep(b, tail);
      var s := Stuff(b) + tail;
      if c == FF {
        assert s[2..] == rest;
      } else {
        assert s[1..] == rest;
      }
    }
  }

  /** A finished scan holds one restart marker between consecutive intervals,
      numbered modulo eight, and no other markers. */
  lemma {:induction false} ScanMarkers(sc: Scan, mcus: seq<Mcu>, j: nat, u: nat)
    requires AllShaped(sc, mcus) && j < 8 && u % 8 == j
    requires ScanRun(sc, Saved([], Zeroes(|sc.dcNo|), sc.interval, j), mcus).err == Ok
    ensures WellStuffed(ScanRun(sc, Saved([], Zeroes(|sc.dcNo|), sc.interval, j), mcus).bytes)
    ensures Markers(ScanRun(sc, Saved([], Zeroes(|sc.dcNo|), sc.interval, j), mcus).bytes) ==
      RstCodes(u, MarkerCount(sc.interval, |mcus|))
    decreases |mcus|
  {
    hide SegBits, SegSendable, ScanRun, Stuff, Pad;
    var s := Saved([], Zeroes(|sc.dcNo|), sc.interval, j);
    var k := InInterval(sc, s, |mcus|);
    ScanSplits(sc, s, mcus);
    var bits := Pad(s.pending + SegBits(sc, s.dc, mcus[..k]));
    if k == |mcus| {
      StuffedHasNoMarkers(bits, []);
      assert Stuff(bits) + [] == Stuff(bits);
    } else {
      var later := ScanRun(sc, Restarted(sc, j), mcus[k..]).bytes;
      ScanMarkers(sc, mcus[k..], (j + 1) % 8, u + 1);
      var tail := [FF, RST0 + j] + later;
      assert tail[2..] == later;
      assert Stuff(bits) + [FF, RST0 + j] + later == Stuff(bits) + tail;
      StuffedHasNoMarkers(bits, tail);
    }
  }

  /** In numbers: of a finished scan every byte 0xFF is followed by zero or by a restart
      marker's code, and these are 0xD0 to 0xD7 in turn, one between two intervals. */
  lemma {:induction false} ScanBytesInNumbers(sc: Scan, mcus: seq<Mcu>, j: nat, u: nat)
    requires AllShaped(sc, mcus) && j < 8 && u % 8 == j
    requires ScanRun(sc, Saved([], Zeroes(|sc.dcNo|), sc.interval, j), mcus).err == Ok
    ensures var bytes := ScanRun(sc, Saved([], Zeroes(|sc.dcNo|), sc.interval, j), mcus).bytes;
      Paired(bytes) && MarkerCodes(bytes) == RestartCodes(u, MarkerCount(sc.interval, |mcus|))
    decreases |mcus|
  {
    hide SegBits, SegSendable, ScanRun, Stuff, Pad, Paired, MarkerCodes, RestartCodes;
    var s := Saved([], Zeroes(|sc.dcNo|), sc.interval, j);
    var k := InInterval(sc, s, |mcus|);
    ScanSplits(sc, s, mcus);
    var bits := Pad(s.pending + SegBits(sc, s.dc, mcus[..k]));
    if k == |mcus| {
      LastPaired(bits);
      NoCodes(u);
    } else {
      ScanBytesInNumbers(sc, mcus[k..], (j + 1) % 8, u + 1);
      IntervalPaired(bits, u, MarkerCount(sc.interval, |mcus| - k), ScanRun(sc, Restarted(sc, j), mcus[k..]).bytes);
    }
  }
}
