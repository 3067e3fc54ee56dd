/** The main controller of jcmainct.c between jpeg_write_scanlines, the
    preprocessor and the coefficient controller: which rows it reports when the
    compressor suspends. */
module MainControl {
  import Bits
  import opened CoefGeometry
  import CoefPlaces
  import opened CoefControl
  import opened PrepRows
  import opened PrepControl
  import H = HuffEntropy
  import SeqEncoder
  import SeqScan
  import Stuffing

  /** One iMCU row of row groups is ready for the coefficient controller. */
  ghost predicate IMcuRowReady(buffer: seq<Group>, context: bool, img: seq<Row>, v: nat, row: nat)
    requires img != []
  {
    |buffer| == DCTSIZE && Delivers(buffer, 0, DCTSIZE, context, img, v, DCTSIZE * row)
  }

  class Main {
    const f: Frame
    const prep: Prep
    const coef: Controller
    const buffer: array<Group>
    var curIMcuRow: nat
    var rowgroupCtr: nat
    var suspended: bool
    var nextScanline: nat

    /** The counters of the two controllers and of this one fit together. */
    ghost predicate Linked()
      reads this, prep, prep.colorBuf, coef, buffer
      ensures Linked() ==> prep.v > 0 && prep.img != []
    {
      && prep.Valid() && coef.Valid() && coef.f == f && |prep.img| == f.height && prep.v == MaxV(f.comps)
      && curIMcuRow == coef.iMcuRowNum <= TotalRows(f) && buffer.Length == DCTSIZE && rowgroupCtr <= DCTSIZE
      && prep.produced == DCTSIZE * curIMcuRow + rowgroupCtr
      && Delivers(buffer[..], 0, rowgroupCtr, prep.context, prep.img, prep.v, DCTSIZE * curIMcuRow)
    }

    /** What holds between the application's calls: every row taken is reported,
        but for one while the compressor is suspended. */
    ghost predicate Valid()
      reads this, prep, prep.colorBuf, coef, buffer
    {
      && Linked() && prep.rowsToGo <= f.height
      && nextScanline + (if suspended then 1 else 0) == f.height - prep.rowsToGo
      && (suspended ==> rowgroupCtr == DCTSIZE && curIMcuRow < TotalRows(f))
      && (!suspended ==> rowgroupCtr < DCTSIZE && (curIMcuRow == TotalRows(f) <==> prep.rowsToGo == 0))
    }

    /** The entropy coder has coded just what it was given, and has a reason to be
        suspended. */
    ghost predicate Coding()
      reads this, coef, coef.e
      ensures Coding() ==> ScanOk(coef.f, coef.scan) && ImageOk(coef.f, coef.img)
    {
      coef.Valid() && coef.Encoded() && (suspended ==> !coef.NeverRefuses())
    }

    /** start_pass_main, the other controllers being at their starts. */
    constructor (f: Frame, prep: Prep, coef: Controller)
      requires prep.Valid() && prep.rowsToGo == |prep.img| == f.height && prep.produced == 0 && prep.v == MaxV(f.comps)
      requires coef.Valid() && coef.Encoded() && coef.iMcuRowNum == 0 && coef.f == f && FrameOk(f)
      ensures Valid() && Coding() && fresh(buffer) && nextScanline == 0
      ensures this.f == f && this.prep == prep && this.coef == coef
    {
      hide TotalRows, Controller.Valid, Controller.Encoded, Controller.NeverRefuses, Delivers, Start;
      this.f, this.prep, this.coef := f, prep, coef;
      buffer := new Group[DCTSIZE](_ => Down([]));
      curIMcuRow, rowgroupCtr, suspended, nextScanline := 0, 0, false, 0;
      new;
      StartsAtZero(prep.v);
      RowsAndGroups(f, prep.v, 0);
      NothingYet(buffer[..], 0, prep.context, prep.img, prep.v, 0);
    }

    /** compress_data on the buffered iMCU row. */
    method SendRow() returns (done: bool)
      requires coef.Valid() && coef.Encoded() && coef.iMcuRowNum < TotalRows(coef.f) && prep.img != []
      requires IMcuRowReady(buffer[..], prep.context, prep.img, prep.v, coef.iMcuRowNum)
      modifies coef, coef.e
      ensures coef.Valid() && coef.iMcuRowNum == old(coef.iMcuRowNum) + if done then 1 else 0
      ensures coef.Encoded() && (coef.NeverRefuses() ==> done)
    {
      done := coef.CompressData();
    }

    /** One more row taken than reported. */
    function Held(): nat
      reads `suspended
    {
      if suspended then 1 else 0
    }

    /** What holds during a call that found `start` rows reported. */
    ghost predicate InCall(input: seq<Row>, ctr: nat, avail: nat, start: nat)
      reads this, prep, prep.colorBuf, coef, buffer
    {
      && Linked() && prep.rowsToGo <= f.height && start + ctr + Held() == f.height - prep.rowsToGo
      && Offers(input, ctr + Held(), avail, prep.img, prep.rowsToGo)
      && (suspended ==> rowgroupCtr == DCTSIZE)
      && (curIMcuRow == TotalRows(f) ==> prep.rowsToGo == 0 && !suspended)
    }

    /** Before the preprocessor is asked: unless rows are to come, this call has
        already finished an iMCU row, and so has counted a row. */
    ghost predicate MayFill(ctr: nat)
      reads this, prep
    {
      !suspended ==>
        rowgroupCtr < DCTSIZE && (curIMcuRow < TotalRows(f) && prep.rowsToGo == 0 ==> ctr > 0 && prep.context)
    }

    /** The preprocessor's call. */
    method Fill(input: seq<Row>, ctr: nat, avail: nat, ghost start: nat) returns (inCtr: nat)
      requires InCall(input, ctr, avail, start) && MayFill(ctr) && curIMcuRow < TotalRows(f)
      modifies this`rowgroupCtr, prep, prep.colorBuf, buffer
      ensures InCall(input, inCtr, avail, start) && inCtr >= ctr
      ensures rowgroupCtr == DCTSIZE && !suspended ==> inCtr > 0
      ensures rowgroupCtr != DCTSIZE ==> !suspended && prep.rowsToGo > 0 && inCtr >= avail
    {
      hide TotalRows, Delivers, Start, Offers, Controller.Valid, Prep.Valid, Controller.Encoded,
        Controller.NeverRefuses;
      inCtr := ctr;
      if rowgroupCtr < DCTSIZE {
        ghost var before := buffer[..];
        inCtr, rowgroupCtr := prep.PreProcess(input, ctr, avail, buffer, rowgroupCtr);
        Joined(before, buffer[..], old(rowgroupCtr), rowgroupCtr, prep.context, prep.img, prep.v, DCTSIZE * curIMcuRow);
      }
    }

    /** compress_data's call, and the counters. */
    method SendAndCount(input: seq<Row>, ctr: nat, avail: nat, ghost start: nat) returns (done: bool, inCtr: nat)
      requires InCall(input, ctr, avail, start) && curIMcuRow < TotalRows(f) && rowgroupCtr == DCTSIZE
      requires Coding() && (!suspended ==> ctr > 0)
      modifies this`rowgroupCtr, this`curIMcuRow, this`suspended, coef, coef.e
      ensures InCall(input, inCtr, avail, start) && Coding()
      ensures done ==> curIMcuRow == old(curIMcuRow) + 1 && !suspended && inCtr > 0 && MayFill(inCtr)
      ensures !done ==> curIMcuRow == old(curIMcuRow) && suspended
    {
      hide TotalRows, Delivers, Start, Offers, Controller.Valid, Prep.Valid, Controller.Encoded,
        Controller.NeverRefuses;
      inCtr := ctr;
      done := SendRow();
      if !done {
        if !suspended {
          inCtr := inCtr - 1;
          suspended := true;
        }
        return;
      }
      if suspended {
        inCtr := inCtr + 1;
        suspended := false;
      }
      rowgroupCtr := 0;
      curIMcuRow := curIMcuRow + 1;
      prep.Progress();
      RowsAndGroups(f, prep.v, curIMcuRow);
      NothingYet(buffer[..], 0, prep.context, prep.img, prep.v, DCTSIZE * curIMcuRow);
    }

    /** process_data_simple_main. */
    method ProcessData(input: seq<Row>, avail: nat) returns (ctr: nat)
      requires Valid() && Coding() && Offers(input, Held(), avail, prep.img, prep.rowsToGo)
      modifies this`rowgroupCtr, this`curIMcuRow, this`suspended, prep, prep.colorBuf, buffer, coef, coef.e
      ensures InCall(input, ctr, avail, nextScanline) && Coding()
      ensures suspended || curIMcuRow == TotalRows(f) || (prep.rowsToGo > 0 && ctr >= avail)
      ensures !suspended ==> rowgroupCtr < DCTSIZE
    {
      hide TotalRows, Delivers, Start, Offers, Controller.Valid, Prep.Valid, Controller.Encoded,
        Controller.NeverRefuses;
      ctr := 0;
      while curIMcuRow < TotalRows(f)
        invariant InCall(input, ctr, avail, nextScanline) && MayFill(ctr) && Coding()
        decreases TotalRows(f) - curIMcuRow
      {
        ctr := Fill(input, ctr, avail, nextScanline);
        if rowgroupCtr != DCTSIZE {
          return;
        }
        var done;
        done, ctr := SendAndCount(input, ctr, avail, nextScanline);
        if !done {
          return;
        }
      }
    }

    /** jpeg_write_scanlines: the application hands in rows from the first one not
        reported on; extra rows are ignored. */
    method WriteScanlines(scanlines: seq<Row>, numLines: nat) returns (rowCtr: nat)
      requires Valid() && Coding() && numLines <= |scanlines|
      requires forall i :: 0 <= i < numLines && nextScanline + i < f.height ==>
        scanlines[i] == prep.img[nextScanline + i]
      modifies this, prep, prep.colorBuf, buffer, coef, coef.e
      ensures Valid() && Coding() && nextScanline == old(nextScanline) + rowCtr <= f.height
      ensures rowCtr >= numLines || suspended || nextScanline == f.height
    {
      hide TotalRows, Delivers, Start, Controller.Valid, Prep.Valid, Offers, MaxV, FrameOk,
        Controller.Encoded, Controller.NeverRefuses;
      var rowsLeft := f.height - nextScanline;
      var avail := if numLines > rowsLeft then rowsLeft else numLines;
      NextOffered(scanlines, nextScanline, Held(), avail, prep.img);
      rowCtr := ProcessData(scanlines, avail);
      nextScanline := nextScanline + rowCtr;
    }
  }

  /** Rows from the first unreported one on, of which some are held. */
  lemma NextOffered(scanlines: seq<Row>, next: nat, held: nat, avail: nat, img: seq<Row>)
    requires next + avail <= |img| && next + held <= |img| && avail <= |scanlines|
    requires forall i :: 0 <= i < avail ==> scanlines[i] == img[next + i]
    ensures Offers(scanlines, held, avail, img, |img| - next - held)
  {
    if held < avail {
      var rowsToGo := |img| - next - held;
      var a, b := scanlines[held..avail], img[|img| - rowsToGo..][..avail - held];
      forall i | 0 <= i < |a|
        ensures a[i] == b[i]
      {
        assert scanlines[held + i] == img[next + (held + i)];
      }
      assert a == b;
    }
  }

  /** How many rows the application hands in. */
  function Total(chunks: seq<nat>): nat
  {
    if chunks == [] then 0 else Total(chunks[..|chunks| - 1]) + chunks[|chunks| - 1]
  }

  /** Before a call the application may make room for the entropy coder. */
  method MakeRoom(c: Controller, rooms: seq<nat>, k: nat)
    requires c.Encoded()
    modifies c.e
    ensures c.Encoded()
    ensures c.e != null ==> c.e.free == if k < |rooms| && rooms[k] > 0 then rooms[k] else old(c.e.free)
  {
    if c.e != null && k < |rooms| && rooms[k] > 0 {
      c.e.MakeRoom(rooms[k]);
    }
  }

  /** The application's view: it writes rows in chunks of any size, repeats the rows
      that were not taken, and makes any room for the entropy coder in between. However
      the chunks fall and however often the compressor suspends, the image is reported
      as taken exactly when the entropy coder has had every MCU of the scan, each once
      and in order, and the Huffman coder has then written the bytes of just these. A
      coder that has no reason to refuse an MCU is done when all rows were handed in. */
  method WriteImage(m: Main, chunks: seq<nat>, rooms: seq<nat>)
    requires m.Valid() && m.Coding()
    modifies m, m.prep, m.prep.colorBuf, m.buffer, m.coef, m.coef.e
    ensures m.Valid() && m.Coding()
    ensures m.nextScanline == m.f.height <==> m.coef.iMcuRowNum == TotalRows(m.f)
    ensures m.nextScanline == m.f.height ==> m.coef.out == AllMcus(m.f, m.coef.scan, m.coef.img)
    ensures m.coef.NeverRefuses() && old(m.nextScanline) + Total(chunks) >= m.f.height ==> m.nextScanline == m.f.height
  {
    hide TotalRows, Delivers, Start, Controller.Valid, Prep.Valid, Offers, Controller.Encoded, Controller.NeverRefuses;
    ghost var first := m.nextScanline;
    assert chunks[..0] == [];
    for k := 0 to |chunks|
      invariant m.Valid() && m.Coding()
      invariant m.coef.NeverRefuses() ==>
        m.nextScanline == m.f.height || m.nextScanline >= first + Total(chunks[..k])
    {
      assert chunks[..k + 1][..k] == chunks[..k];
      MakeRoom(m.coef, rooms, k);
      var end := if m.nextScanline + chunks[k] > m.f.height then m.f.height else m.nextScanline + chunks[k];
      var rows := m.WriteScanlines(m.prep.img[m.nextScanline..end], end - m.nextScanline);
    }
    assert chunks[..|chunks|] == chunks;
    AllSent(m.coef);
  }

  /** These bytes behind what was there are those of the MCUs, coded without any
      interruption, and they decode to the MCUs. */
  ghost predicate ImageBytes(sc: SeqScan.Scan, mcus: seq<SeqScan.Mcu>, before: seq<nat>, bytes: seq<nat>)
  {
    && SeqScan.AllShaped(sc, mcus) && before <= bytes
    && SeqScan.ScanRun(sc, SeqScan.StartScan(sc), mcus).err == SeqEncoder.Ok
    && bytes == before + SeqScan.ScanRun(sc, SeqScan.StartScan(sc), mcus).bytes
    && (SeqScan.TablesOk(sc) ==>
          && Stuffing.Bytes(bytes[|before|..])
          && SeqScan.DecodeScan(sc, |mcus|, 0, bytes[|before|..]) == Bits.Some(mcus))
  }

  /** The end of a scan by the Huffman coder, every MCU taken: finish_pass. */
  method FinishImage(c: Controller) returns (ok: bool)
    requires c.Encoded() && c.e != null
    modifies c.e
    ensures ok ==> ImageBytes(c.e.sc, c.out, c.base, c.e.out)
    ensures !c.e.suspends ==> ok
  {
    hide SeqScan.ScanRun, H.AfterMcus, CoefPlaces.Offset, SeqScan.DecodeScan, SeqScan.TablesOk;
    H.AllButFlush(c.e.sc, c.out);
    var st := c.e.FinishPass();
    ok := st == SeqEncoder.Ok;
    if ok {
      H.Completed(c.e.sc, c.out, c.base, c.e.out);
    }
  }

  /** From scan lines to bytes: however the rows are handed in and whatever room there
      is, an image that is compressed to its end has become the bytes of the scan's MCUs,
      and they decode to the MCUs. With room for everything, and nothing in the scan that
      cannot be coded, the end is always reached. */
  method CompressImage(m: Main, chunks: seq<nat>, rooms: seq<nat>) returns (ok: bool)
    requires m.Valid() && m.Coding() && m.coef.e != null
    modifies m, m.prep, m.prep.colorBuf, m.buffer, m.coef, m.coef.e
    ensures ok ==> m.nextScanline == m.f.height
    ensures ok ==> ImageBytes(m.coef.e.sc, AllMcus(m.f, m.coef.scan, m.coef.img), m.coef.base, m.coef.e.out)
    ensures m.coef.NeverRefuses() && old(m.nextScanline) + Total(chunks) >= m.f.height ==> ok
  {
    hide TotalRows, Controller.Valid, Controller.Encoded, AllMcus, ImageBytes, Main.Valid;
    WriteImage(m, chunks, rooms);
    ok := false;
    if m.nextScanline == m.f.height {
      ok := FinishImage(m.coef);
    }
  }

  /** A controller past its last iMCU row has sent every MCU. */
  lemma AllSent(c: Controller)
    requires c.Valid()
    ensures c.iMcuRowNum == TotalRows(c.f) ==> c.out == AllMcus(c.f, c.scan, c.img)
  {
  }

  /** The groups that a call adds to those that were there. */
  lemma Joined(before: seq<Group>, after: seq<Group>, out: nat, hi: nat, context: bool, img: seq<Row>, v: nat,
               first: int)
    requires img != [] && out <= hi <= |after| == |before| && Delivers(before, 0, out, context, img, v, first)
    requires after[..out] == before[..out] && Delivers(after, out, hi, context, img, v, first)
    ensures Delivers(after, 0, hi, context, img, v, first)
  {
    hide Delivers;
    ManyMore(before, after, 0, out, hi, context, img, v, first);
  }

  /** The iMCU rows cover the image, and none lies wholly below it. */
  lemma RowsAndGroups(f: Frame, v: nat, row: nat)
    requires v == MaxV(f.comps)
    ensures row >= TotalRows(f) <==> Start(v, DCTSIZE * row) >= f.height
  {
    hide Start, MaxV, CeilDiv;
    StartIs(v, DCTSIZE * row);
    Reassociate(v, row);
    CeilReached(f.height, v * DCTSIZE, row);
  }

  lemma Reassociate(v: nat, row: nat)
    ensures v * (DCTSIZE * row) == (v * DCTSIZE) * row
  {
  }

  lemma CeilReached(a: nat, d: nat, n: nat)
    requires d > 0
    ensures n >= CeilDiv(a, d) <==> d * n >= a
  {
    var q := CeilDiv(a, d);
    if n >= q {
      MulMono(d, q, n);
    } else {
      MulMono(d, n, q - 1);
    }
  }

  lemma {:induction false} StartIs(v: nat, k: nat)
    ensures Start(v, k) == v * k
  {
    if k > 0 {
      StartIs(v, k - 1);
      assert v * k == v * (k - 1) + v;
    }
  }
}
