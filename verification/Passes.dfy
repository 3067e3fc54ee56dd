/** The compressor's passes: the master control of jcmaster.c, driven by
    jpeg_start_compress, jpeg_write_scanlines and jpeg_finish_compress, or by
    jpeg_write_coefficients when transcoding. */
module Passes {
  import opened ScanScript

  datatype PassType = MainPass | HuffOptPass | OutputPass

  /** What a pass makes of a scan, and the headers that reach the file. */
  datatype Event = FrameHeader | ScanHeader(scan: nat) | Statistics(scan: nat) | Output(scan: nat)

  // ----- What should happen -----

  /** A refining DC scan sends bits without codes and needs no statistics. */
  predicate NeedsTables(s: ScanInfo)
  {
    s.ss != 0 || s.ah == 0
  }

  /** Everything that belongs to scan i. */
  function ScanEvents(scans: seq<ScanInfo>, optimize: bool, transcode: bool, i: nat): seq<Event>
    requires i < |scans|
  {
    Prelude(scans, optimize, transcode, i) +
    (if i == 0 then [FrameHeader] else []) + [ScanHeader(i), Output(i)]
  }

  /** The statistics of scan i; the main pass of a compression gathers them for
      the first scan whatever it is. */
  function Prelude(scans: seq<ScanInfo>, optimize: bool, transcode: bool, i: nat): seq<Event>
    requires i < |scans|
  {
    if optimize && (NeedsTables(scans[i]) || (i == 0 && !transcode)) then [Statistics(i)] else []
  }

  /** The first n scans. */
  function Events(scans: seq<ScanInfo>, optimize: bool, transcode: bool, n: nat): seq<Event>
    requires n <= |scans|
  {
    if n == 0 then []
    else Events(scans, optimize, transcode, n - 1) + ScanEvents(scans, optimize, transcode, n - 1)
  }

  // ----- The master control -----

  class Master {
    const scans: seq<ScanInfo>
    const optimize: bool
    const transcode: bool
    const totalPasses: nat
    var passType: PassType
    var passNumber: nat
    var scanNumber: nat
    var callPassStartup: bool
    var isLastPass: bool
    var selected: nat       // the scan whose parameters are set up
    var gathering: bool     // how the entropy coder was last started
    var log: seq<Event>

    function Done(n: nat): seq<Event>
      requires n <= |scans|
    {
      Events(scans, optimize, transcode, n)
    }

    /** Between two passes: where the pass number stands, and what happened. */
    ghost predicate Between()
      reads this
    {
      && |scans| > 0
      && totalPasses == (if optimize then 2 * |scans| else |scans|)
      && (passNumber == 0 ==> !isLastPass)
      && (passNumber > 0 ==> (isLastPass <==> passNumber == totalPasses))
      && scanNumber <= |scans| && passNumber <= totalPasses
      && (scanNumber == |scans| ==> passNumber == totalPasses)
      && match passType
         case MainPass => !transcode && passNumber == 0 && scanNumber == 0 && log == []
         case HuffOptPass =>
           optimize && passNumber == 2 * scanNumber && log == Done(scanNumber) && (scanNumber == 0 ==> transcode)
         case OutputPass =>
           if optimize then
             && scanNumber < |scans| && passNumber == 2 * scanNumber + 1 && selected == scanNumber
             && log == Done(scanNumber) + Prelude(scans, optimize, transcode, scanNumber)
             && Prelude(scans, optimize, transcode, scanNumber) == [Statistics(scanNumber)]
           else passNumber == scanNumber && log == Done(scanNumber)
    }

    /** jinit_c_master_control, its script already checked. */
    constructor (scans: seq<ScanInfo>, optimize: bool, transcode: bool)
      requires |scans| > 0
      ensures Between() && passNumber == 0 && !isLastPass && (passType == MainPass <==> !transcode)
      ensures this.scans == scans && this.transcode == transcode
      ensures this.optimize == (optimize || ProgressiveScript(scans))
    {
      this.scans, this.transcode := scans, transcode;
      var opt := optimize || ProgressiveScript(scans);
      this.optimize := opt;
      if transcode {
        passType := if opt then HuffOptPass else OutputPass;
      } else {
        passType := MainPass;
      }
      scanNumber, passNumber := 0, 0;
      totalPasses := if opt then |scans| * 2 else |scans|;
      callPassStartup, isLastPass, gathering, selected, log := false, false, false, 0, [];
    }

    /** What is known once a pass is set up. */
    ghost predicate Prepared()
      reads this
    {
      && |scans| > 0
      && totalPasses == (if optimize then 2 * |scans| else |scans|)
      && scanNumber < |scans| && selected == scanNumber
      && (isLastPass <==> passNumber == totalPasses - 1)
      && match passType
         case MainPass =>
           && !transcode && passNumber == 0 && scanNumber == 0 && log == []
           && gathering == optimize && callPassStartup == !optimize
         case HuffOptPass =>
           && optimize && passNumber == 2 * scanNumber && gathering && !callPassStartup
           && NeedsTables(scans[scanNumber]) && log == Done(scanNumber)
           && (scanNumber == 0 ==> transcode)
         case OutputPass =>
           && passNumber == (if optimize then 2 * scanNumber + 1 else scanNumber) && !gathering && !callPassStartup
           && log == Done(scanNumber) + Prelude(scans, optimize, transcode, scanNumber) +
                (if scanNumber == 0 then [FrameHeader] else []) + [ScanHeader(scanNumber)]
    }

    /** prepare_for_pass. */
    method PrepareForPass()
      requires Between() && !isLastPass
      modifies this
      ensures Prepared() && passNumber >= old(passNumber)
      ensures passType == MainPass <==> old(passType) == MainPass
    {
      var outputNow := false;
      match passType {
        case MainPass =>
          selected := scanNumber;
          gathering := optimize;
          callPassStartup := !optimize;
        case HuffOptPass =>
          selected := scanNumber;
          if scans[selected].ss != 0 || scans[selected].ah == 0 {
            gathering := true;
            callPassStartup := false;
          } else {
            passType := OutputPass;
            passNumber := passNumber + 1;
            outputNow := true;
          }
        case OutputPass =>
          outputNow := true;
      }
      if outputNow {
        OutputSetup();
      }
      isLastPass := passNumber == totalPasses - 1;
    }

    /** The data-output case, reached directly or by falling through. */
    method OutputSetup()
      modifies `selected, `gathering, `log, `callPassStartup
      ensures selected == (if optimize then old(selected) else scanNumber) && !gathering && !callPassStartup
      ensures log == old(log) + (if scanNumber == 0 then [FrameHeader] else []) + [ScanHeader(selected)]
    {
      if !optimize {
        selected := scanNumber;
      }
      gathering := false;
      if scanNumber == 0 {
        log := log + [FrameHeader];
      }
      log := log + [ScanHeader(selected)];
      callPassStartup := false;
    }

    /** pass_startup: the headers of a compression without statistics. */
    method PassStartup()
      modifies `callPassStartup, `log
      ensures !callPassStartup && log == old(log) + [FrameHeader, ScanHeader(selected)]
    {
      callPassStartup := false;
      log := log + [FrameHeader];
      log := log + [ScanHeader(selected)];
    }

    /** What the entropy coder makes of the pass. */
    method RunEntropyCoder()
      modifies `log
      ensures log == old(log) + [if gathering then Statistics(selected) else Output(selected)]
    {
      log := log + [if gathering then Statistics(selected) else Output(selected)];
    }

    /** The scan's data has gone through the entropy coder. */
    ghost predicate Ran()
      reads this
    {
      && |scans| > 0
      && totalPasses == (if optimize then 2 * |scans| else |scans|)
      && scanNumber < |scans| && selected == scanNumber
      && (isLastPass <==> passNumber == totalPasses - 1)
      && match passType
         case MainPass =>
           && !transcode && passNumber == 0 && scanNumber == 0
           && log == if optimize then [Statistics(0)] else Done(1)
         case HuffOptPass =>
           && optimize && passNumber == 2 * scanNumber && NeedsTables(scans[scanNumber])
           && log == Done(scanNumber) + [Statistics(scanNumber)]
         case OutputPass =>
           && passNumber == (if optimize then 2 * scanNumber + 1 else scanNumber)
           && log == Done(scanNumber + 1)
    }

    /** finish_pass_master. */
    method FinishPass()
      requires Ran()
      modifies this
      ensures Between()
      ensures passNumber == old(passNumber) + 1 && isLastPass == old(isLastPass)
    {
      match passType {
        case MainPass =>
          passType := OutputPass;
          if !optimize {
            scanNumber := scanNumber + 1;
          }
        case HuffOptPass =>
          passType := OutputPass;
        case OutputPass =>
          if optimize {
            passType := HuffOptPass;
          }
          scanNumber := scanNumber + 1;
      }
      passNumber := passNumber + 1;
    }

    /** The application's calls of jpeg_write_scanlines: the first one starts the
        pass up, and together they bring the whole image. */
    method WriteScanlines(calls: nat)
      requires Prepared() && passType == MainPass && calls > 0
      modifies this
      ensures Ran() && passType == MainPass && passNumber == old(passNumber)
    {
      for i := 0 to calls
        invariant i == 0 ==> Prepared()
        invariant passType == MainPass && passNumber == old(passNumber) && isLastPass == old(isLastPass)
        invariant scanNumber == 0 && selected == 0 && gathering == optimize
        invariant i > 0 ==> !callPassStartup && log == if optimize then [] else [FrameHeader, ScanHeader(0)]
      {
        if callPassStartup {
          PassStartup();
        }
      }
      RunEntropyCoder();
      FirstScan(scans, transcode);
    }

    /** A pass over the coefficient buffer. */
    method BufferPass()
      requires Between() && !isLastPass && passType != MainPass
      modifies this
      ensures Between() && passNumber > old(passNumber)
    {
      PrepareForPass();
      ghost var n := scanNumber;
      ghost var prelude := Prelude(scans, optimize, transcode, n);
      Rearrange(Done(n), prelude, if n == 0 then [FrameHeader] else [], ScanHeader(n), Output(n));
      RunEntropyCoder();
      FinishPass();
    }

    /** jpeg_finish_compress, after jpeg_start_compress and the application's
        scanlines, or after jpeg_write_coefficients: it terminates with every
        scan done. */
    method FinishCompress()
      requires if transcode then Between() && passNumber == 0 else Ran() && passType == MainPass
      modifies this
      ensures log == Events(scans, optimize, transcode, |scans|)
    {
      if !transcode {
        FinishPass();
      }
      while !isLastPass
        invariant Between() && (passType == MainPass ==> transcode)
        decreases totalPasses - passNumber
      {
        BufferPass();
      }
    }
  }

  lemma FirstScan(scans: seq<ScanInfo>, transcode: bool)
    requires |scans| > 0
    ensures Events(scans, false, transcode, 1) == [FrameHeader, ScanHeader(0), Output(0)]
  {
    assert Events(scans, false, transcode, 0) == [];
    assert ScanEvents(scans, false, transcode, 0) == [] + [FrameHeader] + [ScanHeader(0), Output(0)];
  }

  lemma Rearrange(a: seq<Event>, b: seq<Event>, c: seq<Event>, d: Event, e: Event)
    ensures (a + b + c + [d]) + [e] == a + (b + c + [d, e])
  {
  }

  /** A whole compression, or a transcoding. */
  method Compress(scans: seq<ScanInfo>, optimize: bool, transcode: bool, calls: nat) returns (m: Master)
    requires |scans| > 0 && calls > 0
    ensures m.log == Events(scans, optimize || ProgressiveScript(scans), transcode, |scans|)
  {
    m := new Master(scans, optimize, transcode);
    if !transcode {
      m.PrepareForPass();
      m.WriteScanlines(calls);
    }
    m.FinishCompress();
  }

  // ----- What the events say -----

  /** The scans that were output, in order. */
  function Outputs(log: seq<Event>): seq<nat>
  {
    if log == [] then []
    else
      var n := |log| - 1;
      Outputs(log[..n]) + if log[n].Output? then [log[n].scan] else []
  }

  lemma {:induction false} OutputsAppend(a: seq<Event>, b: seq<Event>)
    ensures Outputs(a + b) == Outputs(a) + Outputs(b)
    decreases |b|
  {
    if b == [] {
      assert a + b == a;
    } else {
      var n := |b| - 1;
      assert (a + b)[..|a| + n] == a + b[..n];
      OutputsAppend(a, b[..n]);
    }
  }

  /** Every scan is output exactly once, in script order. */
  lemma {:induction false} EachScanOnce(scans: seq<ScanInfo>, optimize: bool, transcode: bool, n: nat)
    requires n <= |scans|
    ensures Outputs(Events(scans, optimize, transcode, n)) == seq(n, i => i)
  {
    hide ScanEvents;
    if n > 0 {
      EachScanOnce(scans, optimize, transcode, n - 1);
      OutputsAppend(Events(scans, optimize, transcode, n - 1), ScanEvents(scans, optimize, transcode, n - 1));
      ScanOutput(scans, optimize, transcode, n - 1);
    }
  }

  lemma ScanOutput(scans: seq<ScanInfo>, optimize: bool, transcode: bool, i: nat)
    requires i < |scans|
    ensures Outputs(ScanEvents(scans, optimize, transcode, i)) == [i]
  {
    var e := ScanEvents(scans, optimize, transcode, i);
    OneOutput(e[..|e| - 1], i);
    assert e == e[..|e| - 1] + [Output(i)];
  }

  lemma OneOutput(a: seq<Event>, i: nat)
    requires forall k :: 0 <= k < |a| ==> !a[k].Output?
    ensures Outputs(a + [Output(i)]) == [i]
  {
    NoOutputs(a);
    assert (a + [Output(i)])[..|a|] == a;
  }

  lemma {:induction false} NoOutputs(a: seq<Event>)
    requires forall k :: 0 <= k < |a| ==> !a[k].Output?
    ensures Outputs(a) == []
  {
    if a != [] {
      NoOutputs(a[..|a| - 1]);
    }
  }

  /** The frame header appears exactly once, and before every scan header; a
      scan's data directly follows its own header; statistics come before the
      header of the scan they are for, just where tables are needed. */
  ghost predicate InOrder(scans: seq<ScanInfo>, optimize: bool, transcode: bool, log: seq<Event>)
  {
    && (exists p :: HeaderAt(log, p))
    && (forall q :: 0 <= q < |log| && log[q].Output? ==> q > 0 && log[q - 1] == ScanHeader(log[q].scan))
    && (forall q :: 0 <= q < |log| && log[q].Statistics? ==>
          log[q].scan < |scans| && Prelude(scans, optimize, transcode, log[q].scan) == [log[q]])
  }

  ghost predicate HeaderAt(log: seq<Event>, p: int)
  {
    && 0 <= p < |log| && log[p] == FrameHeader
    && (forall q :: 0 <= q < |log| && log[q] == FrameHeader ==> q == p)
    && (forall q :: 0 <= q < |log| && (log[q].ScanHeader? || log[q].Output?) ==> p < q)
  }

  /** The scan data of an optimized scan that needs tables comes after its own
      statistics. */
  ghost predicate StatisticsFirst(scans: seq<ScanInfo>, optimize: bool, log: seq<Event>)
  {
    forall q ::
      && 0 <= q < |log| && log[q].Output? && optimize
      && log[q].scan < |scans| && NeedsTables(scans[log[q].scan])
      ==> exists p :: 0 <= p < q && log[p] == Statistics(log[q].scan)
  }

  lemma {:induction false} EventsInOrder(scans: seq<ScanInfo>, optimize: bool, transcode: bool, n: nat)
    requires 0 < n <= |scans|
    ensures InOrder(scans, optimize, transcode, Events(scans, optimize, transcode, n))
    ensures StatisticsFirst(scans, optimize, Events(scans, optimize, transcode, n))
    decreases n
  {
    hide InOrder, StatisticsFirst, ScanEvents;
    if n == 1 {
      FirstInOrder(scans, optimize, transcode);
      assert Events(scans, optimize, transcode, 0) == [];
      assert [] + ScanEvents(scans, optimize, transcode, 0) == ScanEvents(scans, optimize, transcode, 0);
    } else {
      EventsInOrder(scans, optimize, transcode, n - 1);
      AppendScan(scans, optimize, transcode, Events(scans, optimize, transcode, n - 1), n - 1);
    }
  }

  lemma FirstInOrder(scans: seq<ScanInfo>, optimize: bool, transcode: bool)
    requires |scans| > 0
    ensures InOrder(scans, optimize, transcode, ScanEvents(scans, optimize, transcode, 0))
    ensures StatisticsFirst(scans, optimize, ScanEvents(scans, optimize, transcode, 0))
  {
    var log := ScanEvents(scans, optimize, transcode, 0);
    if Prelude(scans, optimize, transcode, 0) == [] {
      assert log == [FrameHeader, ScanHeader(0), Output(0)];
      assert HeaderAt(log, 0);
    } else {
      assert log == [Statistics(0), FrameHeader, ScanHeader(0), Output(0)];
      assert HeaderAt(log, 1);
      assert log[0] == Statistics(0);
    }
  }

  /** A later scan keeps the order. */
  lemma AppendScan(scans: seq<ScanInfo>, optimize: bool, transcode: bool, a: seq<Event>, i: nat)
    requires 0 < i < |scans| && InOrder(scans, optimize, transcode, a) && StatisticsFirst(scans, optimize, a)
    ensures InOrder(scans, optimize, transcode, a + ScanEvents(scans, optimize, transcode, i))
    ensures StatisticsFirst(scans, optimize, a + ScanEvents(scans, optimize, transcode, i))
  {
    hide StatisticsFirst;
    AppendStatistics(scans, optimize, transcode, a, i);
    var e := ScanEvents(scans, optimize, transcode, i);
    var log := a + e;
    var p :| HeaderAt(a, p);
    forall q | 0 <= q < |log|
      ensures log[q] == FrameHeader ==> q == p
      ensures log[q].ScanHeader? || log[q].Output? ==> p < q
    {
      if q < |a| {
        assert a[q] == log[q];
      } else {
        assert e[q - |a|] == log[q] != FrameHeader;
      }
    }
    assert HeaderAt(log, p);
  }

  lemma AppendStatistics(scans: seq<ScanInfo>, optimize: bool, transcode: bool, a: seq<Event>, i: nat)
    requires 0 < i < |scans| && StatisticsFirst(scans, optimize, a)
    ensures StatisticsFirst(scans, optimize, a + ScanEvents(scans, optimize, transcode, i))
  {
    var e := ScanEvents(scans, optimize, transcode, i);
    var log := a + e;
    forall q | 0 <= q < |log| && log[q].Output? && optimize && log[q].scan < |scans| && NeedsTables(scans[log[q].scan])
      ensures exists r :: 0 <= r < q && log[r] == Statistics(log[q].scan)
    {
      if q < |a| {
        assert a[q] == log[q];
        var r :| 0 <= r < q && a[r] == Statistics(a[q].scan);
        assert log[r] == Statistics(log[q].scan);
      } else {
        assert log[|a|] == Statistics(i);
      }
    }
  }

  /** Which scans have statistics: with optimization all but DC refinements, and the first
      one of a compression in any case; without it none. */
  lemma {:induction false} StatisticsOf(scans: seq<ScanInfo>, optimize: bool, transcode: bool, n: nat, i: nat)
    requires n <= |scans|
    ensures Statistics(i) in Events(scans, optimize, transcode, n) <==>
      i < n && optimize && (scans[i].ss != 0 || scans[i].ah == 0 || (i == 0 && !transcode))
  {
    hide ScanEvents;
    if n > 0 {
      StatisticsOf(scans, optimize, transcode, n - 1, i);
      OfOneScan(scans, optimize, transcode, n - 1, i);
    }
  }

  lemma OfOneScan(scans: seq<ScanInfo>, optimize: bool, transcode: bool, k: nat, i: nat)
    requires k < |scans|
    ensures Statistics(i) in ScanEvents(scans, optimize, transcode, k) <==>
      i == k && optimize && (scans[k].ss != 0 || scans[k].ah == 0 || (k == 0 && !transcode))
  {
    var a := Prelude(scans, optimize, transcode, k);
    var b := if k == 0 then [FrameHeader] else [];
    assert Statistics(i) !in b && Statistics(i) !in [ScanHeader(k), Output(k)];
    assert Statistics(i) in a <==> a == [Statistics(i)];
  }
}
