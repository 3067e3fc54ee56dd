/** Scan scripts: the check of jcmaster.c, what it guarantees of every
    coefficient, and the script that jcparam.c recommends. */
module ScanScript {
  import opened ZigzagOrder

  const MAX_COMPS_IN_SCAN := 4
  const MAX_AH_AL := 10

  /** One entry of a script; comps_in_scan is the length of comps. */
  datatype ScanInfo = ScanInfo(comps: seq<int>, ss: int, se: int, ah: int, al: int)

  /** How the check ends; every error of the source is Rejected. */
  datatype Verdict = Accepted(progressive: bool) | Rejected

  // ----- What a script does to one coefficient -----

  predicate Covers(s: ScanInfo, c: int, k: int)
  {
    c in s.comps && s.ss <= k <= s.se
  }

  /** The successive approximation positions (Ah, Al) at which a script sends
      coefficient k of component c, in order. */
  function Chain(script: seq<ScanInfo>, c: int, k: int): (ch: seq<(int, int)>)
  {
    if script == [] then []
    else
      var n := |script| - 1;
      Chain(script[..n], c, k) + if Covers(script[n], c, k) then [(script[n].ah, script[n].al)] else []
  }

  /** The bit position a coefficient was last sent at, or -1. */
  function LastAl(ch: seq<(int, int)>): int
  {
    if ch == [] then -1 else ch[|ch| - 1].1
  }

  /** One first scan, then refinements that each add exactly one bit. */
  predicate ProperChain(ch: seq<(int, int)>)
  {
    && (ch != [] ==> ch[0].0 == 0)
    && forall i :: 0 < i < |ch| ==> ch[i].0 == ch[i - 1].1 && ch[i].1 == ch[i].0 - 1
  }

  lemma ProperSnoc(ch: seq<(int, int)>, x: (int, int))
    ensures ProperChain(ch + [x]) <==>
      ProperChain(ch) && if ch == [] then x.0 == 0 else x.0 == LastAl(ch) && x.1 == x.0 - 1
  {
    var d := ch + [x];
    if ProperChain(d) {
      forall i | 0 < i < |ch|
        ensures ch[i].0 == ch[i - 1].1 && ch[i].1 == ch[i].0 - 1
      {
        assert d[i] == ch[i] && d[i - 1] == ch[i - 1];
      }
      assert ch != [] ==> d[|ch|] == x && d[|ch| - 1] == ch[|ch| - 1] && d[0] == ch[0];
    }
  }

  lemma ChainSnoc(script: seq<ScanInfo>, s: ScanInfo, c: int, k: int)
    ensures Chain(script + [s], c, k) == Chain(script, c, k) + if Covers(s, c, k) then [(s.ah, s.al)] else []
  {
    assert (script + [s])[..|script|] == script;
  }

  lemma {:induction false} ChainAppend(a: seq<ScanInfo>, b: seq<ScanInfo>, c: int, k: int)
    ensures Chain(a + b, c, k) == Chain(a, c, k) + Chain(b, c, k)
    decreases |b|
  {
    if b == [] {
      assert a + b == a;
    } else {
      var n := |b| - 1;
      assert (a + b)[..|a| + n] == a + b[..n];
      ChainAppend(a, b[..n], c, k);
    }
  }

  // ----- The check, scan by scan -----

  /** Component numbers in range and in frame order. */
  predicate CompsOk(s: ScanInfo, ncomps: nat)
  {
    && 0 < |s.comps| <= MAX_COMPS_IN_SCAN
    && (forall i :: 0 <= i < |s.comps| ==> 0 <= s.comps[i] < ncomps)
    && forall i, j :: 0 <= i < j < |s.comps| ==> s.comps[i] < s.comps[j]
  }

  /** Parameters in range; DC and AC apart, AC for one component only. */
  predicate BandOk(s: ScanInfo)
  {
    && 0 <= s.ss <= s.se < DCTSIZE2
    && 0 <= s.ah <= MAX_AH_AL && 0 <= s.al <= MAX_AH_AL
    && if s.ss == 0 then s.se == 0 else |s.comps| == 1
  }

  /** In numbers: one to four components in ascending order, a band within 0 to 63, bit
      positions from 0 to 10; DC alone, or AC of one component. */
  lemma EntryInNumbers(s: ScanInfo, ncomps: nat)
    ensures CompsOk(s, ncomps) && BandOk(s) <==>
      && 1 <= |s.comps| <= 4 && (forall i :: 0 <= i < |s.comps| ==> 0 <= s.comps[i] < ncomps)
      && (forall i, j :: 0 <= i < j < |s.comps| ==> s.comps[i] < s.comps[j])
      && 0 <= s.ss <= s.se <= 63 && 0 <= s.ah <= 10 && 0 <= s.al <= 10
      && (s.ss == 0 ==> s.se == 0) && (s.ss > 0 ==> |s.comps| == 1)
  {
  }

  /** The scan continues what earlier scans sent of its coefficients. */
  ghost predicate Continues(script: seq<ScanInfo>, s: ScanInfo)
  {
    forall c, k :: Covers(s, c, k) ==> CoefOk(Chain(script, c, k), s)
  }

  predicate CoefOk(ch: seq<(int, int)>, s: ScanInfo)
  {
    if ch == [] then s.ah == 0 else s.ah == LastAl(ch) && s.al == s.ah - 1
  }

  /** AC data of a component only after DC data. */
  ghost predicate AfterDC(script: seq<ScanInfo>, s: ScanInfo)
  {
    s.ss != 0 ==> forall c :: c in s.comps ==> Chain(script, c, 0) != []
  }

  /** What the loop of the check has established after some scans. */
  ghost predicate Checked(script: seq<ScanInfo>, ncomps: nat)
  {
    script == [] ||
    (var n := |script| - 1; var s := script[n];
     && Checked(script[..n], ncomps)
     && CompsOk(s, ncomps) && BandOk(s) && AfterDC(script[..n], s) && Continues(script[..n], s))
  }

  /** What an accepted progressive script means. */
  ghost predicate ScriptOk(script: seq<ScanInfo>, ncomps: nat)
  {
    && (forall i :: 0 <= i < |script| ==>
         CompsOk(script[i], ncomps) && BandOk(script[i]) && AfterDC(script[..i], script[i]))
    && AllProper(script)
  }

  ghost predicate AllProper(script: seq<ScanInfo>)
  {
    forall c, k :: ProperChain(Chain(script, c, k))
  }

  lemma ChainStep(prev: seq<ScanInfo>, s: ScanInfo, c: int, k: int)
    ensures ProperChain(Chain(prev + [s], c, k)) <==>
      ProperChain(Chain(prev, c, k)) && (Covers(s, c, k) ==> CoefOk(Chain(prev, c, k), s))
  {
    hide Chain, ProperChain;
    ChainSnoc(prev, s, c, k);
    ProperSnoc(Chain(prev, c, k), (s.ah, s.al));
    assert Chain(prev, c, k) + [] == Chain(prev, c, k);
  }

  /** A scan that continues the earlier ones keeps all chains proper, and only
      such a scan does. */
  lemma ChainsSnoc(prev: seq<ScanInfo>, s: ScanInfo)
    ensures AllProper(prev + [s]) <==> AllProper(prev) && Continues(prev, s)
  {
    hide Chain, ProperChain, CoefOk, Covers;
    if AllProper(prev) && Continues(prev, s) {
      forall c, k
        ensures ProperChain(Chain(prev + [s], c, k))
      {
        ChainStep(prev, s, c, k);
      }
    }
    if AllProper(prev + [s]) {
      forall c, k
        ensures ProperChain(Chain(prev, c, k)) && (Covers(s, c, k) ==> CoefOk(Chain(prev, c, k), s))
      {
        assert ProperChain(Chain(prev + [s], c, k));
        ChainStep(prev, s, c, k);
      }
    }
  }

  /** Checking scan by scan is checking every coefficient's chain. */
  lemma {:induction false} CheckedMeaning(script: seq<ScanInfo>, ncomps: nat)
    ensures Checked(script, ncomps) <==> ScriptOk(script, ncomps)
    decreases |script|
  {
    hide CompsOk, BandOk, AfterDC, Continues, AllProper;
    if script == [] {
      EmptyProper();
    } else {
      var n := |script| - 1;
      var s, prev := script[n], script[..n];
      CheckedMeaning(prev, ncomps);
      assert script == prev + [s];
      ChainsSnoc(prev, s);
      forall i | 0 <= i < n
        ensures script[..i] == prev[..i] && script[i] == prev[i]
      {
      }
    }
  }

  lemma EmptyProper()
    ensures AllProper([])
  {
  }

  /** The table of last_bitpos after some scans. */
  ghost predicate TableIs(last: array2<int>, script: seq<ScanInfo>, ncomps: nat)
    reads last
  {
    && last.Length0 == ncomps && last.Length1 == DCTSIZE2
    && forall c, k :: 0 <= c < ncomps && 0 <= k < DCTSIZE2 ==> last[c, k] == LastAl(Chain(script, c, k))
  }

  /** Al is never negative, so -1 means not sent yet. */
  lemma {:induction false} NotSentYet(script: seq<ScanInfo>, ncomps: nat, c: int, k: int)
    requires Checked(script, ncomps)
    ensures LastAl(Chain(script, c, k)) < 0 <==> Chain(script, c, k) == []
    decreases |script|
  {
    if script != [] {
      NotSentYet(script[..|script| - 1], ncomps, c, k);
    }
  }

  // ----- validate_script -----

  /** The component numbers of a scan. */
  method CheckComponents(s: ScanInfo, ncomps: nat) returns (ok: bool)
    ensures ok <==> CompsOk(s, ncomps)
  {
    if |s.comps| <= 0 || |s.comps| > MAX_COMPS_IN_SCAN {
      return false;
    }
    for ci := 0 to |s.comps|
      invariant forall i :: 0 <= i < ci ==> 0 <= s.comps[i] < ncomps
      invariant forall i, j :: 0 <= i < j < ci ==> s.comps[i] < s.comps[j]
    {
      var thisi := s.comps[ci];
      if thisi < 0 || thisi >= ncomps {
        return false;
      }
      if ci > 0 && thisi <= s.comps[ci - 1] {
        return false;
      }
    }
    return true;
  }

  /** The table while a scan is being checked: done with the first ci of its
      components, and with the coefficients before coefi of the next. */
  ghost predicate TableAt(last: array2<int>, prev: seq<ScanInfo>, s: ScanInfo, ncomps: nat, ci: nat, coefi: int)
    requires ci <= |s.comps|
    reads last
  {
    && last.Length0 == ncomps && last.Length1 == DCTSIZE2
    && forall c, k :: 0 <= c < ncomps && 0 <= k < DCTSIZE2 ==>
         last[c, k] == if Visited(s, ci, coefi, c, k) then s.al else LastAl(Chain(prev, c, k))
  }

  predicate Visited(s: ScanInfo, ci: nat, coefi: int, c: int, k: int)
    requires ci <= |s.comps|
  {
    (c in s.comps[..ci] && s.ss <= k <= s.se) || (ci < |s.comps| && c == s.comps[ci] && s.ss <= k < coefi)
  }

  /** One component of a scan of a progressive script. */
  method CheckBand(last: array2<int>, s: ScanInfo, ncomps: nat, ci: nat, ghost prev: seq<ScanInfo>) returns (ok: bool)
    requires Checked(prev, ncomps) && CompsOk(s, ncomps) && BandOk(s) && ci < |s.comps|
    requires TableAt(last, prev, s, ncomps, ci, s.ss)
    modifies last
    ensures var c := s.comps[ci];
      ok <==> (s.ss != 0 ==> Chain(prev, c, 0) != []) && forall k :: s.ss <= k <= s.se ==> CoefOk(Chain(prev, c, k), s)
    ensures ok ==> TableAt(last, prev, s, ncomps, ci + 1, s.ss)
  {
    hide Chain, Checked, CoefOk, LastAl;
    var c := s.comps[ci];
    NotSentYet(prev, ncomps, c, 0);
    if s.ss != 0 && last[c, 0] < 0 {
      return false;
    }
    var coefi := s.ss;
    while coefi <= s.se
      invariant s.ss <= coefi <= s.se + 1
      invariant TableAt(last, prev, s, ncomps, ci, coefi)
      invariant forall k :: s.ss <= k < coefi ==> CoefOk(Chain(prev, c, k), s)
    {
      CoefTest(prev, ncomps, s, c, coefi);
      if last[c, coefi] < 0 {
        if s.ah != 0 {
          return false;
        }
      } else {
        if s.ah != last[c, coefi] || s.al != s.ah - 1 {
          return false;
        }
      }
      last[c, coefi] := s.al;
      coefi := coefi + 1;
    }
    assert s.comps[..ci + 1] == s.comps[..ci] + [c];
    return true;
  }

  lemma CoefTest(prev: seq<ScanInfo>, ncomps: nat, s: ScanInfo, c: int, k: int)
    requires Checked(prev, ncomps)
    ensures var l := LastAl(Chain(prev, c, k));
      CoefOk(Chain(prev, c, k), s) <==> if l < 0 then s.ah == 0 else s.ah == l && s.al == s.ah - 1
  {
    NotSentYet(prev, ncomps, c, k);
  }

  /** A scan of a progressive script, its component numbers already checked. */
  method CheckProgressive(last: array2<int>, s: ScanInfo, ncomps: nat, ghost prev: seq<ScanInfo>) returns (ok: bool)
    requires Checked(prev, ncomps) && CompsOk(s, ncomps) && TableIs(last, prev, ncomps)
    modifies last
    ensures ok <==> Checked(prev + [s], ncomps)
    ensures ok ==> TableIs(last, prev + [s], ncomps)
  {
    hide Chain, CoefOk, LastAl, CompsOk;
    CheckedSnoc(prev, s, ncomps);
    var ncompsInScan := |s.comps|;
    if s.ss < 0 || s.ss >= DCTSIZE2 || s.se < s.ss || s.se >= DCTSIZE2 ||
       s.ah < 0 || s.ah > MAX_AH_AL || s.al < 0 || s.al > MAX_AH_AL {
      return false;
    }
    if s.ss == 0 {
      if s.se != 0 {
        return false;
      }
    } else {
      if ncompsInScan != 1 {
        return false;
      }
    }
    hide Checked;
    for ci := 0 to ncompsInScan
      invariant TableAt(last, prev, s, ncomps, ci, s.ss)
      invariant forall c :: c in s.comps[..ci] && s.ss != 0 ==> Chain(prev, c, 0) != []
      invariant forall c, k :: c in s.comps[..ci] && s.ss <= k <= s.se ==> CoefOk(Chain(prev, c, k), s)
    {
      ok := CheckBand(last, s, ncomps, ci, prev);
      if !ok {
        BandRefused(prev, s, ci);
        return;
      }
      assert s.comps[..ci + 1] == s.comps[..ci] + [s.comps[ci]];
    }
    assert s.comps[..ncompsInScan] == s.comps;
    TableDone(last, prev, s, ncomps);
    return true;
  }

  lemma CheckedSnoc(prev: seq<ScanInfo>, s: ScanInfo, ncomps: nat)
    ensures Checked(prev + [s], ncomps) <==>
      Checked(prev, ncomps) && CompsOk(s, ncomps) && BandOk(s) && AfterDC(prev, s) && Continues(prev, s)
  {
    hide CompsOk, BandOk, AfterDC, Continues;
    assert (prev + [s])[..|prev|] == prev;
  }

  lemma BandRefused(prev: seq<ScanInfo>, s: ScanInfo, ci: nat)
    requires ci < |s.comps|
    requires !((s.ss != 0 ==> Chain(prev, s.comps[ci], 0) != [])
               && forall k :: s.ss <= k <= s.se ==> CoefOk(Chain(prev, s.comps[ci], k), s))
    ensures !(AfterDC(prev, s) && Continues(prev, s))
  {
    hide Chain, CoefOk;
    var c := s.comps[ci];
    if s.ss != 0 ==> Chain(prev, c, 0) != [] {
      var k :| s.ss <= k <= s.se && !CoefOk(Chain(prev, c, k), s);
      assert Covers(s, c, k);
    }
  }

  lemma TableDone(last: array2<int>, prev: seq<ScanInfo>, s: ScanInfo, ncomps: nat)
    requires TableAt(last, prev, s, ncomps, |s.comps|, s.ss)
    ensures TableIs(last, prev + [s], ncomps)
  {
    assert s.comps[..|s.comps|] == s.comps;
    forall c, k | 0 <= c < ncomps && 0 <= k < DCTSIZE2
      ensures last[c, k] == LastAl(Chain(prev + [s], c, k))
    {
      ChainSnoc(prev, s, c, k);
    }
  }

  // ----- Sequential scripts -----

  /** The only parameters a scan of a sequential script may have. */
  predicate SequentialScan(s: ScanInfo)
  {
    s.ss == 0 && s.se == DCTSIZE2 - 1 && s.ah == 0 && s.al == 0
  }

  /** Every scan is sequential, and no component is sent twice. */
  ghost predicate SentOnce(script: seq<ScanInfo>, ncomps: nat)
  {
    && (forall i :: 0 <= i < |script| ==> CompsOk(script[i], ncomps) && SequentialScan(script[i]))
    && forall i, j, c :: 0 <= i < j < |script| && c in script[i].comps ==> c !in script[j].comps
  }

  ghost predicate IsSent(script: seq<ScanInfo>, c: int)
  {
    exists i :: 0 <= i < |script| && c in script[i].comps
  }

  ghost predicate SentIs(sent: array<bool>, script: seq<ScanInfo>, ncomps: nat)
    reads sent
  {
    sent.Length == ncomps && forall c :: 0 <= c < ncomps ==> (sent[c] <==> IsSent(script, c))
  }

  lemma SentSnoc(prev: seq<ScanInfo>, s: ScanInfo, c: int)
    ensures IsSent(prev + [s], c) <==> IsSent(prev, c) || c in s.comps
  {
    var d := prev + [s];
    if IsSent(prev, c) {
      var i :| 0 <= i < |prev| && c in prev[i].comps;
      assert d[i] == prev[i];
    }
    if c in s.comps {
      assert d[|prev|] == s;
    }
  }

  lemma SentOnceSnoc(prev: seq<ScanInfo>, s: ScanInfo, ncomps: nat)
    ensures SentOnce(prev + [s], ncomps) <==>
      SentOnce(prev, ncomps) && CompsOk(s, ncomps) && SequentialScan(s) && forall c :: c in s.comps ==> !IsSent(prev, c)
  {
    hide CompsOk;
    var d := prev + [s];
    if SentOnce(d, ncomps) {
      forall i | 0 <= i < |prev|
        ensures CompsOk(prev[i], ncomps) && SequentialScan(prev[i])
        ensures forall c :: c in prev[i].comps ==> c !in s.comps
      {
        assert d[i] == prev[i] && d[|prev|] == s;
      }
      assert d[|prev|] == s;
      forall i, j, c | 0 <= i < j < |prev| && c in prev[i].comps
        ensures c !in prev[j].comps
      {
        assert d[i] == prev[i] && d[j] == prev[j];
      }
    }
    if && SentOnce(prev, ncomps) && CompsOk(s, ncomps) && SequentialScan(s)
       && forall c :: c in s.comps ==> !IsSent(prev, c) {
      forall i, j, c | 0 <= i < j < |d| && c in d[i].comps
        ensures c !in d[j].comps
      {
        assert d[i] == prev[i];
        assert IsSent(prev, c);
      }
    }
  }

  /** A scan of a sequential script, its component numbers already checked. */
  method CheckSequential(sent: array<bool>, s: ScanInfo, ncomps: nat, ghost prev: seq<ScanInfo>) returns (ok: bool)
    requires SentOnce(prev, ncomps) && CompsOk(s, ncomps) && SentIs(sent, prev, ncomps)
    modifies sent
    ensures ok <==> SentOnce(prev + [s], ncomps)
    ensures ok ==> SentIs(sent, prev + [s], ncomps)
  {
    hide IsSent, SentOnce;
    SentOnceSnoc(prev, s, ncomps);
    if s.ss != 0 || s.se != DCTSIZE2 - 1 || s.ah != 0 || s.al != 0 {
      return false;
    }
    for ci := 0 to |s.comps|
      invariant forall c :: 0 <= c < ncomps ==> (sent[c] <==> IsSent(prev, c) || c in s.comps[..ci])
      invariant forall c :: c in s.comps[..ci] ==> !IsSent(prev, c)
    {
      var thisi := s.comps[ci];
      if sent[thisi] {
        return false;
      }
      sent[thisi] := true;
      assert s.comps[..ci + 1] == s.comps[..ci] + [thisi];
    }
    assert s.comps[..|s.comps|] == s.comps;
    forall c | 0 <= c < ncomps
      ensures sent[c] <==> IsSent(prev + [s], c)
    {
      SentSnoc(prev, s, c);
    }
    return true;
  }

  // ----- The whole check -----

  predicate ProgressiveScript(script: seq<ScanInfo>)
    requires script != []
  {
    script[0].ss != 0 || script[0].se != DCTSIZE2 - 1
  }

  /** In numbers: a first scan of all 64 coefficients makes a script sequential. */
  lemma SequentialInNumbers(script: seq<ScanInfo>)
    requires script != []
    ensures ProgressiveScript(script) <==> !(script[0].ss == 0 && script[0].se == 63)
  {
  }

  ghost predicate AllStarted(script: seq<ScanInfo>, ncomps: nat)
  {
    forall c :: 0 <= c < ncomps ==> Chain(script, c, 0) != []
  }

  ghost predicate AllSent(script: seq<ScanInfo>, ncomps: nat)
  {
    forall c :: 0 <= c < ncomps ==> IsSent(script, c)
  }

  /** What a script must be, by mode: every component at least started. */
  ghost predicate Acceptable(script: seq<ScanInfo>, ncomps: nat)
  {
    && script != []
    && if ProgressiveScript(script) then
         ScriptOk(script, ncomps) && AllStarted(script, ncomps)
       else SentOnce(script, ncomps) && AllSent(script, ncomps)
  }

  /** validate_script accepts exactly the scripts that send every coefficient
      once, and then one bit more each time. */
  method ValidateScript(script: seq<ScanInfo>, ncomps: nat) returns (v: Verdict)
    ensures v.Accepted? <==> Acceptable(script, ncomps)
    ensures v.Accepted? ==> v.progressive == ProgressiveScript(script)
  {
    hide ScriptOk, SentOnce, AllStarted, AllSent;
    if |script| <= 0 {
      return Rejected;
    }
    if script[0].ss != 0 || script[0].se != DCTSIZE2 - 1 {
      v := ValidateProgressive(script, ncomps);
    } else {
      v := ValidateSequential(script, ncomps);
    }
  }

  method ValidateProgressive(script: seq<ScanInfo>, ncomps: nat) returns (v: Verdict)
    ensures v == Accepted(true) || v == Rejected
    ensures v.Accepted? <==> ScriptOk(script, ncomps) && AllStarted(script, ncomps)
  {
    hide CompsOk, Checked, ScriptOk, Chain;
    var last := new int[ncomps, DCTSIZE2]((_, _) => -1);
    NothingChecked(ncomps);
    NoChains();
    CheckedMeaning(script, ncomps);
    for scanno := 0 to |script|
      invariant Checked(script[..scanno], ncomps) && TableIs(last, script[..scanno], ncomps)
    {
      assert script[..scanno + 1] == script[..scanno] + [script[scanno]];
      CheckedSnoc(script[..scanno], script[scanno], ncomps);
      var ok := CheckComponents(script[scanno], ncomps);
      if ok {
        ok := CheckProgressive(last, script[scanno], ncomps, script[..scanno]);
      }
      if !ok {
        CheckedPrefix(script, ncomps, scanno + 1);
        return Rejected;
      }
    }
    assert script[..|script|] == script;
    for ci := 0 to ncomps
      invariant TableIs(last, script, ncomps)
      invariant forall c :: 0 <= c < ci ==> Chain(script, c, 0) != []
    {
      NotSentYet(script, ncomps, ci, 0);
      if last[ci, 0] < 0 {
        return Rejected;
      }
    }
    return Accepted(true);
  }

  lemma NoChains()
    ensures forall c, k :: Chain([], c, k) == []
  {
  }

  lemma NothingChecked(ncomps: nat)
    ensures Checked([], ncomps)
  {
  }

  lemma {:induction false} CheckedPrefix(script: seq<ScanInfo>, ncomps: nat, n: nat)
    requires n <= |script|
    ensures Checked(script, ncomps) ==> Checked(script[..n], ncomps)
    decreases |script|
  {
    if n == |script| {
      assert script[..n] == script;
    } else {
      var m := |script| - 1;
      assert script[..m][..n] == script[..n];
      CheckedPrefix(script[..m], ncomps, n);
    }
  }

  method ValidateSequential(script: seq<ScanInfo>, ncomps: nat) returns (v: Verdict)
    ensures v == Accepted(false) || v == Rejected
    ensures v.Accepted? <==> SentOnce(script, ncomps) && AllSent(script, ncomps)
  {
    hide CompsOk, SentOnce, IsSent;
    var sent := new bool[ncomps](_ => false);
    NothingSent(ncomps);
    for scanno := 0 to |script|
      invariant SentOnce(script[..scanno], ncomps) && SentIs(sent, script[..scanno], ncomps)
    {
      assert script[..scanno + 1] == script[..scanno] + [script[scanno]];
      SentOnceSnoc(script[..scanno], script[scanno], ncomps);
      var ok := CheckComponents(script[scanno], ncomps);
      if ok {
        ok := CheckSequential(sent, script[scanno], ncomps, script[..scanno]);
      }
      if !ok {
        SentPrefix(script, ncomps, scanno + 1);
        return Rejected;
      }
    }
    assert script[..|script|] == script;
    for ci := 0 to ncomps
      invariant forall c :: 0 <= c < ci ==> IsSent(script, c)
    {
      assert SentIs(sent, script, ncomps);
      if !sent[ci] {
        return Rejected;
      }
    }
    return Accepted(false);
  }

  lemma NothingSent(ncomps: nat)
    ensures SentOnce([], ncomps) && forall c :: !IsSent([], c)
  {
  }

  lemma SentPrefix(script: seq<ScanInfo>, ncomps: nat, n: nat)
    requires n <= |script|
    ensures SentOnce(script, ncomps) ==> SentOnce(script[..n], ncomps)
  {
  }
}
