/** The servo pulse scheduler of servo.c: an interrupt handler that programs its own
    next wake-up. */
module ServoTimer {

  const SERVO_RESOLUTION := 255
  const SERVO_PERIOD := 18
  const MAX_SERVOS := 4
  const PERIOD := SERVO_RESOLUTION * SERVO_PERIOD

  type Position = p: nat | p < 256

  /** How many working positions lie below m. */
  function Below(tmp: seq<Position>, m: nat): (n: nat)
    ensures n <= |tmp|
  {
    if tmp == [] then 0
    else Below(tmp[..|tmp| - 1], m) + if tmp[|tmp| - 1] < m then 1 else 0
  }

  lemma {:induction false} BelowMono(tmp: seq<Position>, m: nat, k: nat)
    requires m <= k
    ensures Below(tmp, m) <= Below(tmp, k)
    ensures m < k && m in tmp ==> Below(tmp, m) < Below(tmp, k)
    decreases |tmp|
  {
    if tmp != [] {
      BelowMono(tmp[..|tmp| - 1], m, k);
      assert tmp == tmp[..|tmp| - 1] + [tmp[|tmp| - 1]];
    }
  }

  /** The pulse of position p may end at this tick, with so many ticks of delay in
      serving interrupts. */
  predicate EndsWell(p: Position, tick: nat, delay: nat)
  {
    SERVO_RESOLUTION <= tick && SERVO_RESOLUTION + p - 1 <= tick <= SERVO_RESOLUTION + p + delay
  }

  /** servo_mask != 0. */
  predicate Any(mask: seq<bool>)
  {
    exists i :: 0 <= i < |mask| && mask[i]
  }

  /** An enabled line is still high just if its pulse is not shorter than m, and what
      was lowered was lowered in time. */
  predicate PulseOk(high: bool, p: Position, lowAt: nat, m: nat, delay: nat)
  {
    (high <==> p >= m) && (!high ==> EndsWell(p, lowAt, delay))
  }

  /** The pulses from m up to `now` end at this tick. */
  lemma PulseServed(high: bool, p: Position, lowAt: nat, m: nat, before: nat, delay: nat, tick: nat, now: nat)
    requires PulseOk(high, p, lowAt, m, before) && before <= delay
    requires tick == SERVO_RESOLUTION + now - 1 && m <= now && SERVO_RESOLUTION <= tick <= SERVO_RESOLUTION + m + delay
    ensures p <= now ==> PulseOk(false, p, if high then tick else lowAt, now + 1, delay)
    ensures p > now ==> PulseOk(high, p, lowAt, now + 1, delay)
  {
  }

  class Servos {
    const val: array<Position>      // positions as set
    const tmp: array<Position>      // positions of the period under way
    var mask: seq<bool>             // which servos are enabled
    var high: seq<bool>             // the levels of their lines
    var tc: nat                     // TIMER1_TC
    var mr0: nat                    // TIMER1_MR0
    var irq: bool                   // interrupt enabled
    ghost var steady: bool          // a period began, and the mask has not changed since
    ghost var delay: nat            // greatest delay of an interrupt in this period
    ghost var lowAt: seq<nat>       // when each line was first lowered in this period
    ghost var wakeups: nat          // wake-ups in this period, after its start

    ghost predicate Sized()
      reads `mask, `high, `lowAt
    {
      val != tmp && val.Length == MAX_SERVOS && tmp.Length == MAX_SERVOS && |mask| == |high| == |lowAt| == MAX_SERVOS
    }

    ghost predicate Pulse(i: nat, m: nat)
      reads `mask, `high, `lowAt, `delay, tmp
      requires Sized() && i < MAX_SERVOS
    {
      mask[i] ==> PulseOk(high[i], tmp[i], lowAt[i], m, delay)
    }

    /** All pulses, the next wake-up being for position m; 256 means that there is
        none left. */
    ghost predicate Pulses(m: nat)
      reads `mask, `high, `lowAt, `delay, tmp
      requires Sized()
    {
      forall i :: 0 <= i < MAX_SERVOS ==> Pulse(i, m)
    }

    /** The position that the next wake-up is for. */
    function Next(): nat
      reads `mr0
      requires mr0 >= SERVO_RESOLUTION
    {
      if mr0 == PERIOD then SERVO_RESOLUTION + 1 else mr0 - SERVO_RESOLUTION
    }

    /** The wake-up to come is the start of a period, or the end of the first
        millisecond of one, or an end of a pulse. */
    ghost predicate Scheduled()
      reads `mask, `high, `lowAt, `mr0, tmp
      requires Sized()
    {
      && (mr0 == PERIOD || SERVO_RESOLUTION <= mr0 <= 2 * SERVO_RESOLUTION)
      && (SERVO_RESOLUTION < mr0 < PERIOD ==> mr0 - SERVO_RESOLUTION in tmp[..])
    }

    /** Since a period began with these servos enabled, everything is in time and
        there were few wake-ups. */
    ghost predicate InTime()
      reads `mask, `high, `lowAt, `mr0, `delay, `wakeups, tmp
      requires Sized() && Scheduled()
    {
      && Pulses(Next())
      && (mr0 < PERIOD ==> wakeups <= Below(tmp[..], Next()) + if Next() > 0 then 1 else 0)
      && (mr0 == PERIOD ==> wakeups <= MAX_SERVOS + 1)
    }

    ghost predicate Valid()
      reads `mask, `high, `lowAt, `mr0, `delay, `wakeups, `irq, `steady, tmp
    {
      && Sized() && (irq ==> Scheduled() && (steady ==> InTime()))
      && (irq <==> Any(mask))
    }

    constructor ()
      ensures Valid() && !irq && fresh(val) && fresh(tmp)
      ensures mask == seq(MAX_SERVOS, _ => false) && lowAt == seq(MAX_SERVOS, _ => 0)
      ensures forall i :: 0 <= i < 4 ==> val[i] == 127
    {
      val := new Position[MAX_SERVOS](_ => SERVO_RESOLUTION / 2);
      tmp := new Position[MAX_SERVOS](_ => 0);
      mask, high := seq(MAX_SERVOS, _ => false), seq(MAX_SERVOS, _ => false);
      tc, mr0, irq := 0, 0, false;
      steady, delay, lowAt, wakeups := false, 0, seq(MAX_SERVOS, _ => 0), 0;
    }

    /** cc3_gpio_set_servo_position: at any time; a period under way keeps to its own
        copy of the positions. */
    method SetPosition(servo: nat, pos: Position) returns (ok: bool)
      requires Valid()
      modifies val
      ensures Valid() && ok == (servo < 4)
      ensures val[..] == if ok then old(val[..])[servo := pos] else old(val[..])
    {
      if servo >= MAX_SERVOS {
        return false;
      }
      val[servo] := pos;
      return true;
    }

    /** servo_init. */
    method Init()
      modifies this`tc, this`mr0, this`irq, this`steady
      ensures tc == 0 && mr0 == PERIOD && irq && !steady
    {
      tc := 0;
      mr0 := PERIOD;
      irq := true;
      steady := false;
    }

    /** servo_lo. */
    method Lower(n: nat)
      requires Sized() && n < MAX_SERVOS
      modifies this`high, this`lowAt
      ensures Sized() && high == old(high)[n := false]
      ensures lowAt == if old(high[n]) then old(lowAt)[n := tc] else old(lowAt)
    {
      if high[n] {
        lowAt := lowAt[n := tc];
      }
      high := high[n := false];
    }

    /** _cc3_servo_enable: the first servo starts the timer, the end of a period being
        next; a disabled one's line goes down, and the last one stops the interrupts. */
    method Enable(servo: nat, enable: bool)
      requires Valid() && servo < MAX_SERVOS
      modifies this
      ensures Valid() && mask == old(mask)[servo := enable] && !steady
      ensures if enable && !Any(old(mask)) then tc == 0 && mr0 == PERIOD else tc == old(tc) && mr0 == old(mr0)
      ensures high == if enable then old(high) else old(high)[servo := false]
      ensures lowAt == if !enable && old(high[servo]) then old(lowAt)[servo := old(tc)] else old(lowAt)
    {
      var some := Any(mask);
      steady := false;
      mask := mask[servo := enable];
      if enable {
        assert Any(mask) by { assert mask[servo]; }
        if !some {
          Init();
        }
      } else {
        if !Any(mask) {
          irq := false;
        }
        Lower(servo);
      }
    }

    /** servo_hi_all. */
    method RaiseAll()
      requires Sized()
      modifies this`high
      ensures Sized() && forall i :: 0 <= i < MAX_SERVOS ==> high[i] == (mask[i] || old(high[i]))
    {
      high := seq(MAX_SERVOS,
                  i requires 0 <= i < MAX_SERVOS && |mask| == |high| == MAX_SERVOS reads this => mask[i] || high[i]);
    }

    /** The start of a period: all enabled lines go up, and the positions are fixed. */
    method StartPeriod()
      requires Valid() && irq && tc >= PERIOD
      modifies this`tc, this`mr0, this`high, this`steady, this`delay, this`wakeups, tmp
      ensures Valid() && tc == 0 && mr0 == SERVO_RESOLUTION && steady && tmp[..] == val[..] && delay == 0
      ensures wakeups == 0
      ensures forall i :: 0 <= i < MAX_SERVOS && mask[i] ==> high[i]
    {
      tc := 0;
      mr0 := SERVO_RESOLUTION;
      RaiseAll();
      for i := 0 to MAX_SERVOS
        invariant forall k :: 0 <= k < i ==> tmp[k] == val[k]
        modifies tmp
      {
        tmp[i] := val[i];
      }
      steady, delay, wakeups := true, 0, 0;
    }

    /** The loop over the lines: the pulses up to `now` end, and the least position
        beyond is found. */
    method ServeLines(ghost m: nat, ghost before: nat, now: nat) returns (min: nat)
      requires Sized() && irq && m <= now && before <= delay && tc == SERVO_RESOLUTION + now - 1
      requires SERVO_RESOLUTION <= tc <= SERVO_RESOLUTION + m + delay
      requires steady ==> forall k :: 0 <= k < MAX_SERVOS && mask[k] ==> PulseOk(high[k], tmp[k], lowAt[k], m, before)
      modifies this`high, this`lowAt
      ensures Sized() && min <= SERVO_RESOLUTION + 1
      ensures min <= SERVO_RESOLUTION ==> min > now && min in tmp[..]
      ensures forall k :: 0 <= k < MAX_SERVOS && tmp[k] > now ==> min <= tmp[k]
      ensures steady ==> Pulses(now + 1)
    {
      min := SERVO_RESOLUTION + 1;
      var i := 0;
      while i < MAX_SERVOS
        invariant Sized() && min <= SERVO_RESOLUTION + 1 && i <= MAX_SERVOS
        invariant min <= SERVO_RESOLUTION ==> min > now && min in tmp[..]
        invariant forall k :: 0 <= k < i && tmp[k] > now ==> min <= tmp[k]
        invariant steady ==> forall k :: 0 <= k < i && mask[k] ==> PulseOk(high[k], tmp[k], lowAt[k], now + 1, delay)
        invariant forall k :: i <= k < MAX_SERVOS ==> high[k] == old(high[k]) && lowAt[k] == old(lowAt[k])
        modifies this`high, this`lowAt
      {
        if steady && mask[i] {
          PulseServed(high[i], tmp[i], lowAt[i], m, before, delay, tc, now);
        }
        if tmp[i] < min && tmp[i] > now {
          min := tmp[i];
        }
        if tmp[i] <= now && mask[i] {
          Lower(i);
        }
        i := i + 1;
      }
    }

    /** A wake-up within a period: the pulses that are over, or over with the next
        tick, end, and the least of the positions beyond is scheduled. */
    method EndPulses()
      requires Valid() && irq && mr0 <= tc < PERIOD
      modifies this`mr0, this`high, this`lowAt, this`delay, this`wakeups
      ensures Valid() && tc < mr0 <= PERIOD
      ensures delay == if tc - old(mr0) > old(delay) then tc - old(mr0) else old(delay)
      ensures wakeups == old(wakeups) + 1
    {
      hide EndsWell, Any, Below;
      ghost var m := mr0 - SERVO_RESOLUTION;
      ghost var before := delay;
      forall k | steady && 0 <= k < MAX_SERVOS && mask[k]
        ensures PulseOk(high[k], tmp[k], lowAt[k], m, before)
      {
        assert Pulse(k, m);
      }
      delay := if tc - mr0 > delay then tc - mr0 else delay;
      var safety := 1;
      var ct: nat := tc - SERVO_RESOLUTION;
      var min := ServeLines(m, before, ct + safety);
      SetMatch(m, ct + safety, min);
    }

    /** The next match, and one wake-up more. */
    method SetMatch(ghost m: nat, ghost now: nat, min: nat)
      requires Sized() && irq && Any(mask) && m <= now && min <= SERVO_RESOLUTION + 1 && m <= SERVO_RESOLUTION
      requires min <= SERVO_RESOLUTION ==> min > now && min in tmp[..]
      requires forall k :: 0 <= k < MAX_SERVOS && tmp[k] > now ==> min <= tmp[k]
      requires steady ==> Pulses(now + 1) && wakeups <= Below(tmp[..], m) + if m > 0 then 1 else 0
      requires m > 0 ==> m in tmp[..]
      modifies this`mr0, this`wakeups
      ensures Valid() && mr0 == if min > SERVO_RESOLUTION then PERIOD else SERVO_RESOLUTION + min
      ensures wakeups == old(wakeups) + 1
    {
      hide EndsWell, PulseOk, Below, Pulse, Any, Pulses;
      Reschedule(m, now, min);
      wakeups := wakeups + 1;
      if min == SERVO_RESOLUTION + 1 {
        mr0 := PERIOD;
        assert Next() == SERVO_RESOLUTION + 1;
      } else {
        mr0 := SERVO_RESOLUTION + min;
        assert Next() == mr0 - SERVO_RESOLUTION == min;
      }
    }

    /** Nothing lies between the pulses that are over and the least one beyond. */
    lemma Reschedule(m: nat, now: nat, min: nat)
      requires Sized() && m <= now && min <= SERVO_RESOLUTION + 1
      requires min <= SERVO_RESOLUTION ==> min > now
      requires forall k :: 0 <= k < MAX_SERVOS && tmp[k] > now ==> min <= tmp[k]
      ensures Pulses(now + 1) && min <= SERVO_RESOLUTION ==> Pulses(min)
      ensures Pulses(now + 1) && min > SERVO_RESOLUTION ==> Pulses(SERVO_RESOLUTION + 1)
      ensures m < min ==>
        Below(tmp[..], m) <= Below(tmp[..], min) && (m in tmp[..] ==> Below(tmp[..], m) < Below(tmp[..], min))
    {
      if m < min {
        BelowMono(tmp[..], m, min);
      }
      if Pulses(now + 1) {
        forall i | 0 <= i < MAX_SERVOS
          ensures Pulse(i, min)
        {
          assert Pulse(i, now + 1);
        }
      }
    }

    /** _cc3_servo_int, `late` ticks after the match. The match that is set lies ahead
        of the counter, so none is ever waited for in vain. A wake-up within a period
        ends pulses just if it is served before the period is over; otherwise the next
        period begins without any line having been lowered. */
    method Interrupt(late: nat)
      requires Valid() && irq
      modifies this`tc, this`mr0, this`high, this`lowAt, this`steady, this`delay, this`wakeups, tmp
      ensures Valid() && mr0 > tc && irq && (tc == 0 <==> old(mr0) + late >= 4590)
      ensures tc == 0 ==>
        && mr0 == 255 && steady && tmp[..] == val[..] && delay == 0 && wakeups == 0 && lowAt == old(lowAt)
        && forall i :: 0 <= i < 4 && mask[i] ==> high[i]
      ensures tc > 0 ==>
        && tc == old(mr0) + late && steady == old(steady) && tmp[..] == old(tmp[..])
        && delay == (if late > old(delay) then late else old(delay)) && wakeups == old(wakeups) + 1
    {
      tc := mr0 + late;
      if tc >= PERIOD {
        StartPeriod();
      } else {
        EndPulses();
      }
    }

    /** At the end of a period that began with these servos enabled, the line of each
        has gone low, and first did so when its pulse was over or a tick earlier, give
        or take the delay of the interrupts; at most one wake-up more than servos. */
    lemma PeriodOver()
      requires Valid() && irq && steady && mr0 == PERIOD
      ensures forall i :: 0 <= i < MAX_SERVOS && mask[i] ==> !high[i] && EndsWell(tmp[i], lowAt[i], delay)
      ensures wakeups <= MAX_SERVOS + 1
    {
      forall i | 0 <= i < MAX_SERVOS && mask[i]
        ensures !high[i] && EndsWell(tmp[i], lowAt[i], delay)
      {
        assert Pulse(i, SERVO_RESOLUTION + 1);
      }
    }
  }

  /** In numbers: 18 slots of 255 ticks make a period, and there are four servos. */
  lemma Ticks(p: Position, tick: nat, delay: nat)
    ensures PERIOD == 4590 && SERVO_RESOLUTION == 255 && MAX_SERVOS == 4
    ensures EndsWell(p, tick, delay) <==> 255 <= tick && 255 + p - 1 <= tick <= 255 + p + delay
  {
  }

  /** With every match served in its own tick, a pulse of position p is 255 + p ticks
      long, or one less if there is a wake-up then; it is never less than 255. */
  lemma EndsOnTime(p: Position, tick: nat)
    ensures EndsWell(p, tick, 0) <==>
            tick == SERVO_RESOLUTION + p || (p > 0 && tick == SERVO_RESOLUTION + p - 1)
  {
  }

  /** Positions after a list of settings; a servo that does not exist is ignored. */
  function AllSet(val: seq<Position>, sets: seq<(nat, Position)>): (r: seq<Position>)
    requires |val| == MAX_SERVOS
    ensures |r| == MAX_SERVOS
    decreases |sets|
  {
    if sets == [] then val
    else
      var k := |sets| - 1;
      var before := AllSet(val, sets[..k]);
      if sets[k].0 < |before| then before[sets[k].0 := sets[k].1] else before
  }

  /** The application sets positions, any number of times. */
  method SetPositions(s: Servos, sets: seq<(nat, Position)>)
    requires s.Valid()
    modifies s.val
    ensures s.Valid() && s.val[..] == AllSet(old(s.val[..]), sets)
  {
    assert sets[..0] == [];
    for k := 0 to |sets|
      invariant s.Valid() && s.val[..] == AllSet(old(s.val[..]), sets[..k])
    {
      assert sets[..k + 1][..k] == sets[..k];
      var ok := s.SetPosition(sets[k].0, sets[k].1);
    }
    assert sets[..|sets|] == sets;
  }

  /** Positions after a list of such lists. */
  function AllSets(val: seq<Position>, sets: seq<seq<(nat, Position)>>): (r: seq<Position>)
    requires |val| == MAX_SERVOS
    ensures |r| == MAX_SERVOS
    decreases |sets|
  {
    if sets == [] then val else AllSet(AllSets(val, sets[..|sets| - 1]), sets[|sets| - 1])
  }

  lemma OneMoreList(val: seq<Position>, sets: seq<seq<(nat, Position)>>, k: nat)
    requires |val| == MAX_SERVOS && k < |sets|
    ensures AllSets(val, sets[..k + 1]) == AllSet(AllSets(val, sets[..k]), sets[k])
  {
    assert sets[..k + 1][..k] == sets[..k];
  }

  /** The application's view: before each interrupt any number of positions set, and
      matches served with any delays. However that goes, the schedule goes on, and a
      period whose pulses are over has given every enabled line its pulse. */
  method Run(s: Servos, events: seq<(seq<(nat, Position)>, nat)>)
    requires s.Valid() && s.irq
    modifies s, s.val, s.tmp
    ensures s.Valid() && s.irq && s.mask == old(s.mask)
    ensures s.val[..] == AllSets(old(s.val[..]), seq(|events|, i requires 0 <= i < |events| => events[i].0))
    ensures |events| > 0 ==> s.mr0 > s.tc
    ensures s.steady && s.mr0 == PERIOD ==>
      s.wakeups <= MAX_SERVOS + 1 &&
      forall i :: 0 <= i < MAX_SERVOS && s.mask[i] ==> !s.high[i] && EndsWell(s.tmp[i], s.lowAt[i], s.delay)
  {
    ghost var sets := seq(|events|, i requires 0 <= i < |events| => events[i].0);
    assert sets[..0] == [];
    for k := 0 to |events|
      invariant s.Valid() && s.irq && s.mask == old(s.mask) && (k > 0 ==> s.mr0 > s.tc)
      invariant s.val[..] == AllSets(old(s.val[..]), sets[..k])
    {
      OneMoreList(old(s.val[..]), sets, k);
      SetPositions(s, events[k].0);
      s.Interrupt(events[k].1);
    }
    assert sets[..|events|] == sets;
    if s.mr0 == PERIOD {
      PeriodOverIfSteady(s);
    }
  }

  /** With every match served in its own tick, from the start of a period on, whatever
      positions are set between the interrupts: each period that is over has lowered
      every enabled line after 255 + p ticks, or one tick earlier if another pulse ended
      then, p being what was set for it before the interrupt that began the period. */
  method RunOnTime(s: Servos, sets: seq<seq<(nat, Position)>>) returns (ghost start: nat)
    requires s.Valid() && s.irq && s.mr0 == PERIOD
    modifies s, s.val, s.tmp
    ensures s.Valid() && s.irq && s.mask == old(s.mask)
    ensures s.val[..] == AllSets(old(s.val[..]), sets)
    ensures sets != [] ==> start < |sets| && s.tmp[..] == AllSets(old(s.val[..]), sets[..start + 1])
    ensures s.mr0 == 4590 && sets != [] ==> forall i :: 0 <= i < 4 && s.mask[i] ==>
      var p: nat := s.tmp[i];
      !s.high[i] && (s.lowAt[i] == 255 + p || (p > 0 && s.lowAt[i] == 254 + p))
  {
    start := 0;
    assert sets[..0] == [];
    for k := 0 to |sets|
      invariant s.Valid() && s.irq && s.mask == old(s.mask)
      invariant if k == 0 then s.mr0 == PERIOD else s.steady && s.delay == 0
      invariant s.val[..] == AllSets(old(s.val[..]), sets[..k])
      invariant k > 0 ==> start < k && s.tmp[..] == AllSets(old(s.val[..]), sets[..start + 1])
    {
      OneMoreList(old(s.val[..]), sets, k);
      SetPositions(s, sets[k]);
      s.Interrupt(0);
      if s.tc == 0 {
        start := k;
      }
    }
    assert sets[..|sets|] == sets;
    if s.mr0 == PERIOD && sets != [] {
      s.PeriodOver();
      forall i | 0 <= i < MAX_SERVOS && s.mask[i]
        ensures || s.lowAt[i] == SERVO_RESOLUTION + s.tmp[i]
                || (s.tmp[i] > 0 && s.lowAt[i] == SERVO_RESOLUTION + s.tmp[i] - 1)
      {
        EndsOnTime(s.tmp[i], s.lowAt[i]);
      }
    }
  }

  /** A pulse that is lost: one servo at position 127, whose first wake-up within the
      period, due at tick 255, is served a whole period late. The next period, for the
      position 200 set meanwhile, begins with the line still high: it was never lowered. */
  method LateWakeUp() returns (s: Servos, due: nat, first: Position)
    ensures s.Valid() && due == 255 && first == 127
    ensures s.tc == 0 && s.mr0 == 255 && s.tmp[0] == 200 && s.mask[0] && s.high[0] && s.lowAt[0] == 0
  {
    s := new Servos();
    s.Enable(0, true);
    assert Any(s.mask) by { assert s.mask[0]; }
    s.Interrupt(0);
    assert s.tmp[..][0] == s.val[..][0];
    due, first := s.mr0, s.tmp[0];
    var ok := s.SetPosition(0, 200);
    s.Interrupt(PERIOD);
    assert s.tmp[..][0] == s.val[..][0];
  }

  lemma PeriodOverIfSteady(s: Servos)
    requires s.Valid() && s.irq && s.mr0 == PERIOD
    ensures s.steady ==>
      s.wakeups <= MAX_SERVOS + 1 &&
      forall i :: 0 <= i < MAX_SERVOS && s.mask[i] ==> !s.high[i] && EndsWell(s.tmp[i], s.lowAt[i], s.delay)
  {
    if s.steady {
      s.PeriodOver();
    }
  }
}
