/** Bytes of an entropy-coded segment: a byte 0xFF in the data is followed by a
    stuffed zero, so that markers can be told apart (sections F.1.2.3 and
    F.2.2.5 of T.81). */
module Stuffing {
  import opened Arith
  import opened Bits

  const FF := 0xFF
  const RST0 := 0xD0

  /** The number a bit string spells. */
  function Value(b: seq<bool>): (v: nat)
    ensures v < Pow2(|b|)
  {
    if b == [] then 0 else (if b[0] then Pow2(|b| - 1) else 0) + Value(b[1..])
  }

  lemma {:induction false} ValueToBits(v: nat, n: nat)
    requires v < Pow2(n)
    ensures Value(ToBits(v, n)) == v
    decreases n
  {
    if n > 0 {
      var p := Pow2(n - 1);
      var s := ToBits(v, n);
      assert s[1..] == ToBits(v, n - 1);
      var hi := if v >= p then 1 else 0;
      UniqueQuotient(v, p, hi, v - hi * p);
      var w := v - hi * p;
      ModSelf(w, p);
      ToBitsMod(v, w, n - 1);
      ValueToBits(w, n - 1);
    }
  }

  lemma {:induction false} ToBitsValue(b: seq<bool>)
    ensures ToBits(Value(b), |b|) == b
  {
    if b != [] {
      var n := |b| - 1;
      var p := Pow2(n);
      var w := Value(b[1..]);
      var hi := if b[0] then 1 else 0;
      UniqueQuotient(Value(b), p, hi, w);
      ModSelf(w, p);
      ToBitsMod(Value(b), w, n);
      ToBitsValue(b[1..]);
    }
  }

  /** One data byte as it is sent. */
  function StuffByte(c: nat): seq<nat>
  {
    if c == FF then [FF, 0] else [c]
  }

  /** The complete bytes of a bit string, stuffed. */
  function Stuff(b: seq<bool>): (s: seq<nat>)
  {
    if |b| < 8 then [] else StuffByte(Value(b[..8])) + Stuff(b[8..])
  }

  /** The bits after the last complete byte. */
  function Rest(b: seq<bool>): (r: seq<bool>)
    ensures |r| < 8 && |r| <= |b|
  {
    if |b| < 8 then b else Rest(b[8..])
  }

  /** The bits of the complete bytes. */
  function Whole(b: seq<bool>): seq<bool>
  {
    b[..|b| - |Rest(b)|]
  }

  /** Sending b after a is sending b after what a left over. */
  lemma {:induction false} StuffAppend(a: seq<bool>, b: seq<bool>)
    ensures Stuff(a + b) == Stuff(a) + Stuff(Rest(a) + b)
    ensures Rest(a + b) == Rest(Rest(a) + b)
    decreases |a|
  {
    if |a| >= 8 {
      assert (a + b)[..8] == a[..8];
      assert (a + b)[8..] == a[8..] + b;
      StuffAppend(a[8..], b);
    }
  }

  function Ones(n: nat): seq<bool>
  {
    seq(n, _ => true)
  }

  /** Pad with ones to a whole number of bytes. */
  function Pad(b: seq<bool>): (p: seq<bool>)
  {
    if |Rest(b)| == 0 then b else b + Ones(8 - |Rest(b)|)
  }

  /** Seven ones after the data complete exactly the byte in progress. */
  lemma {:induction false} SevenOnes(b: seq<bool>)
    ensures Stuff(b + Ones(7)) == Stuff(Pad(b)) && Rest(Pad(b)) == []
    decreases |b|
  {
    var p := b + Ones(7);
    if |b| >= 8 {
      SevenOnes(b[8..]);
      assert p[..8] == b[..8] && p[8..] == b[8..] + Ones(7);
      assert Pad(b)[..8] == b[..8] && Pad(b)[8..] == Pad(b[8..]);
    } else if |b| > 0 {
      assert p[..8] == Pad(b)[..8] == Pad(b);
      assert |p[8..]| < 8 && Pad(b)[8..] == [];
    }
  }

  // ----- Reading back -----

  predicate Bytes(s: seq<nat>)
  {
    forall i :: 0 <= i < |s| ==> s[i] < 256
  }

  ghost predicate AtMarker(s: seq<nat>)
  {
    s == [] || (s[0] == FF && |s| >= 2 && s[1] != 0)
  }

  /** NEXTBIT of Figure F.18 run to the end of the data: the data bits, and
      what follows from the first marker on. */
  function Unstuff(s: seq<nat>): (r: (seq<bool>, seq<nat>))
    requires Bytes(s)
    ensures |r.1| <= |s|
  {
    if s == [] then ([], [])
    else if s[0] != FF then
      var (b, rest) := Unstuff(s[1..]);
      (ToBits(s[0], 8) + b, rest)
    else if |s| >= 2 && s[1] == 0 then
      var (b, rest) := Unstuff(s[2..]);
      (ToBits(FF, 8) + b, rest)
    else ([], s)
  }

  lemma {:induction false} StuffBytes(b: seq<bool>)
    ensures Bytes(Stuff(b))
    decreases |b|
  {
    if |b| >= 8 {
      assert Pow2(8) == 256;
      StuffBytes(b[8..]);
    }
  }

  /** Unstuffing gives back the whole bytes that were sent. */
  lemma {:induction false} UnstuffStuff(b: seq<bool>, tail: seq<nat>)
    requires AtMarker(tail) && Bytes(tail)
    ensures Bytes(Stuff(b) + tail)
    ensures Unstuff(Stuff(b) + tail) == (Whole(b), tail)
    decreases |b|
  {
    StuffBytes(b);
    if |b| < 8 {
      assert Stuff(b) + tail == tail;
    } else {
      UnstuffStuff(b[8..], tail);
      UnstuffByte(b[..8], Stuff(b[8..]) + tail);
      StuffStep(b, tail);
      WholeStep(b);
    }
  }

  lemma StuffStep(b: seq<bool>, tail: seq<nat>)
    requires |b| >= 8
    ensures Stuff(b) + tail == StuffByte(Value(b[..8])) + (Stuff(b[8..]) + tail)
  {
    hide Value, StuffByte;
    AssociateBytes(StuffByte(Value(b[..8])), Stuff(b[8..]), tail);
  }

  lemma AssociateBytes(x: seq<nat>, y: seq<nat>, z: seq<nat>)
    ensures (x + y) + z == x + (y + z)
  {
  }

  lemma WholeStep(b: seq<bool>)
    requires |b| >= 8
    ensures Whole(b) == b[..8] + Whole(b[8..])
  {
    assert Rest(b) == Rest(b[8..]);
  }

  lemma UnstuffByte(b: seq<bool>, tail: seq<nat>)
    requires |b| == 8 && Bytes(tail)
    ensures Bytes(StuffByte(Value(b)) + tail)
    ensures Unstuff(StuffByte(Value(b)) + tail) == (b + Unstuff(tail).0, Unstuff(tail).1)
  {
    var c := Value(b);
    var s := StuffByte(c) + tail;
    assert Pow2(8) == 256;
    ToBitsValue(b);
    if c == FF {
      assert s[2..] == tail;
    } else {
      assert s[1..] == tail;
    }
  }

  /** Unstuffing a padded interval gives its bits, then padding. */
  lemma PaddedInterval(b: seq<bool>, tail: seq<nat>) returns (ones: seq<bool>)
    requires AtMarker(tail) && Bytes(tail)
    ensures Bytes(Stuff(Pad(b)) + tail)
    ensures Unstuff(Stuff(Pad(b)) + tail) == (b + ones, tail)
  {
    SevenOnes(b);
    UnstuffStuff(Pad(b), tail);
    assert Whole(Pad(b)) == Pad(b);
    ones := Pad(b)[|b|..];
    assert Pad(b) == b + ones;
  }

  // ----- What a reader finds behind each 0xFF -----

  /** Bytes, of which every 0xFF is followed by a zero or by the code of a restart
      marker. */
  ghost predicate Paired(s: seq<nat>)
  {
    && (forall i :: 0 <= i < |s| ==> s[i] < 256)
    && forall i :: 0 <= i < |s| && s[i] == 0xFF ==> i + 1 < |s| && (s[i + 1] == 0 || 0xD0 <= s[i + 1] <= 0xD7)
  }

  /** The bytes other than zero that follow a byte 0xFF, in order. */
  function MarkerCodes(s: seq<nat>): seq<nat>
  {
    if |s| < 2 then []
    else (if s[0] == 0xFF && s[1] != 0 then [s[1]] else []) + MarkerCodes(s[1..])
  }

  lemma OneByteMore(c: nat, tail: seq<nat>)
    requires Paired(tail) && c < 256 && c != 0xFF
    ensures Paired([c] + tail) && MarkerCodes([c] + tail) == MarkerCodes(tail)
  {
    var s := [c] + tail;
    assert s[1..] == tail;
    forall i | 0 <= i < |s| && s[i] == 0xFF
      ensures i + 1 < |s| && (s[i + 1] == 0 || 0xD0 <= s[i + 1] <= 0xD7)
    {
      assert tail[i - 1] == 0xFF;
    }
  }

  /** A data byte and what stands for it. */
  lemma StuffedPaired(c: nat, tail: seq<nat>)
    requires Paired(tail) && c < 256
    ensures Paired(StuffByte(c) + tail) && MarkerCodes(StuffByte(c) + tail) == MarkerCodes(tail)
  {
    if c == 0xFF {
      OneByteMore(0, tail);
      var s := [0] + tail;
      PairMore(0, s);
      assert StuffByte(c) + tail == [0xFF] + s;
    } else {
      OneByteMore(c, tail);
    }
  }

  lemma PairMore(c: nat, s: seq<nat>)
    requires Paired(s) && s != [] && s[0] == c && (c == 0 || 0xD0 <= c <= 0xD7)
    ensures Paired([0xFF] + s)
    ensures MarkerCodes([0xFF] + s) == (if c != 0 then [c] else []) + MarkerCodes(s)
  {
    var t := [0xFF] + s;
    assert t[1..] == s;
    forall i | 0 <= i < |t| && t[i] == 0xFF
      ensures i + 1 < |t| && (t[i + 1] == 0 || 0xD0 <= t[i + 1] <= 0xD7)
    {
      if i > 0 {
        assert s[i - 1] == 0xFF;
      }
    }
  }

  /** Stuffed data before a tail. */
  lemma {:induction false} DataPaired(b: seq<bool>, tail: seq<nat>)
    requires Paired(tail)
    ensures Paired(Stuff(b) + tail) && MarkerCodes(Stuff(b) + tail) == MarkerCodes(tail)
    decreases |b|
  {
    hide Paired, StuffByte, MarkerCodes;
    if |b| < 8 {
      assert Stuff(b) + tail == tail;
    } else {
      DataPaired(b[8..], tail);
      assert Pow2(8) == 256;
      StuffedPaired(Value(b[..8]), Stuff(b[8..]) + tail);
      StuffStep(b, tail);
    }
  }

  /** A restart marker before a tail. */
  lemma MarkerPaired(j: nat, tail: seq<nat>)
    requires Paired(tail) && j < 8
    ensures Paired([FF, RST0 + j] + tail) && MarkerCodes([FF, RST0 + j] + tail) == [0xD0 + j] + MarkerCodes(tail)
  {
    OneByteMore(0xD0 + j, tail);
    PairMore(0xD0 + j, [0xD0 + j] + tail);
    assert [FF, RST0 + j] + tail == [0xFF] + ([0xD0 + j] + tail);
  }

  /** n restart markers, numbered modulo eight from u on. */
  function RestartCodes(u: nat, n: nat): (s: seq<nat>)
    ensures |s| == n
  {
    seq(n, i requires 0 <= i < n => 0xD0 + (u + i) % 8)
  }

  /** An interval and the marker behind it. */
  lemma IntervalPaired(b: seq<bool>, u: nat, n: nat, later: seq<nat>)
    requires Paired(later) && MarkerCodes(later) == RestartCodes(u + 1, n)
    ensures Paired(Stuff(b) + [FF, RST0 + u % 8] + later)
    ensures MarkerCodes(Stuff(b) + [FF, RST0 + u % 8] + later) == RestartCodes(u, n + 1)
  {
    hide Paired, MarkerCodes, Stuff;
    var tail := [FF, RST0 + u % 8] + later;
    MarkerPaired(u % 8, later);
    DataPaired(b, tail);
    assert Stuff(b) + [FF, RST0 + u % 8] + later == Stuff(b) + tail;
    assert RestartCodes(u, n + 1) == [0xD0 + u % 8] + RestartCodes(u + 1, n);
  }

  /** The last interval. */
  lemma LastPaired(b: seq<bool>)
    ensures Paired(Stuff(b)) && MarkerCodes(Stuff(b)) == RestartCodes(0, 0)
  {
    DataPaired(b, []);
    assert Stuff(b) + [] == Stuff(b);
  }

  lemma NoCodes(u: nat)
    ensures RestartCodes(u, 0) == RestartCodes(0, 0)
  {
  }

  /** One marker for each full interval that is followed by another MCU. */
  function MarkerCount(interval: nat, n: nat): nat
    decreases n
  {
    if interval == 0 || n <= interval then 0 else 1 + MarkerCount(interval, n - interval)
  }

  /** The number of markers is the number of full intervals before the last MCU. */
  lemma {:induction false} MarkersBetween(interval: nat, n: nat)
    requires n > 0
    ensures MarkerCount(interval, n) == if interval == 0 then 0 else (n - 1) / interval
    decreases n
  {
    if interval > 0 {
      if n > interval {
        MarkersBetween(interval, n - interval);
        DivMod(n - 1, interval);
        UniqueQuotient(n - interval - 1, interval, (n - 1) / interval - 1, (n - 1) % interval);
      } else {
        UniqueQuotient(n - 1, interval, 0, n - 1);
      }
    }
  }
}
