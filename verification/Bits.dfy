/** Bit strings: a value sent with its most significant bit first. */
module Bits {
  import opened Arith

  datatype Option<+T> = None | Some(value: T)

  function Bit(b: bool): (r: nat)
    ensures r <= 1
  {
    if b then 1 else 0
  }

  /** A right shift. */
  function Shr(v: nat, m: nat): (r: nat)
  {
    DivNonNegative(v, Pow2(m));
    v / Pow2(m)
  }

  /** The low n bits of v. */
  function ToBits(v: nat, n: nat): (s: seq<bool>)
    ensures |s| == n
  {
    if n == 0 then [] else [Shr(v, n - 1) % 2 == 1] + ToBits(v, n - 1)
  }

  /** Section F.2.2.4 of T.81: the next n bits as a number. */
  function Receive(n: nat, s: seq<bool>): (r: Option<(nat, seq<bool>)>)
    ensures r.Some? <==> |s| >= n
    ensures r.Some? ==> |r.value.1| == |s| - n
  {
    if n == 0 then Some((0, s))
    else if s == [] then None
    else
      match Receive(n - 1, s[1..])
      case None => None
      case Some((v, rest)) => Some(((if s[0] then Pow2(n - 1) else 0) + v, rest))
  }

  lemma DivHalf(v: nat, m: nat)
    ensures v / Pow2(m + 1) == v / Pow2(m) / 2
    ensures 2 * (v / Pow2(m + 1)) + (v / Pow2(m)) % 2 == v / Pow2(m)
  {
    DivDiv(v, Pow2(m), 2);
  }

  /** Shifts add up. */
  lemma ShrShr(v: nat, a: nat, b: nat)
    ensures Shr(v, a + b) == Shr(Shr(v, a), b)
  {
    Pow2Add(a, b);
    DivDiv(v, Pow2(a), Pow2(b));
  }

  /** The bit that a shift by one more drops. */
  lemma ShrHalf(v: nat, m: nat)
    ensures Shr(v, m) == 2 * Shr(v, m + 1) + Shr(v, m) % 2
  {
    DivHalf(v, m);
  }

  lemma {:induction false} ReceiveToBits(v: nat, n: nat, rest: seq<bool>)
    ensures Receive(n, ToBits(v, n) + rest) == Some((v % Pow2(n), rest))
  {
    if n == 0 {
      assert ToBits(v, 0) + rest == rest;
    } else {
      var s := ToBits(v, n) + rest;
      assert s[1..] == ToBits(v, n - 1) + rest;
      ReceiveToBits(v, n - 1, rest);
      ModStep(v, n - 1);
    }
  }

  lemma ModStep(v: nat, m: nat)
    ensures v % Pow2(m + 1) == (if (v / Pow2(m)) % 2 == 1 then Pow2(m) else 0) + v % Pow2(m)
  {
    var p := Pow2(m);
    DivMod(v, p);
    TwoDigits(v, p, v / p, v % p);
  }

  lemma TwoDigits(v: int, p: int, q: int, r: int)
    requires p > 0 && 0 <= r && v == p * q + r && r < p
    ensures v % (2 * p) == (if q % 2 == 1 then p else 0) + r
  {
    var h := q / 2;
    var e := if q % 2 == 1 then p else 0;
    assert p * q == (2 * p) * h + e by {
      if q % 2 == 1 {
        assert q == 2 * h + 1;
      } else {
        assert q == 2 * h;
      }
    }
    UniqueQuotient(v, 2 * p, h, e + r);
  }

  /** Only the low n bits matter. */
  lemma {:induction false} ToBitsMod(v: nat, w: nat, n: nat)
    requires v % Pow2(n) == w % Pow2(n)
    ensures ToBits(v, n) == ToBits(w, n)
  {
    if n > 0 {
      ModStep(v, n - 1);
      ModStep(w, n - 1);
      var p := Pow2(n - 1);
      DivMod(v, p);
      DivMod(w, p);
      ToBitsMod(v, w, n - 1);
    }
  }

  /** Bit strings of a high part and a low part follow one another. */
  lemma {:induction false} ToBitsSplit(a: nat, b: nat, n: nat, m: nat)
    requires b < Pow2(m)
    ensures ToBits(a * Pow2(m) + b, n + m) == ToBits(a, n) + ToBits(b, m)
    decreases n
  {
    var v := a * Pow2(m) + b;
    var p := Pow2(m);
    if n == 0 {
      assert v == p * a + b;
      UniqueQuotient(v, p, a, b);
      ModSelf(b, p);
      ToBitsMod(v, b, m);
      assert ToBits(a, 0) + ToBits(b, m) == ToBits(b, m);
    } else {
      ToBitsSplit(a, b, n - 1, m);
      HighPart(a, b, n, m);
    }
  }

  lemma HighPart(a: nat, b: nat, n: nat, m: nat)
    requires b < Pow2(m) && n > 0
    ensures (a * Pow2(m) + b) / Pow2(n + m - 1) == a / Pow2(n - 1)
  {
    var p := Pow2(m);
    Pow2Add(m, n - 1);
    DivDiv(a * p + b, p, Pow2(n - 1));
    UniqueQuotient(a * p + b, p, a, b);
  }

  lemma ModSelf(b: nat, p: nat)
    requires b < p
    ensures b % p == b
  {
  }
}
