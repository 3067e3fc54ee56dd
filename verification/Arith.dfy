/** Powers of two and finite sums over sequences. */
module Arith {

  function Pow2(n: nat): (r: nat)
    ensures r > 0
  {
    if n == 0 then 1 else 2 * Pow2(n - 1)
  }

  lemma {:induction false} Pow2Add(a: nat, b: nat)
    ensures Pow2(a + b) == Pow2(a) * Pow2(b)
    decreases b
  {
    if b > 0 {
      Pow2Add(a, b - 1);
      assert Pow2(a + b) == 2 * Pow2(a + (b - 1));
    }
  }

  lemma {:induction false} Pow2Mono(a: nat, b: nat)
    requires a <= b
    ensures Pow2(a) <= Pow2(b)
    decreases b
  {
    if a < b {
      Pow2Mono(a, b - 1);
    }
  }

  lemma Pow2Constants()
    ensures Pow2(8) == 0x100 && Pow2(16) == 0x1_0000 && Pow2(24) == 0x100_0000 && Pow2(32) == 0x1_0000_0000
  {
    assert Pow2(8) == 0x100;
    Pow2Add(8, 8);
    Pow2Add(16, 8);
    Pow2Add(16, 16);
  }

  function Sum(s: seq<int>): (r: int)
  {
    if s == [] then 0 else Sum(s[..|s| - 1]) + s[|s| - 1]
  }

  lemma {:induction false} SumUpdate(s: seq<int>, i: nat, v: int)
    requires i < |s|
    ensures Sum(s[i := v]) == Sum(s) - s[i] + v
  {
    var n := |s| - 1;
    var u := s[i := v];
    if i == n {
      assert u[..n] == s[..n];
    } else {
      assert u[..n] == s[..n][i := v];
      SumUpdate(s[..n], i, v);
    }
  }

  /** Sums add pointwise. */
  lemma {:induction false} SumPlus(a: seq<int>, b: seq<int>, c: seq<int>)
    requires |a| == |b| == |c|
    requires forall i :: 0 <= i < |a| ==> c[i] == a[i] + b[i]
    ensures Sum(c) == Sum(a) + Sum(b)
  {
    if |a| > 0 {
      var n := |a| - 1;
      SumPlus(a[..n], b[..n], c[..n]);
    }
  }

  lemma {:induction false} SumScale(a: seq<int>, k: int, c: seq<int>)
    requires |a| == |c|
    requires forall i :: 0 <= i < |a| ==> c[i] == k * a[i]
    ensures Sum(c) == k * Sum(a)
  {
    if |a| > 0 {
      var n := |a| - 1;
      SumScale(a[..n], k, c[..n]);
    }
  }

  lemma {:induction false} SumConcat(a: seq<int>, b: seq<int>)
    ensures Sum(a + b) == Sum(a) + Sum(b)
  {
    if b == [] {
      assert a + b == a;
    } else {
      var n := |b| - 1;
      assert (a + b)[..|a + b| - 1] == a + b[..n];
      SumConcat(a, b[..n]);
    }
  }

  lemma {:induction false} SumBounds(a: seq<int>, i: nat)
    requires forall k :: 0 <= k < |a| ==> a[k] >= 0
    requires i < |a|
    ensures 0 <= a[i] <= Sum(a)
  {
    var n := |a| - 1;
    SumNonNegative(a[..n]);
    if i < n {
      SumBounds(a[..n], i);
    }
  }

  lemma {:induction false} SumNonNegative(a: seq<int>)
    requires forall k :: 0 <= k < |a| ==> a[k] >= 0
    ensures Sum(a) >= 0
  {
    if a != [] {
      SumNonNegative(a[..|a| - 1]);
    }
  }

  lemma {:induction false} SumZero(a: seq<int>)
    requires forall k :: 0 <= k < |a| ==> a[k] == 0
    ensures Sum(a) == 0
  {
    if a != [] {
      SumZero(a[..|a| - 1]);
    }
  }

  /** A sum of multiples of d is a multiple of d. */
  lemma {:induction false} SumMultiple(a: seq<int>, q: seq<int>, d: int)
    requires |a| == |q|
    requires forall k :: 0 <= k < |a| ==> a[k] == q[k] * d
    ensures Sum(a) == Sum(q) * d
  {
    if a != [] {
      var n := |a| - 1;
      SumMultiple(a[..n], q[..n], d);
    }
  }

  function Zeroes(n: nat): (r: seq<int>)
    ensures |r| == n
  {
    seq(n, _ => 0)
  }

  // ----- Division -----

  lemma DivNonNegative(v: int, p: int)
    requires v >= 0 && p > 0
    ensures v / p >= 0
  {
    DivMod(v, p);
    if v / p < 0 {
      MulLess(p, v / p, 0);
    }
  }

  lemma DivDiv(v: int, a: int, b: int)
    requires a > 0 && b > 0
    ensures a * b > 0 && v / (a * b) == v / a / b
  {
    var q, r := v / a, v % a;
    var q2, r2 := q / b, q % b;
    DivModSum(v, a, b, q, r, q2, r2);
    UniqueQuotient(v, a * b, q2, a * r2 + r);
  }

  lemma DivModSum(v: int, a: int, b: int, q: int, r: int, q2: int, r2: int)
    requires a > 0 && b > 0 && r >= 0 && r2 >= 0
    requires v == a * q + r && q == b * q2 + r2 && r < a && r2 < b
    ensures a * b > 0
    ensures v == (a * b) * q2 + (a * r2 + r)
    ensures 0 <= a * r2 + r < a * b
  {
    assert a * q == a * (b * q2) + a * r2;
    Assoc(a, b, q2);
    MulLess(a, r2, b);
  }

  lemma Assoc(a: int, b: int, c: int)
    ensures a * (b * c) == (a * b) * c
  {
  }

  lemma MulLess(d: int, a: int, b: int)
    requires d >= 0 && a < b
    ensures d * a + d <= d * b
  {
    NonNegative(d, b - a - 1);
    Regrouped(d, a, b);
  }

  lemma NonNegative(a: int, b: int)
    requires a >= 0 && b >= 0
    ensures a * b >= 0
  {
  }

  lemma Regrouped(d: int, a: int, b: int)
    ensures d * b == d * a + d + d * (b - a - 1)
  {
  }

  lemma UniqueQuotient(v: int, d: int, q: int, r: int)
    requires d > 0 && v == d * q + r && 0 <= r < d
    ensures v / d == q && v % d == r
  {
    var q' := v / d;
    DivMod(v, d);
    if q < q' {
      MulLess(d, q, q');
    } else if q' < q {
      MulLess(d, q', q);
    }
  }

  lemma DivMod(v: int, d: int)
    requires d > 0
    ensures v == d * (v / d) + v % d && 0 <= v % d < d
  {
  }
}
