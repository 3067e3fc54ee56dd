/** Counts of codes by length: the histogram of a table of code lengths, the
    length limiting of section K.2 of ITU-T T.81, and the order in which a
    table lists its symbols. */
module CodeLengths {
  import opened Arith

  const MAX_CLEN := 32   // longest length the plain procedure may assign
  const MAX_LEN := 16    // longest length a table may hold

  /** bits[k] is the number of codes of length k; bits[0] stays 0. */
  ghost predicate IsBits(bits: seq<nat>)
  {
    |bits| == MAX_CLEN + 1 && bits[0] == 0
  }

  ghost function WeightTerms(bits: seq<nat>, w: nat): (t: seq<int>)
    requires |bits| <= w + 1
    ensures |t| == |bits|
  {
    seq(|bits|, k requires 0 <= k < |bits| => bits[k] * Pow2(w - k))
  }

  /** The Kraft sum of the codes counted by `bits`, scaled by 2^w. */
  ghost function Weight(bits: seq<nat>, w: nat): int
    requires |bits| <= w + 1
  {
    Sum(WeightTerms(bits, w))
  }

  // ----- Histogram -----

  ghost predicate SizesOk(size: seq<nat>)
  {
    forall s :: 0 <= s < |size| ==> size[s] <= MAX_CLEN
  }

  /** How many symbols have each nonzero length. */
  ghost function Histogram(size: seq<nat>): (bits: seq<nat>)
    requires SizesOk(size)
    ensures IsBits(bits)
  {
    if size == [] then seq(MAX_CLEN + 1, _ => 0)
    else
      var bits := Histogram(size[..|size| - 1]);
      var k := size[|size| - 1];
      if k == 0 then bits else bits[k := bits[k] + 1]
  }

  ghost function SizeTerms(size: seq<nat>, w: nat): (t: seq<int>)
    requires forall s :: 0 <= s < |size| ==> size[s] <= w
    ensures |t| == |size|
  {
    seq(|size|, s requires 0 <= s < |size| => if size[s] > 0 then Pow2(w - size[s]) else 0)
  }

  ghost function NonZero(size: seq<nat>): (t: seq<int>)
    ensures |t| == |size|
  {
    seq(|size|, s requires 0 <= s < |size| => if size[s] > 0 then 1 else 0)
  }

  lemma {:induction false} HistogramWeight(size: seq<nat>)
    requires SizesOk(size)
    ensures Weight(Histogram(size), MAX_CLEN) == Sum(SizeTerms(size, MAX_CLEN))
  {
    if size == [] {
      SumZero(WeightTerms(Histogram(size), MAX_CLEN));
    } else {
      var n := |size| - 1;
      HistogramWeight(size[..n]);
      assert SizeTerms(size, MAX_CLEN)[..n] == SizeTerms(size[..n], MAX_CLEN);
      if size[n] > 0 {
        WeightUpdate(Histogram(size[..n]), size[n], 1);
      }
    }
  }

  lemma {:induction false} HistogramCount(size: seq<nat>)
    requires SizesOk(size)
    ensures Sum(Histogram(size)) == Sum(NonZero(size))
  {
    if size == [] {
      SumZero(Histogram(size));
    } else {
      var n := |size| - 1;
      HistogramCount(size[..n]);
      assert NonZero(size)[..n] == NonZero(size[..n]);
      if size[n] > 0 {
        CountUpdate(Histogram(size[..n]), size[n], 1);
      }
    }
  }

  // ----- Length limiting -----

  /** The nearest shorter length at or below j that has a code. */
  function Donor(bits: seq<nat>, j: nat): (d: nat)
    requires j < |bits|
    ensures d <= j && (d > 0 ==> bits[d] > 0)
    ensures forall k :: d < k <= j ==> bits[k] == 0
  {
    if j == 0 || bits[j] > 0 then j else Donor(bits, j - 1)
  }

  /** The K.2 step on length i: two codes of length i go, their common prefix
      takes one of them, and a code of length j makes room for the other. */
  function LimitStep(bits: seq<nat>, i: nat): (out: seq<nat>)
    requires 2 <= i < |bits| && bits[i] >= 2 && bits[Donor(bits, i - 2)] > 0
    ensures |out| == |bits| && out[i] == bits[i] - 2
  {
    var j := Donor(bits, i - 2);
    var a := bits[i := bits[i] - 2];
    var b := a[i - 1 := a[i - 1] + 1];
    var c := b[j + 1 := b[j + 1] + 2];
    c[j := c[j] - 1]
  }

  ghost predicate Stepable(bits: seq<nat>, i: nat)
  {
    2 <= i < |bits| && bits[i] >= 2 && bits[Donor(bits, i - 2)] > 0
  }

  /** The counts after limiting every length from i down to 17. */
  ghost function Limit(bits: seq<nat>, i: nat): (out: seq<nat>)
    requires i < |bits|
    ensures |out| == |bits|
    decreases i, bits[i]
  {
    if i <= MAX_LEN then bits
    else if bits[i] == 0 then Limit(bits, i - 1)
    else if Stepable(bits, i) then Limit(LimitStep(bits, i), i)
    else bits
  }

  /** A full code tree over at most 255 codes, none longer than i. */
  ghost predicate FullTree(bits: seq<nat>, i: nat)
  {
    && IsBits(bits) && i <= MAX_CLEN
    && Weight(bits, MAX_CLEN) == Pow2(MAX_CLEN)
    && Sum(bits) <= 255
    && forall k :: i < k < |bits| ==> bits[k] == 0
  }

  lemma StepWeight(bits: seq<nat>, i: nat)
    requires IsBits(bits) && Stepable(bits, i)
    ensures Weight(LimitStep(bits, i), MAX_CLEN) == Weight(bits, MAX_CLEN)
  {
    var w := MAX_CLEN;
    var j := Donor(bits, i - 2);
    var a := bits[i := bits[i] - 2];
    var b := a[i - 1 := a[i - 1] + 1];
    var c := b[j + 1 := b[j + 1] + 2];
    WeightUpdate(bits, i, -2);
    WeightUpdate(a, i - 1, 1);
    WeightUpdate(b, j + 1, 2);
    WeightUpdate(c, j, -1);
    Pow2Half(w - i);
    Pow2Half(w - (j + 1));
  }

  lemma Pow2Half(k: nat)
    ensures Pow2(k + 1) == 2 * Pow2(k)
  {
  }

  lemma WeightUpdate(bits: seq<nat>, k: nat, d: int)
    requires IsBits(bits) && k < |bits| && bits[k] + d >= 0
    ensures Weight(bits[k := bits[k] + d], MAX_CLEN) == Weight(bits, MAX_CLEN) + d * Pow2(MAX_CLEN - k)
  {
    var w := MAX_CLEN;
    var t := WeightTerms(bits, w);
    var x := (bits[k] + d) * Pow2(w - k);
    assert WeightTerms(bits[k := bits[k] + d], w) == t[k := x];
    SumUpdate(t, k, x);
    Difference(bits[k], d, Pow2(w - k));
  }

  lemma Difference(a: int, b: int, p: int)
    ensures (a + b) * p == a * p + b * p
  {
  }

  lemma CountUpdate(bits: seq<nat>, k: nat, d: int)
    requires k < |bits| && bits[k] + d >= 0
    ensures Sum(bits[k := bits[k] + d]) == Sum(bits) + d
  {
    SumUpdate(bits, k, bits[k] + d);
  }

  lemma StepCount(bits: seq<nat>, i: nat)
    requires Stepable(bits, i)
    ensures Sum(LimitStep(bits, i)) == Sum(bits)
  {
    var j := Donor(bits, i - 2);
    var a := bits[i := bits[i] - 2];
    var b := a[i - 1 := a[i - 1] + 1];
    var c := b[j + 1 := b[j + 1] + 2];
    SumUpdate(bits, i, bits[i] - 2);
    SumUpdate(a, i - 1, a[i - 1] + 1);
    SumUpdate(b, j + 1, b[j + 1] + 2);
    SumUpdate(c, j, c[j] - 1);
  }

  /** Below 2^-i nothing is left over, so the longest codes pair up. */
  lemma LongestPaired(bits: seq<nat>, i: nat)
    requires IsBits(bits) && 1 <= i < |bits| && bits[i] > 0
    requires Weight(bits, MAX_CLEN) == Pow2(MAX_CLEN)
    requires forall k :: i < k < |bits| ==> bits[k] == 0
    ensures bits[i] % 2 == 0 && bits[i] >= 2
  {
    var w := MAX_CLEN;
    var t := WeightTerms(bits, w);
    var rest := t[i := 0];
    SumUpdate(t, i, 0);
    var q := ShorterTerms(bits, i, Pow2(w - i), rest);
    SumMultiple(rest, q, 2 * Pow2(w - i));
    EvenRest(bits[i], Sum(q), i, w - i);
  }

  lemma ShorterTerms(bits: seq<nat>, i: nat, d: int, rest: seq<int>) returns (q: seq<int>)
    requires IsBits(bits) && 1 <= i < |bits| && d == Pow2(MAX_CLEN - i)
    requires rest == WeightTerms(bits, MAX_CLEN)[i := 0]
    requires forall k :: i < k < |bits| ==> bits[k] == 0
    ensures |q| == |rest| && forall k :: 0 <= k < |rest| ==> rest[k] == q[k] * (2 * d)
  {
    q := seq(|bits|, k requires 0 <= k < |bits| => if k < i then bits[k] * Pow2(i - 1 - k) else 0);
    forall k: nat | k < |rest|
      ensures rest[k] == q[k] * (2 * d)
    {
      TermAt(bits, i, k);
    }
  }

  /** Each term is a multiple of the same power. */
  lemma TermAt(bits: seq<nat>, i: nat, k: nat)
    requires IsBits(bits) && 1 <= i < |bits| && k < |bits| && forall k :: i < k < |bits| ==> bits[k] == 0
    ensures var q := if k < i then bits[k] * Pow2(i - 1 - k) else 0;
      WeightTerms(bits, MAX_CLEN)[i := 0][k] == q * (2 * Pow2(MAX_CLEN - i))
  {
    hide Pow2;
    if k < i {
      ShorterTerm(bits[k], i, k);
    } else if k > i {
      NoTerm(Pow2(MAX_CLEN - k), Pow2(MAX_CLEN - i));
    } else {
      NoTerm(0, Pow2(MAX_CLEN - i));
    }
  }

  lemma NoTerm(a: nat, b: nat)
    ensures 0 * a == 0 * (2 * b) == 0
  {
  }

  lemma ShorterTerm(x: nat, i: nat, k: nat)
    requires k < i <= MAX_CLEN
    ensures x * Pow2(MAX_CLEN - k) == (x * Pow2(i - 1 - k)) * (2 * Pow2(MAX_CLEN - i))
  {
    Pow2Add(i - 1 - k, MAX_CLEN - i + 1);
    Pow2Half(MAX_CLEN - i);
    Assoc(x, Pow2(i - 1 - k), 2 * Pow2(MAX_CLEN - i));
  }

  lemma Assoc(a: int, b: int, c: int)
    ensures a * (b * c) == (a * b) * c
  {
  }

  lemma EvenRest(x: int, q: int, i: nat, k: nat)
    requires 1 <= i && q * (2 * Pow2(k)) + x * Pow2(k) == Pow2(i + k)
    ensures x % 2 == 0
  {
    Pow2Add(i - 1, k + 1);
    Pow2Half(k);
    Parity(x, q, Pow2(i - 1), Pow2(k));
  }

  lemma Parity(x: int, q: int, p: int, d: int)
    requires d > 0 && q * (2 * d) + x * d == p * (2 * d)
    ensures x == 2 * (p - q)
  {
    assert (2 * (p - q) - x) * d == 0;
  }

  /** Some code is at least two shorter: two adjacent lengths alone would need
      more than 255 codes. */
  lemma DonorExists(bits: seq<nat>, i: nat)
    requires FullTree(bits, i) && i > MAX_LEN
    ensures bits[Donor(bits, i - 2)] > 0
  {
    if bits[Donor(bits, i - 2)] == 0 {
      assert Donor(bits, i - 2) == 0;
      TwoLengths(bits, i);
    }
  }

  /** Two adjacent lengths over 15 cannot hold a full tree of 255 codes. */
  lemma TwoLengths(bits: seq<nat>, i: nat)
    requires FullTree(bits, i) && i > MAX_LEN
    ensures exists k :: 0 < k <= i - 2 && bits[k] > 0
  {
    if forall k :: 0 < k <= i - 2 ==> bits[k] == 0 {
      SumUpdate(bits, i, 0);
      SumBounds(bits[i := 0], i - 1);
      TwoTerms(bits, i);
      assert 510 < Pow2(10);
      Pow2Mono(10, i);
      TooFew(bits[i - 1], bits[i], Pow2(i), Pow2(MAX_CLEN - i));
    }
  }

  lemma TwoTerms(bits: seq<nat>, i: nat)
    requires IsBits(bits) && 2 <= i < |bits|
    requires Weight(bits, MAX_CLEN) == Pow2(MAX_CLEN)
    requires forall k :: 0 <= k < |bits| && k != i && k != i - 1 ==> bits[k] == 0
    ensures Pow2(i) * Pow2(MAX_CLEN - i) == bits[i - 1] * (2 * Pow2(MAX_CLEN - i)) + bits[i] * Pow2(MAX_CLEN - i)
  {
    var t := WeightTerms(bits, MAX_CLEN);
    Pow2Add(i, MAX_CLEN - i);
    Pow2Half(MAX_CLEN - i);
    assert t[i - 1] == bits[i - 1] * (2 * Pow2(MAX_CLEN - i));
    TwoSum(t, i - 1, i);
  }

  lemma TwoSum(t: seq<int>, x: nat, y: nat)
    requires x < |t| && y < |t| && x != y
    requires forall k :: 0 <= k < |t| && k != x && k != y ==> t[k] == 0
    ensures Sum(t) == t[x] + t[y]
  {
    SumUpdate(t, x, 0);
    SumUpdate(t[x := 0], y, 0);
    SumZero(t[x := 0][y := 0]);
  }

  lemma TooFew(a: nat, b: nat, p: int, d: int)
    requires d > 0 && p * d == a * (2 * d) + b * d && a + b <= 255
    ensures p <= 510
  {
    assert (p - 2 * a - b) * d == 0;
  }

  lemma StepFull(bits: seq<nat>, i: nat)
    requires FullTree(bits, i) && i > MAX_LEN && bits[i] > 0
    ensures Stepable(bits, i) && FullTree(LimitStep(bits, i), i)
  {
    LongestPaired(bits, i);
    DonorExists(bits, i);
    StepWeight(bits, i);
    StepCount(bits, i);
    assert Donor(bits, i - 2) > 0;
  }

  /** Limiting keeps a full tree over the same number of codes and leaves no
      length over 16; a table that is short enough is left alone. */
  lemma {:induction false} LimitCorrect(bits: seq<nat>, i: nat)
    requires FullTree(bits, i)
    ensures FullTree(Limit(bits, i), if i < MAX_LEN then i else MAX_LEN)
    ensures Sum(Limit(bits, i)) == Sum(bits)
    ensures (forall k :: MAX_LEN < k < |bits| ==> bits[k] == 0) ==> Limit(bits, i) == bits
    decreases i, bits[i]
  {
    if i > MAX_LEN {
      if bits[i] == 0 {
        LimitCorrect(bits, i - 1);
      } else {
        StepFull(bits, i);
        StepCount(bits, i);
        LimitCorrect(LimitStep(bits, i), i);
      }
    }
  }

  // ----- Symbols in order of code length -----

  /** The symbols of code length k, in increasing order. */
  ghost function AtLength(size: seq<nat>, k: nat): (out: seq<nat>)
  {
    if size == [] then []
    else
      var n := |size| - 1;
      AtLength(size[..n], k) + (if size[n] == k then [n] else [])
  }

  /** The symbols of code lengths 1 to m, shorter codes first. */
  ghost function Listing(size: seq<nat>, m: nat): (out: seq<nat>)
  {
    if m == 0 then [] else Listing(size, m - 1) + AtLength(size, m)
  }

  lemma {:induction false} AtLengthMembers(size: seq<nat>, k: nat)
    ensures forall x: nat :: x in AtLength(size, k) <==> x < |size| && size[x] == k
    ensures forall a, b :: 0 <= a < b < |AtLength(size, k)| ==> AtLength(size, k)[a] < AtLength(size, k)[b]
  {
    if size != [] {
      var n := |size| - 1;
      var init := AtLength(size[..n], k);
      AtLengthMembers(size[..n], k);
      forall a, b | 0 <= a < b < |AtLength(size, k)|
        ensures AtLength(size, k)[a] < AtLength(size, k)[b]
      {
        assert init[a] in init;
      }
    }
  }

  lemma {:induction false} AtLengthCount(size: seq<nat>, k: nat)
    requires SizesOk(size) && 1 <= k <= MAX_CLEN
    ensures |AtLength(size, k)| == Histogram(size)[k]
  {
    if size != [] {
      AtLengthCount(size[..|size| - 1], k);
    }
  }

  /** The listing names each symbol that has a code once, by code length and
      then by symbol number. */
  lemma {:induction false} ListingOrdered(size: seq<nat>, m: nat)
    ensures forall x: nat :: x in Listing(size, m) <==> x < |size| && 1 <= size[x] <= m
    ensures forall a, b :: 0 <= a < b < |Listing(size, m)| ==>
      var x, y := Listing(size, m)[a], Listing(size, m)[b];
      x < |size| && y < |size| && (size[x] < size[y] || (size[x] == size[y] && x < y))
  {
    if m > 0 {
      ListingOrdered(size, m - 1);
      AtLengthMembers(size, m);
      var p, q := Listing(size, m - 1), AtLength(size, m);
      forall a, b | 0 <= a < b < |p + q|
        ensures var x, y := (p + q)[a], (p + q)[b];
          x < |size| && y < |size| && (size[x] < size[y] || (size[x] == size[y] && x < y))
      {
        assert (p + q)[a] == if a < |p| then p[a] else q[a - |p|];
        assert (p + q)[b] == if b < |p| then p[b] else q[b - |p|];
        assert a < |p| ==> p[a] in p;
        assert b >= |p| ==> q[b - |p|] in q;
        assert a >= |p| ==> q[a - |p|] in q;
      }
    }
  }

  lemma {:induction false} ListingCount(size: seq<nat>, m: nat)
    requires SizesOk(size) && m <= MAX_CLEN
    ensures |Listing(size, m)| == Sum(Histogram(size)[..m + 1])
  {
    var h := Histogram(size);
    if m == 0 {
      assert h[..1] == [0];
    } else {
      ListingCount(size, m - 1);
      AtLengthCount(size, m);
      assert h[..m + 1][..m] == h[..m];
    }
  }
}
