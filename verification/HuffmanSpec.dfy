/** Huffman's algorithm on a table of counts, as section K.2 of ITU-T T.81 runs
    it: a symbol takes part when its count is nonzero; the two least counts are
    merged, and among equal counts the larger symbol number comes first. */
module HuffmanSpec {
  import opened Arith

  /** c comes before every other live symbol except `skip`. */
  ghost predicate IsLeast(freq: seq<nat>, skip: int, c: int)
  {
    && 0 <= c < |freq| && c != skip && freq[c] > 0
    && forall i :: 0 <= i < |freq| && i != skip && freq[i] > 0 ==>
         freq[c] < freq[i] || (freq[c] == freq[i] && i <= c)
  }

  ghost predicate NoneBut(freq: seq<nat>, skip: int)
  {
    forall i :: 0 <= i < |freq| && i != skip ==> freq[i] == 0
  }

  /** The live symbol other than `skip` that the scan selects, or -1. */
  function Least(freq: seq<nat>, skip: int): (c: int)
    ensures c < 0 ==> c == -1 && NoneBut(freq, skip)
    ensures c >= 0 ==> IsLeast(freq, skip, c)
  {
    if freq == [] then -1
    else
      var n := |freq| - 1;
      var c := Least(freq[..n], skip);
      if freq[n] > 0 && n != skip && (c < 0 || freq[n] <= freq[c]) then n else c
  }

  function Merge(freq: seq<nat>, c1: int, c2: int): seq<nat>
    requires 0 <= c1 < |freq| && 0 <= c2 < |freq| && c1 != c2
  {
    freq[c1 := freq[c1] + freq[c2]][c2 := 0]
  }

  function Marks(freq: seq<nat>): (m: seq<int>)
    ensures |m| == |freq|
  {
    seq(|freq|, i requires 0 <= i < |freq| => if freq[i] > 0 then 1 else 0)
  }

  /** How many symbols are live. */
  function Live(freq: seq<nat>): (n: nat)
  {
    SumNonNegative(Marks(freq));
    Sum(Marks(freq))
  }

  lemma MergeLive(freq: seq<nat>, c1: int, c2: int)
    requires 0 <= c1 < |freq| && 0 <= c2 < |freq| && c1 != c2
    requires freq[c1] > 0 && freq[c2] > 0
    ensures Live(Merge(freq, c1, c2)) == Live(freq) - 1
  {
    assert Marks(Merge(freq, c1, c2)) == Marks(freq)[c2 := 0];
    SumUpdate(Marks(freq), c2, 0);
  }

  /** The total of all merged counts when the algorithm runs to the end. */
  ghost function HuffmanCost(freq: seq<nat>): (r: nat)
    decreases Live(freq)
  {
    var c1 := Least(freq, -1);
    var c2 := Least(freq, c1);
    if c2 < 0 || c1 < 0 then 0
    else
      MergeLive(freq, c1, c2);
      freq[c1] + freq[c2] + HuffmanCost(Merge(freq, c1, c2))
  }

  // ----- Code lengths -----

  ghost predicate Fits(freq: seq<nat>, len: seq<nat>, w: nat)
  {
    |len| == |freq| && forall i :: 0 <= i < |freq| && freq[i] > 0 ==> len[i] <= w
  }

  ghost function KraftTerms(freq: seq<nat>, len: seq<nat>, w: nat): (t: seq<int>)
    requires Fits(freq, len, w)
    ensures |t| == |freq|
  {
    seq(|freq|, i requires 0 <= i < |freq| => if freq[i] > 0 then Pow2(w - len[i]) else 0)
  }

  /** The Kraft sum of the live symbols, scaled by 2^w. */
  ghost function Kraft(freq: seq<nat>, len: seq<nat>, w: nat): int
    requires Fits(freq, len, w)
  {
    Sum(KraftTerms(freq, len, w))
  }

  ghost function CostTerms(freq: seq<nat>, len: seq<nat>): (t: seq<int>)
    requires |freq| == |len|
    ensures |t| == |freq|
  {
    seq(|freq|, i requires 0 <= i < |freq| => freq[i] * len[i])
  }

  /** Total number of code bits spent on the counted symbols. */
  ghost function Cost(freq: seq<nat>, len: seq<nat>): int
    requires |freq| == |len|
  {
    Sum(CostTerms(freq, len))
  }

  // ----- Optimality -----

  lemma KraftUpdate(freq: seq<nat>, len: seq<nat>, w: nat, c: nat, l: nat)
    requires Fits(freq, len, w) && c < |freq| && freq[c] > 0 && l <= w
    ensures Fits(freq, len[c := l], w)
    ensures Kraft(freq, len[c := l], w) == Kraft(freq, len, w) - Pow2(w - len[c]) + Pow2(w - l)
  {
    var t := KraftTerms(freq, len, w);
    assert KraftTerms(freq, len[c := l], w) == t[c := Pow2(w - l)];
    SumUpdate(t, c, Pow2(w - l));
  }

  lemma CostUpdate(freq: seq<nat>, len: seq<nat>, c: nat, l: nat)
    requires |freq| == |len| && c < |freq|
    ensures Cost(freq, len[c := l]) == Cost(freq, len) - freq[c] * len[c] + freq[c] * l
  {
    var t := CostTerms(freq, len);
    var v := freq[c] * l;
    assert CostTerms(freq, len[c := l]) == t[c := v];
    SumUpdate(t, c, v);
  }

  lemma SwapLengths(freq: seq<nat>, len: seq<nat>, w: nat, x: nat, y: nat) returns (out: seq<nat>)
    requires Fits(freq, len, w)
    requires x < |freq| && y < |freq| && x != y && 0 < freq[x] <= freq[y] && len[x] <= len[y]
    ensures out == len[x := len[y]][y := len[x]]
    ensures Fits(freq, out, w) && Kraft(freq, out, w) == Kraft(freq, len, w)
    ensures Cost(freq, out) <= Cost(freq, len)
  {
    out := len[x := len[y]][y := len[x]];
    SwapKraft(freq, len, w, x, y, out);
    SwapCost(freq, len, x, y, out);
  }

  lemma SwapKraft(freq: seq<nat>, len: seq<nat>, w: nat, x: nat, y: nat, out: seq<nat>)
    requires Fits(freq, len, w)
    requires x < |freq| && y < |freq| && x != y && freq[x] > 0 && freq[y] > 0
    requires out == len[x := len[y]][y := len[x]]
    ensures Fits(freq, out, w) && Kraft(freq, out, w) == Kraft(freq, len, w)
  {
    KraftUpdate(freq, len, w, x, len[y]);
    KraftUpdate(freq, len[x := len[y]], w, y, len[x]);
  }

  lemma SwapCost(freq: seq<nat>, len: seq<nat>, x: nat, y: nat, out: seq<nat>)
    requires |freq| == |len| && x < |freq| && y < |freq| && x != y
    requires freq[x] <= freq[y] && len[x] <= len[y]
    requires out == len[x := len[y]][y := len[x]]
    ensures Cost(freq, out) <= Cost(freq, len)
  {
    CostUpdate(freq, len, x, len[y]);
    CostUpdate(freq, len[x := len[y]], y, len[x]);
    Exchange(freq[x], freq[y], len[x], len[y]);
  }

  lemma Exchange(a: nat, b: nat, p: nat, q: nat)
    requires a <= b && p <= q
    ensures a * q + b * p <= a * p + b * q
  {
    assert (b - a) * (q - p) >= 0;
  }

  /** The live symbol with the longest code, leaving out `skip`. */
  lemma {:induction false} Longest(freq: seq<nat>, len: seq<nat>, skip: int, c: nat) returns (m: nat)
    requires |freq| == |len| && c < |freq| && c != skip && freq[c] > 0
    ensures m < |freq| && m != skip && freq[m] > 0
    ensures forall i :: 0 <= i < |freq| && i != skip && freq[i] > 0 ==> len[i] <= len[m]
  {
    m := c;
    for k := 0 to |freq|
      invariant m < |freq| && m != skip && freq[m] > 0
      invariant forall i :: 0 <= i < k && i != skip && freq[i] > 0 ==> len[i] <= len[m]
    {
      if k != skip && freq[k] > 0 && len[k] > len[m] {
        m := k;
      }
    }
  }

  /** Shortening the one longest code to the second longest keeps the Kraft
      inequality: every other term is a multiple of 2^(w - len[c2]). */
  lemma ShortenLongest(freq: seq<nat>, len: seq<nat>, w: nat, c1: nat, c2: nat) returns (out: seq<nat>)
    requires Fits(freq, len, w) && Kraft(freq, len, w) <= Pow2(w)
    requires c1 < |freq| && c2 < |freq| && c1 != c2 && freq[c1] > 0 && freq[c2] > 0
    requires len[c2] <= len[c1]
    requires forall i :: 0 <= i < |freq| && i != c1 && freq[i] > 0 ==> len[i] <= len[c2]
    ensures out == len[c1 := len[c2]]
    ensures Fits(freq, out, w) && Kraft(freq, out, w) <= Pow2(w)
    ensures Cost(freq, out) <= Cost(freq, len)
  {
    out := len[c1 := len[c2]];
    ShortenKraft(freq, len, w, c1, c2, out);
    ShortenCost(freq, len, c1, len[c2], out);
  }

  lemma ShortenCost(freq: seq<nat>, len: seq<nat>, c: nat, l: nat, out: seq<nat>)
    requires |freq| == |len| && c < |freq| && l <= len[c] && out == len[c := l]
    ensures Cost(freq, out) <= Cost(freq, len)
  {
    CostUpdate(freq, len, c, l);
    Scale(freq[c], l, len[c]);
  }

  lemma ShortenKraft(freq: seq<nat>, len: seq<nat>, w: nat, c1: nat, c2: nat, out: seq<nat>)
    requires Fits(freq, len, w) && Kraft(freq, len, w) <= Pow2(w)
    requires c1 < |freq| && c2 < |freq| && c1 != c2 && freq[c1] > 0 && freq[c2] > 0
    requires len[c2] <= len[c1] && out == len[c1 := len[c2]]
    requires forall i :: 0 <= i < |freq| && i != c1 && freq[i] > 0 ==> len[i] <= len[c2]
    ensures Fits(freq, out, w) && Kraft(freq, out, w) <= Pow2(w)
  {
    ShortenFits(freq, len, w, c1, c2);
    KraftUpdate(freq, len, w, c1, len[c2]);
    hide Fits, Kraft, Sum, Pow2;
    RoomForShorter(freq, len, w, c1, c2);
  }

  lemma RoomForShorter(freq: seq<nat>, len: seq<nat>, w: nat, c1: nat, c2: nat)
    requires Fits(freq, len, w) && Kraft(freq, len, w) <= Pow2(w)
    requires c1 < |freq| && c2 < |freq| && c1 != c2 && freq[c1] > 0 && freq[c2] > 0
    requires forall i :: 0 <= i < |freq| && i != c1 && freq[i] > 0 ==> len[i] <= len[c2]
    ensures Kraft(freq, len, w) - Pow2(w - len[c1]) + Pow2(w - len[c2]) <= Pow2(w)
  {
    ShortenFits(freq, len, w, c1, c2);
    var q := RestMultiple(freq, len, w, c1, c2);
    hide Fits, Kraft, Sum, Pow2;
    Pow2Add(len[c2], w - len[c2]);
    ShortenSum(Kraft(freq, len, w), Pow2(w - len[c1]), Sum(q), Pow2(w - len[c2]), Pow2(len[c2]), Pow2(w));
  }

  lemma ShortenSum(k: int, p1: int, q: int, p2: int, l: int, limit: int)
    requires k - p1 == q * p2 && k <= limit && limit == l * p2 && p1 > 0 && p2 > 0
    ensures k - p1 + p2 <= limit
  {
    RoundDown(q, l, p2);
  }

  lemma ShortenFits(freq: seq<nat>, len: seq<nat>, w: nat, c1: nat, c2: nat)
    requires Fits(freq, len, w) && c1 < |freq| && c2 < |freq| && freq[c1] > 0 && freq[c2] > 0
    ensures len[c1] <= w && len[c2] <= w && |freq| == |len| && Fits(freq, len[c1 := len[c2]], w)
  {
  }

  lemma RestMultiple(freq: seq<nat>, len: seq<nat>, w: nat, c1: nat, c2: nat) returns (q: seq<int>)
    requires Fits(freq, len, w) && c1 < |freq| && c2 < |freq| && freq[c1] > 0 && freq[c2] > 0
    requires forall i :: 0 <= i < |freq| && i != c1 && freq[i] > 0 ==> len[i] <= len[c2]
    ensures Kraft(freq, len, w) - Pow2(w - len[c1]) == Sum(q) * Pow2(w - len[c2])
  {
    var d := w - len[c2];
    var rest := KraftTerms(freq, len, w)[c1 := 0];
    SumUpdate(KraftTerms(freq, len, w), c1, 0);
    q := seq(|freq|, i requires 0 <= i < |freq| =>
      if freq[i] > 0 && i != c1 then Pow2(len[c2] - len[i]) else 0);
    forall i | 0 <= i < |rest|
      ensures rest[i] == q[i] * Pow2(d)
    {
      if freq[i] > 0 && i != c1 {
        Pow2Add(len[c2] - len[i], d);
      }
    }
    SumMultiple(rest, q, Pow2(d));
  }

  lemma Scale(f: nat, a: int, b: int)
    requires a <= b
    ensures f * a <= f * b
  {
    assert f * (b - a) >= 0;
  }

  lemma RoundDown(q: int, p: int, d: int)
    requires d > 0 && q * d < p * d
    ensures q * d + d <= p * d
  {
    if q >= p {
      Scale(d, p, q);
    }
    Scale(d, q + 1, p);
  }

  /** Merging two equally long longest codes. */
  lemma MergeLengths(freq: seq<nat>, len: seq<nat>, w: nat, c1: nat, c2: nat) returns (out: seq<nat>)
    requires Fits(freq, len, w) && Kraft(freq, len, w) <= Pow2(w)
    requires c1 < |freq| && c2 < |freq| && c1 != c2 && freq[c1] > 0 && freq[c2] > 0
    requires len[c1] == len[c2]
    ensures Fits(Merge(freq, c1, c2), out, w)
    ensures Kraft(Merge(freq, c1, c2), out, w) <= Pow2(w)
    ensures Cost(Merge(freq, c1, c2), out) + freq[c1] + freq[c2] == Cost(freq, len)
  {
    LengthPositive(freq, len, w, c1, c2);
    out := len[c1 := len[c1] - 1];
    MergeKraft(freq, len, w, c1, c2, out);
    MergeCost(freq, len, c1, c2, out);
  }

  lemma LengthPositive(freq: seq<nat>, len: seq<nat>, w: nat, c1: nat, c2: nat)
    requires Fits(freq, len, w) && Kraft(freq, len, w) <= Pow2(w)
    requires c1 < |freq| && c2 < |freq| && c1 != c2 && freq[c1] > 0 && freq[c2] > 0
    ensures len[c1] > 0
  {
    var k := KraftTerms(freq, len, w);
    var k1 := k[c1 := 0];
    SumUpdate(k, c1, 0);
    SumBounds(k1, c2);
  }

  lemma MergeKraft(freq: seq<nat>, len: seq<nat>, w: nat, c1: nat, c2: nat, out: seq<nat>)
    requires Fits(freq, len, w)
    requires c1 < |freq| && c2 < |freq| && c1 != c2 && freq[c1] > 0 && freq[c2] > 0
    requires len[c1] == len[c2] > 0 && out == len[c1 := len[c1] - 1]
    ensures Fits(Merge(freq, c1, c2), out, w)
    ensures Kraft(Merge(freq, c1, c2), out, w) == Kraft(freq, len, w)
  {
    var k := KraftTerms(freq, len, w);
    var v := Pow2(w - (len[c1] - 1));
    var k1 := k[c1 := v];
    assert KraftTerms(Merge(freq, c1, c2), out, w) == k1[c2 := 0];
    SumUpdate(k, c1, v);
    SumUpdate(k1, c2, 0);
  }

  lemma MergeCost(freq: seq<nat>, len: seq<nat>, c1: nat, c2: nat, out: seq<nat>)
    requires |freq| == |len| && c1 < |freq| && c2 < |freq| && c1 != c2
    requires len[c1] == len[c2] > 0 && out == len[c1 := len[c1] - 1]
    ensures Cost(Merge(freq, c1, c2), out) + freq[c1] + freq[c2] == Cost(freq, len)
  {
    var c := CostTerms(freq, len);
    var l := len[c1];
    var v := (freq[c1] + freq[c2]) * (l - 1);
    var c' := c[c1 := v];
    assert CostTerms(Merge(freq, c1, c2), out) == c'[c2 := 0];
    SumUpdate(c, c1, v);
    SumUpdate(c', c2, 0);
    Distribute(freq[c1], freq[c2], l);
  }

  lemma Distribute(a: int, b: int, l: int)
    ensures (a + b) * (l - 1) + a + b == a * l + b * l
  {
  }

  /** No code lengths that satisfy the Kraft inequality spend fewer bits than
      Huffman's algorithm. */
  lemma {:induction false} HuffmanIsOptimal(freq: seq<nat>, len: seq<nat>, w: nat)
    requires Fits(freq, len, w) && Kraft(freq, len, w) <= Pow2(w)
    ensures HuffmanCost(freq) <= Cost(freq, len)
    decreases Live(freq)
  {
    var c1 := Least(freq, -1);
    var c2 := Least(freq, c1);
    if c2 < 0 || c1 < 0 {
      SumNonNegative(CostTerms(freq, len));
      return;
    }
    var l := len;
    var m := Longest(freq, l, -1, c1);
    if m != c1 {
      l := SwapLengths(freq, l, w, c1, m);
    }
    var m2 := Longest(freq, l, c1, c2);
    if m2 != c2 {
      l := SwapLengths(freq, l, w, c2, m2);
    }
    l := ShortenLongest(freq, l, w, c1, c2);
    var out := MergeLengths(freq, l, w, c1, c2);
    MergeLive(freq, c1, c2);
    HuffmanIsOptimal(Merge(freq, c1, c2), out, w);
  }
}
