/** How large the counts must be before Huffman's procedure makes long codes: a branch
    of some depth holds at least a Fibonacci number of occurrences. */
module HuffmanDepth {
  import opened Arith
  import opened HuffmanSpec
  import opened HuffmanForest
  import opened CodeLengths
  import opened DerivedTable
  import opened OptimalTable
  import opened GeneratedTables

  function Fib(n: nat): (f: nat)
    ensures f >= if n == 0 then 0 else 1
  {
    if n < 2 then n else Fib(n - 1) + Fib(n - 2)
  }

  lemma {:induction false} FibMono(m: nat, n: nat)
    requires m <= n
    ensures Fib(m) <= Fib(n)
    decreases n
  {
    if m < n {
      FibMono(m, n - 1);
    }
  }

  /** A symbol at this depth: its root's count, and every other root's, is large. */
  ghost predicate HeavyAt(f: Forest, s: int)
    requires Shape(|f.freq|, f) && 0 <= s < |f.freq|
  {
    && 0 <= f.home[s] < |f.freq| && f.freq[f.home[s]] >= Fib(f.size[s] + 2)
    && forall e :: 0 <= e < |f.freq| && e != f.home[s] && f.freq[e] > 0 ==> f.freq[e] >= Fib(f.size[s] + 1)
  }

  ghost predicate Heavy(f: Forest)
  {
    Shape(|f.freq|, f) && forall s :: 0 <= s < |f.freq| && f.home[s] >= 0 ==> HeavyAt(f, s)
  }

  /** One more level of a branch. */
  lemma JoinHeavyAt(f: Forest, c1: int, c2: int, s: int)
    requires Heavy(f) && Joinable(f, c1, c2) && Pair(f, c1, c2)
    requires 0 <= s < |f.freq| && f.home[s] >= 0
    ensures Shape(|f.freq|, Join(f, c1, c2)) && HeavyAt(Join(f, c1, c2), s)
  {
    hide Fib;
    assert HeavyAt(f, s);
    assert IsLeast(f.freq, -1, c1) && IsLeast(f.freq, c1, c2);
    NextFib(f.size[s]);
  }

  lemma NextFib(d: nat)
    ensures Fib(d + 3) == Fib(d + 2) + Fib(d + 1)
  {
  }

  lemma {:induction false} RunHeavy(f: Forest)
    requires Shape(|f.freq|, f) && Linked(f) && Heavy(f)
    ensures |Run(f).freq| == |f.freq| && Heavy(Run(f)) && Sum(Run(f).freq) == Sum(f.freq)
    decreases Live(f.freq)
  {
    hide HeavyAt, Live, Linked;
    var c1 := Least(f.freq, -1);
    var c2 := Least(f.freq, c1);
    if c1 >= 0 && c2 >= 0 {
      PairJoinable(f, c1, c2);
      JoinLinked(f, c1, c2);
      MergeLive(f.freq, c1, c2);
      JoinTotal(f, c1, c2);
      forall s | 0 <= s < |f.freq| && Join(f, c1, c2).home[s] >= 0
        ensures HeavyAt(Join(f, c1, c2), s)
      {
        JoinHeavyAt(f, c1, c2, s);
      }
      RunHeavy(Join(f, c1, c2));
    }
  }

  /** A code of length d takes at least Fib(d + 2) occurrences in all. */
  lemma LongCodesNeedCounts(orig: seq<nat>, s: nat)
    requires |orig| > 0 && s < |orig| && orig[s] > 0 && orig[|orig| - 1] == 1
    ensures Fib(HuffmanSizes(orig)[s] + 2) <= Sum(orig)
  {
    hide Fib, Run, Inv, Start, Linked;
    var f := Start(orig);
    StartLinked(orig);
    StartHeavy(orig);
    RunHeavy(f);
    StartInv(orig);
    RunInv(orig, f);
    var g := Run(f);
    StillHome(orig, g, s);
    assert HeavyAt(g, s);
    SumElement(g.freq, g.home[s]);
  }

  lemma StartHeavy(orig: seq<nat>)
    ensures Heavy(Start(orig))
  {
    var f := Start(orig);
    forall s | 0 <= s < |orig| && f.home[s] >= 0
      ensures HeavyAt(f, s)
    {
      assert Fib(1) == 1 && Fib(2) == 1;
    }
  }

  lemma StillHome(orig: seq<nat>, g: Forest, s: nat)
    requires Inv(orig, g) && s < |orig| && orig[s] > 0
    ensures Shape(|g.freq|, g) && |g.freq| == |orig| && g.home[s] >= 0
  {
  }

  lemma SumElement(t: seq<nat>, i: int)
    requires 0 <= i < |t|
    ensures t[i] <= Sum(t)
  {
    SumUpdate(t, i, 0);
    SumNonNegative(t[i := 0]);
  }

  /** Fewer occurrences than Fib(m + 3), the pseudo-symbol's included, and no code is
      longer than m. */
  lemma SizesWithin(orig: seq<nat>, m: nat, s: nat)
    requires |orig| > 0 && orig[|orig| - 1] == 1 && Sum(orig) < Fib(m + 3) && s < |orig|
    ensures HuffmanSizes(orig)[s] <= m
  {
    hide Fib;
    var d := HuffmanSizes(orig)[s];
    if orig[s] > 0 {
      LongCodesNeedCounts(orig, s);
      if d > m {
        FibMono(m + 3, d + 2);
      }
    } else {
      HuffmanSizesOptimal(orig);
    }
  }

  /** The first number that is too large for codes of 32 bits, and for 16 bits. */
  lemma FibValues()
    ensures Fib(19) == 4181 && Fib(35) == 9227465
  {
    assert Fib(10) == 55 && Fib(11) == 89;
    assert Fib(18) == 2584 && Fib(19) == 4181;
    assert Fib(26) == 121393 && Fib(27) == 196418;
    assert Fib(34) == 5702887;
  }

  /** The length-overflow error does not happen below 9227465 occurrences. */
  lemma NoOverflow(freq: seq<nat>)
    requires Countable(freq) && Sum(WithPseudo(freq)) < 9227465
    ensures Tabulated(freq)
  {
    hide Fib, HuffmanSizes;
    FibValues();
    var orig := WithPseudo(freq);
    forall s | 0 <= s < |orig|
      ensures HuffmanSizes(orig)[s] <= MAX_CLEN
    {
      SizesWithin(orig, MAX_CLEN, s);
    }
  }

  /** Below 4181 occurrences no length is limited, so the table is as short as any. */
  lemma SmallCountsOptimal(freq: seq<nat>, bits: seq<nat>, huffval: seq<nat>, t: Codes, len: seq<nat>, w: nat)
    requires Generated(freq, bits, huffval) && Derived(t, bits, huffval) && Sum(WithPseudo(freq)) < 4181
    requires Fits(WithPseudo(freq), len, w) && Kraft(WithPseudo(freq), len, w) <= Pow2(w)
    ensures Cost(WithPseudo(freq), t.si + [SizesOf(freq)[256]]) <= Cost(WithPseudo(freq), len)
  {
    hide Fib, HuffmanSizes;
    FibValues();
    SizesWithin(WithPseudo(freq), MAX_LEN, 256);
    GeneratedOptimal(freq, bits, huffval, t, len, w);
  }
}
