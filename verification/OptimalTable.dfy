/** jpeg_gen_optimal_table: from symbol counts to a Huffman table. */
module OptimalTable {
  import opened Arith
  import opened HuffmanSpec
  import opened HuffmanForest
  import opened CodeLengths

  const SYMBOLS := 257            // 256 real symbols and the pseudo-symbol
  const MAX_COUNT := 1000000000   // start value of the search for a least count

  datatype Outcome = Done | LengthOverflow

  /** A table as the file header carries it. */
  class HuffTable {
    var bits: seq<nat>      // bits[k] is the number of codes of length k
    var huffval: seq<nat>   // 256 entries; the first ones list the symbols, in order of code length
    var sentTable: bool

    constructor ()
      ensures |bits| == MAX_LEN + 1 && |huffval| == 256 && !sentTable
      ensures forall p :: 0 <= p < 256 ==> huffval[p] < 256
    {
      bits, huffval, sentTable := seq(MAX_LEN + 1, _ => 0), seq(256, _ => 0), false;
    }
  }

  // ----- What the method computes -----

  /** The counts with the pseudo-symbol put in. */
  function WithPseudo(freq: seq<nat>): seq<nat>
    requires |freq| == SYMBOLS
  {
    freq[256 := 1]
  }

  /** The counts by length after limiting, with the pseudo-symbol's code taken
      away from the longest length in use. */
  ghost function TableBits(size: seq<nat>): (bits: seq<nat>)
    requires SizesOk(size)
  {
    var b := Limit(Histogram(size), MAX_CLEN);
    var l := Donor(b, MAX_LEN);
    if b[l] == 0 then b[..MAX_LEN + 1] else b[l := b[l] - 1][..MAX_LEN + 1]
  }

  ghost predicate Countable(freq: seq<nat>)
  {
    && |freq| == SYMBOLS
    && Sum(WithPseudo(freq)) <= MAX_COUNT
    && Live(WithPseudo(freq)) <= 255
    && exists s :: 0 <= s < 256 && freq[s] > 0
  }

  /** In numbers. */
  lemma CountableInNumbers(freq: seq<nat>)
    ensures Countable(freq) <==>
      && |freq| == 257 && Sum(WithPseudo(freq)) <= 1000000000 && Live(WithPseudo(freq)) <= 255
      && exists s :: 0 <= s < 256 && freq[s] > 0
  {
  }

  /** What the counts by length are known to be before limiting. */
  lemma HistogramFull(freq: seq<nat>)
    requires Countable(freq) && SizesOk(HuffmanSizes(WithPseudo(freq)))
    ensures FullTree(Histogram(HuffmanSizes(WithPseudo(freq))), MAX_CLEN)
    ensures Sum(Histogram(HuffmanSizes(WithPseudo(freq)))) == Live(WithPseudo(freq))
  {
    var orig := WithPseudo(freq);
    var size := HuffmanSizes(orig);
    var q :| 0 <= q < 256 && freq[q] > 0;
    HuffmanSizesOptimal(orig);
    CountedHaveCodes(orig, q);
    HistogramWeight(size);
    HistogramCount(size);
    assert NonZero(size) == Marks(orig);
    KraftTo32(orig, size);
  }

  lemma KraftTo32(orig: seq<nat>, size: seq<nat>)
    requires |orig| == SYMBOLS == |size| && SizesOk(size) && Fits(orig, size, SYMBOLS)
    requires forall s :: 0 <= s < |orig| ==> (size[s] > 0 <==> orig[s] > 0)
    requires Kraft(orig, size, SYMBOLS) == Pow2(SYMBOLS)
    ensures Sum(SizeTerms(size, MAX_CLEN)) == Pow2(MAX_CLEN)
  {
    var e := SYMBOLS - MAX_CLEN;
    var t := SizeTerms(size, MAX_CLEN);
    var u := KraftTerms(orig, size, SYMBOLS);
    forall s | 0 <= s < |u|
      ensures u[s] == Pow2(e) * t[s]
    {
      if size[s] > 0 {
        Pow2Add(e, MAX_CLEN - size[s]);
      }
    }
    SumScale(t, Pow2(e), u);
    Pow2Add(e, MAX_CLEN);
    Cancel(Pow2(e), Sum(t), Pow2(MAX_CLEN));
  }

  lemma Cancel(p: int, a: int, b: int)
    requires p > 0 && p * a == p * b
    ensures a == b
  {
    assert p * (a - b) == 0;
  }

  // ----- The method -----

  /** The smallest nonzero count other than `skip`; ties go to the larger
      symbol number. */
  method SmallestCount(freq: array<nat>, skip: int) returns (c: int)
    requires forall i :: 0 <= i < freq.Length ==> freq[i] <= MAX_COUNT
    ensures c == Least(freq[..], skip)
  {
    c := -1;
    var v := MAX_COUNT;
    for i := 0 to freq.Length
      invariant c == Least(freq[..i], skip)
      invariant c < i && v == if c < 0 then MAX_COUNT else freq[c]
    {
      assert freq[..i + 1][..i] == freq[..i];
      if freq[i] != 0 && freq[i] <= v && i != skip {
        v := freq[i];
        c := i;
      }
    }
    assert freq[..] == freq[..freq.Length];
  }

  /** Adds one to the code size of everything in c's branch and returns the
      last symbol of the branch. */
  method BumpBranch(codesize: array<nat>, others: array<int>, c: int,
                    ghost chain: seq<int>, ghost home: seq<int>)
    returns (last: int)
    requires codesize.Length == others.Length == |home|
    requires IsChain(chain, others[..], home, c) && chain != []
    requires forall s :: 0 <= s < |home| ==> (s in chain <==> home[s] == c)
    modifies codesize
    ensures last == chain[|chain| - 1]
    ensures forall s :: 0 <= s < codesize.Length ==>
      codesize[s] == old(codesize[s]) + if home[s] == c then 1 else 0
  {
    ghost var next := others[..];
    last := c;
    codesize[last] := codesize[last] + 1;
    ghost var k := 0;
    while others[last] >= 0
      invariant others[..] == next
      invariant 0 <= k < |chain| && last == chain[k]
      invariant others[last] == if k + 1 < |chain| then chain[k + 1] else -1
      invariant forall s :: 0 <= s < codesize.Length ==>
        codesize[s] == old(codesize[s]) + if s in chain[..k + 1] then 1 else 0
      decreases |chain| - k
    {
      last := others[last];
      assert chain[..k + 2] == chain[..k + 1] + [chain[k + 1]];
      codesize[last] := codesize[last] + 1;
      k := k + 1;
    }
    assert chain[..k + 1] == chain;
  }

  /** One round of Huffman's basic algorithm; false when one count is left. */
  method MergeLeast(freq: array<nat>, codesize: array<nat>, others: array<int>, ghost f: Forest)
    returns (more: bool)
    requires freq.Length == codesize.Length == others.Length == |f.freq| && freq != codesize
    requires Shape(|f.freq|, f) && Linked(f) && Sum(f.freq) <= MAX_COUNT
    requires freq[..] == f.freq && codesize[..] == f.size && others[..] == f.next
    modifies freq, codesize, others
    ensures more <==> Least(f.freq, -1) >= 0 && Least(f.freq, Least(f.freq, -1)) >= 0
    ensures more ==>
      var c1 := Least(f.freq, -1);
      var c2 := Least(f.freq, c1);
      && Joinable(f, c1, c2)
      && freq[..] == Join(f, c1, c2).freq
      && codesize[..] == Join(f, c1, c2).size && others[..] == Join(f, c1, c2).next
    ensures !more ==> freq[..] == f.freq && codesize[..] == f.size && others[..] == f.next
  {
    CountsBounded(freq[..]);
    var c1 := SmallestCount(freq, -1);
    var c2 := SmallestCount(freq, c1);
    if c2 < 0 {
      return false;
    }
    EmptyLeast(f.freq);
    PairJoinable(f, c1, c2);
    MergeBranches(freq, codesize, others, f, c1, c2);
    return true;
  }

  /** Huffman's basic algorithm. */
  method AssignCodeSizes(freq: array<nat>, codesize: array<nat>, others: array<int>)
    requires freq.Length == codesize.Length == others.Length == SYMBOLS
    requires freq != codesize
    requires freq[256] == 1 && Sum(freq[..]) <= MAX_COUNT
    requires forall i :: 0 <= i < SYMBOLS ==> codesize[i] == 0 && others[i] == -1
    modifies freq, codesize, others
    ensures codesize[..] == HuffmanSizes(old(freq[..]))
  {
    ghost var orig := freq[..];
    ghost var f := Start(orig);
    StartLinked(orig);
    var more := true;
    while more
      invariant Shape(SYMBOLS, f) && Linked(f) && Sum(f.freq) == Sum(orig)
      invariant Run(f) == Run(Start(orig))
      invariant !more ==> Run(f) == f
      invariant freq[..] == f.freq && codesize[..] == f.size && others[..] == f.next
      decreases more, Live(f.freq)
    {
      more := MergeLeast(freq, codesize, others, f);
      if more {
        f := NextForest(f);
      }
    }
  }

  /** The forest after one more merge. */
  ghost method NextForest(f: Forest) returns (g: Forest)
    requires Shape(|f.freq|, f) && Linked(f)
    requires Least(f.freq, -1) >= 0 && Least(f.freq, Least(f.freq, -1)) >= 0
    ensures Joinable(f, Least(f.freq, -1), Least(f.freq, Least(f.freq, -1)))
    ensures g == Join(f, Least(f.freq, -1), Least(f.freq, Least(f.freq, -1)))
    ensures Shape(|f.freq|, g) && Linked(g) && Run(g) == Run(f)
    ensures Sum(g.freq) == Sum(f.freq) && Live(g.freq) < Live(f.freq)
  {
    var c1 := Least(f.freq, -1);
    var c2 := Least(f.freq, c1);
    PairJoinable(f, c1, c2);
    JoinLinked(f, c1, c2);
    JoinTotal(f, c1, c2);
    MergeLive(f.freq, c1, c2);
    g := Join(f, c1, c2);
  }

  lemma CountsBounded(freq: seq<nat>)
    ensures forall i :: 0 <= i < |freq| ==> freq[i] <= Sum(freq)
  {
    forall i | 0 <= i < |freq|
      ensures freq[i] <= Sum(freq)
    {
      SumBounds(freq, i);
    }
  }

  /** One merge: the counts are added, both branches get one bit longer, and
      c2's branch is chained onto c1's. */
  method MergeBranches(freq: array<nat>, codesize: array<nat>, others: array<int>,
                       ghost f: Forest, c1: int, c2: int)
    requires freq.Length == codesize.Length == others.Length == |f.freq| && freq != codesize
    requires Shape(|f.freq|, f) && Linked(f) && Joinable(f, c1, c2)
    requires freq[..] == f.freq && codesize[..] == f.size && others[..] == f.next
    modifies freq, codesize, others
    ensures freq[..] == Join(f, c1, c2).freq
    ensures codesize[..] == Join(f, c1, c2).size
    ensures others[..] == Join(f, c1, c2).next
  {
    freq[c1] := freq[c1] + freq[c2];
    freq[c2] := 0;
    LinkBranches(codesize, others, f, c1, c2);
  }

  method LinkBranches(codesize: array<nat>, others: array<int>, ghost f: Forest, c1: int, c2: int)
    requires codesize.Length == others.Length == |f.freq|
    requires Shape(|f.freq|, f) && Linked(f) && Joinable(f, c1, c2)
    requires others[..] == f.next
    modifies codesize, others
    ensures others[..] == f.next[f.chain[c1][|f.chain[c1]| - 1] := c2]
    ensures forall s :: 0 <= s < codesize.Length ==>
      codesize[s] == old(codesize[s]) + if f.home[s] == c1 || f.home[s] == c2 then 1 else 0
  {
    BranchFacts(f, c1, c2);
    var last := BumpBranch(codesize, others, c1, f.chain[c1], f.home);
    others[last] := c2;
    var _ := BumpBranch(codesize, others, c2, f.chain[c2], f.home);
  }

  lemma BranchFacts(f: Forest, c1: int, c2: int)
    requires Shape(|f.freq|, f) && Linked(f) && Joinable(f, c1, c2)
    ensures IsChain(f.chain[c1], f.next, f.home, c1)
    ensures IsChain(f.chain[c2], f.next[f.chain[c1][|f.chain[c1]| - 1] := c2], f.home, c2)
    ensures forall s :: 0 <= s < |f.freq| ==> (s in f.chain[c1] <==> f.home[s] == c1)
    ensures forall s :: 0 <= s < |f.freq| ==> (s in f.chain[c2] <==> f.home[s] == c2)
  {
    var last := f.chain[c1][|f.chain[c1]| - 1];
    assert IsChain(f.chain[c1], f.next, f.home, c1) && IsChain(f.chain[c2], f.next, f.home, c2);
    assert f.home[last] == c1;
    BranchMembers(f, c1);
    BranchMembers(f, c2);
    ChainElsewhere(f.chain[c2], f.next, f.next[last := c2], f.home, c2, last);
  }

  lemma BranchMembers(f: Forest, r: int)
    requires Shape(|f.freq|, f) && Linked(f) && 0 <= r < |f.freq|
    ensures forall s :: 0 <= s < |f.freq| ==> (s in f.chain[r] <==> f.home[s] == r)
  {
    assert IsChain(f.chain[r], f.next, f.home, r);
  }

  /** A link changed outside a branch leaves the branch alone. */
  lemma ChainElsewhere(c: seq<int>, next: seq<int>, next': seq<int>, home: seq<int>, r: int, x: int)
    requires |next| == |home| == |next'| && IsChain(c, next, home, r)
    requires 0 <= x < |home| && home[x] != r
    requires forall s :: 0 <= s < |next| && s != x ==> next'[s] == next[s]
    ensures IsChain(c, next', home, r)
  {
  }

  const BYTE := 256

  /** Count the symbols of each code length; `bits` are bytes. */
  method CountLengths(codesize: array<nat>, bits: array<nat>) returns (out: Outcome)
    requires bits.Length == MAX_CLEN + 1 && bits != codesize
    requires forall k :: 0 <= k < bits.Length ==> bits[k] == 0
    requires Sum(NonZero(codesize[..])) <= 255
    modifies bits
    ensures out == Done <==> SizesOk(codesize[..])
    ensures out == Done ==> bits[..] == Histogram(codesize[..])
  {
    assert codesize[..0] == [];
    for i := 0 to codesize.Length
      invariant SizesOk(codesize[..i]) && bits[..] == Histogram(codesize[..i])
    {
      ghost var size := codesize[..i + 1];
      assert size[..i] == codesize[..i];
      if codesize[i] != 0 {
        if codesize[i] > MAX_CLEN {
          assert codesize[..][i] > MAX_CLEN;
          return LengthOverflow;
        }
        PrefixCount(codesize[..], i);
        HistogramCount(codesize[..i]);
        SumBounds(bits[..], codesize[i]);
        bits[codesize[i]] := (bits[codesize[i]] + 1) % BYTE;
      }
    }
    assert codesize[..codesize.Length] == codesize[..];
    return Done;
  }

  /** A symbol with a code leaves room for one more in the counts before it. */
  lemma PrefixCount(size: seq<nat>, i: nat)
    requires i < |size| && size[i] > 0
    ensures Sum(NonZero(size[..i])) + 1 <= Sum(NonZero(size))
  {
    var a, b := NonZero(size[..i]), NonZero(size[i..]);
    assert NonZero(size) == a + b;
    SumConcat(a, b);
    SumBounds(b, 0);
  }

  /** Bring every length down to 16. */
  method LimitLengths(bits: array<nat>)
    requires bits.Length == MAX_CLEN + 1 && FullTree(bits[..], MAX_CLEN)
    modifies bits
    ensures bits[..] == Limit(old(bits[..]), MAX_CLEN)
  {
    var i := MAX_CLEN;
    while i > MAX_LEN
      invariant MAX_LEN <= i <= MAX_CLEN && FullTree(bits[..], i)
      invariant Limit(bits[..], i) == Limit(old(bits[..]), MAX_CLEN)
    {
      while bits[i] > 0
        invariant FullTree(bits[..], i)
        invariant Limit(bits[..], i) == Limit(old(bits[..]), MAX_CLEN)
        decreases bits[i]
      {
        StepFull(bits[..], i);
        LimitOnce(bits, i);
      }
      i := i - 1;
    }
  }

  /** One K.2 step; the arithmetic is on bytes and never wraps. */
  method LimitOnce(bits: array<nat>, i: nat)
    requires bits.Length == MAX_CLEN + 1 && MAX_LEN < i <= MAX_CLEN
    requires FullTree(bits[..], i) && Stepable(bits[..], i)
    modifies bits
    ensures bits[..] == LimitStep(old(bits[..]), i)
  {
    StepInBytes(bits[..], i);
    var j := NearestUsed(bits, i - 2);
    MoveCodes(bits, i, j);
  }

  /** Walks down from length `from` to a length in use. */
  method NearestUsed(bits: array<nat>, from: nat) returns (j: nat)
    requires from < bits.Length && Donor(bits[..], from) > 0
    ensures j == Donor(bits[..], from)
  {
    j := from;
    while bits[j] == 0
      invariant 0 < j <= from && Donor(bits[..], j) == Donor(bits[..], from)
      decreases j
    {
      j := j - 1;
    }
  }

  method MoveCodes(bits: array<nat>, i: nat, j: nat)
    requires 0 < j < i - 1 && i < bits.Length
    requires 2 <= bits[i] < 256 && 0 < bits[j] < 256
    requires bits[i - 1] + 1 < 256 && bits[j + 1] + 3 < 256
    modifies bits
    ensures
      var a := old(bits[..])[i := old(bits[i]) - 2];
      var b := a[i - 1 := a[i - 1] + 1];
      var c := b[j + 1 := b[j + 1] + 2];
      bits[..] == c[j := c[j] - 1]
  {
    bits[i] := (bits[i] - 2) % BYTE;
    bits[i - 1] := (bits[i - 1] + 1) % BYTE;
    bits[j + 1] := (bits[j + 1] + 2) % BYTE;
    bits[j] := (bits[j] - 1) % BYTE;
  }

  /** No count leaves the range of a byte in the middle of a step. */
  lemma StepInBytes(bits: seq<nat>, i: nat)
    requires IsBits(bits) && Stepable(bits, i) && Sum(bits) <= 255
    ensures var j := Donor(bits, i - 2);
      && 0 < j < i - 1 && 2 <= bits[i] < 256 && 0 < bits[j] < 256
      && bits[i - 1] + 1 < 256 && bits[j + 1] + 3 < 256
      && (j + 1 == i - 1 ==> bits[j + 1] + 3 < 256)
  {
    var j := Donor(bits, i - 2);
    AtMost(bits, i, j);
    AtMost(bits, i, i - 1);
    ThreeAtMost(bits, i, j, j + 1);
  }

  lemma AtMost(b: seq<nat>, x: nat, y: nat)
    requires x < |b| && y < |b| && x != y
    ensures b[x] + b[y] <= Sum(b)
  {
    SumUpdate(b, x, 0);
    SumBounds(b[x := 0], y);
  }

  lemma ThreeAtMost(b: seq<nat>, x: nat, y: nat, z: nat)
    requires x < |b| && y < |b| && z < |b| && x != y && x != z && y != z
    ensures b[x] + b[y] + b[z] <= Sum(b)
  {
    SumUpdate(b, x, 0);
    AtMost(b[x := 0], y, z);
  }

  /** Take the pseudo-symbol's code away from the longest length in use. */
  method DropPseudo(bits: array<nat>)
    requires bits.Length == MAX_CLEN + 1 && FullTree(bits[..], MAX_LEN)
    modifies bits
    ensures old(bits[Donor(bits[..], MAX_LEN)]) > 0
    ensures bits[..] == old(bits[..][Donor(bits[..], MAX_LEN) := bits[Donor(bits[..], MAX_LEN)] - 1])
  {
    SomeLength(bits[..]);
    CountsBounded(bits[..]);
    var i := NearestUsed(bits, MAX_LEN);
    bits[i] := (bits[i] - 1) % BYTE;
  }

  lemma SomeLength(bits: seq<nat>)
    requires FullTree(bits, MAX_LEN)
    ensures Donor(bits, MAX_LEN) > 0
  {
    if Donor(bits, MAX_LEN) == 0 {
      SumZero(WeightTerms(bits, MAX_CLEN));
    }
  }

  /** The real symbols, shorter codes first. */
  method ListSymbols(codesize: array<nat>) returns (huffval: seq<nat>)
    requires codesize.Length == SYMBOLS
    ensures huffval == Listing(codesize[..256], MAX_CLEN)
  {
    huffval := [];
    ghost var size := codesize[..256];
    for i := 1 to MAX_CLEN + 1
      invariant huffval == Listing(size, i - 1)
    {
      assert size[..0] == [];
      ghost var before := huffval;
      for j := 0 to 256
        invariant huffval == before + AtLength(size[..j], i)
      {
        assert size[..j + 1][..j] == size[..j];
        if codesize[j] == i {
          huffval := huffval + [j];
        }
      }
      assert size[..256] == size;
    }
  }

  /** The real symbols are all the coded ones but the pseudo-symbol. */
  lemma RealSymbolCount(size: seq<nat>)
    requires |size| == SYMBOLS && SizesOk(size) && size[256] > 0
    ensures SizesOk(size[..256])
    ensures Histogram(size) == Histogram(size[..256])[size[256] := Histogram(size[..256])[size[256]] + 1]
    ensures |Listing(size[..256], MAX_CLEN)| == Sum(Histogram(size[..256]))
    ensures |Listing(size[..256], MAX_CLEN)| == Sum(Histogram(size)) - 1
  {
    var front := size[..256];
    assert size[..|size| - 1] == front;
    ListingTotal(front);
    var h := Histogram(front);
    SumUpdate(h, size[256], h[size[256]] + 1);
  }

  lemma ListingTotal(size: seq<nat>)
    requires SizesOk(size)
    ensures |Listing(size, MAX_CLEN)| == Sum(Histogram(size))
  {
    ListingCount(size, MAX_CLEN);
    var h := Histogram(size);
    assert h[..MAX_CLEN + 1] == h;
  }

  /** From code sizes to the table: count, limit, drop the pseudo-symbol, list. */
  method TableFromSizes(htbl: HuffTable, codesize: array<nat>, ghost freq: seq<nat>) returns (out: Outcome)
    requires Countable(freq) && codesize.Length == SYMBOLS && codesize[..] == HuffmanSizes(WithPseudo(freq))
    requires |htbl.huffval| == 256
    modifies htbl
    ensures out == Done <==> SizesOk(codesize[..])
    ensures out == Done ==>
      && htbl.bits == TableBits(codesize[..])
      && |Listing(codesize[..256], MAX_CLEN)| <= 255
      && htbl.huffval == Listing(codesize[..256], MAX_CLEN) + old(htbl.huffval)[|Listing(codesize[..256], MAX_CLEN)|..]
      && !htbl.sentTable
    ensures out != Done ==> htbl.bits == old(htbl.bits) && htbl.huffval == old(htbl.huffval)
  {
    ghost var size := codesize[..];
    CodesCounted(freq);
    var bits;
    out, bits := LimitedCounts(codesize, freq);
    if out != Done {
      return;
    }
    assert codesize[..256] == size[..256];
    HistogramFull(freq);
    RealSymbolCount(size);
    var list := ListSymbols(codesize);
    htbl.bits := bits;
    htbl.huffval := list + htbl.huffval[|list|..];
    htbl.sentTable := false;
  }

  /** The counts by length that the table gets. */
  method LimitedCounts(codesize: array<nat>, ghost freq: seq<nat>) returns (out: Outcome, counts: seq<nat>)
    requires Countable(freq) && codesize.Length == SYMBOLS && codesize[..] == HuffmanSizes(WithPseudo(freq))
    ensures out == Done <==> SizesOk(codesize[..])
    ensures out == Done ==> counts == TableBits(codesize[..])
  {
    var bits := new nat[MAX_CLEN + 1](_ => 0);
    counts := [];
    CodesCounted(freq);
    out := CountLengths(codesize, bits);
    if out != Done {
      return;
    }
    HistogramFull(freq);
    LimitCorrect(bits[..], MAX_CLEN);
    LimitLengths(bits);
    DropPseudo(bits);
    counts := bits[..MAX_LEN + 1];
  }

  /** The table for a set of counts; the counts are used up. */
  method GenOptimalTable(htbl: HuffTable, freq: array<nat>) returns (out: Outcome)
    requires freq.Length == SYMBOLS && Countable(freq[..]) && |htbl.huffval| == 256
    modifies htbl, freq
    ensures var size := HuffmanSizes(WithPseudo(old(freq[..])));
      && (out == Done <==> SizesOk(size)) && (out == Done <==> forall s :: 0 <= s < |size| ==> size[s] <= 32)
      && (out == Done ==>
            && |htbl.bits| == 17 && htbl.bits == TableBits(size)
            && |Listing(size[..256], MAX_CLEN)| <= 255
            && htbl.huffval == Listing(size[..256], MAX_CLEN) + old(htbl.huffval)[|Listing(size[..256], MAX_CLEN)|..]
            && !htbl.sentTable)
      && (out != Done ==> htbl.bits == old(htbl.bits) && htbl.huffval == old(htbl.huffval))
  {
    ghost var counts := freq[..];
    var codesize := new nat[SYMBOLS](_ => 0);
    var others := new int[SYMBOLS](_ => -1);
    freq[256] := 1;
    assert freq[..] == WithPseudo(counts);
    AssignCodeSizes(freq, codesize, others);
    assert codesize[..256] == codesize[..][..256];
    out := TableFromSizes(htbl, codesize, counts);
  }

  lemma CodesCounted(freq: seq<nat>)
    requires Countable(freq)
    ensures |HuffmanSizes(WithPseudo(freq))| == SYMBOLS
    ensures Sum(NonZero(HuffmanSizes(WithPseudo(freq)))) == Live(WithPseudo(freq))
    ensures HuffmanSizes(WithPseudo(freq))[256] > 0
  {
    var orig := WithPseudo(freq);
    var q :| 0 <= q < 256 && freq[q] > 0;
    CountedHaveCodes(orig, q);
    assert NonZero(HuffmanSizes(orig)) == Marks(orig);
  }
}
