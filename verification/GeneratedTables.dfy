/** What jpeg_gen_optimal_table's tables are worth: the limits of a table
    segment are met, jpeg_make_c_derived_tbl takes them, exactly the counted
    symbols get codes, and short enough tables are optimal. */
module GeneratedTables {
  import opened Arith
  import opened HuffmanSpec
  import opened HuffmanForest
  import opened CodeLengths
  import opened DerivedTable
  import opened OptimalTable

  /** The counts lead to a table, not to the length-overflow error. */
  ghost predicate Tabulated(freq: seq<nat>)
  {
    Countable(freq) && SizesOk(HuffmanSizes(WithPseudo(freq)))
  }

  ghost function SizesOf(freq: seq<nat>): (size: seq<nat>)
    requires |freq| == SYMBOLS
    ensures |size| == SYMBOLS
  {
    HuffmanSizes(WithPseudo(freq))
  }

  /** The table header generated from the counts; `tail` is whatever the
      unused entries of huffval hold. */
  ghost predicate Generated(freq: seq<nat>, bits: seq<nat>, huffval: seq<nat>)
  {
    && Tabulated(freq)
    && bits == TableBits(SizesOf(freq))
    && |huffval| == 256
    && Listing(SizesOf(freq)[..256], MAX_CLEN) <= huffval
  }

  // ----- The header -----

  /** Lengths are at most 16, there is one code for each counted symbol, and
      exactly one slot of the longest length stays free. */
  lemma TableShape(freq: seq<nat>) returns (longest: nat)
    requires Tabulated(freq)
    ensures var bits := TableBits(SizesOf(freq));
      && |bits| == MAX_LEN + 1 && bits[0] == 0
      && 1 <= longest <= MAX_LEN && bits[longest] > 0
      && (forall k :: longest < k <= MAX_LEN ==> bits[k] == 0)
      && Weight(bits, MAX_LEN) == Pow2(MAX_LEN) - Pow2(MAX_LEN - longest)
      && Sum(bits) == Live(WithPseudo(freq)) - 1
  {
    var h := Histogram(SizesOf(freq));
    HistogramFull(freq);
    LimitCorrect(h, MAX_CLEN);
    longest := FullTableShape(Limit(h, MAX_CLEN));
  }

  lemma FullTableShape(b: seq<nat>) returns (longest: nat)
    requires FullTree(b, MAX_LEN)
    ensures longest == Donor(b, MAX_LEN) && b[longest] > 0
    ensures var bits := b[longest := b[longest] - 1][..MAX_LEN + 1];
      && |bits| == MAX_LEN + 1 && bits[0] == 0
      && 1 <= longest <= MAX_LEN && bits[longest] > 0
      && (forall k :: longest < k <= MAX_LEN ==> bits[k] == 0)
      && Weight(bits, MAX_LEN) == Pow2(MAX_LEN) - Pow2(MAX_LEN - longest)
      && Sum(bits) == Sum(b) - 1
  {
    SomeLength(b);
    longest := Donor(b, MAX_LEN);
    LongestPaired(b, longest);
    DropOne(b, b[longest := b[longest] - 1], longest);
  }

  lemma DropOne(b: seq<nat>, c: seq<nat>, l: nat)
    requires IsBits(b) && 1 <= l <= MAX_LEN && b[l] > 0 && c == b[l := b[l] + -1]
    requires Weight(b, MAX_CLEN) == Pow2(MAX_CLEN)
    requires forall k :: MAX_LEN < k < |b| ==> b[k] == 0
    ensures Sum(c[..MAX_LEN + 1]) == Sum(b) - 1
    ensures Weight(c[..MAX_LEN + 1], MAX_LEN) == Pow2(MAX_LEN) - Pow2(MAX_LEN - l)
  {
    WeightUpdate(b, l, -1);
    CountUpdate(b, l, -1);
    DropTail(c, l);
  }

  lemma DropTail(c: seq<nat>, l: nat)
    requires IsBits(c) && l <= MAX_LEN && forall k :: MAX_LEN < k < |c| ==> c[k] == 0
    requires Weight(c, MAX_CLEN) == Pow2(MAX_CLEN) - Pow2(MAX_CLEN - l)
    ensures Sum(c[..MAX_LEN + 1]) == Sum(c)
    ensures Weight(c[..MAX_LEN + 1], MAX_LEN) == Pow2(MAX_LEN) - Pow2(MAX_LEN - l)
  {
    TailCount(c);
    TailWeight(c);
    HalfScale(Weight(c, MAX_CLEN), Weight(c[..MAX_LEN + 1], MAX_LEN), l);
  }

  lemma HalfScale(big: int, small: int, l: nat)
    requires l <= MAX_LEN
    requires big == Pow2(MAX_CLEN) - Pow2(MAX_CLEN - l) && big == Pow2(MAX_LEN) * small
    ensures small == Pow2(MAX_LEN) - Pow2(MAX_LEN - l)
  {
    Pow2Add(MAX_LEN, MAX_LEN);
    Pow2Add(MAX_LEN, MAX_LEN - l);
    CancelDifference(Pow2(MAX_LEN), small, Pow2(MAX_LEN), Pow2(MAX_LEN - l));
  }

  lemma CancelDifference(p: int, x: int, a: int, b: int)
    requires p > 0 && p * x == p * a - p * b
    ensures x == a - b
  {
    assert p * (x - (a - b)) == 0;
  }

  /** Lengths over 16 are unused, so only the first 17 counts count. */
  lemma TailCount(c: seq<nat>)
    requires IsBits(c) && forall k :: MAX_LEN < k < |c| ==> c[k] == 0
    ensures Sum(c[..MAX_LEN + 1]) == Sum(c)
  {
    var n := MAX_LEN + 1;
    assert c == c[..n] + c[n..];
    SumConcat(c[..n], c[n..]);
    SumZero(c[n..]);
  }

  lemma TailWeight(c: seq<nat>)
    requires IsBits(c) && forall k :: MAX_LEN < k < |c| ==> c[k] == 0
    ensures Weight(c, MAX_CLEN) == Pow2(MAX_LEN) * Weight(c[..MAX_LEN + 1], MAX_LEN)
  {
    var n := MAX_LEN + 1;
    var t := WeightTerms(c, MAX_CLEN);
    assert t == t[..n] + t[n..];
    SumConcat(t[..n], t[n..]);
    SumZero(t[n..]);
    var u := WeightTerms(c[..n], MAX_LEN);
    forall k | 0 <= k < n
      ensures t[..n][k] == Pow2(MAX_LEN) * u[k]
    {
      ScaledTerm(c[k], k);
    }
    SumScale(u, Pow2(MAX_LEN), t[..n]);
  }

  lemma ScaledTerm(x: nat, k: nat)
    requires k <= MAX_LEN
    ensures x * Pow2(MAX_CLEN - k) == Pow2(MAX_LEN) * (x * Pow2(MAX_LEN - k))
  {
    Pow2Add(MAX_LEN, MAX_LEN - k);
    Swap(x, Pow2(MAX_LEN), Pow2(MAX_LEN - k));
  }

  lemma Swap(a: int, b: int, c: int)
    ensures a * (b * c) == b * (a * c)
  {
  }

  lemma {:induction false} ShorterIsSum(bits: seq<nat>, l: nat)
    requires 1 <= l <= |bits| && bits[0] == 0
    ensures Shorter(bits, l) == Sum(bits[..l])
  {
    if l == 1 {
      assert bits[..1] == [0];
    } else {
      ShorterIsSum(bits, l - 1);
      assert bits[..l][..l - 1] == bits[..l - 1];
    }
  }

  /** The number of codes is the number of listed symbols. */
  lemma TableTotal(freq: seq<nat>)
    requires Tabulated(freq)
    ensures |TableBits(SizesOf(freq))| == MAX_LEN + 1 && TableBits(SizesOf(freq))[0] == 0
    ensures Total(TableBits(SizesOf(freq))) == |Listing(SizesOf(freq)[..256], MAX_CLEN)| <= 254
    ensures RoomLeft(TableBits(SizesOf(freq)))
  {
    var bits := TableBits(SizesOf(freq));
    var longest := TableShape(freq);
    ShorterIsSum(bits, MAX_LEN + 1);
    assert bits[..MAX_LEN + 1] == bits;
    CodesCounted(freq);
    RealSymbolCount(SizesOf(freq));
    HistogramFull(freq);
    RoomIsKraft(bits);
  }

  /** The listed symbols are the counted ones. */
  lemma ListedAreCounted(freq: seq<nat>, s: nat)
    requires Countable(freq) && s < 256
    ensures 1 <= SizesOf(freq)[s] <==> freq[s] > 0
  {
    var q :| 0 <= q < 256 && freq[q] > 0;
    CountedHaveCodes(WithPseudo(freq), q);
  }

  // ----- Acceptance -----

  /** jpeg_make_c_derived_tbl never rejects a generated table; a DC table is
      acceptable when only symbols 0 to 15 were counted. */
  lemma GeneratedAcceptable(isDC: bool, freq: seq<nat>, bits: seq<nat>, huffval: seq<nat>)
    requires Generated(freq, bits, huffval)
    requires forall s :: 0 <= s < 256 && freq[s] > 0 ==> s <= MaxSymbol(isDC)
    ensures |bits| == MAX_LEN + 1 && Acceptable(isDC, bits, huffval)
  {
    var list := Listing(SizesOf(freq)[..256], MAX_CLEN);
    TableTotal(freq);
    ListingOrdered(SizesOf(freq)[..256], MAX_CLEN);
    forall p | 0 <= p < |list|
      ensures huffval[p] <= MaxSymbol(isDC)
    {
      assert huffval[p] == list[p] && list[p] in list;
      ListedAreCounted(freq, list[p]);
    }
    forall p, q | 0 <= p < q < |list|
      ensures huffval[p] != huffval[q]
    {
      assert huffval[p] == list[p] && huffval[q] == list[q];
    }
  }

  /** Exactly the counted symbols have a code in the encoder's table. */
  lemma CountedAreCoded(freq: seq<nat>, bits: seq<nat>, huffval: seq<nat>, t: Codes, s: nat)
    requires Generated(freq, bits, huffval) && Derived(t, bits, huffval) && s < 256
    ensures t.si[s] > 0 <==> freq[s] > 0
  {
    var list := Listing(SizesOf(freq)[..256], MAX_CLEN);
    TableTotal(freq);
    ListingOrdered(SizesOf(freq)[..256], MAX_CLEN);
    ListedAreCounted(freq, s);
    assert huffval[..Total(bits)] == list;
    assert s in list <==> 1 <= SizesOf(freq)[s] <= MAX_CLEN;
    if s in list {
      var p :| 0 <= p < |list| && list[p] == s;
      assert huffval[p] == s;
    }
  }

  // ----- Optimality -----

  /** While no length is limited, table position and code size agree. */
  lemma {:induction false} ListedLengths(size: seq<nat>, bits: seq<nat>, m: nat)
    requires SizesOk(size) && |bits| == MAX_LEN + 1 && m <= MAX_LEN
    requires forall k :: 1 <= k <= MAX_LEN ==> bits[k] == Histogram(size)[k]
    ensures |Lengths(bits, m)| == |Listing(size, m)|
    ensures forall p :: 0 <= p < |Listing(size, m)| ==>
      Listing(size, m)[p] < |size| && Lengths(bits, m)[p] == size[Listing(size, m)[p]]
  {
    if m > 0 {
      ListedLengths(size, bits, m - 1);
      AtLengthCount(size, m);
      AtLengthMembers(size, m);
      var a, b := Listing(size, m - 1), AtLength(size, m);
      forall p | 0 <= p < |a + b|
        ensures (a + b)[p] < |size| && Lengths(bits, m)[p] == size[(a + b)[p]]
      {
        if p >= |a| {
          assert b[p - |a|] in b;
        }
      }
    }
  }

  lemma {:induction false} ListingStops(size: seq<nat>, m: nat)
    requires m >= MAX_LEN && forall s :: 0 <= s < |size| ==> size[s] <= MAX_LEN
    ensures Listing(size, m) == Listing(size, MAX_LEN)
  {
    if m > MAX_LEN {
      ListingStops(size, m - 1);
      AtLengthMembers(size, m);
      if AtLength(size, m) != [] {
        assert AtLength(size, m)[0] in AtLength(size, m);
      }
    }
  }

  /** Without long codes the limiting changes nothing, and the slot taken away
      is the pseudo-symbol's own, because no symbol is deeper. */
  lemma UnlimitedBits(freq: seq<nat>)
    requires Tabulated(freq) && SizesOf(freq)[256] <= MAX_LEN
    ensures SizesOk(SizesOf(freq)[..256])
    ensures TableBits(SizesOf(freq)) == Histogram(SizesOf(freq)[..256])[..MAX_LEN + 1]
  {
    hide Fits, Kraft, Cost, HuffmanSizes, FullTree, Histogram, Live, NonZero, Donor, Sum;
    var size := SizesOf(freq);
    var h := Histogram(size);
    HuffmanSizesOptimal(WithPseudo(freq));
    HistogramFull(freq);
    HistogramAbove(size, MAX_LEN);
    LimitCorrect(h, MAX_CLEN);
    CodesCounted(freq);
    RealSymbolCount(size);
    HistogramAbove(size, size[256]);
    DonorAt(h, MAX_LEN, size[256]);
  }

  lemma {:induction false} HistogramAbove(size: seq<nat>, m: nat)
    requires SizesOk(size) && forall s :: 0 <= s < |size| ==> size[s] <= m
    ensures forall k :: m < k <= MAX_CLEN ==> Histogram(size)[k] == 0
  {
    if size != [] {
      HistogramAbove(size[..|size| - 1], m);
    }
  }

  lemma {:induction false} DonorAt(bits: seq<nat>, j: nat, l: nat)
    requires l <= j < |bits| && l > 0 && bits[l] > 0 && forall k :: l < k <= j ==> bits[k] == 0
    ensures Donor(bits, j) == l
    decreases j
  {
    if j > l {
      DonorAt(bits, j - 1, l);
    }
  }

  /** When Huffman's procedure needs no code longer than 16, the encoder's table
      gives every symbol its Huffman code size. */
  lemma UnlimitedSizes(freq: seq<nat>, bits: seq<nat>, huffval: seq<nat>, t: Codes, s: nat)
    requires Generated(freq, bits, huffval) && Derived(t, bits, huffval) && s < 256
    requires SizesOf(freq)[256] <= MAX_LEN
    ensures t.si[s] == SizesOf(freq)[s]
  {
    var size := SizesOf(freq);
    HuffmanSizesOptimal(WithPseudo(freq));
    UnlimitedBits(freq);
    var front := size[..256];
    ListedLengths(front, bits, MAX_LEN);
    ListingStops(front, MAX_CLEN);
    TableTotal(freq);
    CountedAreCoded(freq, bits, huffval, t, s);
    ListedAreCounted(freq, s);
    ListingOrdered(front, MAX_CLEN);
    if t.si[s] > 0 {
      assert s in Listing(front, MAX_CLEN);
      var p :| 0 <= p < |Listing(front, MAX_CLEN)| && Listing(front, MAX_CLEN)[p] == s;
      assert huffval[p] == s;
    }
  }

  /** Then the generated table, together with the reserved code, spends no more
      bits on the counted symbols than any code that satisfies the Kraft
      inequality. */
  lemma GeneratedOptimal(freq: seq<nat>, bits: seq<nat>, huffval: seq<nat>, t: Codes, len: seq<nat>, w: nat)
    requires Generated(freq, bits, huffval) && Derived(t, bits, huffval)
    requires SizesOf(freq)[256] <= MAX_LEN
    requires Fits(WithPseudo(freq), len, w) && Kraft(WithPseudo(freq), len, w) <= Pow2(w)
    ensures Cost(WithPseudo(freq), t.si + [SizesOf(freq)[256]]) <= Cost(WithPseudo(freq), len)
  {
    forall s: nat | s < 256
      ensures t.si[s] == SizesOf(freq)[s]
    {
      UnlimitedSizes(freq, bits, huffval, t, s);
    }
    assert t.si + [SizesOf(freq)[256]] == SizesOf(freq);
    HuffmanSizesOptimal(WithPseudo(freq));
  }
}
