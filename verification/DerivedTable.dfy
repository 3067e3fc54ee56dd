/** jpeg_make_c_derived_tbl: canonical codes from a table (Annex C of T.81), and
    the decoding procedure of section F.2.2.3 that reads them back. */
module DerivedTable {
  import opened Arith
  import opened Bits
  import opened CodeLengths

  /** The encoder's view of a table: code and code size by symbol; size 0 marks
      a symbol without a code. */
  datatype Codes = Codes(co: seq<nat>, si: seq<nat>)

  /** How many codes are shorter than l. */
  function Shorter(bits: seq<nat>, l: nat): (n: nat)
    requires l <= |bits|
  {
    if l <= 1 then 0 else Shorter(bits, l - 1) + bits[l - 1]
  }

  /** The first code of length l (Figure C.2). */
  function FirstCode(bits: seq<nat>, l: nat): (c: nat)
    requires l <= |bits|
  {
    if l <= 1 then 0 else 2 * (FirstCode(bits, l - 1) + bits[l - 1])
  }

  /** The code lengths in table order (Figure C.1), up to length m. */
  function Lengths(bits: seq<nat>, m: nat): (s: seq<nat>)
    requires m < |bits|
    ensures |s| == Shorter(bits, m + 1)
    ensures forall p :: 0 <= p < |s| ==> 1 <= s[p] <= m
  {
    if m == 0 then [] else Lengths(bits, m - 1) + seq(bits[m], _ => m)
  }

  function Total(bits: seq<nat>): nat
    requires |bits| == MAX_LEN + 1
  {
    Shorter(bits, MAX_LEN + 1)
  }

  function LengthAt(bits: seq<nat>, p: nat): (l: nat)
    requires |bits| == MAX_LEN + 1 && p < Total(bits)
    ensures 1 <= l <= MAX_LEN
  {
    Lengths(bits, MAX_LEN)[p]
  }

  /** The code of the p-th symbol of the table. */
  function CodeAt(bits: seq<nat>, p: nat): int
    requires |bits| == MAX_LEN + 1 && p < Total(bits)
  {
    var l := LengthAt(bits, p);
    FirstCode(bits, l) + p - Shorter(bits, l)
  }

  /** The p-th symbol sits inside the group of its length. */
  lemma {:induction false} GroupOf(bits: seq<nat>, m: nat, p: nat)
    requires m < |bits| && p < Shorter(bits, m + 1)
    ensures var l := Lengths(bits, m)[p]; Shorter(bits, l) <= p < Shorter(bits, l) + bits[l]
  {
    if p < Shorter(bits, m) {
      GroupOf(bits, m - 1, p);
    }
  }

  lemma {:induction false} LengthIn(bits: seq<nat>, m: nat, l: nat, p: nat)
    requires 1 <= l <= m < |bits| && Shorter(bits, l) <= p < Shorter(bits, l) + bits[l]
    ensures p < Shorter(bits, m + 1) && Lengths(bits, m)[p] == l
  {
    if l < m {
      LengthIn(bits, m - 1, l, p);
    }
  }

  /** The counts describe a code with room left: its Kraft sum is below one. */
  ghost predicate RoomLeft(bits: seq<nat>)
    requires |bits| == MAX_LEN + 1
  {
    FirstCode(bits, MAX_LEN) + bits[MAX_LEN] < Pow2(MAX_LEN)
  }

  /** FirstCode counts, in units of 2^-l, the space of all shorter codes. */
  lemma {:induction false} FirstCodeWeight(bits: seq<nat>, l: nat)
    requires |bits| == MAX_LEN + 1 && bits[0] == 0 && 1 <= l <= MAX_LEN + 1
    ensures Sum(WeightTerms(bits, MAX_LEN + 1)[..l]) == FirstCode(bits, l) * Pow2(MAX_LEN + 1 - l)
  {
    var w := MAX_LEN + 1;
    var t := WeightTerms(bits, w);
    if l == 1 {
      assert t[..1] == [0];
    } else {
      FirstCodeWeight(bits, l - 1);
      assert t[..l][..l - 1] == t[..l - 1];
      Pow2Half(w - l);
      Regroup(FirstCode(bits, l - 1), bits[l - 1], Pow2(w - l));
    }
  }

  lemma Regroup(f: int, b: int, p: int)
    ensures f * (2 * p) + b * (2 * p) == (2 * (f + b)) * p
  {
  }

  /** Room is left exactly when the Kraft sum of the counts is below one. */
  lemma RoomIsKraft(bits: seq<nat>)
    requires |bits| == MAX_LEN + 1 && bits[0] == 0
    ensures RoomLeft(bits) <==> Weight(bits, MAX_LEN) < Pow2(MAX_LEN)
  {
    var w := MAX_LEN + 1;
    FirstCodeWeight(bits, w);
    var t := WeightTerms(bits, w);
    assert t[..w] == t;
    var u := WeightTerms(bits, MAX_LEN);
    forall k | 0 <= k < |t|
      ensures t[k] == 2 * u[k]
    {
      Pow2Half(MAX_LEN - k);
      TwiceTerm(bits[k], Pow2(MAX_LEN - k));
    }
    SumScale(u, 2, t);
    assert FirstCode(bits, w) == 2 * (FirstCode(bits, MAX_LEN) + bits[MAX_LEN]);
  }

  lemma TwiceTerm(b: int, p: int)
    ensures b * (2 * p) == 2 * (b * p)
  {
  }

  /** Codes of length l end below every longer code. */
  lemma {:induction false} LaterCodes(bits: seq<nat>, l: nat, m: nat)
    requires 1 <= l < m <= MAX_LEN && |bits| == MAX_LEN + 1
    ensures (FirstCode(bits, l) + bits[l]) * Pow2(m - l) <= FirstCode(bits, m)
    decreases m
  {
    if m > l + 1 {
      LaterCodes(bits, l, m - 1);
      Pow2Half(m - 1 - l);
      TwiceTerm(FirstCode(bits, l) + bits[l], Pow2(m - 1 - l));
    }
  }

  /** With room left, every length's codes fit with one to spare. */
  lemma RoomAt(bits: seq<nat>, l: nat)
    requires |bits| == MAX_LEN + 1 && 1 <= l <= MAX_LEN && RoomLeft(bits)
    ensures FirstCode(bits, l) + bits[l] < Pow2(l)
  {
    hide FirstCode, Pow2;
    if l < MAX_LEN {
      LaterCodes(bits, l, MAX_LEN);
      Pow2Add(l, MAX_LEN - l);
      Below(FirstCode(bits, l) + bits[l], Pow2(l), Pow2(MAX_LEN - l));
    }
  }

  lemma Below(a: int, b: int, p: int)
    requires p > 0 && a * p < b * p
    ensures a < b
  {
    if b < a {
      MulLess(p, b, a);
    }
  }

  // ----- What the codes are good for -----

  /** The codes are given out in order, fit their lengths and are never all
      ones. */
  lemma CodeFits(bits: seq<nat>, p: nat)
    requires |bits| == MAX_LEN + 1 && RoomLeft(bits) && p < Total(bits)
    ensures 0 <= CodeAt(bits, p) < Pow2(LengthAt(bits, p)) - 1
  {
    GroupOf(bits, MAX_LEN, p);
    RoomAt(bits, LengthAt(bits, p));
  }

  lemma DivPow2Zero(v: int)
    ensures v / Pow2(0) == v
  {
  }

  /** No code is a prefix of another. */
  lemma PrefixFree(bits: seq<nat>, p: nat, q: nat)
    requires |bits| == MAX_LEN + 1 && RoomLeft(bits)
    requires p < Total(bits) && q < Total(bits) && p != q
    requires LengthAt(bits, p) <= LengthAt(bits, q)
    ensures CodeAt(bits, q) / Pow2(LengthAt(bits, q) - LengthAt(bits, p)) != CodeAt(bits, p)
  {
    hide FirstCode, Shorter, Lengths, RoomLeft, Pow2;
    var l, m := LengthAt(bits, p), LengthAt(bits, q);
    GroupOf(bits, MAX_LEN, p);
    GroupOf(bits, MAX_LEN, q);
    if l < m {
      LaterCodes(bits, l, m);
      DivAtLeast(CodeAt(bits, q), FirstCode(bits, l) + bits[l], Pow2(m - l));
    } else {
      DivPow2Zero(CodeAt(bits, q));
    }
  }

  // ----- Decoding: Figure F.16 -----

  /** DECODE of Figure F.16: extend the code bit by bit until it is no larger
      than the last code of its length. */
  function DecodeFrom(bits: seq<nat>, huffval: seq<nat>, l: nat, code: nat, s: seq<bool>)
    : (r: Option<(nat, seq<bool>)>)
    requires |bits| == MAX_LEN + 1 && l >= 1
    ensures r.Some? ==> |r.value.1| < |s|
    decreases |s|
  {
    if l > MAX_LEN || s == [] then None
    else
      var c := 2 * code + Bit(s[0]);
      var j := Shorter(bits, l) + c - FirstCode(bits, l);
      if c < FirstCode(bits, l) + bits[l] then
        if 0 <= j < |huffval| then Some((huffval[j], s[1..])) else None
      else DecodeFrom(bits, huffval, l + 1, c, s[1..])
  }

  function Decode(bits: seq<nat>, huffval: seq<nat>, s: seq<bool>): (r: Option<(nat, seq<bool>)>)
    requires |bits| == MAX_LEN + 1
    ensures r.Some? ==> |r.value.1| < |s|
  {
    DecodeFrom(bits, huffval, 1, 0, s)
  }

  /** From length l on, the remaining bits of a code v of length n lead to v. */
  lemma {:induction false} DecodeStep(bits: seq<nat>, huffval: seq<nat>, n: nat, v: nat, l: nat, m: nat, code: nat,
                                      rest: seq<bool>)
    requires |bits| == MAX_LEN + 1 && 1 <= l && l + m == n <= MAX_LEN && code == v / Pow2(m + 1)
    requires FirstCode(bits, n) <= v < FirstCode(bits, n) + bits[n]
    requires Shorter(bits, n) + v - FirstCode(bits, n) < |huffval|
    ensures DecodeFrom(bits, huffval, l, code, ToBits(v, m + 1) + rest) ==
      Some((huffval[Shorter(bits, n) + v - FirstCode(bits, n)], rest))
    decreases m
  {
    hide FirstCode, Shorter, DecodeFrom, ToBits;
    if m == 0 {
      DecodeLast(bits, huffval, n, v, rest);
    } else {
      NextBit(v, m, rest);
      PastLength(bits, l, n, v);
      var c: nat := v / Pow2(m);
      DecodeOn(bits, huffval, l, code, c, ToBits(v, m + 1) + rest);
      DecodeStep(bits, huffval, n, v, l + 1, m - 1, c, rest);
    }
  }

  lemma PastLength(bits: seq<nat>, l: nat, n: nat, v: nat)
    requires |bits| == MAX_LEN + 1 && 1 <= l < n <= MAX_LEN && FirstCode(bits, n) <= v
    ensures FirstCode(bits, l) + bits[l] <= v / Pow2(n - l)
  {
    LaterCodes(bits, l, n);
    DivAtLeast(v, FirstCode(bits, l) + bits[l], Pow2(n - l));
  }

  lemma DecodeLast(bits: seq<nat>, huffval: seq<nat>, n: nat, v: nat, rest: seq<bool>)
    requires |bits| == MAX_LEN + 1 && 1 <= n <= MAX_LEN
    requires FirstCode(bits, n) <= v < FirstCode(bits, n) + bits[n]
    requires Shorter(bits, n) + v - FirstCode(bits, n) < |huffval|
    ensures DecodeFrom(bits, huffval, n, v / Pow2(1), ToBits(v, 1) + rest) ==
      Some((huffval[Shorter(bits, n) + v - FirstCode(bits, n)], rest))
  {
    NextBit(v, 0, rest);
    assert ToBits(v, 0) + rest == rest;
    assert v / Pow2(0) == v;
  }

  /** Taking the leading bit of what is left of v. */
  lemma NextBit(v: nat, m: nat, rest: seq<bool>)
    ensures (ToBits(v, m + 1) + rest)[1..] == ToBits(v, m) + rest
    ensures 2 * (v / Pow2(m + 1)) + Bit((ToBits(v, m + 1) + rest)[0]) == v / Pow2(m)
  {
    var s := ToBits(v, m + 1) + rest;
    assert s[1..] == ToBits(v, m) + rest;
    DivHalf(v, m);
  }

  lemma DecodeOn(bits: seq<nat>, huffval: seq<nat>, l: nat, code: nat, c: nat, s: seq<bool>)
    requires |bits| == MAX_LEN + 1 && 1 <= l <= MAX_LEN && s != []
    requires c == 2 * code + Bit(s[0]) && c >= FirstCode(bits, l) + bits[l]
    ensures DecodeFrom(bits, huffval, l, code, s) == DecodeFrom(bits, huffval, l + 1, c, s[1..])
  {
  }

  lemma DivAtLeast(v: nat, a: nat, p: nat)
    requires p > 0 && a * p <= v
    ensures a <= v / p
  {
    DivMod(v, p);
    if v / p < a {
      MulLess(p, v / p, a);
    }
  }

  /** Decoding a symbol's code gives the symbol and leaves the rest. */
  lemma DecodeCode(bits: seq<nat>, huffval: seq<nat>, p: nat, rest: seq<bool>)
    requires |bits| == MAX_LEN + 1 && RoomLeft(bits) && p < Total(bits) <= |huffval|
    ensures CodeAt(bits, p) >= 0
    ensures Decode(bits, huffval, ToBits(CodeAt(bits, p), LengthAt(bits, p)) + rest) == Some((huffval[p], rest))
  {
    CodeFits(bits, p);
    var v: nat := CodeAt(bits, p);
    var n := LengthAt(bits, p);
    GroupOf(bits, MAX_LEN, p);
    UniqueQuotient(v, Pow2(n), 0, v);
    DecodeStep(bits, huffval, n, v, 1, n - 1, 0, rest);
  }

  // ----- The derived table -----

  function MaxSymbol(isDC: bool): nat
  {
    if isDC then 15 else 255
  }

  /** What jpeg_make_c_derived_tbl accepts. */
  ghost predicate Acceptable(isDC: bool, bits: seq<nat>, huffval: seq<nat>)
    requires |bits| == MAX_LEN + 1 && |huffval| == 256
  {
    && Total(bits) <= 256
    && RoomLeft(bits)
    && (forall p :: 0 <= p < Total(bits) ==> huffval[p] <= MaxSymbol(isDC))
    && (forall p, q :: 0 <= p < q < Total(bits) ==> huffval[p] != huffval[q])
  }

  /** In numbers: at most 256 symbols, each once and none above 15 for DC tables, and codes
      of sixteen bits that leave the one of all ones free. */
  lemma AcceptableInNumbers(isDC: bool, bits: seq<nat>, huffval: seq<nat>)
    requires |bits| == 17 && |huffval| == 256
    ensures Acceptable(isDC, bits, huffval) <==>
      && Total(bits) <= 256 && FirstCode(bits, 16) + bits[16] <= 65535
      && (forall p :: 0 <= p < Total(bits) ==> huffval[p] <= if isDC then 15 else 255)
      && (forall p, q :: 0 <= p < q < Total(bits) ==> huffval[p] != huffval[q])
  {
    hide FirstCode, Total;
    Pow2Constants();
  }

  /** The encoder's table agrees with the header's. */
  ghost predicate Derived(t: Codes, bits: seq<nat>, huffval: seq<nat>)
  {
    && |t.co| == 256 && |t.si| == 256
    && |bits| == MAX_LEN + 1 && |huffval| == 256
    && Total(bits) <= 256 && RoomLeft(bits)
    && (forall p :: 0 <= p < Total(bits) ==>
          && huffval[p] < 256
          && t.si[huffval[p]] == LengthAt(bits, p)
          && t.co[huffval[p]] == CodeAt(bits, p))
    && (forall s :: 0 <= s < 256 && t.si[s] > 0 ==> s in huffval[..Total(bits)])
  }

  /** A symbol's code decodes to the symbol. */
  lemma DecodeSymbol(t: Codes, bits: seq<nat>, huffval: seq<nat>, s: nat, rest: seq<bool>)
    requires Derived(t, bits, huffval) && s < 256 && t.si[s] > 0
    ensures Decode(bits, huffval, ToBits(t.co[s], t.si[s]) + rest) == Some((s, rest))
    ensures 1 <= t.si[s] <= MAX_LEN
  {
    assert s in huffval[..Total(bits)];
    var p :| 0 <= p < Total(bits) && huffval[p] == s;
    DecodeCode(bits, huffval, p, rest);
  }

  // ----- The method -----

  lemma {:induction false} ShorterMono(bits: seq<nat>, l: nat, m: nat)
    requires l <= m <= |bits|
    ensures Shorter(bits, l) <= Shorter(bits, m)
    decreases m
  {
    if l < m {
      ShorterMono(bits, l, m - 1);
    }
  }

  /** Figure C.1: the code size of each table entry, with a zero at the end. */
  method CodeSizes(bits: seq<nat>, huffsize: array<nat>) returns (ok: bool, lastp: nat)
    requires |bits| == MAX_LEN + 1 && huffsize.Length == 257
    modifies huffsize
    ensures ok <==> Total(bits) <= 256
    ensures ok ==> lastp == Total(bits) && huffsize[..lastp] == Lengths(bits, MAX_LEN) && huffsize[lastp] == 0
  {
    var p := 0;
    lastp := 0;
    for l := 1 to MAX_LEN + 1
      invariant p == Shorter(bits, l) <= 256
      invariant huffsize[..p] == Lengths(bits, l - 1)
    {
      var i := bits[l];
      if p + i > 256 {
        ShorterMono(bits, l + 1, MAX_LEN + 1);
        return false, 0;
      }
      while i > 0
        invariant 0 <= i <= bits[l] && p == Shorter(bits, l) + bits[l] - i
        invariant huffsize[..p] == Lengths(bits, l - 1) + seq(bits[l] - i, _ => l)
      {
        huffsize[p] := l;
        p := p + 1;
        i := i - 1;
      }
    }
    huffsize[p] := 0;
    return true, p;
  }

  /** The size recorded at p is si exactly inside the group of length si. */
  lemma SizeInGroup(bits: seq<nat>, p: nat, si: nat)
    requires |bits| == MAX_LEN + 1 && 1 <= si && p < Total(bits)
    requires si <= MAX_LEN ==> Shorter(bits, si) <= p
    requires si > MAX_LEN ==> Shorter(bits, MAX_LEN + 1) <= p
    ensures si <= MAX_LEN && si <= LengthAt(bits, p)
    ensures LengthAt(bits, p) == si <==> p < Shorter(bits, si) + bits[si]
  {
    GroupOf(bits, MAX_LEN, p);
    var l := LengthAt(bits, p);
    if l < si {
      ShorterMono(bits, l + 1, si);
    }
    if p < Shorter(bits, si) + bits[si] {
      LengthIn(bits, MAX_LEN, si, p);
    }
  }

  lemma {:induction false} NothingBefore(bits: seq<nat>, l: nat)
    requires l <= |bits| && Shorter(bits, l) == 0
    ensures FirstCode(bits, l) == 0
  {
    if l > 1 {
      NothingBefore(bits, l - 1);
    }
  }

  /** When no code is longer, room at length l is room at length 16. */
  lemma {:induction false} RoomUpward(bits: seq<nat>, l: nat)
    requires |bits| == MAX_LEN + 1 && 1 <= l <= MAX_LEN + 1
    requires FirstCode(bits, l) < Pow2(l) && Shorter(bits, l) == Total(bits)
    ensures RoomLeft(bits)
    decreases MAX_LEN + 1 - l
  {
    if l <= MAX_LEN {
      ShorterMono(bits, l + 1, MAX_LEN + 1);
      assert bits[l] == 0;
      RoomUpward(bits, l + 1);
    } else {
      assert Pow2(l) == 2 * Pow2(MAX_LEN);
    }
  }

  lemma NoCodes(bits: seq<nat>)
    requires |bits| == MAX_LEN + 1 && Total(bits) == 0
    ensures RoomLeft(bits)
  {
    RoomUpward(bits, 1);
  }

  /** From one length to the next. */
  lemma NextGroup(bits: seq<nat>, l: nat)
    requires 1 <= l < |bits|
    ensures Shorter(bits, l + 1) == Shorter(bits, l) + bits[l]
    ensures FirstCode(bits, l + 1) == 2 * (FirstCode(bits, l) + bits[l]) && Pow2(l + 1) == 2 * Pow2(l)
  {
  }

  /** Figure C.2: the codes, and the check that they leave room. */
  method CodeValues(bits: seq<nat>, huffsize: array<nat>, lastp: nat, huffcode: array<nat>) returns (ok: bool)
    requires |bits| == MAX_LEN + 1 && huffsize.Length == 257 == huffcode.Length && huffsize != huffcode
    requires lastp == Total(bits) <= 256
    requires huffsize[..lastp] == Lengths(bits, MAX_LEN) && huffsize[lastp] == 0
    modifies huffcode
    ensures ok <==> RoomLeft(bits)
    ensures ok ==> forall p :: 0 <= p < lastp ==> huffcode[p] == CodeAt(bits, p)
  {
    hide FirstCode, Shorter, Lengths, RoomLeft, Pow2;
    var code := 0;
    var si := huffsize[0];
    var p := 0;
    if lastp > 0 {
      assert si == LengthAt(bits, 0);
      GroupOf(bits, MAX_LEN, 0);
      NothingBefore(bits, si);
    } else {
      NoCodes(bits);
    }
    ghost var sizes := huffsize[..];
    while huffsize[p] != 0
      invariant huffsize[..] == sizes
      invariant 0 <= p <= lastp
      invariant lastp > 0 ==> 1 <= si <= MAX_LEN + 1 && p == Shorter(bits, si) && code == FirstCode(bits, si) < Pow2(si)
      invariant forall q :: 0 <= q < p ==> huffcode[q] == CodeAt(bits, q)
      decreases MAX_LEN + 1 - si
    {
      SizeInGroup(bits, p, si);
      p, code := CodeGroup(bits, huffsize, lastp, huffcode, p, si, code);
      if code >= Pow2(si) {
        if RoomLeft(bits) {
          RoomAt(bits, si);
        }
        return false;
      }
      NextGroup(bits, si);
      code := 2 * code;
      si := si + 1;
    }
    if lastp > 0 {
      AtEnd(bits, sizes, lastp, p);
      RoomUpward(bits, si);
    }
    return true;
  }

  /** The codes of one length. */
  method CodeGroup(bits: seq<nat>, huffsize: array<nat>, lastp: nat, huffcode: array<nat>, start: nat, si: nat,
                   first: nat)
    returns (p: nat, code: nat)
    requires |bits| == MAX_LEN + 1 && huffsize.Length == 257 == huffcode.Length && huffsize != huffcode
    requires lastp == Total(bits) <= 256 && 1 <= si <= MAX_LEN
    requires huffsize[..lastp] == Lengths(bits, MAX_LEN) && huffsize[lastp] == 0
    requires start == Shorter(bits, si) <= lastp && first == FirstCode(bits, si)
    requires forall q :: 0 <= q < start ==> huffcode[q] == CodeAt(bits, q)
    modifies huffcode
    ensures p == start + bits[si] <= lastp && code == first + bits[si]
    ensures forall q :: 0 <= q < p ==> huffcode[q] == CodeAt(bits, q)
  {
    ghost var sizes := huffsize[..];
    p, code := start, first;
    NextSize(bits, sizes, lastp, start, p, si);
    while huffsize[p] == si
      invariant huffsize[..] == sizes
      invariant start <= p <= start + bits[si] && p <= lastp
      invariant code == first + p - start
      invariant huffsize[p] == si <==> p < start + bits[si]
      invariant forall q :: 0 <= q < p ==> huffcode[q] == CodeAt(bits, q)
      decreases start + bits[si] - p
    {
      LengthIn(bits, MAX_LEN, si, p);
      huffcode[p] := code;
      p := p + 1;
      code := code + 1;
      NextSize(bits, sizes, lastp, start, p, si);
    }
  }

  lemma NextSize(bits: seq<nat>, sizes: seq<nat>, lastp: nat, start: nat, p: nat, si: nat)
    requires |bits| == MAX_LEN + 1 && |sizes| == 257 && lastp == Total(bits) <= 256
    requires sizes[..lastp] == Lengths(bits, MAX_LEN) && sizes[lastp] == 0
    requires 1 <= si <= MAX_LEN && start == Shorter(bits, si) && start <= p <= start + bits[si]
    ensures p <= lastp && (sizes[p] == si <==> p < start + bits[si])
  {
    ShorterMono(bits, si + 1, MAX_LEN + 1);
    if p < lastp {
      assert sizes[p] == sizes[..lastp][p];
      SizeInGroup(bits, p, si);
    }
  }

  lemma AtEnd(bits: seq<nat>, sizes: seq<nat>, lastp: nat, p: nat)
    requires |bits| == MAX_LEN + 1 && |sizes| == 257 && lastp == Total(bits) <= 256
    requires sizes[..lastp] == Lengths(bits, MAX_LEN) && p <= lastp && sizes[p] == 0
    ensures p == lastp
  {
    assert forall q :: 0 <= q < lastp ==> sizes[..lastp][q] == sizes[q];
  }

  /** jpeg_make_c_derived_tbl. Returns false where the source raises its
      bad-table error. */
  method MakeDerivedTable(isDC: bool, bits: seq<nat>, huffval: seq<nat>, ehufco: array<nat>, ehufsi: array<nat>)
    returns (ok: bool)
    requires |bits| == MAX_LEN + 1 && |huffval| == 256 && forall p :: 0 <= p < 256 ==> huffval[p] < 256
    requires ehufco.Length == 256 == ehufsi.Length && ehufco != ehufsi
    modifies ehufco, ehufsi
    ensures ok <==> Acceptable(isDC, bits, huffval)
    ensures ok ==> Derived(Codes(ehufco[..], ehufsi[..]), bits, huffval)
  {
    var huffsize := new nat[257];
    var huffcode := new nat[257];
    var lastp;
    ok, lastp := CodeSizes(bits, huffsize);
    if !ok {
      return;
    }
    ok := CodeValues(bits, huffsize, lastp, huffcode);
    if !ok {
      return;
    }
    ok := FillTable(isDC, bits, huffval, huffsize[..lastp], huffcode[..lastp], ehufco, ehufsi);
  }

  /** Figure C.3: codes and code sizes by symbol. */
  method FillTable(isDC: bool, bits: seq<nat>, huffval: seq<nat>, huffsize: seq<nat>, huffcode: seq<nat>,
                   ehufco: array<nat>, ehufsi: array<nat>)
    returns (ok: bool)
    requires |bits| == MAX_LEN + 1 && |huffval| == 256 && forall p :: 0 <= p < 256 ==> huffval[p] < 256
    requires ehufco.Length == 256 == ehufsi.Length && ehufco != ehufsi
    requires Total(bits) <= 256 && RoomLeft(bits)
    requires huffsize == Lengths(bits, MAX_LEN) && |huffcode| == Total(bits)
    requires forall p :: 0 <= p < Total(bits) ==> huffcode[p] == CodeAt(bits, p)
    modifies ehufco, ehufsi
    ensures ok <==> Acceptable(isDC, bits, huffval)
    ensures ok ==> Derived(Codes(ehufco[..], ehufsi[..]), bits, huffval)
  {
    forall i | 0 <= i < 256 {
      ehufsi[i] := 0;
    }
    var maxsymbol := MaxSymbol(isDC);
    for p := 0 to |huffcode|
      invariant forall q :: 0 <= q < p ==> huffval[q] <= maxsymbol
      invariant forall q :: 0 <= q < p ==>
        ehufsi[huffval[q]] == LengthAt(bits, q) && ehufco[huffval[q]] == CodeAt(bits, q)
      invariant forall q, r :: 0 <= q < r < p ==> huffval[q] != huffval[r]
      invariant forall s :: 0 <= s < 256 && ehufsi[s] > 0 ==> s in huffval[..p]
    {
      var i := huffval[p];
      if i > maxsymbol || ehufsi[i] != 0 {
        return false;
      }
      assert huffval[..p + 1] == huffval[..p] + [i];
      ehufco[i] := huffcode[p];
      ehufsi[i] := huffsize[p];
    }
    return true;
  }
}
