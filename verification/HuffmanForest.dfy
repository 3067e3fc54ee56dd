/** The forest that Huffman's procedure keeps in its `freq`, `codesize` and
    `others` tables: each live count is the root of a branch, and `others`
    links the symbols of a branch one to the next. */
module HuffmanForest {
  import opened Arith
  import opened HuffmanSpec

  /** `home[s]` is the root of the branch symbol s is in, -1 when s was never
      counted; `chain[r]` lists the branch of root r in link order. `lo` and
      `hi` are the two counts merged last into the pseudo-symbol's branch. */
  datatype Forest = Forest(
    freq: seq<nat>,
    size: seq<nat>,
    next: seq<int>,
    home: seq<int>,
    chain: seq<seq<int>>,
    lo: nat,
    hi: nat)

  ghost predicate Shape(n: nat, f: Forest)
  {
    |f.freq| == n && |f.size| == n && |f.next| == n && |f.home| == n && |f.chain| == n
  }

  /** c lists the symbols of the branch of r, in link order, each once. */
  ghost predicate IsChain(c: seq<int>, next: seq<int>, home: seq<int>, r: int)
    requires |next| == |home|
  {
    && (forall k :: 0 <= k < |c| ==> 0 <= c[k] < |next| && home[c[k]] == r)
    && (forall k :: 0 <= k < |c| - 1 ==> next[c[k]] == c[k + 1])
    && (c != [] ==> c[0] == r && next[c[|c| - 1]] == -1)
    && (forall k, m :: 0 <= k < m < |c| ==> c[k] != c[m])
  }

  /** `others[]` holds exactly the branches: disjoint, acyclic, ending in -1. */
  ghost predicate Linked(f: Forest)
    requires Shape(|f.freq|, f)
  {
    && (forall r :: 0 <= r < |f.chain| ==> (f.freq[r] > 0 <==> f.chain[r] != []))
    && (forall r :: 0 <= r < |f.chain| ==> IsChain(f.chain[r], f.next, f.home, r))
    && (forall s :: 0 <= s < |f.home| && f.home[s] >= 0 ==>
          f.home[s] < |f.chain| && s in f.chain[f.home[s]])
  }

  /** Exactly the counted symbols are in a branch. */
  ghost predicate Covered(orig: seq<nat>, f: Forest)
    requires Shape(|orig|, f)
  {
    forall s :: 0 <= s < |orig| ==>
      && f.home[s] >= -1
      && (f.home[s] == -1 <==> orig[s] == 0)
      && (f.home[s] == -1 ==> f.size[s] == 0 && f.next[s] == -1)
  }

  ghost function MassTerms(orig: seq<nat>, home: seq<int>, r: int): (t: seq<int>)
    requires |home| == |orig|
    ensures |t| == |orig|
  {
    seq(|orig|, s requires 0 <= s < |orig| => if home[s] == r then orig[s] else 0)
  }

  ghost predicate SizesFit(size: seq<nat>, w: nat)
  {
    forall s :: 0 <= s < |size| ==> size[s] <= w
  }

  ghost function BranchTerms(home: seq<int>, size: seq<nat>, r: int, w: nat): (t: seq<int>)
    requires |home| == |size| && SizesFit(size, w)
    ensures |t| == |home|
  {
    seq(|home|, s requires 0 <= s < |home| => if home[s] == r then Pow2(w - size[s]) else 0)
  }

  /** A root's count is what its branch counted, and the branch is a complete
      binary tree. */
  ghost predicate Weighed(orig: seq<nat>, f: Forest, w: nat)
    requires Shape(|orig|, f)
  {
    && SizesFit(f.size, w)
    && forall r :: 0 <= r < |f.freq| && f.freq[r] > 0 ==>
         && Sum(MassTerms(orig, f.home, r)) == f.freq[r]
         && Sum(BranchTerms(f.home, f.size, r, w)) == Pow2(w)
  }

  /** The pseudo-symbol (the last one) is as deep as any symbol, and the ties
      fall so that it stays so. */
  ghost predicate PseudoDeepest(f: Forest)
    requires Shape(|f.freq|, f)
  {
    var p := |f.freq| - 1;
    && p >= 0 && 0 <= f.home[p] <= p
    && var r := f.home[p];
       var h := f.size[p];
       && f.freq[r] > 0
       && (h == 0 ==> r == p && f.freq[p] == 1)
       && (h > 0 ==> f.freq[r] == f.lo + f.hi && f.lo <= f.hi)
       && (forall x :: 0 <= x <= p && x != r && f.freq[x] > 0 && h > 0 ==> f.freq[x] >= f.hi)
       && (forall s :: 0 <= s <= p && f.home[s] >= 0 ==> f.size[s] <= h)
       && (forall s :: 0 <= s <= p && f.home[s] >= 0 && f.home[s] != r && f.size[s] == h ==>
             f.home[s] <= p && (f.freq[f.home[s]] > f.freq[r] || (f.freq[f.home[s]] == f.freq[r] && r == p)))
       && (h > 0 && r != p && f.lo == f.hi ==>
             forall s ::
               && 0 <= s <= p && f.home[s] >= 0 && f.home[s] != r && f.home[s] <= p
               && f.freq[f.home[s]] == f.hi
               ==> f.size[s] < h - 1)
  }

  ghost predicate Inv(orig: seq<nat>, f: Forest)
  {
    && Shape(|orig|, f)
    && Linked(f) && Covered(orig, f)
    && Weighed(orig, f, |orig|)
    && Live(f.freq) <= Live(orig)
    && SizesFit(f.size, Live(orig) - Live(f.freq))
    && Sum(f.freq) == Sum(orig)
    && Cost(orig, f.size) + HuffmanCost(f.freq) == HuffmanCost(orig)
    && PseudoDeepest(f)
  }

  // ----- The start -----

  ghost function Start(orig: seq<nat>): Forest
  {
    var n := |orig|;
    Forest(orig, seq(n, _ => 0), seq(n, _ => -1),
           seq(n, s requires 0 <= s < n => if orig[s] > 0 then s else -1),
           seq(n, s requires 0 <= s < n => if orig[s] > 0 then [s] else []), 0, 0)
  }

  lemma StartInv(orig: seq<nat>)
    requires |orig| > 0 && orig[|orig| - 1] == 1
    ensures Inv(orig, Start(orig))
  {
    var f := Start(orig);
    StartLinked(orig);
    StartWeighed(orig);
    SumZero(CostTerms(orig, f.size));
  }

  lemma StartLinked(orig: seq<nat>)
    ensures Shape(|orig|, Start(orig)) && Linked(Start(orig)) && Covered(orig, Start(orig))
  {
  }

  lemma StartWeighed(orig: seq<nat>)
    ensures Shape(|orig|, Start(orig)) && Weighed(orig, Start(orig), |orig|)
  {
    var f := Start(orig);
    var n := |orig|;
    forall r | 0 <= r < n && orig[r] > 0
      ensures Sum(MassTerms(orig, f.home, r)) == orig[r]
      ensures Sum(BranchTerms(f.home, f.size, r, n)) == Pow2(n)
    {
      OneTerm(MassTerms(orig, f.home, r), r);
      OneTerm(BranchTerms(f.home, f.size, r, n), r);
    }
  }

  lemma OneTerm(t: seq<int>, r: nat)
    requires r < |t| && forall k :: 0 <= k < |t| && k != r ==> t[k] == 0
    ensures Sum(t) == t[r]
  {
    var z := t[r := 0];
    SumUpdate(t, r, 0);
    SumZero(z);
  }

  // ----- One merge -----

  ghost function Join(f: Forest, c1: int, c2: int): Forest
    requires Shape(|f.freq|, f)
    requires 0 <= c1 < |f.freq| && 0 <= c2 < |f.freq| && c1 != c2 && f.chain[c1] != []
    requires 0 <= f.chain[c1][|f.chain[c1]| - 1] < |f.freq|
  {
    var n := |f.freq|;
    var top := f.home[n - 1] == c1 || f.home[n - 1] == c2;
    Forest(
      Merge(f.freq, c1, c2),
      seq(n, s requires 0 <= s < n => if f.home[s] == c1 || f.home[s] == c2 then f.size[s] + 1 else f.size[s]),
      f.next[f.chain[c1][|f.chain[c1]| - 1] := c2],
      seq(n, s requires 0 <= s < n => if f.home[s] == c2 then c1 else f.home[s]),
      f.chain[c1 := f.chain[c1] + f.chain[c2]][c2 := []],
      if top then f.freq[c1] else f.lo,
      if top then f.freq[c2] else f.hi)
  }

  ghost predicate Pair(f: Forest, c1: int, c2: int)
    requires Shape(|f.freq|, f)
  {
    c1 == Least(f.freq, -1) && c2 == Least(f.freq, c1) && c1 >= 0 && c2 >= 0
  }

  /** What a merge needs to know of the two branches it joins. */
  ghost predicate Joinable(f: Forest, c1: int, c2: int)
    requires Shape(|f.freq|, f)
  {
    && 0 <= c1 < |f.freq| && 0 <= c2 < |f.freq| && c1 != c2
    && f.chain[c1] != [] && f.chain[c2] != [] && f.freq[c1] > 0 && f.freq[c2] > 0
    && 0 <= f.chain[c1][|f.chain[c1]| - 1] < |f.freq|
  }

  lemma PairJoinable(f: Forest, c1: int, c2: int)
    requires Shape(|f.freq|, f) && Linked(f) && Pair(f, c1, c2)
    ensures Joinable(f, c1, c2)
  {
  }

  /** Linking c2's chain to the end of c1's. */
  lemma Concatenated(a: seq<int>, b: seq<int>, next: seq<int>, home: seq<int>, c1: int, c2: int,
                     next': seq<int>, home': seq<int>)
    requires |next| == |home| == |next'| == |home'| && a != [] && b != [] && c1 != c2
    requires IsChain(a, next, home, c1) && IsChain(b, next, home, c2)
    requires next' == next[a[|a| - 1] := c2]
    requires forall s :: 0 <= s < |home| ==> home'[s] == if home[s] == c2 then c1 else home[s]
    ensures IsChain(a + b, next', home', c1)
  {
    var ab := a + b;
    var last := a[|a| - 1];
    forall k | 0 <= k < |ab|
      ensures 0 <= ab[k] < |next| && home'[ab[k]] == c1
    {
      assert ab[k] == if k < |a| then a[k] else b[k - |a|];
    }
    forall k | 0 <= k < |ab| - 1
      ensures next'[ab[k]] == ab[k + 1]
    {
      if k >= |a| {
        var j := k - |a|;
        assert ab[k] == b[j] && ab[k + 1] == b[j + 1];
        assert home[b[j]] == c2 && home[last] == c1;
      } else if k == |a| - 1 {
        assert ab[k + 1] == b[0];
      }
    }
    assert ab[|ab| - 1] == b[|b| - 1] && home[last] == c1;
    forall k, m | 0 <= k < m < |ab|
      ensures ab[k] != ab[m]
    {
      if k < |a| <= m {
        assert home[a[k]] == c1 && home[b[m - |a|]] == c2;
      } else if k >= |a| {
        assert b[k - |a|] != b[m - |a|];
      }
    }
  }

  lemma JoinChains(f: Forest, c1: int, c2: int)
    requires Shape(|f.freq|, f) && Linked(f) && Joinable(f, c1, c2)
    ensures Shape(|f.freq|, Join(f, c1, c2))
    ensures forall r :: 0 <= r < |f.freq| ==>
      IsChain(Join(f, c1, c2).chain[r], Join(f, c1, c2).next, Join(f, c1, c2).home, r)
  {
    var g := Join(f, c1, c2);
    var a, b := f.chain[c1], f.chain[c2];
    var last := a[|a| - 1];
    assert IsChain(a, f.next, f.home, c1) && IsChain(b, f.next, f.home, c2);
    assert f.home[last] == c1;
    forall r | 0 <= r < |f.freq|
      ensures IsChain(g.chain[r], g.next, g.home, r)
    {
      if r == c1 {
        Concatenated(a, b, f.next, f.home, c1, c2, g.next, g.home);
      } else if r != c2 {
        assert IsChain(f.chain[r], f.next, f.home, r);
      }
    }
  }

  lemma JoinHomes(f: Forest, c1: int, c2: int)
    requires Shape(|f.freq|, f) && Linked(f) && Joinable(f, c1, c2)
    ensures forall s :: 0 <= s < |f.freq| && Join(f, c1, c2).home[s] >= 0 ==>
      Join(f, c1, c2).home[s] < |f.freq| && s in Join(f, c1, c2).chain[Join(f, c1, c2).home[s]]
  {
    var g := Join(f, c1, c2);
    forall s | 0 <= s < |f.freq| && g.home[s] >= 0
      ensures g.home[s] < |f.freq| && s in g.chain[g.home[s]]
    {
      assert s in f.chain[f.home[s]];
      assert g.chain[c1] == f.chain[c1] + f.chain[c2];
    }
  }

  lemma JoinLinked(f: Forest, c1: int, c2: int)
    requires Shape(|f.freq|, f) && Linked(f) && Joinable(f, c1, c2)
    ensures Shape(|f.freq|, Join(f, c1, c2)) && Linked(Join(f, c1, c2))
  {
    JoinChains(f, c1, c2);
    JoinHomes(f, c1, c2);
  }

  lemma JoinCovered(orig: seq<nat>, f: Forest, c1: int, c2: int)
    requires Shape(|orig|, f) && Linked(f) && Covered(orig, f) && Joinable(f, c1, c2)
    ensures Covered(orig, Join(f, c1, c2))
  {
    var a := f.chain[c1];
    assert f.home[a[|a| - 1]] == c1;
  }

  lemma JoinSizes(orig: seq<nat>, f: Forest, c1: int, c2: int)
    requires Shape(|orig|, f) && Joinable(f, c1, c2)
    requires Live(f.freq) <= Live(orig) && SizesFit(f.size, Live(orig) - Live(f.freq))
    ensures Live(Join(f, c1, c2).freq) == Live(f.freq) - 1
    ensures SizesFit(Join(f, c1, c2).size, Live(orig) - Live(Join(f, c1, c2).freq))
    ensures SizesFit(Join(f, c1, c2).size, |orig|)
  {
    MergeLive(f.freq, c1, c2);
    LiveBound(orig);
  }

  lemma JoinTotal(f: Forest, c1: int, c2: int)
    requires Shape(|f.freq|, f) && Joinable(f, c1, c2)
    ensures Sum(Join(f, c1, c2).freq) == Sum(f.freq)
  {
    var v := f.freq[c1] + f.freq[c2];
    SumUpdate(f.freq, c1, v);
    SumUpdate(f.freq[c1 := v], c2, 0);
  }

  lemma JoinWeighed(orig: seq<nat>, f: Forest, c1: int, c2: int)
    requires Shape(|orig|, f) && Joinable(f, c1, c2)
    requires Weighed(orig, f, |orig|) && SizesFit(Join(f, c1, c2).size, |orig|)
    ensures Shape(|orig|, Join(f, c1, c2)) && Weighed(orig, Join(f, c1, c2), |orig|)
  {
    var g := Join(f, c1, c2);
    var n := |orig|;
    forall r | 0 <= r < n && g.freq[r] > 0
      ensures Sum(MassTerms(orig, g.home, r)) == g.freq[r]
      ensures Sum(BranchTerms(g.home, g.size, r, n)) == Pow2(n)
    {
      if r == c1 {
        SumPlus(MassTerms(orig, f.home, c1), MassTerms(orig, f.home, c2), MassTerms(orig, g.home, c1));
        HalveBranches(f, g, c1, c2, n);
      } else {
        assert MassTerms(orig, g.home, r) == MassTerms(orig, f.home, r);
        assert BranchTerms(g.home, g.size, r, n) == BranchTerms(f.home, f.size, r, n);
      }
    }
  }

  lemma LiveBound(freq: seq<nat>)
    ensures Live(freq) <= |freq|
  {
    MarksBound(Marks(freq));
  }

  lemma {:induction false} MarksBound(m: seq<int>)
    requires forall k :: 0 <= k < |m| ==> m[k] <= 1
    ensures Sum(m) <= |m|
  {
    if m != [] {
      MarksBound(m[..|m| - 1]);
    }
  }

  lemma HalveBranches(f: Forest, g: Forest, c1: int, c2: int, n: nat)
    requires Shape(n, f) && c1 != c2 && SizesFit(f.size, n)
    requires Shape(n, g) && SizesFit(g.size, n)
    requires forall s :: 0 <= s < n ==> g.home[s] == if f.home[s] == c2 then c1 else f.home[s]
    requires forall s :: 0 <= s < n && (f.home[s] == c1 || f.home[s] == c2) ==> g.size[s] == f.size[s] + 1
    requires Sum(BranchTerms(f.home, f.size, c1, n)) == Pow2(n)
    requires Sum(BranchTerms(f.home, f.size, c2, n)) == Pow2(n)
    ensures Sum(BranchTerms(g.home, g.size, c1, n)) == Pow2(n)
  {
    var t := BranchTerms(g.home, g.size, c1, n);
    var a := BranchTerms(f.home, f.size, c1, n);
    var b := BranchTerms(f.home, f.size, c2, n);
    var d := seq(n, s requires 0 <= s < n => 2 * t[s]);
    forall s | 0 <= s < n
      ensures d[s] == a[s] + b[s]
    {
      if f.home[s] == c1 || f.home[s] == c2 {
        assert Pow2(n - f.size[s]) == 2 * Pow2(n - g.size[s]);
      }
    }
    SumPlus(a, b, d);
    SumScale(t, 2, d);
  }

  lemma JoinCost(orig: seq<nat>, f: Forest, c1: int, c2: int)
    requires Shape(|orig|, f) && Joinable(f, c1, c2)
    requires Sum(MassTerms(orig, f.home, c1)) == f.freq[c1]
    requires Sum(MassTerms(orig, f.home, c2)) == f.freq[c2]
    ensures Cost(orig, Join(f, c1, c2).size) == Cost(orig, f.size) + f.freq[c1] + f.freq[c2]
  {
    var g := Join(f, c1, c2);
    var n := |orig|;
    var a := MassTerms(orig, f.home, c1);
    var b := MassTerms(orig, f.home, c2);
    var ab := seq(n, s requires 0 <= s < n => a[s] + b[s]);
    SumPlus(a, b, ab);
    var c, d := CostTerms(orig, f.size), CostTerms(orig, g.size);
    forall s | 0 <= s < n
      ensures d[s] == c[s] + ab[s]
    {
      OneMore(orig[s], f.size[s]);
    }
    SumPlus(c, ab, d);
  }

  lemma OneMore(a: int, b: int)
    ensures a * (b + 1) == a * b + a
  {
  }

  lemma JoinDeepestSame(orig: seq<nat>, f: Forest, c1: int, c2: int)
    requires Shape(|orig|, f) && Joinable(f, c1, c2) && PseudoDeepest(f) && Pair(f, c1, c2)
    requires f.home[|orig| - 1] != c1 && f.home[|orig| - 1] != c2
    requires Shape(|orig|, Join(f, c1, c2))
    ensures PseudoDeepest(Join(f, c1, c2))
  {
    var g := Join(f, c1, c2);
    var p := |orig| - 1;
    var r := f.home[p];
    var h := f.size[p];
    assert IsLeast(f.freq, -1, c1) && IsLeast(f.freq, c1, c2);
    assert f.freq[c1] >= f.hi && f.freq[c2] >= f.hi;
    forall s | 0 <= s <= p && (f.home[s] == c1 || f.home[s] == c2)
      ensures f.size[s] < h
      ensures g.size[s] == h ==> g.freq[c1] > g.freq[r] || (g.freq[c1] == g.freq[r] && r == p)
    {
    }
  }

  lemma JoinDeepestTop(orig: seq<nat>, f: Forest, c1: int, c2: int)
    requires Shape(|orig|, f) && Joinable(f, c1, c2) && PseudoDeepest(f) && Pair(f, c1, c2)
    requires f.home[|orig| - 1] == c1 || f.home[|orig| - 1] == c2
    requires Shape(|orig|, Join(f, c1, c2))
    ensures PseudoDeepest(Join(f, c1, c2))
  {
    var g := Join(f, c1, c2);
    var p := |orig| - 1;
    var h := f.size[p];
    var r := f.home[p];
    assert IsLeast(f.freq, -1, c1) && IsLeast(f.freq, c1, c2);
    assert g.home[p] == c1 && g.size[p] == h + 1;
    TopSizes(f, c1, c2);
    forall s | 0 <= s <= p && c1 != p && g.lo == g.hi && g.home[s] >= 0 && g.home[s] != c1 &&
      g.home[s] <= p && g.freq[g.home[s]] == g.hi
      ensures g.size[s] < h
    {
      TiedBelow(f, c1, c2, s);
    }
  }

  lemma TopSizes(f: Forest, c1: int, c2: int)
    requires Shape(|f.freq|, f) && Joinable(f, c1, c2) && PseudoDeepest(f)
    requires f.home[|f.freq| - 1] == c1 || f.home[|f.freq| - 1] == c2
    ensures Shape(|f.freq|, Join(f, c1, c2))
    ensures forall s :: 0 <= s < |f.freq| && Join(f, c1, c2).home[s] >= 0 ==>
      Join(f, c1, c2).size[s] <= f.size[|f.freq| - 1] + 1
    ensures forall s :: 0 <= s < |f.freq| && Join(f, c1, c2).home[s] >= 0 && Join(f, c1, c2).home[s] != c1 ==>
      Join(f, c1, c2).size[s] < f.size[|f.freq| - 1] + 1
  {
  }

  /** When the pseudo-symbol's branch ties with the other one of the pair and
      does not come first, other branches of that count are less deep. */
  lemma TiedBelow(f: Forest, c1: int, c2: int, s: int)
    requires Shape(|f.freq|, f) && PseudoDeepest(f) && Pair(f, c1, c2)
    requires f.home[|f.freq| - 1] == c1 || f.home[|f.freq| - 1] == c2
    requires c1 != |f.freq| - 1 && f.freq[c1] == f.freq[c2]
    requires 0 <= s < |f.freq| && f.home[s] >= 0 && f.home[s] != c1 && f.home[s] != c2
    requires f.home[s] < |f.freq| && f.freq[f.home[s]] == f.freq[c2]
    ensures f.size[s] < f.size[|f.freq| - 1]
  {
    assert IsLeast(f.freq, -1, c1) && IsLeast(f.freq, c1, c2);
  }

  /** Merging the two least counts keeps the forest. */
  lemma JoinInv(orig: seq<nat>, f: Forest, c1: int, c2: int)
    requires Inv(orig, f) && Pair(f, c1, c2)
    ensures Joinable(f, c1, c2) && Inv(orig, Join(f, c1, c2))
  {
    PairJoinable(f, c1, c2);
    JoinLinked(f, c1, c2);
    JoinCovered(orig, f, c1, c2);
    JoinSizes(orig, f, c1, c2);
    JoinTotal(f, c1, c2);
    JoinWeighed(orig, f, c1, c2);
    JoinCost(orig, f, c1, c2);
    if f.home[|orig| - 1] == c1 || f.home[|orig| - 1] == c2 {
      JoinDeepestTop(orig, f, c1, c2);
    } else {
      JoinDeepestSame(orig, f, c1, c2);
    }
  }

  // ----- The end -----

  /** With one root left its tree holds every counted symbol, the code lengths
      form a complete tree, and no prefix code spends fewer bits. */
  lemma Finished(orig: seq<nat>, f: Forest)
    requires Inv(orig, f) && Least(f.freq, Least(f.freq, -1)) < 0
    ensures Fits(orig, f.size, |orig|)
    ensures Kraft(orig, f.size, |orig|) == Pow2(|orig|)
    ensures Cost(orig, f.size) == HuffmanCost(orig)
    ensures forall s :: 0 <= s < |orig| ==> f.size[s] <= f.size[|orig| - 1]
    ensures forall s :: 0 <= s < |orig| && orig[s] == 0 ==> f.size[s] == 0
  {
    PseudoBound(orig, f);
    OneRoot(orig, f);
    OneRootKraft(orig, f, f.home[|orig| - 1]);
    var c1 := Least(f.freq, -1);
    assert HuffmanCost(f.freq) == 0;
  }

  lemma PseudoBound(orig: seq<nat>, f: Forest)
    requires Shape(|orig|, f) && Covered(orig, f) && PseudoDeepest(f)
    ensures 0 <= f.home[|orig| - 1] < |orig| && f.freq[f.home[|orig| - 1]] > 0
    ensures forall s :: 0 <= s < |orig| ==> f.size[s] <= f.size[|orig| - 1]
    ensures forall s :: 0 <= s < |orig| && orig[s] == 0 ==> f.size[s] == 0
  {
  }

  lemma OneRoot(orig: seq<nat>, f: Forest)
    requires Shape(|orig|, f) && Linked(f) && Covered(orig, f) && PseudoDeepest(f)
    requires Least(f.freq, Least(f.freq, -1)) < 0
    ensures forall s :: 0 <= s < |orig| && orig[s] > 0 ==> f.home[s] == f.home[|orig| - 1]
  {
    var r := f.home[|orig| - 1];
    assert Least(f.freq, -1) == r;
    forall s | 0 <= s < |orig| && orig[s] > 0
      ensures f.home[s] == r
    {
      assert s in f.chain[f.home[s]];
      assert f.freq[f.home[s]] > 0;
    }
  }

  lemma OneRootKraft(orig: seq<nat>, f: Forest, r: int)
    requires Shape(|orig|, f) && Covered(orig, f) && 0 <= r < |orig|
    requires Weighed(orig, f, |orig|) && f.freq[r] > 0
    requires forall s :: 0 <= s < |orig| && orig[s] > 0 ==> f.home[s] == r
    ensures Fits(orig, f.size, |orig|)
    ensures Kraft(orig, f.size, |orig|) == Pow2(|orig|)
  {
    assert KraftTerms(orig, f.size, |orig|) == BranchTerms(f.home, f.size, r, |orig|);
  }

  // ----- The whole run -----

  /** Merge until one root is left. */
  ghost function Run(f: Forest): (g: Forest)
    requires Shape(|f.freq|, f) && Linked(f)
    ensures |g.size| == |f.freq|
    decreases Live(f.freq)
  {
    var c1 := Least(f.freq, -1);
    var c2 := Least(f.freq, c1);
    if c1 < 0 || c2 < 0 then f
    else
      PairJoinable(f, c1, c2);
      JoinLinked(f, c1, c2);
      MergeLive(f.freq, c1, c2);
      Run(Join(f, c1, c2))
  }

  lemma {:induction false} RunInv(orig: seq<nat>, f: Forest)
    requires Inv(orig, f)
    ensures Inv(orig, Run(f))
    ensures Least(Run(f).freq, Least(Run(f).freq, -1)) < 0
    decreases Live(f.freq)
  {
    var c1 := Least(f.freq, -1);
    var c2 := Least(f.freq, c1);
    if c1 < 0 || c2 < 0 {
      EmptyLeast(f.freq);
    } else {
      JoinInv(orig, f, c1, c2);
      MergeLive(f.freq, c1, c2);
      RunInv(orig, Join(f, c1, c2));
    }
  }

  lemma EmptyLeast(freq: seq<nat>)
    ensures Least(freq, -1) < 0 ==> Least(freq, Least(freq, -1)) < 0
  {
  }

  /** The code length Huffman's procedure gives each symbol of a table of
      counts whose last entry is the pseudo-symbol. */
  ghost function HuffmanSizes(orig: seq<nat>): (size: seq<nat>)
    requires |orig| > 0
    ensures |size| == |orig|
  {
    StartLinked(orig);
    Run(Start(orig)).size
  }

  /** The lengths form a full code tree over exactly the counted symbols, the
      pseudo-symbol is among the deepest, and every set of code lengths that
      satisfies the Kraft inequality spends at least as many bits. */
  lemma HuffmanSizesOptimal(orig: seq<nat>)
    requires |orig| > 0 && orig[|orig| - 1] == 1
    ensures Fits(orig, HuffmanSizes(orig), |orig|)
    ensures Kraft(orig, HuffmanSizes(orig), |orig|) == Pow2(|orig|)
    ensures forall s :: 0 <= s < |orig| ==> HuffmanSizes(orig)[s] <= HuffmanSizes(orig)[|orig| - 1]
    ensures forall s :: 0 <= s < |orig| && orig[s] == 0 ==> HuffmanSizes(orig)[s] == 0
    ensures forall len: seq<nat>, w: nat :: Fits(orig, len, w) && Kraft(orig, len, w) <= Pow2(w) ==>
      Cost(orig, HuffmanSizes(orig)) <= Cost(orig, len)
  {
    StartInv(orig);
    StartLinked(orig);
    RunInv(orig, Start(orig));
    Finished(orig, Run(Start(orig)));
    forall len: seq<nat>, w: nat | Fits(orig, len, w) && Kraft(orig, len, w) <= Pow2(w)
      ensures Cost(orig, HuffmanSizes(orig)) <= Cost(orig, len)
    {
      HuffmanIsOptimal(orig, len, w);
    }
  }

  /** With two symbols or more, exactly the counted ones get a code. */
  lemma CountedHaveCodes(orig: seq<nat>, q: nat)
    requires |orig| > 0 && orig[|orig| - 1] == 1
    requires q < |orig| - 1 && orig[q] > 0
    ensures |HuffmanSizes(orig)| == |orig|
    ensures forall s :: 0 <= s < |orig| ==> (HuffmanSizes(orig)[s] > 0 <==> orig[s] > 0)
  {
    HuffmanSizesOptimal(orig);
    forall s | 0 <= s < |orig| && orig[s] > 0
      ensures HuffmanSizes(orig)[s] > 0
    {
      LengthPositive(orig, HuffmanSizes(orig), |orig|, s, if s == q then |orig| - 1 else q);
    }
  }
}
