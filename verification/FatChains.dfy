/** Cluster chains of a FAT: disjoint, acyclic, and together with the free and
    the reserved clusters all there is. */
module FatChains {
  import opened FatCache

  // ----- Chains -----

  ghost predicate Distinct(ch: seq<nat>)
  {
    forall i, j :: 0 <= i < j < |ch| ==> ch[i] != ch[j]
  }

  /** Each cluster's entry names the next; the last entry is an end mark. */
  ghost predicate IsChain(fat: Fat, ch: seq<nat>)
  {
    && (forall i :: 0 <= i < |ch| ==> 2 <= ch[i] < |fat|)
    && (forall i :: 0 <= i < |ch| - 1 ==> fat[ch[i]] == ch[i + 1])
    && (ch != [] ==> fat[ch[|ch| - 1]] >= LAST_MARK)
  }

  /** In numbers: the marks from 0xFFF8 on end a chain. */
  lemma ChainMarks(fat: Fat, ch: seq<nat>)
    ensures IsChain(fat, ch) <==>
      && (forall i :: 0 <= i < |ch| ==> 2 <= ch[i] < |fat|)
      && (forall i :: 0 <= i < |ch| - 1 ==> fat[ch[i]] == ch[i + 1])
      && (ch != [] ==> fat[ch[|ch| - 1]] >= 0xFFF8)
  {
  }

  ghost predicate Owned(chains: seq<seq<nat>>, c: nat)
  {
    exists f :: 0 <= f < |chains| && c in chains[f]
  }

  ghost predicate Disjoint(chains: seq<seq<nat>>)
  {
    forall f, h, c :: 0 <= f < |chains| && 0 <= h < |chains| && c in chains[f] && c in chains[h] ==> f == h
  }

  /** A volume in order: its chains, the clusters set aside for other reasons,
      and the hint below which nothing is free. */
  ghost predicate InOrder(fat: Fat, chains: seq<seq<nat>>, reserved: set<nat>, hint: nat)
  {
    && |fat| <= LAST_MARK
    && (forall f :: 0 <= f < |chains| ==> IsChain(fat, chains[f]) && Distinct(chains[f]))
    && Disjoint(chains)
    && (forall c: nat :: 2 <= c < |fat| ==> (fat[c] != EMPTY_CLUSTER <==> Owned(chains, c) || c in reserved))
    && (forall c :: c in reserved ==> 2 <= c < |fat| && !Owned(chains, c))
    && 2 <= hint && forall c :: 2 <= c < hint && c < |fat| ==> fat[c] != EMPTY_CLUSTER
  }

  /** The FAT after a free cluster is added to a chain. */
  function Appended(fat: Fat, ch: seq<nat>, n: nat): Fat
    requires n < |fat| && (ch != [] ==> ch[|ch| - 1] < |fat|)
  {
    if ch == [] then fat[n := LAST_MARK] else fat[ch[|ch| - 1] := n][n := LAST_MARK]
  }

  /** A cluster that is added gets the mark 0xFFF8. */
  lemma AppendedMark(fat: Fat, ch: seq<nat>, n: nat)
    requires n < |fat| && (ch != [] ==> ch[|ch| - 1] < |fat| && ch[|ch| - 1] != n)
    ensures |Appended(fat, ch, n)| == |fat| && Appended(fat, ch, n)[n] == 0xFFF8
    ensures ch != [] ==> Appended(fat, ch, n)[ch[|ch| - 1]] == n
    ensures forall c :: 0 <= c < |fat| && c != n && (ch == [] || c != ch[|ch| - 1]) ==>
      Appended(fat, ch, n)[c] == fat[c]
  {
  }

  lemma OwnedUpdate(chains: seq<seq<nat>>, k: nat, ch: seq<nat>, c: nat)
    requires k < |chains|
    ensures Owned(chains[k := ch], c) <==> c in ch || exists f :: 0 <= f < |chains| && f != k && c in chains[f]
  {
    var after := chains[k := ch];
    if Owned(after, c) {
      var f :| 0 <= f < |after| && c in after[f];
      assert f != k ==> chains[f] == after[f];
    }
    if c in ch {
      assert after[k] == ch;
    }
    if f :| 0 <= f < |chains| && f != k && c in chains[f] {
      assert after[f] == chains[f];
    }
  }

  lemma FreeNotOwned(fat: Fat, chains: seq<seq<nat>>, reserved: set<nat>, hint: nat, n: nat, f: nat)
    requires InOrder(fat, chains, reserved, hint) && 2 <= n < |fat| && fat[n] == EMPTY_CLUSTER && f < |chains|
    ensures n !in chains[f] && n !in reserved
  {
    assert n in chains[f] ==> Owned(chains, n);
  }

  lemma ChainIn(fat: Fat, chains: seq<seq<nat>>, reserved: set<nat>, hint: nat, f: nat)
    requires InOrder(fat, chains, reserved, hint) && f < |chains|
    ensures IsChain(fat, chains[f]) && Distinct(chains[f])
  {
  }

  /** An entry outside a chain does not matter to it. */
  lemma OtherChain(fat: Fat, ch: seq<nat>, c: nat, x: nat)
    requires IsChain(fat, ch) && c < |fat| && c !in ch
    ensures IsChain(fat[c := x], ch)
  {
  }

  lemma GrownChain(fat: Fat, ch: seq<nat>, n: nat)
    requires IsChain(fat, ch) && Distinct(ch) && 2 <= n < |fat| && n !in ch
    ensures ch != [] ==> ch[|ch| - 1] < |fat|
    ensures IsChain(Appended(fat, ch, n), ch + [n]) && Distinct(ch + [n])
  {
  }

  lemma OtherAppended(fat: Fat, ch: seq<nat>, n: nat, other: seq<nat>)
    requires IsChain(fat, ch) && IsChain(fat, other) && 2 <= n < |fat| && n !in other
    requires forall c :: c in ch ==> c !in other
    ensures ch != [] ==> ch[|ch| - 1] < |fat|
    ensures IsChain(Appended(fat, ch, n), other)
  {
    hide IsChain;
    if ch != [] {
      LastInRange(fat, ch);
      OtherChain(fat, other, ch[|ch| - 1], n);
      OtherChain(fat[ch[|ch| - 1] := n], other, n, LAST_MARK);
    } else {
      OtherChain(fat, other, n, LAST_MARK);
    }
  }

  lemma LastInRange(fat: Fat, ch: seq<nat>)
    requires IsChain(fat, ch) && ch != []
    ensures 2 <= ch[|ch| - 1] < |fat| && ch[|ch| - 1] in ch && 2 <= ch[0] < |fat| && ch[0] in ch
  {
  }

  /** One chain grown: the chains stay in order. */
  lemma AppendKeepsChain(fat: Fat, chains: seq<seq<nat>>, reserved: set<nat>, hint: nat, k: nat, n: nat, f: nat)
    requires InOrder(fat, chains, reserved, hint) && k < |chains| && f < |chains|
    requires 2 <= n < |fat| && fat[n] == EMPTY_CLUSTER
    ensures chains[k] != [] ==> chains[k][|chains[k]| - 1] < |fat|
    ensures var after := chains[k := chains[k] + [n]];
      IsChain(Appended(fat, chains[k], n), after[f]) && Distinct(after[f])
  {
    hide IsChain, Distinct, Appended;
    FreeNotOwned(fat, chains, reserved, hint, n, f);
    FreeNotOwned(fat, chains, reserved, hint, n, k);
    ChainIn(fat, chains, reserved, hint, k);
    ChainIn(fat, chains, reserved, hint, f);
    GrownChain(fat, chains[k], n);
    if f != k {
      OtherAppended(fat, chains[k], n, chains[f]);
    }
  }

  lemma AppendOwned(chains: seq<seq<nat>>, k: nat, n: nat, c: nat)
    requires k < |chains|
    ensures Owned(chains[k := chains[k] + [n]], c) <==> Owned(chains, c) || c == n
  {
    hide Owned;
    OwnedUpdate(chains, k, chains[k] + [n], c);
    OwnedUpdate(chains, k, chains[k], c);
    assert chains[k := chains[k]] == chains;
  }

  lemma AppendEntries(fat: Fat, ch: seq<nat>, n: nat, c: nat)
    requires n < |fat| && (ch != [] ==> ch[|ch| - 1] < |fat| && fat[ch[|ch| - 1]] != EMPTY_CLUSTER) && 2 <= n
    requires c < |fat|
    ensures Appended(fat, ch, n)[c] != EMPTY_CLUSTER <==> fat[c] != EMPTY_CLUSTER || c == n
  {
  }

  lemma AppendKeeps(fat: Fat, chains: seq<seq<nat>>, reserved: set<nat>, hint: nat, k: nat, n: nat)
    requires InOrder(fat, chains, reserved, hint) && k < |chains|
    requires 2 <= n < |fat| && fat[n] == EMPTY_CLUSTER
    ensures chains[k] != [] ==> chains[k][|chains[k]| - 1] < |fat|
    ensures InOrder(Appended(fat, chains[k], n), chains[k := chains[k] + [n]], reserved, hint)
  {
    hide IsChain, Distinct, Disjoint, Owned, Appended;
    var ch := chains[k];
    var after := chains[k := ch + [n]];
    if ch != [] {
      LastIsUsed(fat, chains, reserved, hint, k);
    }
    AppendKeepsChain(fat, chains, reserved, hint, k, n, k);
    var fat' := Appended(fat, ch, n);
    AppendedSize(fat, ch, n);
    forall f | 0 <= f < |after|
      ensures IsChain(fat', after[f]) && Distinct(after[f])
    {
      AppendKeepsChain(fat, chains, reserved, hint, k, n, f);
    }
    AppendDisjoint(fat, chains, reserved, hint, k, n);
    FreeNotOwned(fat, chains, reserved, hint, n, k);
    forall c: nat
      ensures Owned(after, c) <==> Owned(chains, c) || c == n
      ensures c < |fat| ==> (fat'[c] != EMPTY_CLUSTER <==> fat[c] != EMPTY_CLUSTER || c == n)
    {
      AppendOwned(chains, k, n, c);
      if c < |fat| {
        AppendEntries(fat, ch, n, c);
      }
    }
  }

  lemma AppendedSize(fat: Fat, ch: seq<nat>, n: nat)
    requires n < |fat| && (ch != [] ==> ch[|ch| - 1] < |fat|)
    ensures |Appended(fat, ch, n)| == |fat|
  {
  }

  lemma AppendDisjoint(fat: Fat, chains: seq<seq<nat>>, reserved: set<nat>, hint: nat, k: nat, n: nat)
    requires InOrder(fat, chains, reserved, hint) && k < |chains|
    requires 2 <= n < |fat| && fat[n] == EMPTY_CLUSTER
    ensures Disjoint(chains[k := chains[k] + [n]])
  {
    var after := chains[k := chains[k] + [n]];
    forall f, h, c | 0 <= f < |after| && 0 <= h < |after| && c in after[f] && c in after[h]
      ensures f == h
    {
      FreeNotOwned(fat, chains, reserved, hint, n, f);
      FreeNotOwned(fat, chains, reserved, hint, n, h);
    }
  }

  lemma LastIsUsed(fat: Fat, chains: seq<seq<nat>>, reserved: set<nat>, hint: nat, k: nat)
    requires InOrder(fat, chains, reserved, hint) && k < |chains| && chains[k] != []
    ensures var last := chains[k][|chains[k]| - 1];
      2 <= last < |fat| && Owned(chains, last) && fat[last] != EMPTY_CLUSTER
  {
    assert IsChain(fat, chains[k]);
    assert chains[k][|chains[k]| - 1] in chains[k];
  }

  function Min(a: nat, b: nat): nat
  {
    if a < b then a else b
  }

  /** Releasing the first cluster of a chain leaves the rest a chain. */
  lemma TailChain(fat: Fat, ch: seq<nat>)
    requires IsChain(fat, ch) && Distinct(ch) && ch != []
    ensures 2 <= ch[0] < |fat| && IsChain(fat[ch[0] := EMPTY_CLUSTER], ch[1..]) && Distinct(ch[1..])
  {
  }

  lemma DropHeadChains(fat: Fat, chains: seq<seq<nat>>, reserved: set<nat>, hint: nat, k: nat, f: nat)
    requires InOrder(fat, chains, reserved, hint) && k < |chains| && chains[k] != [] && f < |chains|
    ensures 2 <= chains[k][0] < |fat|
    ensures var after := chains[k := chains[k][1..]];
      IsChain(fat[chains[k][0] := EMPTY_CLUSTER], after[f]) && Distinct(after[f])
  {
    hide IsChain, Distinct;
    ChainIn(fat, chains, reserved, hint, k);
    ChainIn(fat, chains, reserved, hint, f);
    TailChain(fat, chains[k]);
    if f != k {
      assert chains[k][0] in chains[k];
      OtherChain(fat, chains[f], chains[k][0], EMPTY_CLUSTER);
    }
  }

  lemma TailDisjoint(chains: seq<seq<nat>>, k: nat)
    requires Disjoint(chains) && k < |chains| && chains[k] != []
    ensures Disjoint(chains[k := chains[k][1..]])
  {
    var after := chains[k := chains[k][1..]];
    forall f, h, c | 0 <= f < |after| && 0 <= h < |after| && c in after[f] && c in after[h]
      ensures f == h
    {
      assert c in chains[f] && c in chains[h];
    }
  }

  lemma DropHeadKeeps(fat: Fat, chains: seq<seq<nat>>, reserved: set<nat>, hint: nat, k: nat)
    requires InOrder(fat, chains, reserved, hint) && k < |chains| && chains[k] != []
    ensures 2 <= chains[k][0] < |fat|
    ensures InOrder(fat[chains[k][0] := EMPTY_CLUSTER], chains[k := chains[k][1..]], reserved, Min(hint, chains[k][0]))
  {
    var ch := chains[k];
    var after := chains[k := ch[1..]];
    DropHeadChains(fat, chains, reserved, hint, k, k);
    var fat' := fat[ch[0] := EMPTY_CLUSTER];
    forall f | 0 <= f < |after|
      ensures IsChain(fat', after[f]) && Distinct(after[f])
    {
      DropHeadChains(fat, chains, reserved, hint, k, f);
    }
    TailDisjoint(chains, k);
    assert Distinct(ch);
    hide IsChain, Disjoint, Distinct;
    forall c: nat
      ensures Owned(after, c) <==> Owned(chains, c) && c != ch[0]
    {
      DropOwned(chains, k, c);
    }
    assert Owned(chains, ch[0]);
  }

  lemma DropOwned(chains: seq<seq<nat>>, k: nat, c: nat)
    requires k < |chains| && chains[k] != [] && Distinct(chains[k]) && Disjoint(chains)
    ensures Owned(chains[k := chains[k][1..]], c) <==> Owned(chains, c) && c != chains[k][0]
  {
    var ch := chains[k];
    OwnedUpdate(chains, k, ch[1..], c);
    OwnedUpdate(chains, k, ch, c);
    assert chains[k := ch] == chains;
    assert c in ch <==> c == ch[0] || c in ch[1..];
    assert ch[0] in ch;
  }

  // ----- Conservation -----

  function TotalLength(chains: seq<seq<nat>>): nat
  {
    if chains == [] then 0 else TotalLength(chains[..|chains| - 1]) + |chains[|chains| - 1]|
  }

  ghost function FreeClusters(fat: Fat): set<nat>
  {
    set c | 2 <= c < |fat| && fat[c] == EMPTY_CLUSTER
  }

  /** In numbers: the clusters from 2 on whose entry is 0. */
  lemma FreeInNumbers(fat: Fat, c: nat)
    ensures c in FreeClusters(fat) <==> 2 <= c < |fat| && fat[c] == 0
  {
  }

  ghost function AllClusters(n: nat): set<nat>
  {
    if n <= 2 then {} else AllClusters(n - 1) + {n - 1}
  }

  function Elements(ch: seq<nat>): set<nat>
  {
    set c | c in ch
  }

  function Chained(chains: seq<seq<nat>>): set<nat>
  {
    if chains == [] then {} else Chained(chains[..|chains| - 1]) + Elements(chains[|chains| - 1])
  }

  lemma {:induction false} ElementCount(ch: seq<nat>)
    requires Distinct(ch)
    ensures |Elements(ch)| == |ch|
  {
    if ch != [] {
      var n := |ch| - 1;
      ElementCount(ch[..n]);
      assert ch == ch[..n] + [ch[n]];
      assert Elements(ch) == Elements(ch[..n]) + {ch[n]};
    }
  }

  lemma {:induction false} ChainedOwned(chains: seq<seq<nat>>, c: nat)
    ensures c in Chained(chains) <==> Owned(chains, c)
    decreases |chains|
  {
    if chains != [] {
      var n := |chains| - 1;
      ChainedOwned(chains[..n], c);
      if Owned(chains, c) {
        var f :| 0 <= f < |chains| && c in chains[f];
        assert f < n ==> chains[..n][f] == chains[f];
      }
      if Owned(chains[..n], c) {
        var f :| 0 <= f < n && c in chains[..n][f];
        assert c in chains[f];
      }
      if c in chains[n] {
        assert Owned(chains, c);
      }
    }
  }

  lemma {:induction false} ChainedCount(chains: seq<seq<nat>>)
    requires Disjoint(chains) && forall f :: 0 <= f < |chains| ==> Distinct(chains[f])
    ensures |Chained(chains)| == TotalLength(chains)
    decreases |chains|
  {
    if chains != [] {
      var n := |chains| - 1;
      var front := chains[..n];
      assert Disjoint(front) by {
        forall f, h, c | 0 <= f < n && 0 <= h < n && c in front[f] && c in front[h]
          ensures f == h
        {
          assert c in chains[f] && c in chains[h];
        }
      }
      ChainedCount(front);
      ElementCount(chains[n]);
      forall c | c in Chained(front)
        ensures c !in Elements(chains[n])
      {
        ChainedOwned(front, c);
        var f :| 0 <= f < n && c in front[f];
        assert c in chains[f];
      }
      assert Chained(front) !! Elements(chains[n]);
    }
  }

  lemma {:induction false} ClusterCount(n: nat)
    requires n >= 2
    ensures |AllClusters(n)| == n - 2 && forall c: nat :: c in AllClusters(n) <==> 2 <= c < n
  {
    if n > 2 {
      ClusterCount(n - 1);
    }
  }

  lemma ChainedUsed(fat: Fat, chains: seq<seq<nat>>, reserved: set<nat>, hint: nat, c: nat)
    requires InOrder(fat, chains, reserved, hint)
    ensures c in Chained(chains) ==> 2 <= c < |fat| && fat[c] != EMPTY_CLUSTER && c !in reserved
    ensures 2 <= c < |fat| && fat[c] != EMPTY_CLUSTER ==> c in Chained(chains) || c in reserved
  {
    hide Chained;
    ChainedOwned(chains, c);
    if Owned(chains, c) {
      var f :| 0 <= f < |chains| && c in chains[f];
      assert IsChain(fat, chains[f]);
    }
  }

  lemma Partition(a: set<nat>, b: set<nat>, c: set<nat>, all: set<nat>)
    requires a !! b && a !! c && b !! c && all == a + b + c
    ensures |a| + |b| + |c| == |all|
  {
    assert |a + b| == |a| + |b|;
    assert (a + b) !! c;
  }

  lemma Accounted(fat: Fat, chains: seq<seq<nat>>, reserved: set<nat>, hint: nat)
    requires InOrder(fat, chains, reserved, hint) && |fat| >= 2
    ensures var free, used := FreeClusters(fat), Chained(chains);
      free !! used && free !! reserved && used !! reserved && AllClusters(|fat|) == free + used + reserved
  {
    ClusterCount(|fat|);
    var free, used, all := FreeClusters(fat), Chained(chains), AllClusters(|fat|);
    assert forall c :: c in reserved ==> 2 <= c < |fat| && fat[c] != EMPTY_CLUSTER;
    hide Chained, AllClusters;
    forall c: nat
      ensures c in used ==> 2 <= c < |fat| && fat[c] != EMPTY_CLUSTER && c !in reserved
      ensures c in all <==> c in free + used + reserved
    {
      ChainedUsed(fat, chains, reserved, hint, c);
    }
  }

  /** Every cluster is free, reserved, or in exactly one chain. */
  lemma Conservation(fat: Fat, chains: seq<seq<nat>>, reserved: set<nat>, hint: nat)
    requires InOrder(fat, chains, reserved, hint) && |fat| >= 2
    ensures |FreeClusters(fat)| + TotalLength(chains) + |reserved| == |fat| - 2
  {
    ChainsApart(fat, chains, reserved, hint);
    Accounted(fat, chains, reserved, hint);
    hide InOrder, Chained, AllClusters, FreeClusters, Distinct, Disjoint;
    ChainedCount(chains);
    ClusterCount(|fat|);
    Partition(FreeClusters(fat), Chained(chains), reserved, AllClusters(|fat|));
  }

  lemma ChainsApart(fat: Fat, chains: seq<seq<nat>>, reserved: set<nat>, hint: nat)
    requires InOrder(fat, chains, reserved, hint)
    ensures Disjoint(chains) && forall f :: 0 <= f < |chains| ==> Distinct(chains[f])
  {
  }

  /** When no free cluster is found from the hint on, the volume is full. */
  lemma FullFromHint(fat: Fat, chains: seq<seq<nat>>, reserved: set<nat>, hint: nat)
    requires InOrder(fat, chains, reserved, hint)
    requires forall c :: hint <= c < |fat| ==> fat[c] != EMPTY_CLUSTER
    ensures FreeClusters(fat) == {}
  {
  }
}
