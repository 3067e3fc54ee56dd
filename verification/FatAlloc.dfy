/** Allocating and releasing clusters (rdcf2.c). */
module FatAlloc {
  import opened FatCache
  import opened FatChains

  /** The volume is in order, as the cache shows it. */
  ghost predicate VolumeOk(v: Volume)
    reads v
  {
    v.Valid() && InOrder(v.fat, v.chains, v.reserved, v.firstPossiblyEmpty)
  }

  function First(ch: seq<nat>): nat
  {
    if ch == [] then EMPTY_CLUSTER else ch[0]
  }

  function Last(ch: seq<nat>): nat
  {
    if ch == [] then EMPTY_CLUSTER else ch[|ch| - 1]
  }

  /** The buffer holds a FAT sector, nothing, or what it held before. */
  twostate predicate BufferAside(v: Volume)
    reads v
  {
    v.status == Empty || v.sectorInBuffer < v.g.firstDirectory ||
    (v.status == old(v.status) && v.sectorInBuffer == old(v.sectorInBuffer))
  }

  /** Link a free cluster behind a chain, or start one with it. */
  method LinkCluster(v: Volume, cluster: nat, n: nat, ghost ch: seq<nat>)
    requires v.Valid() && cluster == Last(ch) && 2 <= n <= v.g.maxCluster
    requires ch != [] ==> 2 <= Last(ch) <= v.g.maxCluster
    modifies v`disk, v`buf, v`status, v`sectorInBuffer, v`logical, v`fat
    ensures v.Valid() && |old(v.fat)| == v.g.maxCluster + 1 && v.fat == Appended(old(v.fat), ch, n)
    ensures SameData(v.g, old(v.logical), v.logical) && v.status != Empty && v.sectorInBuffer < v.g.firstDirectory
  {
    hide Volume.Valid;
    v.Facts();
    var err := NoError;
    if cluster != EMPTY_CLUSTER {
      err := v.SetFatEntry(cluster, n);
    }
    err := v.SetFatEntry(n, LAST_MARK);
  }

  /** The search of add_new_cluster: the first free cluster from the hint on, or
      one past the last. */
  method FindFree(v: Volume) returns (n: nat)
    requires v.Valid() && v.firstPossiblyEmpty >= 2
    modifies v`disk, v`buf, v`status, v`sectorInBuffer
    ensures v.Valid() && |v.fat| == v.g.maxCluster + 1 && BufferAside(v) && n >= v.firstPossiblyEmpty
    ensures v.status == Dirty ==> old(v.status) == Dirty
    ensures forall c :: v.firstPossiblyEmpty <= c < n && c < |v.fat| ==> v.fat[c] != EMPTY_CLUSTER
    ensures n <= v.g.maxCluster ==> v.fat[n] == EMPTY_CLUSTER
  {
    hide Volume.Valid;
    v.Facts();
    n := v.firstPossiblyEmpty;
    while n <= v.g.maxCluster
      invariant n >= v.firstPossiblyEmpty >= 2
      invariant v.Valid() && BufferAside(v) && (v.status == Dirty ==> old(v.status) == Dirty)
      invariant forall c :: v.firstPossiblyEmpty <= c < n && c < |v.fat| ==> v.fat[c] != EMPTY_CLUSTER
      decreases v.g.maxCluster + 1 - n
    {
      var err, x := v.FatEntry(n);
      if x == EMPTY_CLUSTER {
        break;
      }
      n := n + 1;
    }
  }

  /** add_new_cluster: a cluster for the chain that ends at `cluster`, or
      EMPTY_CLUSTER, and then the volume is full. */
  method AddNewCluster(v: Volume, cluster: nat, ghost k: nat) returns (n: nat)
    requires VolumeOk(v) && k < |v.chains| && cluster == Last(v.chains[k])
    modifies v
    ensures VolumeOk(v) && v.reserved == old(v.reserved) && v.firstPossiblyEmpty == old(v.firstPossiblyEmpty)
    ensures SameData(v.g, old(v.logical), v.logical) && BufferAside(v)
    ensures n == EMPTY_CLUSTER <==> FreeClusters(old(v.fat)) == {}
    ensures n == EMPTY_CLUSTER ==> FreeClusters(v.fat) == {} && v.chains == old(v.chains) && v.logical == old(v.logical)
    ensures n == EMPTY_CLUSTER && v.status == Dirty ==> old(v.status) == Dirty
    ensures n != EMPTY_CLUSTER ==>
      && 2 <= n <= v.g.maxCluster && |old(v.fat)| == v.g.maxCluster + 1 && old(v.fat)[n] == EMPTY_CLUSTER
      && v.chains == old(v.chains)[k := old(v.chains[k]) + [n]]
      && v.sectorInBuffer < v.g.firstDirectory && UsedThrough(v.fat, n)
  {
    hide Volume.Valid, InOrder, Appended, SameData, FreeClusters, UsedThrough, DiskOk;
    v.Facts();
    HintBounds(v.fat, v.chains, v.reserved, v.firstPossiblyEmpty);
    SameIsSame(v.g, v.logical);
    n := FindFree(v);
    if n > v.g.maxCluster {
      FullFromHint(v.fat, v.chains, v.reserved, v.firstPossiblyEmpty);
      return EMPTY_CLUSTER;
    }
    ghost var ch := v.chains[k];
    IsFree(v.fat, n);
    AppendKeeps(v.fat, v.chains, v.reserved, v.firstPossiblyEmpty, k, n);
    UsedUpTo(v.fat, v.chains, v.reserved, v.firstPossiblyEmpty, k, n);
    LinkCluster(v, cluster, n, ch);
    v.chains := v.chains[k := ch + [n]];
  }

  lemma IsFree(fat: Fat, n: nat)
    requires 2 <= n < |fat| && fat[n] == EMPTY_CLUSTER
    ensures n in FreeClusters(fat) && FreeClusters(fat) != {}
  {
  }

  lemma SameIsSame(g: Geometry, d: Disk)
    ensures SameData(g, d, d)
  {
  }

  /** Nothing up to n is free. */
  ghost predicate UsedThrough(fat: Fat, n: nat)
  {
    n < |fat| && forall c :: 2 <= c <= n ==> fat[c] != EMPTY_CLUSTER
  }

  lemma HintBounds(fat: Fat, chains: seq<seq<nat>>, reserved: set<nat>, hint: nat)
    requires InOrder(fat, chains, reserved, hint)
    ensures 2 <= hint
  {
  }

  /** Nothing up to a newly linked cluster is free. */
  lemma UsedUpTo(fat: Fat, chains: seq<seq<nat>>, reserved: set<nat>, hint: nat, k: nat, n: nat)
    requires InOrder(fat, chains, reserved, hint) && k < |chains| && 2 <= n < |fat| && fat[n] == EMPTY_CLUSTER
    requires forall c :: hint <= c < n && c < |fat| ==> fat[c] != EMPTY_CLUSTER
    ensures chains[k] != [] ==> 2 <= Last(chains[k]) < |fat|
    ensures UsedThrough(Appended(fat, chains[k], n), n)
  {
    if chains[k] != [] {
      LastIsUsed(fat, chains, reserved, hint, k);
    }
  }

  // ----- Releasing -----

  function UsedCount(fat: Fat): nat
  {
    if fat == [] then 0 else UsedCount(fat[..|fat| - 1]) + if fat[|fat| - 1] != EMPTY_CLUSTER then 1 else 0
  }

  lemma {:induction false} UsedDrops(fat: Fat, c: nat)
    requires c < |fat|
    ensures UsedCount(fat[c := EMPTY_CLUSTER]) == UsedCount(fat) - if fat[c] != EMPTY_CLUSTER then 1 else 0
    decreases |fat|
  {
    var n := |fat| - 1;
    var after := fat[c := EMPTY_CLUSTER];
    if c == n {
      assert after[..n] == fat[..n];
    } else {
      assert after[..n] == fat[..n][c := EMPTY_CLUSTER];
      UsedDrops(fat[..n], c);
    }
  }

  /** The cluster at the front of what is left of a chain, or an end mark. */
  predicate AtFront(ch: seq<nat>, j: nat)
  {
    if ch == [] then j == EMPTY_CLUSTER || j >= LAST_MARK else j == ch[0]
  }

  /** One step of release_FAT_entries. */
  method ReleaseEntry(v: Volume, j: nat) returns (err: Error, next: nat)
    requires v.Valid()
    modifies v`disk, v`buf, v`status, v`sectorInBuffer, v`logical, v`fat, v`firstPossiblyEmpty
    ensures v.Valid() && SameData(v.g, old(v.logical), v.logical)
    ensures err == if 2 <= j <= v.g.maxCluster then NoError else BadCluster
    ensures err == NoError ==>
      && |old(v.fat)| == v.g.maxCluster + 1 && next == old(v.fat)[j] && v.fat == old(v.fat)[j := EMPTY_CLUSTER]
      && v.firstPossiblyEmpty == Min(old(v.firstPossiblyEmpty), j)
  {
    hide Volume.Valid, SameData;
    SameIsSame(v.g, v.logical);
    err, next := v.FatEntry(j);
    if err != NoError {
      return;
    }
    if j < v.firstPossiblyEmpty {
      v.firstPossiblyEmpty := j;
    }
    err := v.SetFatEntry(j, EMPTY_CLUSTER);
  }

  /** The clusters left of the chain being released. */
  ghost predicate Releasing(v: Volume, chains: seq<seq<nat>>, reserved: set<nat>, k: nat, rest: seq<nat>, j: nat)
    reads v
  {
    VolumeOk(v) && k < |chains| && v.chains == chains[k := rest] && v.reserved == reserved && AtFront(rest, j)
  }

  /** release_FAT_entries: it terminates on any FAT, a cyclic chain included,
      because nonempty entries only become fewer; on a volume in order it frees
      exactly the chain. */
  method ReleaseFatEntries(v: Volume, first: nat, ghost k: nat) returns (err: Error)
    requires v.Valid()
    modifies v
    ensures v.Valid() && SameData(v.g, old(v.logical), v.logical)
    ensures old(VolumeOk(v)) && k < old(|v.chains|) && first == old(First(v.chains[k])) ==>
      && err == NoError && VolumeOk(v)
      && v.chains == old(v.chains)[k := []] && v.reserved == old(v.reserved)
  {
    hide VolumeOk, SameData, Volume.Valid, Releasing, UsedCount;
    SameIsSame(v.g, v.logical);
    ghost var chains, reserved := v.chains, v.reserved;
    ghost var ok := VolumeOk(v) && k < |chains| && first == First(chains[k]);
    ghost var rest := if k < |chains| then chains[k] else [];
    if ok {
      StartReleasing(v, k);
    }
    err := NoError;
    var j: nat := first;
    if j != EMPTY_CLUSTER {
      while j < LAST_MARK && j != EMPTY_CLUSTER
        invariant v.Valid() && SameData(v.g, old(v.logical), v.logical)
        invariant ok ==> err == NoError && Releasing(v, chains, reserved, k, rest, j)
        decreases UsedCount(v.fat), if j == EMPTY_CLUSTER then 0 else 1
      {
        err, j, rest := ReleaseOne(v, chains, reserved, k, rest, j, ok, old(v.logical));
        if err != NoError {
          return;
        }
      }
    }
    if ok {
      DoneReleasing(v, chains, reserved, k, rest, j);
    }
  }

  lemma StartReleasing(v: Volume, k: nat)
    requires VolumeOk(v) && k < |v.chains|
    ensures Releasing(v, v.chains, v.reserved, k, v.chains[k], First(v.chains[k]))
  {
    assert v.chains[k := v.chains[k]] == v.chains;
  }

  lemma DoneReleasing(v: Volume, chains: seq<seq<nat>>, reserved: set<nat>, k: nat, rest: seq<nat>, j: nat)
    requires Releasing(v, chains, reserved, k, rest, j) && (j >= LAST_MARK || j == EMPTY_CLUSTER)
    ensures VolumeOk(v) && v.chains == chains[k := []] && v.reserved == reserved
  {
    if rest != [] {
      NextInChain(v.fat, v.chains, reserved, v.firstPossiblyEmpty, k);
    }
  }

  lemma SameTrans(g: Geometry, a: Disk, b: Disk, c: Disk)
    requires SameData(g, a, b) && SameData(g, b, c)
    ensures SameData(g, a, c)
  {
  }

  /** One cluster released, with what is left of the chain. */
  method ReleaseOne(v: Volume, ghost chains: seq<seq<nat>>, ghost reserved: set<nat>, ghost k: nat,
                    ghost rest: seq<nat>, j: nat, ghost ok: bool,
                    ghost start: Disk)
    returns (err: Error, next: nat, ghost left: seq<nat>)
    requires v.Valid() && j != EMPTY_CLUSTER && j < LAST_MARK && SameData(v.g, start, v.logical)
    requires ok ==> Releasing(v, chains, reserved, k, rest, j)
    modifies v
    ensures v.Valid() && SameData(v.g, start, v.logical)
    ensures ok ==> err == NoError && Releasing(v, chains, reserved, k, left, next)
    ensures err == NoError ==> if old(UsedCount(v.fat)) == UsedCount(v.fat) then next == EMPTY_CLUSTER
                               else UsedCount(v.fat) < old(UsedCount(v.fat))
  {
    hide Volume.Valid, InOrder, UsedCount, SameData;
    ghost var fat, hint := v.fat, v.firstPossiblyEmpty;
    left := rest;
    if ok {
      left := rest[1..];
      NextInChain(fat, v.chains, reserved, hint, k);
      DropHeadKeeps(fat, v.chains, reserved, hint, k);
      InRangeOnly(v, fat);
    }
    err, next := ReleaseEntry(v, j);
    SameTrans(v.g, start, old(v.logical), v.logical);
    if err == NoError {
      UsedDrops(fat, j);
    }
    if ok {
      v.chains := v.chains[k := left];
      assert chains[k := rest][k := left] == chains[k := left];
    }
  }

  lemma InRangeOnly(v: Volume, fat: Fat)
    requires v.Valid() && fat == v.fat
    ensures |fat| == v.g.maxCluster + 1
  {
  }

  lemma NextInChain(fat: Fat, chains: seq<seq<nat>>, reserved: set<nat>, hint: nat, k: nat)
    requires InOrder(fat, chains, reserved, hint) && k < |chains| && chains[k] != []
    ensures 2 <= chains[k][0] < |fat| <= LAST_MARK && AtFront(chains[k][1..], fat[chains[k][0]])
  {
    ChainIn(fat, chains, reserved, hint, k);
  }
}
