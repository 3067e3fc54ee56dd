/** Where the bytes of a file are: from a position to a cluster of its chain, a
    sector and an offset. */
module FatData {
  import opened Arith
  import opened FatCache
  import opened FatChains

  function ClusterBytes(g: Geometry): (n: nat)
    requires GeometryOk(g)
    ensures n > 0
  {
    g.perCluster * SECTOR_SIZE
  }

  /** Which cluster of its chain holds a position. */
  function Index(g: Geometry, p: nat): (i: nat)
    requires GeometryOk(g)
  {
    DivNonNegative(p, ClusterBytes(g));
    p / ClusterBytes(g)
  }

  /** Which sector of its cluster holds a position. */
  function Within(g: Geometry, p: nat): (o: nat)
    requires GeometryOk(g)
    ensures o < g.perCluster
  {
    (p / SECTOR_SIZE) % g.perCluster
  }

  /** first_sector_in_cluster. */
  function FirstSector(g: Geometry, cluster: nat): (s: nat)
    requires GeometryOk(g) && 2 <= cluster
    ensures s >= g.firstData
  {
    Scaled(cluster - 2, g.perCluster);
    g.firstData + (cluster - 2) * g.perCluster
  }

  lemma Scaled(a: nat, b: nat)
    ensures a * b >= 0
  {
  }

  /** Clusters in range, as those of a chain are. */
  ghost predicate InRange(g: Geometry, ch: seq<nat>)
  {
    GeometryOk(g) && forall i :: 0 <= i < |ch| ==> 2 <= ch[i] <= g.maxCluster
  }

  function SectorAt(g: Geometry, cluster: nat, o: nat): (s: nat)
    requires GeometryOk(g) && 2 <= cluster
    ensures s >= g.firstData
  {
    FirstSector(g, cluster) + o
  }

  lemma SectorExists(g: Geometry, cluster: nat, o: nat)
    requires GeometryOk(g) && 2 <= cluster <= g.maxCluster && o < g.perCluster
    ensures SectorAt(g, cluster, o) < Sectors(g)
  {
    var a, b := cluster - 2, g.maxCluster - 1;
    MulLess(g.perCluster, a, b);
    assert g.perCluster * a == a * g.perCluster && g.perCluster * b == b * g.perCluster;
  }

  /** Different clusters share no sector. */
  lemma SectorsDiffer(g: Geometry, c1: nat, o1: nat, c2: nat, o2: nat)
    requires GeometryOk(g) && 2 <= c1 && 2 <= c2 && o1 < g.perCluster && o2 < g.perCluster
    requires SectorAt(g, c1, o1) == SectorAt(g, c2, o2)
    ensures c1 == c2 && o1 == o2
  {
    var v := (c1 - 2) * g.perCluster + o1;
    assert (c1 - 2) * g.perCluster == g.perCluster * (c1 - 2);
    assert (c2 - 2) * g.perCluster == g.perCluster * (c2 - 2);
    UniqueQuotient(v, g.perCluster, c1 - 2, o1);
    UniqueQuotient(v, g.perCluster, c2 - 2, o2);
  }

  /** The sector of a position. */
  ghost function SectorOf(g: Geometry, ch: seq<nat>, p: nat): (s: nat)
    requires InRange(g, ch) && Index(g, p) < |ch|
    ensures g.firstData <= s < Sectors(g)
  {
    SectorExists(g, ch[Index(g, p)], Within(g, p));
    SectorAt(g, ch[Index(g, p)], Within(g, p))
  }

  /** A position is its cluster's index, its sector and its offset. */
  lemma Decompose(g: Geometry, p: nat)
    requires GeometryOk(g)
    ensures p / SECTOR_SIZE == g.perCluster * Index(g, p) + Within(g, p)
  {
    DivDiv(p, SECTOR_SIZE, g.perCluster);
    assert SECTOR_SIZE * g.perCluster == ClusterBytes(g);
    DivMod(p / SECTOR_SIZE, g.perCluster);
  }

  lemma SameSector(g: Geometry, p: nat, q: nat)
    requires GeometryOk(g) && p / SECTOR_SIZE == q / SECTOR_SIZE
    ensures Index(g, p) == Index(g, q) && Within(g, p) == Within(g, q)
  {
    Decompose(g, p);
    Decompose(g, q);
    UniqueQuotient(p / SECTOR_SIZE, g.perCluster, Index(g, p), Within(g, p));
    UniqueQuotient(q / SECTOR_SIZE, g.perCluster, Index(g, q), Within(g, q));
  }

  /** Positions share a sector only within the same 512 bytes of the file. */
  lemma SectorOfInjective(g: Geometry, ch: seq<nat>, p: nat, q: nat)
    requires InRange(g, ch) && Distinct(ch) && Index(g, p) < |ch| && Index(g, q) < |ch|
    requires SectorOf(g, ch, p) == SectorOf(g, ch, q)
    ensures p / SECTOR_SIZE == q / SECTOR_SIZE
  {
    SectorsDiffer(g, ch[Index(g, p)], Within(g, p), ch[Index(g, q)], Within(g, q));
    assert Index(g, p) == Index(g, q);
    Decompose(g, p);
    Decompose(g, q);
  }

  /** The cursor after n bytes of one sector: in the next cluster exactly when
      the position is a multiple of the cluster size. */
  lemma Advance(g: Geometry, p: nat, n: nat)
    requires GeometryOk(g) && 0 < n <= SECTOR_SIZE - p % SECTOR_SIZE
    ensures Index(g, p + n) == Index(g, p) + if (p + n) % ClusterBytes(g) == 0 then 1 else 0
  {
    var b := ClusterBytes(g);
    var last := p + n - 1;
    SameSectorRange(p, n - 1);
    SameSector(g, p, last);
    DivMod(last, b);
    DivMod(last + 1, b);
    var q, r := last / b, last % b;
    if r == b - 1 {
      assert last + 1 == b * (q + 1);
      UniqueQuotient(last + 1, b, q + 1, 0);
    } else {
      UniqueQuotient(last + 1, b, q, r + 1);
    }
  }

  lemma SameSectorRange(p: nat, i: nat)
    requires i < SECTOR_SIZE - p % SECTOR_SIZE
    ensures (p + i) / SECTOR_SIZE == p / SECTOR_SIZE && (p + i) % SECTOR_SIZE == p % SECTOR_SIZE + i
  {
  }

  // ----- File contents -----

  /** The byte at a position of a chain. */
  ghost function ByteAt(g: Geometry, d: Disk, ch: seq<nat>, p: nat): nat
    requires DiskOk(g, d) && InRange(g, ch) && Index(g, p) < |ch|
  {
    d[SectorOf(g, ch, p)][p % SECTOR_SIZE]
  }

  /** In numbers: where the byte at a position of a file is on the disk. */
  lemma ByteOnDisk(g: Geometry, d: Disk, ch: seq<nat>, p: nat, i: nat)
    requires DiskOk(g, d) && InRange(g, ch) && i == p / (512 * g.perCluster) < |ch|
    ensures Index(g, p) < |ch|
    ensures var sector := g.firstData + (ch[i] - 2) * g.perCluster + (p / 512) % g.perCluster;
      0 <= sector < |d| && ByteAt(g, d, ch, p) == d[sector][p % 512]
  {
    ClusterSize(g, p);
    SectorExists(g, ch[i], Within(g, p));
  }

  lemma ClusterSize(g: Geometry, p: nat)
    requires GeometryOk(g)
    ensures ClusterBytes(g) == 512 * g.perCluster && Index(g, p) == p / (512 * g.perCluster)
    ensures Within(g, p) == (p / 512) % g.perCluster
  {
  }

  /** A chain long enough for a size. */
  ghost predicate Holds(g: Geometry, ch: seq<nat>, size: nat)
    requires GeometryOk(g)
  {
    size <= |ch| * ClusterBytes(g)
  }

  lemma HoldsPosition(g: Geometry, ch: seq<nat>, size: nat, p: nat)
    requires GeometryOk(g) && Holds(g, ch, size) && p < size
    ensures Index(g, p) < |ch|
  {
    var b := ClusterBytes(g);
    DivMod(p, b);
    if Index(g, p) >= |ch| {
      IndexFloor(b, |ch|, Index(g, p));
    }
  }

  lemma IndexFloor(b: nat, n: nat, i: nat)
    requires n <= i
    ensures n * b <= b * i
  {
    assert b * (i - n) >= 0;
  }

  /** The contents of a file. */
  ghost function Content(g: Geometry, d: Disk, ch: seq<nat>, size: nat): (s: seq<nat>)
    requires DiskOk(g, d) && InRange(g, ch) && Holds(g, ch, size)
    ensures |s| == size
  {
    seq(size, p requires 0 <= p < size =>
      HoldsPosition(g, ch, size, p);
      ByteAt(g, d, ch, p))
  }

  // ----- Writing -----

  /** A byte sequence with part of it overwritten, or extended. */
  function Spliced(s: seq<nat>, at: nat, data: seq<nat>): (r: seq<nat>)
    requires at <= |s|
    ensures |r| == if at + |data| < |s| then |s| else at + |data|
  {
    s[..at] + data + if at + |data| < |s| then s[at + |data|..] else []
  }

  lemma SplicedAt(s: seq<nat>, at: nat, data: seq<nat>, p: nat)
    requires at <= |s| && p < |Spliced(s, at, data)|
    ensures Spliced(s, at, data)[p] == if at <= p < at + |data| then data[p - at] else if p < |s| then s[p] else 0
  {
  }

  /** Writing on where the last write ended. */
  lemma SplicedTwice(s: seq<nat>, at: nat, a: seq<nat>, b: seq<nat>)
    requires at <= |s|
    ensures at + |a| <= |Spliced(s, at, a)| && Spliced(Spliced(s, at, a), at + |a|, b) == Spliced(s, at, a + b)
  {
    var x, y := Spliced(Spliced(s, at, a), at + |a|, b), Spliced(s, at, a + b);
    forall p | 0 <= p < |x|
      ensures x[p] == y[p]
    {
      SplicedAt(Spliced(s, at, a), at + |a|, b, p);
      SplicedAt(s, at, a + b, p);
      if p < |Spliced(s, at, a)| {
        SplicedAt(s, at, a, p);
      }
    }
  }

  lemma SplicedNothing(s: seq<nat>, at: nat)
    requires at <= |s|
    ensures Spliced(s, at, []) == s
  {
  }

  function Larger(a: nat, b: nat): nat
  {
    if a < b then b else a
  }

  /** What the sector of a position must hold after a stretch of it is written:
      the new bytes, and the old ones wherever the file still has bytes. */
  ghost predicate Patched(before: Sector, after: Sector, o: nat, data: seq<nat>, more: bool)
  {
    && o + |data| <= SECTOR_SIZE
    && (forall j :: 0 <= j < SECTOR_SIZE && o <= j < o + |data| ==> after[j] == data[j - o])
    && (forall j :: 0 <= j < SECTOR_SIZE && (j < o || (more && j >= o + |data|)) ==> after[j] == before[j])
  }

  lemma WroteByte(g: Geometry, d: Disk, ch: seq<nat>, size: nat, pos: nat, data: seq<nat>, after: Sector, p: nat)
    requires DiskOk(g, d) && InRange(g, ch) && Distinct(ch) && Holds(g, ch, size) && pos <= size && Index(g, pos) < |ch|
    requires Patched(d[SectorOf(g, ch, pos)], after, pos % SECTOR_SIZE, data, pos + |data| < size)
    requires p < Larger(size, pos + |data|) && Index(g, p) < |ch|
    ensures ByteAt(g, d[SectorOf(g, ch, pos) := after], ch, p) ==
      if pos <= p < pos + |data| then data[p - pos] else ByteAt(g, d, ch, p)
  {
    hide Index, SectorAt, Within, Holds;
    var o := pos % SECTOR_SIZE;
    if pos <= p < pos + |data| {
      SameSectorRange(pos, p - pos);
    }
    if p / SECTOR_SIZE == pos / SECTOR_SIZE {
      SameSector(g, p, pos);
      assert p - pos == p % SECTOR_SIZE - o;
    } else {
      if SectorOf(g, ch, p) == SectorOf(g, ch, pos) {
        SectorOfInjective(g, ch, p, pos);
      }
    }
  }

  lemma Extends(g: Geometry, ch: seq<nat>, size: nat, pos: nat, n: nat)
    requires GeometryOk(g) && Holds(g, ch, size) && pos <= size && Index(g, pos) < |ch|
    requires n <= SECTOR_SIZE - pos % SECTOR_SIZE
    ensures Holds(g, ch, Larger(size, pos + n))
  {
    if n > 0 {
      var b := ClusterBytes(g);
      var last := pos + n - 1;
      SameSectorRange(pos, n - 1);
      SameSector(g, pos, last);
      DivMod(last, b);
      MulLess(b, Index(g, last), |ch|);
      assert b * |ch| == |ch| * b;
    }
  }

  /** A patched sector is a spliced file. */
  lemma WroteChunk(g: Geometry, d: Disk, ch: seq<nat>, size: nat, pos: nat, data: seq<nat>, after: Sector)
    requires DiskOk(g, d) && InRange(g, ch) && Distinct(ch) && Holds(g, ch, size) && pos <= size && Index(g, pos) < |ch|
    requires Patched(d[SectorOf(g, ch, pos)], after, pos % SECTOR_SIZE, data, pos + |data| < size)
    ensures DiskOk(g, d[SectorOf(g, ch, pos) := after]) && Holds(g, ch, Larger(size, pos + |data|))
    ensures Content(g, d[SectorOf(g, ch, pos) := after], ch, Larger(size, pos + |data|)) ==
      Spliced(Content(g, d, ch, size), pos, data)
  {
    hide Index, SectorOf, Holds, ByteAt, Patched;
    PatchedSize(d[SectorOf(g, ch, pos)], after, pos % SECTOR_SIZE, data, pos + |data| < size);
    Extends(g, ch, size, pos, |data|);
    var size' := Larger(size, pos + |data|);
    var d' := d[SectorOf(g, ch, pos) := after];
    var a, b := Content(g, d', ch, size'), Spliced(Content(g, d, ch, size), pos, data);
    forall p: nat | p < size'
      ensures a[p] == b[p]
    {
      HoldsPosition(g, ch, size', p);
      WroteByte(g, d, ch, size, pos, data, after, p);
      SplicedAt(Content(g, d, ch, size), pos, data, p);
    }
  }

  lemma PatchedSize(before: Sector, after: Sector, o: nat, data: seq<nat>, more: bool)
    requires Patched(before, after, o, data, more)
    ensures o + |data| <= SECTOR_SIZE
  {
  }

  /** A longer chain holds the same bytes. */
  lemma ContentGrown(g: Geometry, d: Disk, d': Disk, ch: seq<nat>, ch': seq<nat>, size: nat)
    requires DiskOk(g, d) && DiskOk(g, d') && SameData(g, d, d') && InRange(g, ch) && InRange(g, ch') && ch <= ch'
    requires Holds(g, ch, size)
    ensures Holds(g, ch', size) && Content(g, d', ch', size) == Content(g, d, ch, size)
  {
    hide Index, Within, SectorAt;
    IndexFloor(ClusterBytes(g), |ch|, |ch'|);
    assert ClusterBytes(g) * |ch'| == |ch'| * ClusterBytes(g);
    hide ClusterBytes;
    forall p: nat | p < size
      ensures Content(g, d', ch', size)[p] == Content(g, d, ch, size)[p]
    {
      HoldsPosition(g, ch, size, p);
      HoldsPosition(g, ch', size, p);
    }
  }

  // ----- Other files -----

  /** The sectors of a chain's clusters. */
  ghost predicate OwnSector(g: Geometry, ch: seq<nat>, s: nat)
    requires InRange(g, ch)
  {
    exists i, o :: 0 <= i < |ch| && 0 <= o < g.perCluster && s == SectorAt(g, ch[i], o)
  }

  /** Nothing but the chain's own sectors differs. */
  ghost predicate OthersKept(g: Geometry, d: Disk, d': Disk, ch: seq<nat>)
    requires InRange(g, ch)
  {
    |d| == |d'| && forall s: nat :: g.firstDirectory <= s < |d| && !OwnSector(g, ch, s) ==> d'[s] == d[s]
  }

  lemma OwnOfPosition(g: Geometry, ch: seq<nat>, p: nat)
    requires InRange(g, ch) && Index(g, p) < |ch|
    ensures OwnSector(g, ch, SectorOf(g, ch, p))
  {
    assert SectorOf(g, ch, p) == SectorAt(g, ch[Index(g, p)], Within(g, p));
  }

  lemma OwnGrows(g: Geometry, ch: seq<nat>, ch': seq<nat>, s: nat)
    requires InRange(g, ch) && InRange(g, ch') && ch <= ch' && OwnSector(g, ch, s)
    ensures OwnSector(g, ch', s)
  {
    var i, o :| 0 <= i < |ch| && 0 <= o < g.perCluster && s == SectorAt(g, ch[i], o);
    assert ch'[i] == ch[i];
  }

  /** Another file keeps its contents. */
  lemma OtherFile(g: Geometry, d: Disk, d': Disk, ch: seq<nat>, other: seq<nat>, size: nat)
    requires DiskOk(g, d) && DiskOk(g, d') && InRange(g, ch) && InRange(g, other) && Holds(g, other, size)
    requires OthersKept(g, d, d', ch) && forall c :: c in ch ==> c !in other
    ensures Content(g, d', other, size) == Content(g, d, other, size)
  {
    hide Index, Holds;
    forall p: nat | p < size
      ensures Content(g, d', other, size)[p] == Content(g, d, other, size)[p]
    {
      HoldsPosition(g, other, size, p);
      var s := SectorOf(g, other, p);
      if OwnSector(g, ch, s) {
        var i, o :| 0 <= i < |ch| && 0 <= o < g.perCluster && s == SectorAt(g, ch[i], o);
        assert ch[i] in ch && other[Index(g, p)] in other;
        SectorsDiffer(g, ch[i], o, other[Index(g, p)], Within(g, p));
      }
    }
  }
}
