/** The entries of a directory on the disk: the root directory, or the clusters of a
    chain (rdcf2.c). */
module FatPlaces {
  import opened FatCache
  import opened FatChains
  import opened FatData
  import opened FatEntries

  /** Where an entry is: a cluster, 0 standing for the root directory, and an index. */
  datatype Place = Place(cluster: nat, index: nat)

  predicate AreaOk(g: Geometry, c: nat)
  {
    GeometryOk(g) && (c == 0 || 2 <= c <= g.maxCluster)
  }

  function AreaStart(g: Geometry, c: nat): (s: nat)
    requires AreaOk(g, c)
    ensures s >= g.firstDirectory
  {
    if c == 0 then g.firstDirectory else FirstSector(g, c)
  }

  function AreaSectors(g: Geometry, c: nat): nat
    requires AreaOk(g, c)
  {
    if c == 0 then g.firstData - g.firstDirectory else g.perCluster
  }

  function AreaSize(g: Geometry, c: nat): nat
    requires AreaOk(g, c)
  {
    ENTRIES_PER_SECTOR * AreaSectors(g, c)
  }

  lemma AreaSectorIn(g: Geometry, c: nat, o: nat)
    requires AreaOk(g, c) && o < AreaSectors(g, c)
    ensures g.firstDirectory <= AreaStart(g, c) + o < Sectors(g)
    ensures c != 0 ==> AreaStart(g, c) + o >= g.firstData
    ensures c == 0 ==> AreaStart(g, c) + o < g.firstData
  {
    FatFits(g);
    if c != 0 {
      SectorExists(g, c, o);
    }
  }

  /** Areas share no sector. */
  lemma AreasApart(g: Geometry, c1: nat, o1: nat, c2: nat, o2: nat)
    requires AreaOk(g, c1) && AreaOk(g, c2) && o1 < AreaSectors(g, c1) && o2 < AreaSectors(g, c2)
    requires AreaStart(g, c1) + o1 == AreaStart(g, c2) + o2
    ensures c1 == c2 && o1 == o2
  {
    hide FirstSector;
    AreaSectorIn(g, c1, o1);
    AreaSectorIn(g, c2, o2);
    if c1 != 0 && c2 != 0 {
      SectorsDiffer(g, c1, o1, c2, o2);
    }
  }

  /** The entries of a directory come area by area. */
  predicate AreasOk(g: Geometry, areas: seq<nat>)
  {
    forall i :: 0 <= i < |areas| ==> AreaOk(g, areas[i])
  }

  function PlacesIn(g: Geometry, c: nat): (ps: seq<Place>)
    requires AreaOk(g, c)
    ensures |ps| == AreaSize(g, c)
  {
    seq(AreaSize(g, c), i requires 0 <= i < AreaSize(g, c) => Place(c, i))
  }

  function Places(g: Geometry, areas: seq<nat>): seq<Place>
    requires AreasOk(g, areas)
  {
    if areas == [] then [] else Places(g, areas[..|areas| - 1]) + PlacesIn(g, areas[|areas| - 1])
  }

  predicate PlaceOk(g: Geometry, p: Place)
  {
    AreaOk(g, p.cluster) && p.index < AreaSize(g, p.cluster)
  }

  /** Every place lies in one of the areas. */
  lemma {:induction false} PlaceInAreas(g: Geometry, areas: seq<nat>, k: nat)
    requires AreasOk(g, areas) && k < |Places(g, areas)|
    ensures PlaceOk(g, Places(g, areas)[k]) && Places(g, areas)[k].cluster in areas
    decreases |areas|
  {
    hide AreaOk, AreaSize;
    if areas != [] {
      var front := areas[..|areas| - 1];
      if k < |Places(g, front)| {
        PlaceInAreas(g, front, k);
      }
    }
  }

  /** No place is there twice. */
  lemma {:induction false} PlacesDiffer(g: Geometry, areas: seq<nat>, j: nat, k: nat)
    requires AreasOk(g, areas) && Distinct(areas) && j < k < |Places(g, areas)|
    ensures Places(g, areas)[j] != Places(g, areas)[k]
    decreases |areas|
  {
    hide AreaOk, AreaSize;
    if areas != [] {
      var front, last := areas[..|areas| - 1], areas[|areas| - 1];
      if k < |Places(g, front)| {
        PlacesDiffer(g, front, j, k);
      } else if j < |Places(g, front)| {
        PlaceInAreas(g, front, j);
        assert last !in front;
      }
    }
  }

  /** The places of area n follow those of the areas before it. */
  lemma {:induction false} PlaceAt(g: Geometry, areas: seq<nat>, n: nat, i: nat)
    requires AreasOk(g, areas) && n < |areas| && i < AreaSize(g, areas[n])
    ensures |Places(g, areas[..n])| + i < |Places(g, areas)|
    ensures Places(g, areas)[|Places(g, areas[..n])| + i] == Place(areas[n], i)
    ensures |Places(g, areas[..n + 1])| == |Places(g, areas[..n])| + AreaSize(g, areas[n])
    decreases |areas|
  {
    hide AreaOk, AreaSize;
    var front := areas[..|areas| - 1];
    assert areas[..n + 1][..n] == areas[..n];
    if n < |areas| - 1 {
      PlaceAt(g, front, n, i);
      assert front[..n] == areas[..n] && front[n] == areas[n];
    }
  }

  lemma PlacesOfAreas(g: Geometry, areas: seq<nat>, n: nat)
    requires AreasOk(g, areas) && n < |areas|
    ensures |Places(g, areas[..n + 1])| == |Places(g, areas[..n])| + AreaSize(g, areas[n])
  {
    hide AreaOk, AreaSize;
    assert areas[..n + 1][..n] == areas[..n];
  }

  // ----- The entries -----

  function EntrySector(g: Geometry, p: Place): (s: nat)
    requires PlaceOk(g, p)
    ensures g.firstDirectory <= s < Sectors(g)
  {
    AreaSectorIn(g, p.cluster, p.index / ENTRIES_PER_SECTOR);
    AreaStart(g, p.cluster) + p.index / ENTRIES_PER_SECTOR
  }

  /** Entry o of a sector. */
  function EntryOf(s: Sector, o: nat): (r: Raw)
    requires o < ENTRIES_PER_SECTOR
  {
    var r := s[ENTRY_SIZE * o..ENTRY_SIZE * o + ENTRY_SIZE];
    assert forall i :: 0 <= i < ENTRY_SIZE ==> r[i] == s[ENTRY_SIZE * o + i];
    r
  }

  /** The sector with entry o replaced. */
  function WithDirEntry(s: Sector, o: nat, r: Raw): (t: Sector)
    requires o < ENTRIES_PER_SECTOR
    ensures forall q :: 0 <= q < ENTRIES_PER_SECTOR ==> EntryOf(t, q) == if q == o then r else EntryOf(s, q)
  {
    EntryReplaced(s, o, r);
    s[..ENTRY_SIZE * o] + r + s[ENTRY_SIZE * o + ENTRY_SIZE..]
  }

  lemma EntryReplaced(s: Sector, o: nat, r: Raw)
    requires o < ENTRIES_PER_SECTOR
    ensures var t := s[..ENTRY_SIZE * o] + r + s[ENTRY_SIZE * o + ENTRY_SIZE..];
      && |t| == SECTOR_SIZE && (forall i :: 0 <= i < SECTOR_SIZE ==> t[i] < 256)
      && forall q {:trigger EntryOf(t, q)} :: 0 <= q < ENTRIES_PER_SECTOR ==>
           EntryOf(t, q) == if q == o then r else EntryOf(s, q)
  {
    var t := s[..ENTRY_SIZE * o] + r + s[ENTRY_SIZE * o + ENTRY_SIZE..];
    forall q: nat | q < ENTRIES_PER_SECTOR
      ensures EntryOf(t, q) == if q == o then r else EntryOf(s, q)
    {
      var a := ENTRY_SIZE * q;
      forall i | 0 <= i < ENTRY_SIZE
        ensures EntryOf(t, q)[i] == (if q == o then r else EntryOf(s, q))[i]
      {
        assert EntryOf(t, q)[i] == t[a + i] && EntryOf(s, q)[i] == s[a + i];
      }
      assert EntryOf(t, q) == if q == o then r else EntryOf(s, q);
    }
  }

  function EntryAt(g: Geometry, d: Disk, p: Place): Raw
    requires DiskOk(g, d) && PlaceOk(g, p)
  {
    EntryOf(d[EntrySector(g, p)], p.index % ENTRIES_PER_SECTOR)
  }

  /** The entries of the directory with these areas, in order. */
  ghost function EntriesOf(g: Geometry, d: Disk, areas: seq<nat>): (es: seq<Raw>)
    requires DiskOk(g, d) && AreasOk(g, areas)
    ensures |es| == |Places(g, areas)|
  {
    seq(|Places(g, areas)|, k requires 0 <= k < |Places(g, areas)| =>
      PlaceInAreas(g, areas, k);
      EntryAt(g, d, Places(g, areas)[k]))
  }

  /** A disk with the entry at a place replaced. */
  function WithEntryAt(g: Geometry, d: Disk, p: Place, r: Raw): (e: Disk)
    requires DiskOk(g, d) && PlaceOk(g, p)
    ensures DiskOk(g, e)
  {
    d[EntrySector(g, p) := WithDirEntry(d[EntrySector(g, p)], p.index % ENTRIES_PER_SECTOR, r)]
  }

  /** Replacing an entry changes it and no other. */
  lemma EntryChanged(g: Geometry, d: Disk, p: Place, r: Raw, q: Place)
    requires DiskOk(g, d) && PlaceOk(g, p) && PlaceOk(g, q)
    ensures EntryAt(g, WithEntryAt(g, d, p, r), q) == if q == p then r else EntryAt(g, d, q)
  {
    hide EntryOf, WithDirEntry, AreaStart, AreaSectors;
    var a, b := p.index / ENTRIES_PER_SECTOR, q.index / ENTRIES_PER_SECTOR;
    if EntrySector(g, p) == EntrySector(g, q) {
      AreasApart(g, p.cluster, a, q.cluster, b);
    }
  }

  lemma EntriesChanged(g: Geometry, d: Disk, areas: seq<nat>, k: nat, r: Raw)
    requires DiskOk(g, d) && AreasOk(g, areas) && Distinct(areas) && k < |Places(g, areas)|
    requires PlaceOk(g, Places(g, areas)[k])
    ensures EntriesOf(g, WithEntryAt(g, d, Places(g, areas)[k], r), areas) == EntriesOf(g, d, areas)[k := r]
  {
    hide WithEntryAt, EntryAt, PlaceOk, Distinct, AreasOk;
    var ps := Places(g, areas);
    var after := WithEntryAt(g, d, ps[k], r);
    forall j: nat | j < |ps|
      ensures EntriesOf(g, after, areas)[j] == EntriesOf(g, d, areas)[k := r][j]
    {
      PlaceInAreas(g, areas, j);
      EntryChanged(g, d, ps[k], r, ps[j]);
      if j < k {
        PlacesDiffer(g, areas, j, k);
      } else if k < j {
        PlacesDiffer(g, areas, k, j);
      }
    }
  }

  // ----- What else is on the disk -----

  predicate InArea(g: Geometry, c: nat, s: nat)
    requires AreaOk(g, c)
  {
    AreaStart(g, c) <= s < AreaStart(g, c) + AreaSectors(g, c)
  }

  /** The sector belongs to the directory. */
  ghost predicate InAreas(g: Geometry, areas: seq<nat>, s: nat)
    requires AreasOk(g, areas)
  {
    exists i :: 0 <= i < |areas| && InArea(g, areas[i], s)
  }

  /** Of the directories and files nothing but this directory differs. */
  ghost predicate OnlyAreas(g: Geometry, a: Disk, b: Disk, areas: seq<nat>)
    requires AreasOk(g, areas)
  {
    |a| == |b| && forall s: nat :: g.firstDirectory <= s < |a| && !InAreas(g, areas, s) ==> b[s] == a[s]
  }

  lemma EntrySectorIn(g: Geometry, areas: seq<nat>, k: nat)
    requires AreasOk(g, areas) && k < |Places(g, areas)|
    ensures PlaceOk(g, Places(g, areas)[k]) && InAreas(g, areas, EntrySector(g, Places(g, areas)[k]))
  {
    PlaceInAreas(g, areas, k);
    var p := Places(g, areas)[k];
    var i :| 0 <= i < |areas| && areas[i] == p.cluster;
    assert InArea(g, areas[i], EntrySector(g, p));
  }

  /** A file whose clusters are none of the directory's keeps its contents. */
  lemma FileKept(g: Geometry, d: Disk, d': Disk, areas: seq<nat>, ch: seq<nat>, size: nat)
    requires DiskOk(g, d) && DiskOk(g, d') && AreasOk(g, areas) && InRange(g, ch) && Holds(g, ch, size)
    requires OnlyAreas(g, d, d', areas) && forall c :: c in areas ==> c !in ch
    ensures Content(g, d', ch, size) == Content(g, d, ch, size)
  {
    hide Index, Holds, Within, AreaStart, AreaSectors;
    forall p: nat | p < size
      ensures Content(g, d', ch, size)[p] == Content(g, d, ch, size)[p]
    {
      HoldsPosition(g, ch, size, p);
      var s := SectorOf(g, ch, p);
      if InAreas(g, areas, s) {
        var i :| 0 <= i < |areas| && InArea(g, areas[i], s);
        assert areas[i] in areas && ch[Index(g, p)] in ch;
        FileSector(g, ch[Index(g, p)], Within(g, p));
        AreasApart(g, areas[i], s - AreaStart(g, areas[i]), ch[Index(g, p)], Within(g, p));
      }
    }
  }

  lemma FileSector(g: Geometry, c: nat, o: nat)
    requires GeometryOk(g) && 2 <= c <= g.maxCluster && o < g.perCluster
    ensures AreaOk(g, c) && o < AreaSectors(g, c) && SectorAt(g, c, o) == AreaStart(g, c) + o
  {
  }

  // ----- A directory grows -----

  /** Nothing but zeros. */
  predicate Blank(s: seq<nat>)
  {
    forall i :: 0 <= i < |s| ==> s[i] == 0
  }

  /** The sectors of an area are cleared, and no other directory or data sector
      changes. */
  ghost predicate Cleared(g: Geometry, d: Disk, d': Disk, c: nat)
    requires AreaOk(g, c)
  {
    && |d'| == |d|
    && (forall s: nat :: g.firstDirectory <= s < |d| && InArea(g, c, s) ==> Blank(d'[s]))
    && (forall s: nat :: g.firstDirectory <= s < |d| && !InArea(g, c, s) ==> d'[s] == d[s])
  }

  lemma ClearedEntry(g: Geometry, d: Disk, d': Disk, c: nat, p: Place)
    requires DiskOk(g, d) && DiskOk(g, d') && AreaOk(g, c) && Cleared(g, d, d', c) && PlaceOk(g, p)
    ensures p.cluster == c ==> Blank(EntryAt(g, d', p))
    ensures p.cluster != c ==> EntryAt(g, d', p) == EntryAt(g, d, p)
  {
    hide AreaStart, AreaSectors, EntryOf, Blank;
    var s := EntrySector(g, p);
    AreaSectorIn(g, p.cluster, p.index / ENTRIES_PER_SECTOR);
    if p.cluster == c {
      BlankIn(d'[s], p.index % ENTRIES_PER_SECTOR);
    } else if InArea(g, c, s) {
      AreasApart(g, p.cluster, p.index / ENTRIES_PER_SECTOR, c, s - AreaStart(g, c));
    }
  }

  lemma BlankZeros(s: seq<nat>)
    requires forall i :: 0 <= i < |s| ==> s[i] == 0
    ensures Blank(s)
  {
  }

  lemma BlankIn(s: Sector, o: nat)
    requires o < ENTRIES_PER_SECTOR && Blank(s)
    ensures Blank(EntryOf(s, o))
  {
  }

  /** A directory lengthened by a cleared area. */
  lemma GrownEntries(g: Geometry, d: Disk, d': Disk, areas: seq<nat>, c: nat)
    requires DiskOk(g, d) && DiskOk(g, d') && AreasOk(g, areas) && AreaOk(g, c) && c !in areas && Cleared(g, d, d', c)
    ensures AreasOk(g, areas + [c])
    ensures Places(g, areas + [c]) == Places(g, areas) + PlacesIn(g, c)
    ensures EntriesOf(g, d', areas + [c])[..|Places(g, areas)|] == EntriesOf(g, d, areas)
    ensures forall k :: |Places(g, areas)| <= k < |Places(g, areas + [c])| ==> Blank(EntriesOf(g, d', areas + [c])[k])
  {
    hide EntryAt, AreaOk, AreaSize, Cleared, PlaceOk, Blank;
    var more := areas + [c];
    assert more[..|more| - 1] == areas;
    var n, es := |Places(g, areas)|, EntriesOf(g, d', more);
    forall k: nat | k < |es|
      ensures k < n ==> es[k] == EntriesOf(g, d, areas)[k]
      ensures k >= n ==> Blank(es[k])
    {
      PlaceInAreas(g, more, k);
      ClearedEntry(g, d, d', c, Places(g, more)[k]);
      if k < n {
        PlaceInAreas(g, areas, k);
      }
    }
    assert es[..n] == EntriesOf(g, d, areas);
  }

  /** Sectors outside the FATs are the same, so the entries are. */
  lemma SameEntries(g: Geometry, d: Disk, d': Disk, areas: seq<nat>)
    requires DiskOk(g, d) && DiskOk(g, d') && AreasOk(g, areas) && SameData(g, d, d')
    ensures EntriesOf(g, d', areas) == EntriesOf(g, d, areas)
  {
    hide EntryOf, AreaStart, AreaOk, AreaSize;
    forall k | 0 <= k < |Places(g, areas)|
      ensures EntriesOf(g, d', areas)[k] == EntriesOf(g, d, areas)[k]
    {
      PlaceInAreas(g, areas, k);
      assert EntrySector(g, Places(g, areas)[k]) >= g.firstDirectory;
    }
  }

  // ----- In numbers -----

  /** An entry has 32 bytes and a sector 16 of them; the root directory lies before the
      clusters. */
  lemma EntryOnDisk(g: Geometry, d: Disk, p: Place, k: nat)
    requires DiskOk(g, d) && PlaceOk(g, p) && k < 32
    ensures var start := if p.cluster == 0 then g.firstDirectory else g.firstData + (p.cluster - 2) * g.perCluster;
      && 0 <= start + p.index / 16 < |d|
      && EntryAt(g, d, p)[k] == d[start + p.index / 16][32 * (p.index % 16) + k]
    ensures p.index < 16 * if p.cluster == 0 then g.firstData - g.firstDirectory else g.perCluster
  {
    AreaSectorIn(g, p.cluster, p.index / ENTRIES_PER_SECTOR);
  }
}
