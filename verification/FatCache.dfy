/** The FAT16 volume of rdcf2.c and the one-sector write-back cache that every
    operation works through. */
module FatCache {
  import Arith

  const SECTOR_SIZE := 512
  const ENTRIES := 256
  const RESERVED_12_BIT := 0xFF0
  const LAST_MARK := 0xFFF8
  const EMPTY_CLUSTER := 0

  /** The contents of a sector. */
  type Sector = s: seq<nat> | |s| == SECTOR_SIZE && forall i :: 0 <= i < SECTOR_SIZE ==> s[i] < 256
    witness seq(SECTOR_SIZE, _ => 0)

  /** A FAT16 volume with two FATs: the FATs one after the other, the root
      directory, then the clusters from number 2 on. */
  datatype Geometry = Geometry(firstFat: nat, perFat: nat, firstDirectory: nat,
    firstData: nat, perCluster: nat, maxCluster: nat)

  predicate GeometryOk(g: Geometry)
  {
    && 0 < g.perCluster && g.firstFat + 2 * g.perFat <= g.firstDirectory <= g.firstData
    && RESERVED_12_BIT <= g.maxCluster < LAST_MARK && g.maxCluster < ENTRIES * g.perFat
  }

  /** Number of sectors of the volume. */
  function Sectors(g: Geometry): nat
    requires GeometryOk(g)
  {
    g.firstData + (g.maxCluster - 1) * g.perCluster
  }

  type Disk = seq<Sector>

  predicate DiskOk(g: Geometry, d: Disk)
  {
    GeometryOk(g) && |d| >= Sectors(g)
  }

  predicate InFat(g: Geometry, sector: nat)
  {
    g.firstFat <= sector < g.firstFat + g.perFat
  }

  /** The sectors that go through the cache: those of the first FAT, directory
      and data. */
  predicate Cacheable(g: Geometry, sector: nat)
  {
    InFat(g, sector) || g.firstDirectory <= sector
  }

  /** Both copies of a FAT sector agree. */
  ghost predicate Agrees(g: Geometry, d: Disk, s: nat)
  {
    InFat(g, s) && s + g.perFat < |d| && d[s] == d[s + g.perFat]
  }

  /** Both copies of the FAT agree. */
  ghost predicate Mirrored(g: Geometry, d: Disk)
  {
    forall s: nat :: InFat(g, s) ==> Agrees(g, d, s)
  }

  /** Both copies of a FAT sector are what they were. */
  ghost predicate CopiesKept(before: Disk, d: Disk, perFat: nat, s: nat)
  {
    s + perFat < |before| && s + perFat < |d| && d[s] == before[s] && d[s + perFat] == before[s + perFat]
  }

  /** Every sector of the FAT has two copies that agree, or the copies that it had when
      the volume was mounted. */
  ghost predicate SinceMount(g: Geometry, mounted: Disk, d: Disk)
  {
    forall s: nat :: InFat(g, s) ==> Agrees(g, d, s) || CopiesKept(mounted, d, g.perFat, s)
  }

  /** The disk once a buffered sector is written back: a sector of the first FAT
      goes to both copies. */
  function Flushed(g: Geometry, d: Disk, sector: nat, data: Sector): (r: Disk)
    requires DiskOk(g, d) && sector < |d|
    ensures DiskOk(g, r) && |r| == |d|
  {
    FatFits(g);
    if InFat(g, sector) then d[sector := data][sector + g.perFat := data] else d[sector := data]
  }

  lemma FatFits(g: Geometry)
    requires GeometryOk(g)
    ensures g.firstFat + 2 * g.perFat <= Sectors(g) && g.firstData <= Sectors(g)
  {
    assert (g.maxCluster - 1) * g.perCluster >= 0;
  }

  // ----- FAT entries -----

  /** A little-endian 16-bit word of a sector. */
  function Word(s: Sector, o: nat): (x: nat)
    requires o < ENTRIES
    ensures x < 0x10000
  {
    s[2 * o] + 256 * s[2 * o + 1]
  }

  function WithWord(s: Sector, o: nat, x: nat): (t: Sector)
    requires o < ENTRIES
  {
    s[2 * o := x % 256][2 * o + 1 := (x / 256) % 256]
  }

  lemma TwoBytes(x: nat)
    ensures x % 256 + 256 * ((x / 256) % 256) == x % 0x10000
  {
    var h := x / 256;
    Arith.UniqueQuotient(x, 0x10000, h / 256, 256 * (h % 256) + x % 256);
  }

  lemma WordSet(s: Sector, o: nat, x: nat, p: nat)
    requires o < ENTRIES && p < ENTRIES
    ensures Word(WithWord(s, o, x), p) == if p == o then x % 0x10000 else Word(s, p)
  {
    if p == o {
      TwoBytes(x);
    }
  }

  function FatSector(g: Geometry, cluster: nat): nat
  {
    g.firstFat + cluster / ENTRIES
  }

  lemma FatSectorIn(g: Geometry, cluster: nat)
    requires GeometryOk(g) && cluster <= g.maxCluster
    ensures InFat(g, FatSector(g, cluster)) && FatSector(g, cluster) < Sectors(g)
  {
    FatFits(g);
    assert cluster / ENTRIES < g.perFat;
  }

  /** The FAT16 entry of a cluster. */
  function Entry(g: Geometry, d: Disk, cluster: nat): (x: nat)
    requires DiskOk(g, d) && cluster <= g.maxCluster
    ensures x < 0x10000
  {
    FatSectorIn(g, cluster);
    Word(d[FatSector(g, cluster)], cluster % ENTRIES)
  }

  /** In numbers: the entry of a cluster is a little-endian word, 256 to a sector. */
  lemma EntryBytes(g: Geometry, d: Disk, cluster: nat)
    requires DiskOk(g, d) && cluster <= g.maxCluster
    ensures var sector, o := g.firstFat + cluster / 256, 2 * (cluster % 256);
      && sector < |d| && |d[sector]| == 512 && o + 1 < 512
      && Entry(g, d, cluster) == d[sector][o] + 256 * d[sector][o + 1]
  {
    FatSectorIn(g, cluster);
  }

  /** Which volumes are FAT16 ones with two FATs. */
  lemma SixteenBits(g: Geometry)
    ensures GeometryOk(g) <==>
      && 0 < g.perCluster && g.firstFat + 2 * g.perFat <= g.firstDirectory <= g.firstData
      && 4080 <= g.maxCluster < 65528 && g.maxCluster < 256 * g.perFat
  {
  }

  /** The disk with one entry changed, in both copies. */
  function WithEntry(g: Geometry, d: Disk, cluster: nat, x: nat): (r: Disk)
    requires DiskOk(g, d) && cluster <= g.maxCluster
    ensures DiskOk(g, r) && |r| == |d|
  {
    FatSectorIn(g, cluster);
    Flushed(g, d, FatSector(g, cluster), WithWord(d[FatSector(g, cluster)], cluster % ENTRIES, x))
  }

  /** Exactly one entry changes, and nothing outside the FATs. */
  lemma EntrySet(g: Geometry, d: Disk, cluster: nat, x: nat, c: nat)
    requires DiskOk(g, d) && cluster <= g.maxCluster && c <= g.maxCluster
    ensures Entry(g, WithEntry(g, d, cluster, x), c) == if c == cluster then x % 0x10000 else Entry(g, d, c)
  {
    FatSectorIn(g, cluster);
    FatSectorIn(g, c);
    if FatSector(g, c) == FatSector(g, cluster) {
      WordSet(d[FatSector(g, cluster)], cluster % ENTRIES, x, c % ENTRIES);
      SameSlot(cluster, c);
    }
  }

  lemma SameSlot(a: nat, b: nat)
    requires a / ENTRIES == b / ENTRIES
    ensures a % ENTRIES == b % ENTRIES <==> a == b
  {
  }

  lemma DataUntouched(g: Geometry, d: Disk, cluster: nat, x: nat, sector: nat)
    requires DiskOk(g, d) && cluster <= g.maxCluster && g.firstDirectory <= sector < |d|
    ensures WithEntry(g, d, cluster, x)[sector] == d[sector]
  {
    FatSectorIn(g, cluster);
  }

  /** Writing a buffered sector back makes the two copies of a FAT sector agree,
      and leaves other sectors' copies as they were. */
  lemma MirrorKept(g: Geometry, d: Disk, sector: nat, data: Sector, s: nat)
    requires DiskOk(g, d) && sector < |d| && Cacheable(g, sector) && InFat(g, s)
    ensures Agrees(g, Flushed(g, d, sector, data), s) <==> s == sector || Agrees(g, d, s)
  {
    FatFits(g);
  }

  /** The FAT as a table from cluster numbers to entries. */
  type Fat = seq<nat>

  function FatOf(g: Geometry, d: Disk): (fat: Fat)
    requires DiskOk(g, d)
    ensures |fat| == g.maxCluster + 1
  {
    seq(g.maxCluster + 1, c requires 0 <= c < g.maxCluster + 1 => Entry(g, d, c))
  }

  lemma FatWithEntry(g: Geometry, d: Disk, c: nat, x: nat)
    requires DiskOk(g, d) && c <= g.maxCluster && x < 0x10000
    ensures FatOf(g, WithEntry(g, d, c, x)) == FatOf(g, d)[c := x]
  {
    hide Entry, WithEntry;
    forall i | 0 <= i <= g.maxCluster
      ensures FatOf(g, WithEntry(g, d, c, x))[i] == FatOf(g, d)[c := x][i]
    {
      EntrySet(g, d, c, x, i);
    }
  }

  /** Directory and data sectors are the same on both disks. */
  ghost predicate SameData(g: Geometry, a: Disk, b: Disk)
  {
    |a| == |b| && forall s :: g.firstDirectory <= s < |a| ==> a[s] == b[s]
  }

  lemma OnlyFat(g: Geometry, d: Disk, c: nat, x: nat)
    requires DiskOk(g, d) && c <= g.maxCluster
    ensures SameData(g, d, WithEntry(g, d, c, x))
  {
    hide WithEntry;
    forall s: nat | g.firstDirectory <= s < |d|
      ensures d[s] == WithEntry(g, d, c, x)[s]
    {
      DataUntouched(g, d, c, x, s);
    }
  }

  /** Changing an entry makes the copies of its sector agree, and no others. */
  lemma EntryAgrees(g: Geometry, d: Disk, c: nat, x: nat)
    requires DiskOk(g, d) && c <= g.maxCluster
    ensures forall s: nat :: InFat(g, s) ==>
      (Agrees(g, WithEntry(g, d, c, x), s) <==> s == FatSector(g, c) || Agrees(g, d, s))
  {
    hide Agrees, Flushed;
    FatSectorIn(g, c);
    var sector, data := FatSector(g, c), WithWord(d[FatSector(g, c)], c % ENTRIES, x);
    forall s: nat | InFat(g, s)
      ensures Agrees(g, WithEntry(g, d, c, x), s) <==> s == sector || Agrees(g, d, s)
    {
      MirrorKept(g, d, sector, data, s);
    }
  }

  /** A directory or data sector touches no copy of the FAT. */
  lemma DataAgrees(g: Geometry, d: Disk, sector: nat, data: Sector)
    requires DiskOk(g, d) && g.firstDirectory <= sector < |d|
    ensures forall s: nat :: Agrees(g, d[sector := data], s) <==> Agrees(g, d, s)
  {
    FatFits(g);
  }

  lemma EntryFollows(g: Geometry, mounted: Disk, d: Disk, c: nat, x: nat)
    requires DiskOk(g, d) && c <= g.maxCluster && SinceMount(g, mounted, d)
    ensures SinceMount(g, mounted, WithEntry(g, d, c, x))
  {
    FatSectorIn(g, c);
    FatFits(g);
  }

  lemma DataFollows(g: Geometry, mounted: Disk, d: Disk, sector: nat, data: Sector)
    requires DiskOk(g, d) && g.firstDirectory <= sector < |d| && SinceMount(g, mounted, d)
    ensures SinceMount(g, mounted, d[sector := data])
  {
    FatFits(g);
  }

  lemma FatIndex(g: Geometry, d: Disk, c: nat)
    requires DiskOk(g, d) && c <= g.maxCluster
    ensures |FatOf(g, d)| == g.maxCluster + 1 && FatOf(g, d)[c] == Entry(g, d, c)
  {
  }

  /** A write outside the FATs changes no entry. */
  lemma FatKept(g: Geometry, d: Disk, sector: nat, data: Sector)
    requires DiskOk(g, d) && g.firstDirectory <= sector < |d|
    ensures Flushed(g, d, sector, data) == d[sector := data] && FatOf(g, d[sector := data]) == FatOf(g, d)
  {
    forall c | 0 <= c <= g.maxCluster
      ensures FatOf(g, d[sector := data])[c] == FatOf(g, d)[c]
    {
      FatSectorIn(g, c);
    }
  }

  // ----- The cache -----

  datatype BufferStatus = Empty | Clean | Dirty

  /** What an operation reports in place of the source's longjmp. */
  datatype Error = NoError | BadCluster | BadMode | BadOffset

  /** The part of a file control block that all operations share: the drive and
      the sector buffer. */
  class Volume {
    const g: Geometry
    var disk: Disk
    var buf: Sector
    var status: BufferStatus
    var sectorInBuffer: nat
    /** The hint shared by all files: no cluster below it is free. */
    var firstPossiblyEmpty: nat

    /** The disk as the operations mean it, as it will be once the buffer is
        written back, and its FAT. */
    ghost var logical: Disk
    ghost var fat: Fat
    ghost var chains: seq<seq<nat>>   // the cluster chains of the files and directories
    ghost var reserved: set<nat>      // clusters kept out of use
    ghost const mounted: Disk         // the disk at the start

    ghost predicate Valid()
      reads `disk, `buf, `status, `sectorInBuffer, `logical, `fat
    {
      && DiskOk(g, disk)
      && (status != Empty ==> sectorInBuffer < |disk| && Cacheable(g, sectorInBuffer))
      && (status == Clean ==> disk[sectorInBuffer] == buf)
      && logical == (if status == Dirty then Flushed(g, disk, sectorInBuffer, buf) else disk)
      && fat == FatOf(g, logical)
      && SinceMount(g, mounted, logical)
    }

    /** Whatever operations have been done, every FAT sector has two copies that agree
        or is in both copies as it was at the start: so copies that agreed still agree,
        and a sector that was written has copies that agree; all this on the disk
        itself once nothing is dirty. */
    lemma StaysMirrored()
      requires Valid()
      ensures forall s: nat :: InFat(g, s) ==>
        (Agrees(g, mounted, s) || !CopiesKept(mounted, logical, g.perFat, s) ==> Agrees(g, logical, s))
      ensures status != Dirty ==> forall s: nat :: InFat(g, s) ==>
        (Agrees(g, mounted, s) || !CopiesKept(mounted, disk, g.perFat, s) ==> Agrees(g, disk, s))
      ensures Mirrored(g, mounted) ==> Mirrored(g, logical) && (status != Dirty ==> Mirrored(g, disk))
    {
    }

    lemma Facts()
      requires Valid()
      ensures DiskOk(g, logical) && |logical| == |disk| && |fat| == g.maxCluster + 1 && GeometryOk(g)
    {
    }

    constructor (g: Geometry, disk: Disk, hint: nat, ghost chains: seq<seq<nat>>, ghost reserved: set<nat>)
      requires DiskOk(g, disk)
      ensures Valid() && this.g == g && logical == disk && status == Empty && firstPossiblyEmpty == hint
      ensures mounted == disk
      ensures this.chains == chains && this.reserved == reserved
    {
      this.g, this.disk, firstPossiblyEmpty, this.chains, this.reserved := g, disk, hint, chains, reserved;
      buf, status, sectorInBuffer := seq(SECTOR_SIZE, _ => 0), Empty, 0;
      logical, fat := disk, FatOf(g, disk);
      mounted := disk;
      FatFits(g);
    }

    /** Write a sector to the drive. */
    method WriteSector(sector: nat, data: Sector)
      requires DiskOk(g, disk) && sector < |disk|
      modifies `disk
      ensures DiskOk(g, disk) && disk == old(disk)[sector := data]
    {
      disk := disk[sector := data];
    }

    /** flush_buffer. The source also mirrors the sector behind the first FAT,
        which never is in the buffer. */
    method FlushBuffer()
      requires Valid()
      modifies `disk, `status
      ensures Valid() && disk == logical && (Mirrored(g, logical) ==> Mirrored(g, disk))
      ensures status == if old(status) == Dirty then Clean else old(status)
    {
      if status == Dirty {
        FatFits(g);
        WriteSector(sectorInBuffer, buf);
        if sectorInBuffer >= g.firstFat && sectorInBuffer <= g.firstFat + g.perFat {
          WriteSector(sectorInBuffer + g.perFat, buf);
        }
        status := Clean;
      }
    }

    /** read_buffer. */
    method ReadBuffer(sector: nat)
      requires Valid() && sector < |logical| && Cacheable(g, sector)
      modifies `disk, `buf, `status, `sectorInBuffer
      ensures Valid()
      ensures status != Empty && sectorInBuffer == sector && buf == logical[sector]
      ensures status == Dirty ==> old(status) == Dirty
    {
      if status == Empty || sector != sectorInBuffer {
        FlushBuffer();
        buf := disk[sector];
        sectorInBuffer := sector;
        status := Clean;
      } else {
        FatFits(g);
      }
    }

    /** Forget the buffer, as every operation does when it begins. */
    method ForgetBuffer()
      requires Valid() && status != Dirty
      modifies `status
      ensures Valid() && status == Empty
    {
      status := Empty;
    }

    /** Change the buffered sector of the first FAT. */
    method ChangeEntry(c: nat, x: nat)
      requires Valid() && c <= g.maxCluster && x < 0x10000 && status != Empty && sectorInBuffer == FatSector(g, c)
      modifies `buf, `status, `logical, `fat
      ensures Valid() && status == Dirty
      ensures fat == old(fat)[c := x] && logical == WithEntry(g, old(logical), c, x)
      ensures SameData(g, old(logical), logical)
      ensures forall s: nat :: InFat(g, s) ==>
        (Agrees(g, logical, s) <==> s == FatSector(g, c) || Agrees(g, old(logical), s))
    {
      FatFits(g);
      FatSectorIn(g, c);
      buf := WithWord(buf, c % ENTRIES, x);
      status := Dirty;
      logical := WithEntry(g, logical, c, x);
      FatWithEntry(g, old(logical), c, x);
      OnlyFat(g, old(logical), c, x);
      EntryAgrees(g, old(logical), c, x);
      EntryFollows(g, mounted, old(logical), c, x);
      fat := fat[c := x];
    }

    /** Change the buffered directory or data sector. */
    method ChangeData(data: Sector)
      requires Valid() && status != Empty && g.firstDirectory <= sectorInBuffer
      modifies `buf, `status, `logical
      ensures Valid() && status == Dirty && logical == old(logical)[sectorInBuffer := data]
      ensures forall s: nat :: Agrees(g, logical, s) <==> Agrees(g, old(logical), s)
    {
      FatFits(g);
      FatKept(g, logical, sectorInBuffer, data);
      DataAgrees(g, logical, sectorInBuffer, data);
      DataFollows(g, mounted, logical, sectorInBuffer, data);
      buf := data;
      status := Dirty;
      logical := logical[sectorInBuffer := data];
    }

    /** Write a data sector past the buffer, which must hold another. */
    method WriteData(sector: nat, data: Sector)
      requires Valid() && g.firstDirectory <= sector < |logical| && (status == Empty || sectorInBuffer != sector)
      modifies `disk, `logical
      ensures Valid() && logical == old(logical)[sector := data]
      ensures forall s: nat :: Agrees(g, logical, s) <==> Agrees(g, old(logical), s)
    {
      FatFits(g);
      FatKept(g, logical, sector, data);
      DataAgrees(g, logical, sector, data);
      DataFollows(g, mounted, logical, sector, data);
      WriteSector(sector, data);
      logical := logical[sector := data];
    }

    /** FAT_entry, with the check of check_cluster. */
    method FatEntry(cluster: nat) returns (err: Error, x: nat)
      requires Valid()
      modifies `disk, `buf, `status, `sectorInBuffer
      ensures Valid()
      ensures err == if 2 <= cluster <= g.maxCluster then NoError else BadCluster
      ensures err == NoError ==> |fat| == g.maxCluster + 1 && x == fat[cluster] && sectorInBuffer < g.firstDirectory
      ensures err != NoError ==> status == old(status) && sectorInBuffer == old(sectorInBuffer)
      ensures status == Dirty ==> old(status) == Dirty
    {
      x := 0;
      if cluster < 2 || cluster > g.maxCluster {
        return BadCluster, 0;
      }
      FatSectorIn(g, cluster);
      FatFits(g);
      ReadBuffer(g.firstFat + cluster / ENTRIES);
      FatIndex(g, logical, cluster);
      x := Word(buf, cluster % ENTRIES);
      err := NoError;
    }

    /** set_FAT_entry: exactly one entry of the logical disk changes, in both
        copies of the FAT. */
    method SetFatEntry(cluster: nat, x: nat) returns (err: Error)
      requires Valid() && x < 0x10000
      modifies `disk, `buf, `status, `sectorInBuffer, `logical, `fat
      ensures Valid() && SameData(g, old(logical), logical)
      ensures err == if 2 <= cluster <= g.maxCluster then NoError else BadCluster
      ensures err == NoError ==>
        && |old(fat)| == g.maxCluster + 1 && fat == old(fat)[cluster := x]
        && DiskOk(g, old(logical)) && logical == WithEntry(g, old(logical), cluster, x)
        && sectorInBuffer < g.firstDirectory && status == Dirty
      ensures err != NoError ==> logical == old(logical) && fat == old(fat)
      ensures err == NoError ==> forall s: nat :: InFat(g, s) ==>
        (Agrees(g, logical, s) <==> s == FatSector(g, cluster) || Agrees(g, old(logical), s))
    {
      if cluster < 2 || cluster > g.maxCluster {
        return BadCluster;
      }
      FatSectorIn(g, cluster);
      FatFits(g);
      ReadBuffer(g.firstFat + cluster / ENTRIES);
      ChangeEntry(cluster, x);
      err := NoError;
    }
  }
}
