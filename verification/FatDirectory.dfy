/** Opening, creating, truncating and deleting files of a directory (rdcf2.c). */
module FatDirectory {
  import opened FatCache
  import opened FatChains
  import opened FatAlloc
  import opened FatData
  import opened FatName
  import opened FatEntries
  import opened FatPlaces
  import FatFile

  datatype Outcome = Done | Invalid | NotFound | IsDirectory | NoAccess | NoSpace

  /** How the scan of one area of the directory ends. */
  datatype Scan = Found | AtEnd | Through

  /** What the scan of the entries before p found: not the name, and the first free
      entry f. */
  ghost predicate Scanned(es: seq<Raw>, ps: seq<Place>, name: seq<nat>, p: nat, f: nat, ec: nat, ei: nat)
  {
    && |es| == |ps| && p <= |es| && (forall i :: 0 <= i < p ==> es[i][0] != END_DIRECTORY && !Matches(es[i], name))
    && FirstFree(es, p, f) && (f == p ==> ei == NO_DIRECTORY_INDEX)
    && (f < p ==> ei < NO_DIRECTORY_INDEX && ps[f] == Place(ec, ei))
  }

  /** The 11 bytes of a component that was accepted. */
  ghost predicate LookedUp(name: seq<nat>)
  {
    ProperName(name) && exists s, i :: 0 <= i <= |s| && Accepted(s, i) && name == NameExtension(s, i)
  }

  lemma AcceptedLookedUp(path: seq<nat>, from: nat)
    requires from <= |path| && Accepted(path, from)
    ensures LookedUp(NameExtension(path, from))
  {
    hide Accepted, NameExtension, Printed;
    NameRoundTrip(path, from);
    PlainName(path, from);
  }

  lemma LookedUpFacts(name: seq<nat>)
    requires LookedUp(name)
    ensures ProperName(name) && Accepted(Printed(name), 0) && NameExtension(Printed(name), 0) == name
    ensures forall i :: 0 <= i < |Printed(name)| ==> Printed(name)[i] < 256
    ensures Printed(name) != [] && Printed(name)[0] != DOT
  {
    hide Accepted, NameExtension, Printed;
    var s, i :| 0 <= i <= |s| && Accepted(s, i) && name == NameExtension(s, i);
    NameRoundTrip(s, i);
    PlainName(s, i);
  }

  /** The entry that is written. */
  function Updated(name: seq<nat>, x: Info, deleteEntry: bool): (r: Raw)
    requires |name| == NAME_EXTENSION && (forall i :: 0 <= i < NAME_EXTENSION ==> name[i] < 256) && InfoOk(x)
  {
    if deleteEntry then Pack(name, x)[0 := DELETED_FILE] else Pack(name, x)
  }

  /** What a search that does not find the name leaves: the first free entry, or
      the end of a directory without one. */
  ghost predicate Vacant(es: seq<Raw>, ps: seq<Place>, name: seq<nat>, f: nat, c: nat, i: nat)
  {
    && !HasName(es, name) && f <= |es| == |ps|
    && if i == NO_DIRECTORY_INDEX then f == |es| && forall k :: 0 <= k < |es| ==> !Free(es[k])
       else f < |es| && ps[f] == Place(c, i) && Writable(es, f, name) && Free(es[f])
  }

  class Directory {
    const v: Volume
    const firstCluster: nat         // 0 for the root directory
    ghost const dk: nat             // which chain the directory has, if it is not the root
    var dirCluster: nat
    var dirIndex: nat
    var spec: seq<nat>
    var info: Info

    /** The areas of the directory: the root, or the clusters of its chain. */
    ghost function Areas(): seq<nat>
      reads v`chains
    {
      if firstCluster == 0 then [0] else if dk < |v.chains| then v.chains[dk] else []
    }

    /** The directory has its areas on the disk. */
    ghost predicate Placed()
      reads v`logical, v`chains
      ensures Placed() ==> AreasOk(v.g, Areas())
    {
      && GeometryOk(v.g) && AreasOk(v.g, Areas()) && Distinct(Areas()) && Areas() != [] && Areas()[0] == firstCluster
      && (firstCluster != 0 ==> dk < |v.chains|)
      && AreaSize(v.g, 0) < NO_DIRECTORY_INDEX && ENTRIES_PER_SECTOR * v.g.perCluster < NO_DIRECTORY_INDEX
      && DiskOk(v.g, v.logical)
    }

    ghost function Entries(): seq<Raw>
      reads v`logical, v`chains
      requires Placed()
    {
      EntriesOf(v.g, v.logical, Areas())
    }

    ghost function Spots(): seq<Place>
      reads v`logical, v`chains
      requires Placed()
    {
      Places(v.g, Areas())
    }

    /** How many entries the first n areas have. */
    ghost function Before(n: nat): nat
      reads v`logical, v`chains
      requires Placed() && n <= |Areas()|
    {
      |Places(v.g, Areas()[..n])|
    }

    /** The volume and the directory are in order. */
    ghost predicate Ok()
      reads v
    {
      VolumeOk(v) && Placed() && EntriesOk(Entries())
    }

    constructor (v: Volume, firstCluster: nat, ghost dk: nat)
      requires VolumeOk(v) && GeometryOk(v.g)
      requires firstCluster != 0 ==> dk < |v.chains| && v.chains[dk] != [] && v.chains[dk][0] == firstCluster
      requires AreaSize(v.g, 0) < 65535 && 16 * v.g.perCluster < 65535
      ensures VolumeOk(v) && Placed() && this.v == v && this.firstCluster == firstCluster && this.dk == dk
    {
      this.v, this.firstCluster, this.dk := v, firstCluster, dk;
      dirCluster, dirIndex, spec, info := 0, 0, [], Info(0, 0, 0, 0, 0);
      new;
      v.Facts();
      if firstCluster != 0 {
        FatFile.ChainInRange(v, dk);
      }
    }

    /** find_directory: the entry at the directory position. */
    method FindDirectory() returns (r: Raw)
      requires VolumeOk(v) && PlaceOk(v.g, Place(dirCluster, dirIndex)) && DiskOk(v.g, v.logical)
      modifies v`disk, v`buf, v`status, v`sectorInBuffer
      ensures VolumeOk(v) && r == EntryAt(v.g, v.logical, Place(dirCluster, dirIndex))
      ensures v.status != Empty && v.sectorInBuffer == EntrySector(v.g, Place(dirCluster, dirIndex))
      ensures v.buf == v.logical[v.sectorInBuffer]
      ensures v.status == Dirty ==> old(v.status) == Dirty
    {
      hide Volume.Valid, EntryOf, AreaStart, InOrder;
      ghost var p := Place(dirCluster, dirIndex);
      AreaSectorIn(v.g, dirCluster, dirIndex / ENTRIES_PER_SECTOR);
      v.Facts();
      var start := AreaStart(v.g, dirCluster);
      v.ReadBuffer(start + dirIndex / ENTRIES_PER_SECTOR);
      r := EntryOf(v.buf, dirIndex % ENTRIES_PER_SECTOR);
    }

    /** An entry of the directory, by its place. */
    lemma EntryIs(k: nat)
      requires Placed() && k < |Spots()|
      ensures PlaceOk(v.g, Spots()[k]) && k < |Entries()| && Entries()[k] == EntryAt(v.g, v.logical, Spots()[k])
    {
      hide EntryAt, AreaOk, AreaSize, VolumeOk, Distinct, Places;
      PlaceInAreas(v.g, Areas(), k);
    }

    /** One area of the directory, from its place number `base` on. */
    method ScanArea(name: seq<nat>, ec0: nat, ei0: nat, ghost n: nat, ghost f0: nat)
      returns (st: Scan, ec: nat, ei: nat, ghost f: nat, ghost k: nat)
      requires VolumeOk(v) && Placed() && n < |Areas()| && dirCluster == Areas()[n]
      requires Scanned(Entries(), Spots(), name, Before(n), f0, ec0, ei0)
      modifies this`dirIndex, this`info, this`spec, v`disk, v`buf, v`status, v`sectorInBuffer
      ensures VolumeOk(v) && (v.status == Dirty ==> old(v.status) == Dirty)
      ensures spec == if st == Found && name == [] && k < |Entries()| then Entries()[k][..NAME_EXTENSION] else old(spec)
      ensures st == Found ==> IsFound(name, k) && FirstOfName(name, k)
      ensures st == AtEnd ==> Ended(Entries(), Spots(), name, k, f, ec, ei)
      ensures st == Through ==> k == Before(n + 1) && Scanned(Entries(), Spots(), name, k, f, ec, ei)
    {
      hide VolumeOk, Placed, Scanned, Ended, EntryAt, AreaOk, AreaSize, Distinct, EntriesOf, Places, Matches, Free,
        Unpack, AreasOk, FirstOfName;
      ghost var es, ps := Entries(), Spots();
      SizeFits(dirCluster, n);
      ghost var base := Before(n);
      ec, ei, f := ec0, ei0, f0;
      PlacesOfAreas(v.g, Areas(), n);
      var size := AreaSize(v.g, dirCluster);
      dirIndex := 0;
      while dirIndex < size
        invariant VolumeOk(v) && dirIndex <= size && (v.status == Dirty ==> old(v.status) == Dirty)
        invariant Scanned(es, ps, name, base + dirIndex, f, ec, ei) && spec == old(spec)
        decreases size - dirIndex
      {
        k := base + dirIndex;
        ScannedFirst(name, k, f, ec, ei);
        PlaceAt(v.g, Areas(), n, dirIndex);
        EntryIs(k);
        ScanStep(es, ps, name, k, f, ec, ei, dirCluster, dirIndex);
        var r := FindDirectory();
        if f == k && !Free(r) {
          f := k + 1;
        }
        if Free(r) && ei == NO_DIRECTORY_INDEX {
          ec, ei := dirCluster, dirIndex;
        }
        if r[0] == END_DIRECTORY {
          return AtEnd, ec, ei, f, k;
        }
        if Matches(r, name) {
          info := Unpack(r);
          if name == [] {
            spec := r[..NAME_EXTENSION];
          }
          return Found, ec, ei, f, k;
        }
        dirIndex := dirIndex + 1;
      }
      st, k := Through, base + size;
    }

    /** Nothing of this name comes before. */
    ghost predicate FirstOfName(name: seq<nat>, k: nat)
      reads v`logical, v`chains
      requires Placed()
    {
      forall j :: 0 <= j < k && j < |Entries()| ==> !At(Entries(), name, j)
    }

    lemma ScannedFirst(name: seq<nat>, k: nat, f: nat, ec: nat, ei: nat)
      requires Placed() && Scanned(Entries(), Spots(), name, k, f, ec, ei)
      ensures FirstOfName(name, k)
    {
      hide Matches, EntriesOf, Places, Distinct;
    }

    /** find_file_in_directory_or_find_volume; no name is the source's null pointer. */
    method Search(name: seq<nat>) returns (found: bool, ghost k: nat)
      requires VolumeOk(v) && Placed() && (|name| == NAME_EXTENSION || name == [])
      modifies this`dirCluster, this`dirIndex, this`info, this`spec, v`disk, v`buf, v`status, v`sectorInBuffer
      ensures VolumeOk(v) && (v.status == Dirty ==> old(v.status) == Dirty)
      ensures name != [] ==> spec == Printed(name)
      ensures name == [] ==>
        spec == if found && k < |Entries()| then Entries()[k][..NAME_EXTENSION] else old(spec)
      ensures found ==> IsFound(name, k) && FirstOfName(name, k)
      ensures !found ==> Vacant(Entries(), Spots(), name, k, dirCluster, dirIndex)
      ensures !found && dirIndex == NO_DIRECTORY_INDEX ==> dirCluster == Areas()[|Areas()| - 1]
    {
      hide VolumeOk, Placed, Scanned, Ended, EntryAt, AreaOk, AreaSize, Distinct, EntriesOf, Before, Places, Matches,
        Free, Unpack, AreasOk, IsFound, Vacant, Entries, Spots, PlaceOk, FirstOfName, InOrder, Volume.Valid, Printed;
      ghost var n := 0;
      var ec: nat, ei: nat := 2, NO_DIRECTORY_INDEX;
      ghost var f := 0;
      dirCluster := firstCluster;
      NothingScanned(name);
      while true
        invariant VolumeOk(v) && n < |Areas()| && dirCluster == Areas()[n]
        invariant v.status == Dirty ==> old(v.status) == Dirty
        invariant Scanned(Entries(), Spots(), name, Before(n), f, ec, ei) && spec == old(spec)
        decreases |Areas()| - n
      {
        var st;
        st, ec, ei, f, k := ScanArea(name, ec, ei, n, f);
        if st == Found {
          if name != [] {
            spec := PrintedName(name);
          }
          return true, k;
        }
        if st == AtEnd {
          EndedVacant(Entries(), Spots(), name, k, f, ec, ei);
          break;
        }
        var more := NextCluster(n);
        if !more {
          ThroughVacant(name, n, f, ec, ei);
          break;
        }
        n := n + 1;
      }
      dirIndex := ei;
      if dirIndex != NO_DIRECTORY_INDEX {
        dirCluster := ec;
      }
      if name != [] {
        spec := PrintedName(name);
      }
      return false, f;
    }

    /** On to the next cluster of the directory, if there is one. */
    method NextCluster(ghost n: nat) returns (more: bool)
      requires VolumeOk(v) && Placed() && n < |Areas()| && dirCluster == Areas()[n]
      modifies this`dirCluster, v`disk, v`buf, v`status, v`sectorInBuffer
      ensures VolumeOk(v) && (v.status == Dirty ==> old(v.status) == Dirty) && more == (n + 1 < |Areas()|)
      ensures dirCluster == if more then Areas()[n + 1] else old(dirCluster)
    {
      hide InOrder, Volume.Valid, Placed;
      if dirCluster == 0 {
        LastArea(n);
        return false;
      }
      NextArea(n);
      var err, x := v.FatEntry(dirCluster);
      if x >= LAST_MARK {
        return false;
      }
      dirCluster := x;
      return true;
    }

    /** name_extension_to_spec. */
    method PrintedName(name: seq<nat>) returns (s: seq<nat>)
      requires |name| == NAME_EXTENSION
      ensures s == Printed(name)
    {
      var text := new nat[13](_ => 0);
      var n := NameExtensionToSpec(text, name);
      s := text[..n];
    }

    lemma NothingScanned(name: seq<nat>)
      requires Placed()
      ensures Before(0) == 0 && Areas() != [] && Areas()[0] == firstCluster
      ensures Scanned(Entries(), Spots(), name, 0, 0, 2, NO_DIRECTORY_INDEX)
    {
    }

    lemma LastArea(n: nat)
      requires VolumeOk(v) && Placed() && n < |Areas()| && Areas()[n] == 0
      ensures n == |Areas()| - 1
    {
      hide Distinct, VolumeOk;
      if firstCluster != 0 {
        FatFile.ChainInRange(v, dk);
      }
    }

    /** The next cluster of the directory. */
    lemma NextArea(n: nat)
      requires VolumeOk(v) && Placed() && n < |Areas()| && Areas()[n] != 0
      ensures 2 <= Areas()[n] <= v.g.maxCluster && |v.fat| == v.g.maxCluster + 1
      ensures var x := v.fat[Areas()[n]];
        if n + 1 < |Areas()| then x == Areas()[n + 1] && x < LAST_MARK else x >= LAST_MARK
    {
      hide VolumeOk, Distinct;
      FatFile.NextEntry(v, dk, n);
    }

    /** All areas scanned. */
    lemma ThroughVacant(name: seq<nat>, n: nat, f: nat, ec: nat, ei: nat)
      requires Placed() && n == |Areas()| - 1
      requires Scanned(Entries(), Spots(), name, Before(n + 1), f, ec, ei)
      ensures Vacant(Entries(), Spots(), name, f, if ei == NO_DIRECTORY_INDEX then Areas()[n] else ec, ei)
    {
      hide Matches, Distinct;
      assert Areas()[..n + 1] == Areas();
    }

    /** The control block's name is that of the entry: as it is printed, or for a volume
        label as it is in the entry. */
    ghost predicate EntryName(name: seq<nat>)
      reads `spec, `info
    {
      if HasBit(info.attribute, VOLUME) then
        |name| == NAME_EXTENSION && (forall i :: 0 <= i < NAME_EXTENSION ==> name[i] < 256) && spec == name
      else LookedUp(name) && spec == Printed(name)
    }

    lemma EntryNameIs(name: seq<nat>)
      requires EntryName(name)
      ensures |name| == NAME_EXTENSION && (forall i :: 0 <= i < NAME_EXTENSION ==> name[i] < 256) && spec != []
      ensures HasBit(info.attribute, VOLUME) || spec[0] == DOT ==> spec == name
      ensures !HasBit(info.attribute, VOLUME) && spec[0] != DOT ==>
        && (forall i :: 0 <= i < |spec| ==> spec[i] < 256)
        && Accepted(spec, 0) && NameExtension(spec, 0) == name
    {
      hide Accepted, NameExtension, Printed;
      if !HasBit(info.attribute, VOLUME) {
        LookedUpFacts(name);
      }
    }

    /** The 11 bytes of the name: that of a volume label is copied as it is, another one
        is parsed. The source also copies a name that begins with a dot, which no name
        that was looked up does. */
    method NameBytes(ghost name: seq<nat>) returns (ne: seq<nat>)
      requires EntryName(name)
      ensures ne == name && |name| == NAME_EXTENSION && forall i :: 0 <= i < NAME_EXTENSION ==> name[i] < 256
    {
      hide EntryName, Accepted, NameExtension;
      EntryNameIs(name);
      if HasBit(info.attribute, VOLUME) || spec[0] == DOT {
        return spec[..NAME_EXTENSION];
      }
      var parsed := new nat[NAME_EXTENSION](_ => 0);
      var ok, next := SpecToNameExtension(parsed, spec, 0);
      ne := parsed[..];
    }

    /** update_directory_entry. */
    method UpdateEntry(deleteEntry: bool, ghost name: seq<nat>, ghost k: nat)
      requires VolumeOk(v) && Placed() && k < |Spots()| && Spots()[k] == Place(dirCluster, dirIndex)
      requires InfoOk(info) && EntryName(name)
      modifies v`disk, v`buf, v`status, v`sectorInBuffer, v`logical
      ensures |name| == NAME_EXTENSION && forall i :: 0 <= i < NAME_EXTENSION ==> name[i] < 256
      ensures VolumeOk(v) && Placed() && Spots() == old(Spots())
      ensures Entries() == old(Entries())[k := Updated(name, info, deleteEntry)]
      ensures OnlyAreas(v.g, old(v.logical), v.logical, Areas())
    {
      hide InOrder, Placed, EntryAt, EntryOf, AreaOk, AreaSize, Places, Pack, Distinct, EntryName;
      EntryIs(k);
      var r := FindDirectory();
      var ne := NameBytes(name);
      WriteEntry(Updated(ne, info, deleteEntry), k);
    }

    /** The buffered entry replaced. */
    method WriteEntry(r: Raw, ghost k: nat)
      requires VolumeOk(v) && Placed() && k < |Spots()| && Spots()[k] == Place(dirCluster, dirIndex)
      requires PlaceOk(v.g, Spots()[k]) && v.status != Empty && v.sectorInBuffer == EntrySector(v.g, Spots()[k])
      requires v.buf == v.logical[v.sectorInBuffer]
      modifies v`buf, v`status, v`logical
      ensures VolumeOk(v) && Placed() && Spots() == old(Spots()) && Entries() == old(Entries())[k := r]
      ensures OnlyAreas(v.g, old(v.logical), v.logical, Areas())
    {
      hide InOrder, Volume.Valid, EntryAt, EntryOf, AreaOk, AreaSize, AreaStart, Places, Distinct;
      EntriesChanged(v.g, v.logical, Areas(), k, r);
      EntrySectorIn(v.g, Areas(), k);
      v.ChangeData(WithDirEntry(v.buf, dirIndex % ENTRIES_PER_SECTOR, r));
    }

    /** clear_cluster. */
    method ClearCluster(c: nat)
      requires VolumeOk(v) && GeometryOk(v.g) && 2 <= c <= v.g.maxCluster && DiskOk(v.g, v.logical)
      modifies v`disk, v`status, v`logical
      ensures VolumeOk(v) && DiskOk(v.g, v.logical) && v.status == Empty && Cleared(v.g, old(v.logical), v.logical, c)
    {
      hide InOrder, Volume.Valid, FirstSector, Blank;
      v.FlushBuffer();
      v.ForgetBuffer();
      var zeros := seq(SECTOR_SIZE, _ => 0);
      BlankZeros(zeros);
      var first := FirstSector(v.g, c);
      for o := 0 to v.g.perCluster
        invariant VolumeOk(v) && DiskOk(v.g, v.logical) && v.status == Empty && |v.logical| == |old(v.logical)|
        invariant forall s: nat :: first <= s < first + o && s < |v.logical| ==> Blank(v.logical[s])
        invariant forall s: nat :: s < |v.logical| && !(first <= s < first + o) ==> v.logical[s] == old(v.logical)[s]
      {
        AreaSectorIn(v.g, c, o);
        v.Facts();
        v.WriteData(first + o, zeros);
      }
    }

    /** Other chains are as they were, and this directory's is no shorter. */
    ghost predicate OthersSame(a: seq<seq<nat>>, b: seq<seq<nat>>)
    {
      && |a| == |b| && (forall i :: 0 <= i < |a| && i != dk ==> b[i] == a[i])
      && (dk < |a| ==> a[dk] <= b[dk]) && (firstCluster == 0 ==> a == b)
    }

    lemma OnlyRoot()
      requires VolumeOk(v) && Placed() && Areas()[|Areas()| - 1] == 0
      ensures firstCluster == 0
    {
      hide Distinct, VolumeOk;
      if firstCluster != 0 {
        FatFile.ChainInRange(v, dk);
      }
    }

    lemma NothingChanged()
      requires Placed()
      ensures SameNames(Entries(), Entries()) && OnlyAreas(v.g, v.logical, v.logical, Areas())
      ensures OthersSame(v.chains, v.chains)
    {
      hide EntriesOf;
    }

    /** One more cluster for a directory without a free entry. */
    method AddArea(ghost name: seq<nat>) returns (ok: bool, ghost k: nat)
      requires Ok() && Full(Entries()) && !HasName(Entries(), name) && dirCluster == Areas()[|Areas()| - 1] != 0
      modifies this`dirCluster, this`dirIndex, v
      ensures VolumeOk(v) && Placed()
      ensures ok ==> Ok() && k < |Spots()| && Spots()[k] == Place(dirCluster, dirIndex)
      ensures ok ==> Writable(Entries(), k, name) && !HasName(Entries(), name) && SameNames(old(Entries()), Entries())
      ensures ok ==> OnlyAreas(v.g, old(v.logical), v.logical, Areas()) && OthersSame(old(v.chains), v.chains)
      ensures !ok <==> FreeClusters(old(v.fat)) == {}
      ensures !ok ==>
        v.logical == old(v.logical) && v.chains == old(v.chains) && (v.status == Dirty ==> old(v.status) == Dirty)
      ensures v.reserved == old(v.reserved)
    {
      hide InOrder, Volume.Valid, EntriesOf, Distinct, EntryAt, AreaOk, AreaSize, Places, EntriesOk, OnlyAreas,
        FreeClusters, SameNames, HasName, Writable, Free, Full, SameData, Cleared, BufferAside, UsedThrough;
      ghost var areas, es, d := Areas(), Entries(), v.logical;
      NotRoot();
      dirCluster := AddNewCluster(v, dirCluster, dk);
      if dirCluster == 0 {
        return false, 0;
      }
      dirIndex := 0;
      v.Facts();
      NewArea(areas, dirCluster);
      ghost var d1 := v.logical;
      SameEntries(v.g, d, d1, areas);
      ClearCluster(dirCluster);
      GrownEntries(v.g, d1, v.logical, areas, dirCluster);
      GrownOnly(v.g, d, d1, v.logical, areas, dirCluster);
      FirstOfArea(v.g, dirCluster);
      GrownDirectory(es, Entries(), name);
      ok, k := true, |es|;
    }

    lemma NotRoot()
      requires VolumeOk(v) && Placed() && Areas()[|Areas()| - 1] != 0
      ensures firstCluster != 0 && dk < |v.chains| && Areas() == v.chains[dk]
      ensures Areas()[|Areas()| - 1] == Last(v.chains[dk])
    {
    }

    /** The new cluster is none of the others. */
    lemma NewArea(areas: seq<nat>, n: nat)
      requires VolumeOk(v) && dk < |v.chains| && v.chains[dk] == areas + [n]
      ensures n !in areas && Distinct(areas + [n]) && InRange(v.g, areas + [n]) && 2 <= n <= v.g.maxCluster
      ensures AreasOk(v.g, areas + [n]) && AreasOk(v.g, areas) && AreaOk(v.g, n) && DiskOk(v.g, v.logical)
    {
      hide VolumeOk;
      FatFile.ChainInRange(v, dk);
      var ch := areas + [n];
      assert ch[|areas|] == n;
      forall i | 0 <= i < |areas|
        ensures AreaOk(v.g, areas[i]) && areas[i] != n
      {
        assert ch[i] == areas[i];
      }
    }

    /** lengthen_directory_if_necessary: an entry is there, or one more cluster. */
    method LengthenIfNecessary(ghost name: seq<nat>, ghost f: nat) returns (ok: bool, ghost k: nat)
      requires Ok() && Vacant(Entries(), Spots(), name, f, dirCluster, dirIndex)
      requires dirIndex == NO_DIRECTORY_INDEX ==> dirCluster == Areas()[|Areas()| - 1]
      modifies this`dirCluster, this`dirIndex, v
      ensures VolumeOk(v) && Placed()
      ensures ok ==> Ok() && k < |Spots()| && Spots()[k] == Place(dirCluster, dirIndex)
      ensures ok ==> Writable(Entries(), k, name) && !HasName(Entries(), name) && SameNames(old(Entries()), Entries())
      ensures ok ==> OnlyAreas(v.g, old(v.logical), v.logical, Areas()) && OthersSame(old(v.chains), v.chains)
      ensures !ok <==> Full(old(Entries())) && (firstCluster == 0 || FreeClusters(old(v.fat)) == {})
      ensures !ok ==>
        v.logical == old(v.logical) && v.chains == old(v.chains) && (v.status == Dirty ==> old(v.status) == Dirty)
      ensures v.reserved == old(v.reserved)
    {
      hide VolumeOk, EntriesOf, Distinct, EntryAt, AreaOk, AreaSize, Places, EntriesOk, OnlyAreas, FreeClusters,
        SameNames, HasName, Writable, Free, Full;
      if dirIndex == NO_DIRECTORY_INDEX {
        if dirCluster == 0 {
          VacantFull(Entries(), Spots(), name, f, dirCluster, dirIndex);
          OnlyRoot();
          return false, 0;
        }
        VacantFull(Entries(), Spots(), name, f, dirCluster, dirIndex);
        NotRoot();
        ok, k := AddArea(name);
      } else {
        VacantThere(Entries(), Spots(), name, f, dirCluster, dirIndex);
        NothingChanged();
        ok, k := true, f;
      }
    }

    /** What every operation begins with: the buffer forgotten, the name parsed and
        looked up. */
    method LookUp(path: seq<nat>, from: nat) returns (ok: bool, found: bool, ghost k: nat)
      requires Ok() && v.status != Dirty && PathOk(path, from)
      modifies this`dirCluster, this`dirIndex, this`info, this`spec, v`disk, v`buf, v`status, v`sectorInBuffer
      ensures VolumeOk(v) && v.status != Dirty && (ok <==> Accepted(path, from))
      ensures ok ==> LookedUp(NameExtension(path, from)) && spec == Printed(NameExtension(path, from))
      ensures ok && found ==> IsFound(NameExtension(path, from), k)
      ensures ok && !found ==> Vacant(Entries(), Spots(), NameExtension(path, from), k, dirCluster, dirIndex)
      ensures ok && !found && dirIndex == NO_DIRECTORY_INDEX ==> dirCluster == Areas()[|Areas()| - 1]
    {
      hide InOrder, Volume.Valid, Placed, EntriesOk, Vacant, IsFound, NameExtension, Accepted, Printed;
      v.ForgetBuffer();
      var ne := new nat[NAME_EXTENSION](_ => 0);
      var next;
      ok, next := SpecToNameExtension(ne, path, from);
      if !ok {
        return false, false, 0;
      }
      AcceptedLookedUp(path, from);
      found, k := Search(ne[..]);
    }

    /** The entry at the position set to a file's new data, and written to disk. */
    method SetEntry(x: Info, ghost name: seq<nat>, ghost k: nat)
      requires Ok() && k < |Spots()| && Spots()[k] == Place(dirCluster, dirIndex) && InfoOk(x)
      requires (x.attribute / VOLUME) % 2 == 0
      requires LookedUp(name) && spec == Printed(name) && Writable(Entries(), k, name)
      requires forall j :: 0 <= j < |Entries()| && j != k ==> !At(Entries(), name, j)
      modifies this`info, v`disk, v`buf, v`status, v`sectorInBuffer, v`logical
      ensures Ok() && v.status != Dirty && info == x && NameSet(old(Entries()), Entries(), name, x) && IsFound(name, k)
      ensures OnlyAreas(v.g, old(v.logical), v.logical, Areas())
    {
      hide VolumeOk, Placed, EntriesOf, EntriesOk, Writable, At, Named, Pack, OnlyAreas, Places, Matches, LookedUp,
        ProperName, Printed, Unpack;
      info := x;
      ghost var r := SetRaw(Entries(), k, name, x);
      UpdateEntry(false, name, k);
      Flush();
    }

    /** The buffer written back. */
    method Flush()
      requires VolumeOk(v)
      modifies v`disk, v`status
      ensures VolumeOk(v) && v.status != Dirty
    {
      hide InOrder, Volume.Valid;
      v.FlushBuffer();
    }

    /** release_FAT_entries on the file's chain, which is not the directory's. */
    method ReleaseFile(ghost k: nat)
      requires Ok() && k < |v.chains| && info.first == First(v.chains[k]) && (firstCluster != 0 ==> k != dk)
      modifies v
      ensures Ok() && Entries() == old(Entries()) && Spots() == old(Spots()) && Areas() == old(Areas())
      ensures v.chains == old(v.chains)[k := []] && v.reserved == old(v.reserved)
      ensures SameData(v.g, old(v.logical), v.logical)
    {
      hide InOrder, EntriesOf, EntriesOk, SameData, Places, Volume.Valid;
      ghost var d, areas := v.logical, Areas();
      var err := ReleaseFatEntries(v, info.first, k);
      v.Facts();
      SameEntries(v.g, d, v.logical, areas);
    }

    /** Every file that has this name here begins with chain k, which is not the
        directory's. */
    ghost predicate HasChain(name: seq<nat>, k: nat)
      reads v`logical, v`chains
      requires Placed()
    {
      forall x :: Named(Entries(), name, x) ==>
        k < |v.chains| && x.first == First(v.chains[k]) && (firstCluster != 0 ==> k != dk)
    }

    /** Nothing has changed on the disk. */
    twostate predicate Unchanged()
      reads v
    {
      VolumeOk(v) && v.logical == old(v.logical) && v.chains == old(v.chains) && v.status != Dirty
    }

    /** The entry found is the only one of its name. */
    lemma FoundIs(name: seq<nat>, i: nat)
      requires Ok() && LookedUp(name) && IsFound(name, i)
      ensures HasName(Entries(), name) && InfoOk(info) && Writable(Entries(), i, name)
      ensures (info.attribute / VOLUME) % 2 == 0
      ensures forall x :: Named(Entries(), name, x) <==> x == info
      ensures forall j :: 0 <= j < |Entries()| && j != i ==> !At(Entries(), name, j)
    {
      hide VolumeOk, Placed, Unpack, Matches, EntriesOf;
      LookedUpFacts(name);
      MatchedBit(Entries()[i], name);
    }

    lemma NotThere(name: seq<nat>, f: nat)
      requires Placed() && Vacant(Entries(), Spots(), name, f, dirCluster, dirIndex)
      ensures !HasName(Entries(), name) && forall x :: !Named(Entries(), name, x)
    {
      hide Placed, Unpack, Matches, EntriesOf;
    }

    /** The file found starts over, empty. */
    method Truncate(ghost name: seq<nat>, ghost i: nat, time: nat, date: nat, ghost k: nat)
      requires Ok() && LookedUp(name) && spec == Printed(name) && IsFound(name, i) && HasChain(name, k)
      requires time < 0x10000 && date < 0x10000
      modifies this`info, v
      ensures Ok() && v.status != Dirty && info == NewFile(time, date) && NameSet(old(Entries()), Entries(), name, info)
      ensures IsFound(name, i)
      ensures v.chains == old(v.chains)[k := []] && v.reserved == old(v.reserved)
      ensures OnlyAreas(v.g, old(v.logical), v.logical, Areas())
    {
      hide VolumeOk, Placed, EntriesOk, EntriesOf, Places, NameSet, OnlyAreas, Unpack, Matches, SameData, Writable, At,
        HasName, Named, Printed;
      FoundIs(name, i);
      ghost var d := v.logical;
      ReleaseFile(k);
      ghost var d1, areas := v.logical, Areas();
      SetEntry(NewFile(time, date), name, i);
      SameThenOnly(v.g, d, d1, v.logical, areas);
    }

    /** A new, empty file of this name. */
    method Create(ghost name: seq<nat>, ghost f: nat, time: nat, date: nat) returns (out: Outcome, ghost k: nat)
      requires Ok() && LookedUp(name) && spec == Printed(name) && time < 0x10000 && date < 0x10000 && v.status != Dirty
      requires Vacant(Entries(), Spots(), name, f, dirCluster, dirIndex)
      requires dirIndex == NO_DIRECTORY_INDEX ==> dirCluster == Areas()[|Areas()| - 1]
      modifies this`dirCluster, this`dirIndex, this`info, v
      ensures out == Done || out == NoSpace
      ensures out == Done ==>
        Ok() && info == NewFile(time, date) && NameSet(old(Entries()), Entries(), name, info) && IsFound(name, k)
      ensures out == Done ==> OthersSame(old(v.chains), v.chains) && OnlyAreas(v.g, old(v.logical), v.logical, Areas())
      ensures out == NoSpace <==> Full(old(Entries())) && (firstCluster == 0 || FreeClusters(old(v.fat)) == {})
      ensures out == NoSpace ==> Unchanged()
      ensures VolumeOk(v) && v.status != Dirty && v.reserved == old(v.reserved)
    {
      hide VolumeOk, Placed, EntriesOk, EntriesOf, Places, NameSet, OnlyAreas, Vacant, FreeClusters, Full, Writable,
        HasName, SameNames, Printed, OthersSame;
      ghost var d, es := v.logical, Entries();
      var ok;
      ok, k := LengthenIfNecessary(name, f);
      if !ok {
        return NoSpace, 0;
      }
      ghost var d1, es1, areas := v.logical, Entries(), Areas();
      NowhereAt(es1, name);
      SetEntry(NewFile(time, date), name, k);
      OnlyTwice(v.g, d, d1, v.logical, areas);
      SameThenSet(es, es1, Entries(), name, info);
      out := Done;
    }

    /** rdcf_open for the last component of a path: which files may be opened, and
        what creating and truncating do to the directory and to the chains. */
    method Open(path: seq<nat>, from: nat, creat: bool, trunc: bool, write: bool, time: nat, date: nat, ghost k: nat)
      returns (out: Outcome, made: bool, ghost e: nat)
      requires Ok() && v.status != Dirty && PathOk(path, from) && time < 0x10000 && date < 0x10000
      requires HasChain(NameExtension(path, from), k)
      modifies this, v
      ensures VolumeOk(v) && v.reserved == old(v.reserved)
      ensures out == Invalid <==> !Accepted(path, from)
      ensures out == Invalid ==> Unchanged()
      ensures forall x :: Accepted(path, from) && Named(old(Entries()), NameExtension(path, from), x) ==>
        out == OpenOutcome(x, creat && trunc, write)
      ensures forall x :: Accepted(path, from) && Named(old(Entries()), NameExtension(path, from), x) ==>
        && (out == IsDirectory <==> (x.attribute / 16) % 2 == 1)
        && (out == NoAccess <==> (x.attribute / 16) % 2 == 0 && ((creat && trunc) || write) && x.attribute % 8 != 0)
      ensures forall x :: out == Done && Named(old(Entries()), NameExtension(path, from), x) && !(creat && trunc) ==>
        Unchanged() && info == x
      ensures out == Done && HasName(old(Entries()), NameExtension(path, from)) && creat && trunc ==>
        && Ok() && NameSet(old(Entries()), Entries(), NameExtension(path, from), NewFile(time, date))
        && v.chains == old(v.chains)[k := []]
      ensures Accepted(path, from) && !HasName(old(Entries()), NameExtension(path, from)) ==>
        out == if !creat then NotFound
               else if Full(old(Entries())) && (firstCluster == 0 || FreeClusters(old(v.fat)) == {}) then NoSpace
               else Done
      ensures out == Done && !HasName(old(Entries()), NameExtension(path, from)) ==>
        && Ok() && NameSet(old(Entries()), Entries(), NameExtension(path, from), NewFile(time, date))
        && OthersSame(old(v.chains), v.chains)
      ensures out != Done ==> Unchanged()
      ensures out == Done ==> Ok() && OnlyAreas(v.g, old(v.logical), v.logical, Areas()) && v.status != Dirty
      ensures out == Done ==> IsFound(NameExtension(path, from), e) && spec == Printed(NameExtension(path, from))
      ensures out == Done && !Unchanged() ==> info == NewFile(time, date)
      ensures made <==> out == Done && (!HasName(old(Entries()), NameExtension(path, from)) || (creat && trunc))
      ensures made ==> info == NewFile(time, date)
    {
      hide InOrder, Volume.Valid, Placed, EntriesOk, EntriesOf, Places, NameSet, OnlyAreas, OthersSame, Vacant,
        NameExtension, Accepted, Printed, PathOk, FreeClusters, Full, HasName, Named;
      RefusedToOpen(Entries(), NameExtension(path, from), creat && trunc, write);
      ghost var name := NameExtension(path, from);
      var ok, found;
      NothingChanged();
      ok, found, e := LookUp(path, from);
      if !ok {
        return Invalid, false, e;
      }
      if found {
        FoundIs(name, e);
        if HasBit(info.attribute, DIRECTORY) {
          return IsDirectory, false, e;
        }
        if creat && trunc {
          if Protected(info.attribute) {
            return NoAccess, false, e;
          }
          Truncate(name, e, time, date, k);
        } else if write && Protected(info.attribute) {
          return NoAccess, false, e;
        }
        return Done, creat && trunc, e;
      }
      NotThere(name, e);
      if !creat {
        return NotFound, false, e;
      }
      out, e := Create(name, e, time, date);
      made := out == Done;
    }

    /** rdcf_close: the entry of a file that was written is brought up to date; an
        empty file is not kept. */
    method Close(written: bool, first: nat, size: nat, time: nat, date: nat, ghost name: seq<nat>, ghost e: nat)
      requires Ok() && v.status != Dirty && LookedUp(name) && spec == Printed(name)
      requires e < |Entries()| && At(Entries(), name, e) && Spots()[e] == Place(dirCluster, dirIndex)
      requires InfoOk(info) && (info.attribute / VOLUME) % 2 == 0 && InfoOk(Info(0, time, date, first, size))
      modifies this`info, v`disk, v`buf, v`status, v`sectorInBuffer, v`logical
      ensures Ok() && v.status != Dirty && v.chains == old(v.chains)
      ensures !written ==> v.logical == old(v.logical)
      ensures written && size > 0 ==>
        NameSet(old(Entries()), Entries(), name, Info(WithArchive(old(info.attribute)), time, date, first, size))
      ensures written && size == 0 ==> NameGone(old(Entries()), Entries(), name)
      ensures OnlyAreas(v.g, old(v.logical), v.logical, Areas())
    {
      hide InOrder, Volume.Valid, Placed, EntriesOf, EntriesOk, Named, Pack, OnlyAreas, Places, Matches, LookedUp,
        ProperName, Printed, Unpack, NameSet, NameGone;
      NothingChanged();
      if written {
        v.ForgetBuffer();
        WithArchiveOk(info.attribute);
        info := Info(WithArchive(info.attribute), time, date, first, size);
        OnlyEntry(name, e);
        if size > 0 {
          SetEntry(info, name, e);
        } else {
          EraseEntry(name, e);
        }
      }
    }

    lemma OnlyEntry(name: seq<nat>, e: nat)
      requires Ok() && LookedUp(name) && e < |Entries()| && At(Entries(), name, e)
      ensures Writable(Entries(), e, name) && forall j :: 0 <= j < |Entries()| && j != e ==> !At(Entries(), name, j)
    {
      hide VolumeOk, Placed, EntriesOf, Matches;
      LookedUpFacts(name);
    }

    /** One sector of a subdirectory, in the buffer: whether all its entries are
        dead, or what the first other one is. */
    method SectorDead(ghost c: nat, ghost sector: nat) returns (st: Scan)
      requires AreaOk(v.g, c) && sector < AreaSectors(v.g, c) && DiskOk(v.g, v.logical)
      requires v.status != Empty && AreaStart(v.g, c) + sector < |v.logical|
      requires v.buf == v.logical[AreaStart(v.g, c) + sector]
      requires Dead(v.g, v.logical, c, ENTRIES_PER_SECTOR * sector)
      ensures st == Through ==> Dead(v.g, v.logical, c, ENTRIES_PER_SECTOR * (sector + 1))
      ensures st == AtEnd ==> NoFiles(v.g, v.logical, c)
      ensures st == Found ==> !NoFiles(v.g, v.logical, c)
    {
      hide EntryOf, AreaStart, NoFiles;
      for o := 0 to ENTRIES_PER_SECTOR
        invariant Dead(v.g, v.logical, c, ENTRIES_PER_SECTOR * sector + o)
      {
        var r := EntryOf(v.buf, o);
        ghost var p := Place(c, ENTRIES_PER_SECTOR * sector + o);
        AreaSectorIn(v.g, c, sector);
        assert r == EntryAt(v.g, v.logical, p);
        if r[0] == END_DIRECTORY {
          EndsDead(v.g, v.logical, c, ENTRIES_PER_SECTOR * sector + o);
          return AtEnd;
        }
        if r[0] != DELETED_FILE && r[0] != DOT {
          LivesHere(v.g, v.logical, c, ENTRIES_PER_SECTOR * sector + o);
          return Found;
        }
      }
      st := Through;
    }

    /** One cluster of a subdirectory: false if an entry before the end mark is
        neither deleted nor one of those that begin with a dot. */
    method ClusterEmpty(c: nat) returns (empty: bool)
      requires VolumeOk(v) && GeometryOk(v.g) && 2 <= c <= v.g.maxCluster && DiskOk(v.g, v.logical)
      modifies v`disk, v`buf, v`status, v`sectorInBuffer
      ensures VolumeOk(v) && (v.status == Dirty ==> old(v.status) == Dirty)
      ensures empty <==> NoFiles(v.g, v.logical, c)
    {
      hide InOrder, Volume.Valid, FirstSector, EntryAt, DeadEntry;
      var first := FirstSector(v.g, c);
      for sector := 0 to v.g.perCluster
        invariant VolumeOk(v) && (v.status == Dirty ==> old(v.status) == Dirty)
        invariant Dead(v.g, v.logical, c, ENTRIES_PER_SECTOR * sector)
      {
        AreaSectorIn(v.g, c, sector);
        v.Facts();
        v.ReadBuffer(first + sector);
        var st := SectorDead(c, sector);
        if st != Through {
          return st == AtEnd;
        }
      }
      empty := true;
    }

    /** The check before a directory is deleted: every cluster of its chain. */
    method DirectoryEmpty(ghost k: nat) returns (empty: bool)
      requires VolumeOk(v) && k < |v.chains| && info.first == First(v.chains[k])
      modifies v`disk, v`buf, v`status, v`sectorInBuffer
      ensures VolumeOk(v) && (v.status == Dirty ==> old(v.status) == Dirty)
      ensures empty <==> EmptyChain(v.g, v.logical, v.chains[k])
    {
      hide InOrder, Volume.Valid, NoFiles, IsChain, Distinct;
      FatFile.ChainInRange(v, k);
      ghost var n := 0;
      var cluster := info.first;
      while cluster != EMPTY_CLUSTER && cluster < LAST_MARK
        invariant VolumeOk(v) && (v.status == Dirty ==> old(v.status) == Dirty) && n <= |v.chains[k]|
        invariant if n < |v.chains[k]| then cluster == v.chains[k][n]
                  else cluster == EMPTY_CLUSTER || cluster >= LAST_MARK
        invariant forall i :: 0 <= i < n ==> AreaOk(v.g, v.chains[k][i]) && NoFiles(v.g, v.logical, v.chains[k][i])
        decreases |v.chains[k]| - n
      {
        FatFile.NextEntry(v, k, n);
        var err, next := v.FatEntry(cluster);
        empty := ClusterEmpty(cluster);
        if !empty {
          return;
        }
        cluster := next;
        n := n + 1;
      }
      empty := true;
    }

    /** The entry at the position marked as deleted, and written to disk. */
    method EraseEntry(ghost name: seq<nat>, ghost k: nat)
      requires Ok() && LookedUp(name) && spec == Printed(name) && InfoOk(info) && (info.attribute / VOLUME) % 2 == 0
      requires k < |Entries()| && At(Entries(), name, k) && Spots()[k] == Place(dirCluster, dirIndex)
      modifies v`disk, v`buf, v`status, v`sectorInBuffer, v`logical
      ensures Ok() && v.status != Dirty && NameGone(old(Entries()), Entries(), name)
      ensures OnlyAreas(v.g, old(v.logical), v.logical, Areas())
    {
      hide VolumeOk, Placed, EntriesOf, EntriesOk, At, Named, Pack, OnlyAreas, Places, Matches, LookedUp, ProperName,
        Printed, Unpack;
      LookedUpFacts(name);
      ErasedRaw(Entries(), k, name, info);
      UpdateEntry(true, name, k);
      Flush();
    }

    /** rdcf_delete for the last component of a path. */
    method Delete(path: seq<nat>, from: nat, ghost k: nat) returns (out: Outcome)
      requires Ok() && v.status != Dirty && PathOk(path, from) && HasChain(NameExtension(path, from), k)
      modifies this, v
      ensures VolumeOk(v) && v.reserved == old(v.reserved)
      ensures out == Invalid <==> !Accepted(path, from)
      ensures Accepted(path, from) && !HasName(old(Entries()), NameExtension(path, from)) ==> out == NotFound
      ensures forall x :: Accepted(path, from) && Named(old(Entries()), NameExtension(path, from), x) ==>
        out == if HasBit(x.attribute, DIRECTORY) then
                 (if EmptyChain(v.g, old(v.logical), old(v.chains[k])) then Done else NoAccess)
               else if Protected(x.attribute) then NoAccess else Done
      ensures forall x :: Accepted(path, from) && Named(old(Entries()), NameExtension(path, from), x) ==>
        (out == NoAccess <==> if (x.attribute / 16) % 2 == 1 then !EmptyChain(v.g, old(v.logical), old(v.chains[k]))
                              else x.attribute % 8 != 0)
      ensures out == Done ==>
        Ok() && v.status != Dirty && NameGone(old(Entries()), Entries(), NameExtension(path, from))
      ensures out == Done ==> v.chains == old(v.chains)[k := []] && OnlyAreas(v.g, old(v.logical), v.logical, Areas())
      ensures out != Done ==> Unchanged()
    {
      hide InOrder, Volume.Valid, Placed, EntriesOk, EntriesOf, Places, NameGone, OnlyAreas, Vacant, NameExtension,
        Accepted, Printed, PathOk, HasName, Named;
      RefusedToDelete(Entries(), NameExtension(path, from));
      ghost var name := NameExtension(path, from);
      var ok, found;
      ghost var i;
      ok, found, i := LookUp(path, from);
      if !ok {
        return Invalid;
      }
      if !found {
        NotThere(name, i);
        return NotFound;
      }
      FoundIs(name, i);
      if HasBit(info.attribute, DIRECTORY) {
        var empty := DirectoryEmpty(k);
        if !empty {
          return NoAccess;
        }
      } else if Protected(info.attribute) {
        return NoAccess;
      }
      Remove(name, i, k);
      return Done;
    }

    /** rdcf_delete with an empty name: the first volume label of the directory. No name
        changes. */
    method DeleteLabel(ghost k: nat) returns (out: Outcome, ghost i: nat)
      requires Ok() && v.status != Dirty && HasChain([], k)
      modifies this, v
      ensures VolumeOk(v) && v.reserved == old(v.reserved)
      ensures out == if HasName(old(Entries()), []) then Done else NotFound
      ensures out == Done ==>
        && i < |old(Entries())| && At(old(Entries()), [], i) && (forall j :: 0 <= j < i ==> !At(old(Entries()), [], j))
        && Ok() && v.status != Dirty && SameFiles(old(Entries()), Entries())
        && Entries() == old(Entries())[i := Unlabelled(old(Entries()[i]))]
        && v.chains == old(v.chains)[k := []] && OnlyAreas(v.g, old(v.logical), v.logical, Areas())
      ensures out != Done ==> Unchanged()
    {
      hide InOrder, Volume.Valid, Placed, EntriesOk, EntriesOf, Places, OnlyAreas, Vacant, HasName, Named, At,
        Unlabelled;
      v.ForgetBuffer();
      var found;
      found, i := Search([]);
      if !found {
        LabelNotThere(i);
        return NotFound, 0;
      }
      LabelIs(i);
      RemoveLabel(i, k);
      return Done, i;
    }

    lemma LabelNotThere(f: nat)
      requires Placed() && Vacant(Entries(), Spots(), [], f, dirCluster, dirIndex)
      ensures !HasName(Entries(), [])
    {
    }

    /** The label that was found. */
    lemma LabelIs(i: nat)
      requires Ok() && IsFound([], i) && spec == Entries()[i][..NAME_EXTENSION]
      ensures HasName(Entries(), []) && Named(Entries(), [], info) && InfoOk(info) && EntryName(spec)
      ensures Updated(spec, info, true) == Unlabelled(Entries()[i])
    {
      hide VolumeOk, Placed, EntriesOf, Pack, Unpack;
      LabelBit(Entries()[i]);
    }

    /** The label found is released and its entry deleted. */
    method RemoveLabel(ghost i: nat, ghost k: nat)
      requires Ok() && IsFound([], i) && HasChain([], k) && Named(Entries(), [], info)
      requires InfoOk(info) && EntryName(spec)
      requires Updated(spec, info, true) == Unlabelled(Entries()[i])
      modifies v
      ensures Ok() && v.status != Dirty && SameFiles(old(Entries()), Entries())
      ensures Entries() == old(Entries())[i := Unlabelled(old(Entries()[i]))]
      ensures v.chains == old(v.chains)[k := []] && v.reserved == old(v.reserved)
      ensures OnlyAreas(v.g, old(v.logical), v.logical, Areas())
    {
      hide VolumeOk, Placed, EntriesOk, EntriesOf, Places, OnlyAreas, Unpack, Matches, SameData, At, HasName, Named,
        EntryName, Unlabelled, Updated, SameFiles;
      ghost var d, es, name := v.logical, Entries(), spec;
      ReleaseFile(k);
      ghost var d1, areas := v.logical, Areas();
      UnlabelledRaw(es, i);
      UpdateEntry(true, name, i);
      Flush();
      SameThenOnly(v.g, d, d1, v.logical, areas);
    }

    /** The file found is released and its entry deleted. */
    method Remove(ghost name: seq<nat>, ghost i: nat, ghost k: nat)
      requires Ok() && LookedUp(name) && spec == Printed(name) && IsFound(name, i) && HasChain(name, k)
      modifies v
      ensures Ok() && v.status != Dirty && NameGone(old(Entries()), Entries(), name)
      ensures v.chains == old(v.chains)[k := []] && v.reserved == old(v.reserved)
      ensures OnlyAreas(v.g, old(v.logical), v.logical, Areas())
    {
      hide VolumeOk, Placed, EntriesOk, EntriesOf, Places, NameGone, OnlyAreas, Unpack, Matches, SameData, At, HasName,
        Named, Printed;
      FoundIs(name, i);
      ghost var d := v.logical;
      ReleaseFile(k);
      ghost var d1, areas := v.logical, Areas();
      EraseEntry(name, i);
      SameThenOnly(v.g, d, d1, v.logical, areas);
    }

    /** The position is that of the entry of this name, which is read. */
    ghost predicate IsFound(name: seq<nat>, k: nat)
      reads `dirCluster, `dirIndex, `info, v`logical, v`chains
      requires Placed()
    {
      && k < |Entries()| && At(Entries(), name, k)
      && Spots()[k] == Place(dirCluster, dirIndex) && info == Unpack(Entries()[k])
    }

    lemma SizeFits(c: nat, n: nat)
      requires Placed() && n < |Areas()| && c == Areas()[n]
      ensures AreasOk(v.g, Areas()) && AreasOk(v.g, Areas()[..n]) && AreasOk(v.g, Areas()[..n + 1]) && AreaOk(v.g, c)
      ensures AreaSize(v.g, c) < NO_DIRECTORY_INDEX && DiskOk(v.g, v.logical)
    {
      hide VolumeOk, Distinct;
    }
  }

  /** The entry written for a name and what it does to the names. */
  lemma SetRaw(es: seq<Raw>, k: nat, name: seq<nat>, x: Info) returns (r: Raw)
    requires EntriesOk(es) && LookedUp(name) && Writable(es, k, name) && InfoOk(x) && (x.attribute / VOLUME) % 2 == 0
    requires forall j :: 0 <= j < |es| && j != k ==> !At(es, name, j)
    ensures ProperName(name) && r == Updated(name, x, false) && EntriesOk(es[k := r])
    ensures NameSet(es, es[k := r], name, x)
    ensures k < |es| && At(es[k := r], name, k) && Unpack(r) == x
  {
    hide EntriesOk, At, Named, Pack;
    LookedUpFacts(name);
    PackUnpack(name, x);
    r := Pack(name, x);
    NameWritten(es, k, r, name);
    WrittenHere(es, k, r, name);
  }

  lemma WrittenHere(es: seq<Raw>, k: nat, r: Raw, name: seq<nat>)
    requires Writable(es, k, name) && ProperName(name) && Matches(r, name)
    ensures At(es[k := r], name, k)
  {
    assert r[0] == name[0];
  }

  /** The same names, for the same files. */
  ghost predicate SameFiles(es: seq<Raw>, es': seq<Raw>)
  {
    forall m, x :: ProperName(m) ==> (Named(es', m, x) <==> Named(es, m, x))
  }

  /** A volume label's entry once it is deleted. */
  function Unlabelled(r: Raw): Raw
  {
    Updated(r[..NAME_EXTENSION], Unpack(r), true)
  }

  lemma LabelBit(r: Raw)
    requires IsLabel(r)
    ensures HasBit(Unpack(r).attribute, VOLUME)
  {
  }

  lemma UnlabelledRaw(es: seq<Raw>, i: nat)
    requires EntriesOk(es) && i < |es| && At(es, [], i)
    ensures EntriesOk(es[i := Unlabelled(es[i])]) && SameFiles(es, es[i := Unlabelled(es[i])])
  {
    hide EntriesOk, At, Named, Pack;
    LabelErased(es, i, Unlabelled(es[i]));
  }

  lemma ErasedRaw(es: seq<Raw>, k: nat, name: seq<nat>, x: Info)
    requires EntriesOk(es) && ProperName(name) && k < |es| && At(es, name, k) && InfoOk(x)
    ensures EntriesOk(es[k := Updated(name, x, true)]) && NameGone(es, es[k := Updated(name, x, true)], name)
  {
    hide EntriesOk, At, Named, Pack;
    NameErased(es, k, Updated(name, x, true), name);
  }

  /** Of the first n entries of a cluster none is a file's, and none is the end. */
  ghost predicate Dead(g: Geometry, d: Disk, c: nat, n: nat)
    requires DiskOk(g, d) && AreaOk(g, c)
  {
    n <= AreaSize(g, c) && forall i :: 0 <= i < n ==> DeadEntry(g, d, c, i)
  }

  ghost predicate DeadEntry(g: Geometry, d: Disk, c: nat, i: nat)
    requires DiskOk(g, d) && AreaOk(g, c)
  {
    i < AreaSize(g, c) && (EntryAt(g, d, Place(c, i))[0] == DELETED_FILE || EntryAt(g, d, Place(c, i))[0] == DOT)
  }

  /** Up to the end mark, or the end of the cluster, no entry is a file's. */
  ghost predicate NoFiles(g: Geometry, d: Disk, c: nat)
    requires DiskOk(g, d) && AreaOk(g, c)
  {
    exists n: nat :: Dead(g, d, c, n) && (n == AreaSize(g, c) || EntryAt(g, d, Place(c, n))[0] == END_DIRECTORY)
  }

  /** No cluster of a directory has files. */
  ghost predicate EmptyChain(g: Geometry, d: Disk, ch: seq<nat>)
    requires DiskOk(g, d)
  {
    forall i :: 0 <= i < |ch| ==> AreaOk(g, ch[i]) && NoFiles(g, d, ch[i])
  }

  /** In numbers: deleted entries and those beginning with a dot do not count. */
  lemma DeadInNumbers(g: Geometry, d: Disk, c: nat, i: nat)
    requires DiskOk(g, d) && AreaOk(g, c) && i < AreaSize(g, c)
    ensures DeadEntry(g, d, c, i) <==>
            EntryAt(g, d, Place(c, i))[0] == 0xE5 || EntryAt(g, d, Place(c, i))[0] == 0x2E
  {
    hide EntryAt, AreaSize;
  }

  lemma EndsDead(g: Geometry, d: Disk, c: nat, n: nat)
    requires DiskOk(g, d) && AreaOk(g, c) && Dead(g, d, c, n) && n < AreaSize(g, c)
    requires EntryAt(g, d, Place(c, n))[0] == END_DIRECTORY
    ensures NoFiles(g, d, c)
  {
  }

  lemma LivesHere(g: Geometry, d: Disk, c: nat, i: nat)
    requires DiskOk(g, d) && AreaOk(g, c) && Dead(g, d, c, i) && i < AreaSize(g, c) && !DeadEntry(g, d, c, i)
    requires EntryAt(g, d, Place(c, i))[0] != END_DIRECTORY
    ensures !NoFiles(g, d, c)
  {
    hide EntryAt, AreaSize;
    forall n: nat
      ensures !(Dead(g, d, c, n) && (n == AreaSize(g, c) || EntryAt(g, d, Place(c, n))[0] == END_DIRECTORY))
    {
      assert n < i ==> DeadEntry(g, d, c, n);
    }
  }

  lemma MatchedBit(r: Raw, name: seq<nat>)
    requires Matches(r, name) && name != []
    ensures (Unpack(r).attribute / VOLUME) % 2 == 0
  {
  }

  predicate HasBit(a: nat, bit: nat)
    requires bit > 0
  {
    (a / bit) % 2 == 1
  }

  /** check_write_access. */
  predicate Protected(a: nat)
  {
    HasBit(a, READ_ONLY) || HasBit(a, HIDDEN) || HasBit(a, SYSTEM)
  }

  /** The attribute byte in numbers: bit 4 is a directory, bits 0 to 2 protect a file. */
  lemma AttributeBits(a: nat)
    requires a < 256
    ensures HasBit(a, DIRECTORY) <==> (a / 16) % 2 == 1
    ensures Protected(a) <==> a % 8 != 0
    ensures HasBit(a, VOLUME) <==> (a / 8) % 2 == 1
    ensures WithArchive(a) == if (a / 32) % 2 == 1 then a else a + 32
  {
  }

  /** A new file is empty, with the archive bit; a deleted entry begins with 0xE5. */
  lemma NewAndDeleted(name: seq<nat>, x: Info, time: nat, date: nat)
    requires |name| == 11 && (forall i :: 0 <= i < 11 ==> name[i] < 256) && InfoOk(x)
    ensures NewFile(time, date) == Info(32, time, date, 0, 0)
    ensures Updated(name, x, true)[0] == 0xE5 && Unpack(Updated(name, x, true)) == x
    ensures Updated(name, x, true)[1..11] == name[1..]
    ensures Updated(name, x, false)[..11] == name && Unpack(Updated(name, x, false)) == x
  {
    hide Unpack;
    PackUnpack(name, x);
    DeletedFields(Pack(name, x));
  }

  lemma DeletedFields(r: Raw)
    ensures Unpack(r[0 := DELETED_FILE]) == Unpack(r)
  {
  }

  /** Which files may not be opened. */
  lemma OpenRefusals(x: Info, truncate: bool, write: bool)
    requires x.attribute < 256
    ensures OpenOutcome(x, truncate, write) == IsDirectory <==> (x.attribute / 16) % 2 == 1
    ensures OpenOutcome(x, truncate, write) == NoAccess <==>
            (x.attribute / 16) % 2 == 0 && (truncate || write) && x.attribute % 8 != 0
    ensures OpenOutcome(x, truncate, write) == Done <==>
            (x.attribute / 16) % 2 == 0 && ((!truncate && !write) || x.attribute % 8 == 0)
  {
    AttributeBits(x.attribute);
  }

  lemma RefusedToOpen(es: seq<Raw>, name: seq<nat>, truncate: bool, write: bool)
    ensures forall x :: Named(es, name, x) ==>
      && (OpenOutcome(x, truncate, write) == IsDirectory <==> (x.attribute / 16) % 2 == 1)
      && (OpenOutcome(x, truncate, write) == NoAccess <==>
          (x.attribute / 16) % 2 == 0 && (truncate || write) && x.attribute % 8 != 0)
  {
    hide OpenOutcome, Named;
    forall x | Named(es, name, x)
      ensures OpenOutcome(x, truncate, write) == IsDirectory <==> (x.attribute / 16) % 2 == 1
      ensures OpenOutcome(x, truncate, write) == NoAccess <==>
              (x.attribute / 16) % 2 == 0 && (truncate || write) && x.attribute % 8 != 0
    {
      NamedOk(es, name);
      OpenRefusals(x, truncate, write);
    }
  }

  /** Which files may not be deleted. */
  lemma RefusedToDelete(es: seq<Raw>, name: seq<nat>)
    ensures forall x :: Named(es, name, x) ==>
      && (HasBit(x.attribute, DIRECTORY) <==> (x.attribute / 16) % 2 == 1)
      && (Protected(x.attribute) <==> x.attribute % 8 != 0)
  {
    hide HasBit, Protected, Named;
    forall x | Named(es, name, x)
      ensures (HasBit(x.attribute, DIRECTORY) <==> (x.attribute / 16) % 2 == 1)
      ensures Protected(x.attribute) <==> x.attribute % 8 != 0
    {
      NamedOk(es, name);
      AttributeBits(x.attribute);
    }
  }

  lemma NamedOk(es: seq<Raw>, name: seq<nat>)
    ensures forall x :: Named(es, name, x) ==> x.attribute < 256
  {
    hide At;
  }

  function WithArchive(a: nat): nat
  {
    if HasBit(a, ARCHIVE) then a else a + ARCHIVE
  }

  lemma WithArchiveOk(a: nat)
    requires a < 256 && (a / VOLUME) % 2 == 0
    ensures WithArchive(a) < 256 && (WithArchive(a) / VOLUME) % 2 == 0 && HasBit(WithArchive(a), ARCHIVE)
  {
  }

  function NewFile(time: nat, date: nat): Info
  {
    Info(ARCHIVE, time, date, EMPTY_CLUSTER, 0)
  }

  /** Whether a file that exists may be opened. */
  function OpenOutcome(x: Info, truncate: bool, write: bool): Outcome
  {
    if HasBit(x.attribute, DIRECTORY) then IsDirectory
    else if (truncate || write) && Protected(x.attribute) then NoAccess
    else Done
  }

  lemma SameThenOnly(g: Geometry, a: Disk, b: Disk, c: Disk, areas: seq<nat>)
    requires AreasOk(g, areas) && SameData(g, a, b) && OnlyAreas(g, b, c, areas)
    ensures OnlyAreas(g, a, c, areas)
  {
    hide InAreas, AreaOk;
  }

  lemma OnlyTwice(g: Geometry, a: Disk, b: Disk, c: Disk, areas: seq<nat>)
    requires AreasOk(g, areas) && OnlyAreas(g, a, b, areas) && OnlyAreas(g, b, c, areas)
    ensures OnlyAreas(g, a, c, areas)
  {
    hide InAreas, AreaOk;
  }

  lemma SameThenSet(a: seq<Raw>, b: seq<Raw>, c: seq<Raw>, name: seq<nat>, x: Info)
    requires SameNames(a, b) && NameSet(b, c, name, x)
    ensures NameSet(a, c, name, x)
  {
    hide Named, ProperName;
  }

  lemma NowhereAt(es: seq<Raw>, name: seq<nat>)
    requires !HasName(es, name)
    ensures forall j :: 0 <= j < |es| ==> !At(es, name, j)
  {
  }

  /** A path whose last component begins at `from`. */
  ghost predicate PathOk(path: seq<nat>, from: nat)
    ensures PathOk(path, from) ==> from <= |path|
  {
    from <= |path| && (forall i :: 0 <= i < |path| ==> path[i] < 256) && ComponentEnd(path, from) == |path|
  }

  /** This name is now for this file, and no other name has changed. */
  ghost predicate NameSet(es: seq<Raw>, es': seq<Raw>, name: seq<nat>, x: Info)
  {
    forall m, y :: ProperName(m) ==> (Named(es', m, y) <==> if m == name then y == x else Named(es, m, y))
  }

  /** This name is gone, and no other has changed. */
  ghost predicate NameGone(es: seq<Raw>, es': seq<Raw>, name: seq<nat>)
  {
    forall m, y :: ProperName(m) ==> (Named(es', m, y) <==> m != name && Named(es, m, y))
  }

  ghost predicate Full(es: seq<Raw>)
  {
    forall i :: 0 <= i < |es| ==> !Free(es[i])
  }

  /** The same names, for the same files. */
  ghost predicate SameNames(es: seq<Raw>, es': seq<Raw>)
  {
    forall m, x :: Named(es', m, x) <==> Named(es, m, x)
  }

  lemma VacantFull(es: seq<Raw>, ps: seq<Place>, name: seq<nat>, f: nat, c: nat, i: nat)
    requires Vacant(es, ps, name, f, c, i) && i == NO_DIRECTORY_INDEX
    ensures Full(es) && !HasName(es, name)
  {
  }

  lemma VacantThere(es: seq<Raw>, ps: seq<Place>, name: seq<nat>, f: nat, c: nat, i: nat)
    requires Vacant(es, ps, name, f, c, i) && i != NO_DIRECTORY_INDEX
    ensures f < |ps| == |es| && ps[f] == Place(c, i) && Writable(es, f, name) && !HasName(es, name) && !Full(es)
  {
  }

  /** A full directory that grew: a free entry behind the others. */
  lemma GrownDirectory(es: seq<Raw>, es': seq<Raw>, name: seq<nat>)
    requires EntriesOk(es) && Full(es) && !HasName(es, name) && |es| < |es'| && es'[..|es|] == es
    requires forall k :: |es| <= k < |es'| ==> Blank(es'[k])
    ensures EntriesOk(es') && SameNames(es, es') && !HasName(es', name) && Writable(es', |es|, name)
  {
    hide EntriesOk, Named, HasName;
    var more := es'[|es|..];
    assert es' == es + more;
    forall i | 0 <= i < |more|
      ensures more[i][0] == END_DIRECTORY
    {
      assert Blank(es'[|es| + i]);
    }
    assert es'[|es|] == more[0];
    NamesKeptGrown(es, more);
  }

  lemma FirstOfArea(g: Geometry, c: nat)
    requires AreaOk(g, c) && c != 0
    ensures 0 < |PlacesIn(g, c)| && PlacesIn(g, c)[0] == Place(c, 0)
  {
  }

  /** A FAT change and a cleared cluster: only the lengthened directory differs. */
  lemma GrownOnly(g: Geometry, d: Disk, d1: Disk, d2: Disk, areas: seq<nat>, c: nat)
    requires AreasOk(g, areas + [c]) && AreaOk(g, c) && SameData(g, d, d1) && Cleared(g, d1, d2, c)
    ensures OnlyAreas(g, d, d2, areas + [c])
  {
    hide Blank, AreaOk;
    var more := areas + [c];
    assert more[|areas|] == c;
  }

  /** The scan met the end mark at k; an entry up to there is free. */
  ghost predicate Ended(es: seq<Raw>, ps: seq<Place>, name: seq<nat>, k: nat, f: nat, ec: nat, ei: nat)
  {
    && k < |es| == |ps| && (forall i :: 0 <= i < k ==> es[i][0] != END_DIRECTORY && !Matches(es[i], name))
    && es[k][0] == END_DIRECTORY && FirstFree(es, k + 1, f) && f <= k && ei < NO_DIRECTORY_INDEX
    && ps[f] == Place(ec, ei)
  }

  /** One entry more. */
  lemma ScanStep(es: seq<Raw>, ps: seq<Place>, name: seq<nat>, p: nat, f: nat, ec: nat, ei: nat, c: nat, i: nat)
    requires Scanned(es, ps, name, p, f, ec, ei) && p < |es| && ps[p] == Place(c, i) && i < NO_DIRECTORY_INDEX
    ensures var f' := if f == p && !Free(es[p]) then p + 1 else f;
            var ec' := if Free(es[p]) && ei == NO_DIRECTORY_INDEX then c else ec;
            var ei' := if Free(es[p]) && ei == NO_DIRECTORY_INDEX then i else ei;
            && (es[p][0] == END_DIRECTORY ==> Ended(es, ps, name, p, f', ec', ei'))
            && (es[p][0] != END_DIRECTORY && !Matches(es[p], name) ==> Scanned(es, ps, name, p + 1, f', ec', ei'))
            && (es[p][0] != END_DIRECTORY && Matches(es[p], name) ==> At(es, name, p))
  {
    hide Matches;
  }

  lemma EndedVacant(es: seq<Raw>, ps: seq<Place>, name: seq<nat>, k: nat, f: nat, ec: nat, ei: nat)
    requires Ended(es, ps, name, k, f, ec, ei)
    ensures Vacant(es, ps, name, f, ec, ei) && ei != NO_DIRECTORY_INDEX
  {
    hide Matches;
    forall i | 0 <= i < |es|
      ensures !At(es, name, i)
    {
      if i >= k {
        assert es[k][0] == END_DIRECTORY;
      }
    }
  }
}
