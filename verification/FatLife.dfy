/** The life of a file: created, written at many places, closed, opened again and
    read. */
module FatLife {
  import opened FatCache
  import opened FatChains
  import opened FatAlloc
  import opened FatData
  import opened FatFile
  import opened FatName
  import opened FatEntries
  import opened FatPlaces
  import D = FatDirectory

  // ----- Many writes -----

  /** A write at an offset. */
  datatype Edit = Edit(offset: nat, data: seq<nat>)

  /** Written counts: as many writes as have been tried, none beyond its data. */
  predicate CountsOk(edits: seq<Edit>, counts: seq<nat>)
  {
    |counts| <= |edits| && forall i :: 0 <= i < |counts| ==> counts[i] <= |edits[i].data|
  }

  /** The bytes after the writes: each overwrites or extends, and one whose offset
      lies behind the end is refused. */
  function Applied(s: seq<nat>, edits: seq<Edit>, counts: seq<nat>): seq<nat>
    requires CountsOk(edits, counts)
    decreases |counts|
  {
    if counts == [] then s
    else
      var n := |counts| - 1;
      var t := Applied(s, edits, counts[..n]);
      if edits[n].offset <= |t| then Spliced(t, edits[n].offset, edits[n].data[..counts[n]]) else t
  }

  /** Every write was complete, or refused. */
  ghost predicate Complete(s: seq<nat>, edits: seq<Edit>, counts: seq<nat>)
    requires CountsOk(edits, counts)
  {
    forall i :: 0 <= i < |counts| ==> counts[i] == |edits[i].data| || edits[i].offset > |Applied(s, edits, counts[..i])|
  }

  ghost predicate EditsOk(edits: seq<Edit>)
  {
    forall i :: 0 <= i < |edits| ==> AllBytes(edits[i].data) && edits[i].offset + |edits[i].data| < 0x1_0000_0000
  }

  lemma {:induction false} AppliedSize(s: seq<nat>, edits: seq<Edit>, counts: seq<nat>)
    requires CountsOk(edits, counts) && EditsOk(edits) && |s| < 0x1_0000_0000
    ensures |Applied(s, edits, counts)| < 0x1_0000_0000
    decreases |counts|
  {
    if counts != [] {
      AppliedSize(s, edits, counts[..|counts| - 1]);
    }
  }

  lemma AppliedMore(s: seq<nat>, edits: seq<Edit>, counts: seq<nat>, c: nat)
    requires CountsOk(edits, counts) && |counts| < |edits| && c <= |edits[|counts|].data|
    ensures CountsOk(edits, counts + [c])
    ensures var t, e := Applied(s, edits, counts), edits[|counts|];
      Applied(s, edits, counts + [c]) == if e.offset <= |t| then Spliced(t, e.offset, e.data[..c]) else t
    ensures
      && Complete(s, edits, counts)
      && (c == |edits[|counts|].data| || edits[|counts|].offset > |Applied(s, edits, counts)|)
      ==> Complete(s, edits, counts + [c])
  {
    hide Spliced;
    assert (counts + [c])[..|counts|] == counts;
    assert forall i :: 0 <= i < |counts| ==> (counts + [c])[..i] == counts[..i];
  }

  /** The file between two operations. */
  ghost predicate Ready(f: File)
    reads f, f.v
  {
    f.Ok() && (f.v.chains[f.k] == [] ==> f.lastCluster == EMPTY_CLUSTER) && f.v.status != Dirty
  }

  /** One seek and one write; false when the volume is full. */
  method WriteOne(f: File, e: Edit, beyond: seq<nat>) returns (all: bool, count: nat)
    requires Ready(f) && f.writable && !f.append && AllBytes(e.data) && AllBytes(beyond) && |beyond| >= SECTOR_SIZE
    modifies f, f.v
    ensures Ready(f) && f.writable && !f.append && f.readable == old(f.readable) && count <= |e.data|
    ensures f.Bytes() ==
      if e.offset <= old(f.size) then Spliced(old(f.Bytes()), e.offset, e.data[..count]) else old(f.Bytes())
    ensures all <==> count == |e.data| || e.offset > old(f.size)
    ensures !all ==> FreeClusters(f.v.fat) == {}
    ensures f.v.reserved == old(f.v.reserved) && old(f.v.chains[f.k]) <= f.v.chains[f.k]
    ensures f.v.chains == old(f.v.chains)[f.k := f.v.chains[f.k]]
    ensures InRange(f.v.g, f.v.chains[f.k]) && OthersKept(f.v.g, old(f.v.logical), f.v.logical, f.v.chains[f.k])
    ensures old(f.written) ==> f.written
  {
    hide File.Ok, VolumeOk, Volume.Valid, Content, Holds, Index, CursorAt, InOrder, FreeClusters, ReadAt, OthersKept,
      InRange, AllBytes, Spliced;
    f.OkFacts();
    f.OkVolume();
    ChainInRange(f.v, f.k);
    NothingElse(f.v.g, f.v.logical, f.v.chains[f.k]);
    var err := f.Seek(e.offset);
    f.OkFacts();
    count := 0;
    if err != NoError {
      return true, 0;
    }
    err, count := f.Write(e.data, beyond);
    f.OkFacts();
    f.CursorTail();
    all := count == |e.data|;
  }

  /** Seeks and writes, until all are done or the volume is full: the file holds
      just the bytes that they spell. */
  method WriteMany(f: File, edits: seq<Edit>, beyond: seq<nat>) returns (counts: seq<nat>)
    requires Ready(f) && f.writable && !f.append && EditsOk(edits) && AllBytes(beyond) && |beyond| >= SECTOR_SIZE
    modifies f, f.v
    ensures Ready(f) && CountsOk(edits, counts) && f.Bytes() == Applied(old(f.Bytes()), edits, counts)
    ensures (|counts| == |edits| && Complete(old(f.Bytes()), edits, counts)) || FreeClusters(f.v.fat) == {}
    ensures f.v.reserved == old(f.v.reserved) && old(f.v.chains[f.k]) <= f.v.chains[f.k]
    ensures f.v.chains == old(f.v.chains)[f.k := f.v.chains[f.k]]
    ensures InRange(f.v.g, f.v.chains[f.k]) && OthersKept(f.v.g, old(f.v.logical), f.v.logical, f.v.chains[f.k])
    ensures old(f.written) ==> f.written
  {
    hide File.Ok, VolumeOk, Volume.Valid, Content, InOrder, FreeClusters, OthersKept, InRange, AllBytes, Applied,
      Complete;
    f.OkFacts();
    f.OkVolume();
    ChainInRange(f.v, f.k);
    NothingElse(f.v.g, f.v.logical, f.v.chains[f.k]);
    counts := [];
    ghost var all := f.Bytes();
    NoneApplied(all, edits);
    while |counts| < |edits|
      invariant Ready(f) && f.writable && !f.append && CountsOk(edits, counts) && f.k < |f.v.chains|
      invariant f.Bytes() == Applied(all, edits, counts) && Complete(all, edits, counts)
      invariant f.v.reserved == old(f.v.reserved) && old(f.v.chains[f.k]) <= f.v.chains[f.k]
      invariant f.v.chains == old(f.v.chains)[f.k := f.v.chains[f.k]] && (old(f.written) ==> f.written)
      invariant InRange(f.v.g, f.v.chains[f.k]) && OthersKept(f.v.g, old(f.v.logical), f.v.logical, f.v.chains[f.k])
      decreases |edits| - |counts|
    {
      ghost var d0, ch0 := f.v.logical, f.v.chains[f.k];
      var whole, count := WriteOne(f, edits[|counts|], beyond);
      KeptTwice(f.v.g, old(f.v.logical), d0, f.v.logical, ch0, f.v.chains[f.k]);
      AppliedMore(all, edits, counts, count);
      counts := counts + [count];
      if !whole {
        break;
      }
    }
  }

  lemma NoneApplied(s: seq<nat>, edits: seq<Edit>)
    ensures Applied(s, edits, []) == s && Complete(s, edits, [])
  {
  }

  // ----- A file and its directory -----

  /** A directory whose clusters are none of the file's keeps its entries. */
  lemma EntriesKept(g: Geometry, d: Disk, d': Disk, areas: seq<nat>, ch: seq<nat>)
    requires DiskOk(g, d) && DiskOk(g, d') && AreasOk(g, areas) && InRange(g, ch) && OthersKept(g, d, d', ch)
    requires forall c :: c in areas ==> c !in ch
    ensures EntriesOf(g, d', areas) == EntriesOf(g, d, areas)
  {
    hide AreaStart, AreaSectors, Places, EntryOf;
    forall k: nat | k < |Places(g, areas)|
      ensures EntriesOf(g, d', areas)[k] == EntriesOf(g, d, areas)[k]
    {
      PlaceInAreas(g, areas, k);
      EntryNotOwned(g, Places(g, areas)[k], ch);
    }
  }

  lemma EntryNotOwned(g: Geometry, p: Place, ch: seq<nat>)
    requires PlaceOk(g, p) && InRange(g, ch) && p.cluster !in ch
    ensures g.firstDirectory <= EntrySector(g, p) < Sectors(g) && !OwnSector(g, ch, EntrySector(g, p))
  {
    hide AreaStart, SectorAt;
    AreaSectorIn(g, p.cluster, p.index / ENTRIES_PER_SECTOR);
    if OwnSector(g, ch, EntrySector(g, p)) {
      var i, o :| 0 <= i < |ch| && 0 <= o < g.perCluster && EntrySector(g, p) == SectorAt(g, ch[i], o);
      FileSector(g, ch[i], o);
      AreasApart(g, p.cluster, p.index / ENTRIES_PER_SECTOR, ch[i], o);
    }
  }

  /** The chain of a file is none of the directory's areas. */
  lemma AreasNotInChain(dir: D.Directory, k: nat)
    requires VolumeOk(dir.v) && dir.Placed() && k < |dir.v.chains| && (dir.firstCluster != 0 ==> k != dir.dk)
    ensures forall c :: c in dir.Areas() ==> c !in dir.v.chains[k]
  {
    hide Volume.Valid, Distinct, IsChain;
    ChainInRange(dir.v, k);
    if dir.firstCluster != 0 {
      ChainsApart(dir.v.chains, dir.dk, k);
    }
  }

  lemma ChainsApart(chains: seq<seq<nat>>, a: nat, b: nat)
    requires Disjoint(chains) && a < |chains| && b < |chains| && a != b
    ensures forall c :: c in chains[a] ==> c !in chains[b]
  {
  }

  /** The writes of an open file leave its directory as it is. */
  method WriteFile(dir: D.Directory, f: File, edits: seq<Edit>, beyond: seq<nat>) returns (counts: seq<nat>)
    requires dir.Ok() && f.v == dir.v && Ready(f) && (dir.firstCluster != 0 ==> f.k != dir.dk)
    requires f.writable && !f.append && EditsOk(edits) && AllBytes(beyond) && |beyond| >= SECTOR_SIZE
    modifies f, f.v
    ensures dir.Ok() && dir.Entries() == old(dir.Entries()) && dir.Spots() == old(dir.Spots())
    ensures dir.Areas() == old(dir.Areas())
    ensures Ready(f) && CountsOk(edits, counts) && f.Bytes() == Applied(old(f.Bytes()), edits, counts)
    ensures (|counts| == |edits| && Complete(old(f.Bytes()), edits, counts)) || FreeClusters(f.v.fat) == {}
    ensures f.v.reserved == old(f.v.reserved) && f.v.chains == old(f.v.chains)[f.k := f.v.chains[f.k]]
    ensures old(f.written) ==> f.written
  {
    hide VolumeOk, Volume.Valid, Content, Holds, InOrder, FreeClusters, OthersKept, InRange, AllBytes, Applied,
      Complete, EntriesOf, EntriesOk, Distinct, Places, EditsOk;
    ghost var d, areas := f.v.logical, dir.Areas();
    counts := WriteMany(f, edits, beyond);
    f.OkVolume();
    f.v.Facts();
    AreasNotInChain(dir, f.k);
    EntriesKept(f.v.g, d, f.v.logical, areas, f.v.chains[f.k]);
  }

  // ----- From creation to reading -----

  /** The entry of a closed file. */
  ghost predicate EntryFor(x: Info, first: nat, size: nat)
  {
    !D.HasBit(x.attribute, DIRECTORY) && x.first == first && x.size == size
  }

  /** A directory holds a file of this name with these bytes, on chain k; an
      empty file has no entry. */
  ghost predicate HoldsFile(dir: D.Directory, name: seq<nat>, k: nat, content: seq<nat>)
    requires dir.Ok()
    reads dir.v
  {
    if content == [] then !HasName(dir.Entries(), name)
    else
      && k < |dir.v.chains| && (dir.firstCluster != 0 ==> k != dir.dk)
      && (exists x :: Named(dir.Entries(), name, x))
      && (forall x :: Named(dir.Entries(), name, x) ==> EntryFor(x, First(dir.v.chains[k]), |content|))
      && DiskOk(dir.v.g, dir.v.logical) && InRange(dir.v.g, dir.v.chains[k])
      && Holds(dir.v.g, dir.v.chains[k], |content|)
      && Content(dir.v.g, dir.v.logical, dir.v.chains[k], |content|) == content
  }

  /** Other names are for the same files as before. */
  ghost predicate OtherNames(es: seq<Raw>, es': seq<Raw>, name: seq<nat>)
  {
    forall m, y :: ProperName(m) && m != name ==> (Named(es', m, y) <==> Named(es, m, y))
  }

  lemma SetThenOther(a: seq<Raw>, b: seq<Raw>, c: seq<Raw>, name: seq<nat>, x: Info)
    requires D.NameSet(a, b, name, x) && OtherNames(b, c, name)
    ensures OtherNames(a, c, name)
  {
    hide Named, ProperName;
  }

  lemma NamedIfThere(es: seq<Raw>, name: seq<nat>)
    ensures HasName(es, name) <==> exists x :: Named(es, name, x)
  {
    hide At;
    forall i | 0 <= i < |es| && At(es, name, i)
      ensures Named(es, name, Unpack(es[i]))
    {
    }
  }

  lemma FoundNew(es: seq<Raw>, es': seq<Raw>, name: seq<nat>, x: Info, e: nat)
    requires D.NameSet(es, es', name, x) && ProperName(name) && e < |es'| && At(es', name, e)
    ensures Unpack(es'[e]) == x
  {
    hide At, ProperName, Unpack;
    assert Named(es', name, Unpack(es'[e]));
  }

  lemma NewIsEmpty(f: File)
    requires f.Ok() && f.size == 0
    ensures f.Bytes() == []
  {
  }

  lemma GoneHasNot(es: seq<Raw>, es': seq<Raw>, name: seq<nat>)
    requires D.NameGone(es, es', name) && ProperName(name)
    ensures !HasName(es', name)
  {
    hide At, ProperName;
    forall i | 0 <= i < |es'|
      ensures !At(es', name, i)
    {
      assert At(es', name, i) ==> Named(es', name, Unpack(es'[i]));
    }
  }

  /** Cluster numbers fit the 16 bits of an entry. */
  lemma FirstFits(v: Volume, k: nat)
    requires VolumeOk(v) && k < |v.chains|
    ensures First(v.chains[k]) < 0x10000
  {
    hide IsChain, Distinct;
    ChainInRange(v, k);
    v.Facts();
  }

  /** rdcf_close after writing: the entry shows what the file holds. */
  method CloseWritten(dir: D.Directory, f: File, time: nat, date: nat, ghost name: seq<nat>, ghost e: nat)
    requires dir.Ok() && f.v == dir.v && Ready(f) && (dir.firstCluster != 0 ==> f.k != dir.dk)
    requires D.LookedUp(name) && dir.spec == Printed(name) && dir.IsFound(name, e)
    requires dir.info.attribute == ARCHIVE && InfoOk(dir.info) && time < 0x10000 && date < 0x10000
    requires f.size < 0x1_0000_0000 && f.written
    modifies dir, dir.v
    ensures dir.Ok() && dir.v.status != Dirty && dir.v.chains == old(dir.v.chains) && dir.v.fat == old(dir.v.fat)
    ensures HoldsFile(dir, name, f.k, old(f.Bytes()))
    ensures OtherNames(old(dir.Entries()), dir.Entries(), name)
  {
    hide VolumeOk, Volume.Valid, Content, EntriesOf, EntriesOk, Distinct, Places, Named, At, HasName, Printed, Unpack,
      Holds, InRange, D.NameSet, D.NameGone, D.LookedUp, OnlyAreas, OtherNames, DiskOk;
    f.OkVolume();
    f.OkFacts();
    FirstFits(dir.v, f.k);
    D.LookedUpFacts(name);
    AreasNotInChain(dir, f.k);
    ghost var es, d, content := dir.Entries(), dir.v.logical, f.Bytes();
    ChainInRange(dir.v, f.k);
    dir.Close(f.written, f.firstCluster, f.size, time, date, name, e);
    ChainInRange(dir.v, f.k);
    Renamed(es, dir.Entries(), name, time, date, f.firstCluster, f.size);
    if f.size > 0 {
      FileKept(dir.v.g, d, dir.v.logical, dir.Areas(), dir.v.chains[f.k], f.size);
    }
  }

  lemma Renamed(es: seq<Raw>, es': seq<Raw>, name: seq<nat>, time: nat, date: nat, first: nat, size: nat)
    requires ProperName(name)
    requires if size > 0 then D.NameSet(es, es', name, Info(D.WithArchive(ARCHIVE), time, date, first, size))
             else D.NameGone(es, es', name)
    ensures size == 0 ==> !HasName(es', name)
    ensures size > 0 ==>
      (exists x :: Named(es', name, x)) && forall x :: Named(es', name, x) ==> EntryFor(x, first, size)
    ensures OtherNames(es, es', name)
  {
    hide Named, HasName, ProperName;
    if size > 0 {
      assert Named(es', name, Info(D.WithArchive(ARCHIVE), time, date, first, size));
    } else {
      GoneHasNot(es, es', name);
    }
  }

  datatype Access = ReadOnly | WriteOnly | ReadWrite

  /** The chain of the file of this name, if there is one, holds it; if there is
      none, the chain is one not in use. */
  ghost predicate ChainFor(dir: D.Directory, name: seq<nat>, k: nat)
    requires dir.Ok()
    reads dir.v
  {
    && k < |dir.v.chains| && (dir.firstCluster != 0 ==> k != dir.dk) && dir.HasChain(name, k)
    && (forall x :: Named(dir.Entries(), name, x) ==> Holds(dir.v.g, dir.v.chains[k], x.size))
    && (!HasName(dir.Entries(), name) ==> dir.v.chains[k] == [])
  }

  /** The directory's part of rdcf_open, and what it found. */
  method OpenEntryOf(dir: D.Directory, path: seq<nat>, from: nat, creat: bool, trunc: bool, write: bool,
                     time: nat, date: nat, ghost k: nat)
    returns (out: D.Outcome, made: bool)
    requires dir.Ok() && dir.v.status != Dirty && D.PathOk(path, from) && time < 0x10000 && date < 0x10000
    requires ChainFor(dir, NameExtension(path, from), k)
    modifies dir, dir.v
    ensures out == D.Done ==>
      && dir.Ok() && dir.v.status != Dirty && k < |dir.v.chains|
      && dir.info.first == First(dir.v.chains[k]) && Holds(dir.v.g, dir.v.chains[k], dir.info.size)
    ensures out == D.Done && HasName(old(dir.Entries()), NameExtension(path, from)) && !(creat && trunc) ==>
      && dir.v.logical == old(dir.v.logical) && dir.v.chains == old(dir.v.chains)
      && Named(old(dir.Entries()), NameExtension(path, from), dir.info)
    ensures out == D.Done && (!HasName(old(dir.Entries()), NameExtension(path, from)) || (creat && trunc)) ==>
      dir.info.size == 0
    ensures made <==> out == D.Done && (!HasName(old(dir.Entries()), NameExtension(path, from)) || (creat && trunc))
  {
    hide VolumeOk, Volume.Valid, Content, InOrder, FreeClusters, EntriesOf, EntriesOk, Distinct, Places, Named, HasName,
      Printed, NameExtension, Accepted, D.NameSet, D.Full, OnlyAreas, D.PathOk, Unpack, At, InRange, D.LookedUp;
    ghost var name, es := NameExtension(path, from), dir.Entries();
    NamedIfThere(es, name);
    ghost var e;
    out, made, e := dir.Open(path, from, creat, trunc, write, time, date, k);
    if out == D.Done {
      D.AcceptedLookedUp(path, from);
      D.LookedUpFacts(name);
      EntryNamed(dir.Entries(), name, e);
      OpenedSize(es, dir.Entries(), name, dir.info, D.NewFile(time, date));
      HoldsNothing(dir.v.g, dir.v.chains[k]);
    }
  }

  lemma HoldsNothing(g: Geometry, ch: seq<nat>)
    requires GeometryOk(g)
    ensures Holds(g, ch, 0)
  {
  }

  /** rdcf_open to its end: the directory's part, the file's modes, and the seek to
      the end of a file that is opened for appending only. A file that was created or
      truncated counts as written, however it is opened: closed without a write, it
      loses its entry again. */
  method OpenFile(dir: D.Directory, path: seq<nat>, from: nat, creat: bool, trunc: bool, append: bool, access: Access,
                  time: nat, date: nat, ghost k: nat)
    returns (out: D.Outcome, f: File?)
    requires dir.Ok() && dir.v.status != Dirty && D.PathOk(path, from) && time < 0x10000 && date < 0x10000
    requires ChainFor(dir, NameExtension(path, from), k)
    modifies dir, dir.v
    ensures (f != null) == (out == D.Done)
    ensures f != null ==>
      && fresh(f) && f.v == dir.v && f.k == k && f.Ok() && f.Cursor() && dir.v.status != Dirty
      && f.readable == !access.WriteOnly? && f.writable == !access.ReadOnly? && f.append == append
      && f.position == (if append && access.WriteOnly? then f.size else 0)
    ensures f != null && HasName(old(dir.Entries()), NameExtension(path, from)) && !(creat && trunc) ==>
      && dir.v.logical == old(dir.v.logical) && dir.v.chains == old(dir.v.chains)
      && Named(old(dir.Entries()), NameExtension(path, from), dir.info) && f.size == dir.info.size
    ensures f != null && (!HasName(old(dir.Entries()), NameExtension(path, from)) || (creat && trunc)) ==>
      f.Bytes() == []
    ensures f != null ==>
      (f.written <==> !HasName(old(dir.Entries()), NameExtension(path, from)) || (creat && trunc))
  {
    hide Volume.Valid, Content, InOrder, EntriesOf, EntriesOk, Distinct, Places, Named, HasName, NameExtension,
      D.PathOk, Holds, InRange, Index, ClusterBytes, ChainFor;
    var made;
    out, made := OpenEntryOf(dir, path, from, creat, trunc, access != ReadOnly, time, date, k);
    if out != D.Done {
      return out, null;
    }
    f := new File(dir.v, k, dir.info.first, dir.info.size, access != WriteOnly, access != ReadOnly, append, made);
    if append && access == WriteOnly {
      var err := f.Seek(f.size);
    }
  }

  lemma EntryNamed(es: seq<Raw>, name: seq<nat>, e: nat)
    requires e < |es| && At(es, name, e)
    ensures Named(es, name, Unpack(es[e]))
  {
  }

  /** The entry of a file that was opened is the one it had, or a new one. */
  lemma OpenedSize(es: seq<Raw>, es': seq<Raw>, name: seq<nat>, x: Info, new0: Info)
    requires Named(es', name, x) && ProperName(name)
    ensures D.NameSet(es, es', name, new0) ==> x == new0
  {
    hide Named, ProperName;
  }

  /** The entry of an open file: found, looked up by its name, with a proper
      attribute. */
  ghost predicate OpenEntry(dir: D.Directory, name: seq<nat>, e: nat)
    requires dir.Placed()
    reads dir, dir.v
  {
    && D.LookedUp(name) && dir.spec == Printed(name) && e < |dir.Entries()| && At(dir.Entries(), name, e)
    && dir.Spots()[e] == Place(dir.dirCluster, dir.dirIndex)
    && InfoOk(dir.info) && (dir.info.attribute / VOLUME) % 2 == 0
  }

  /** rdcf_write: a write that gets nothing done closes the handle, so that the
      entry shows the chain as it is. */
  method WriteOrClose(dir: D.Directory, f: File, data: seq<nat>, beyond: seq<nat>, time: nat, date: nat,
                      ghost name: seq<nat>, ghost e: nat)
    returns (result: int)
    requires dir.Ok() && f.v == dir.v && f.Ok() && f.v.status != Dirty && (dir.firstCluster != 0 ==> f.k != dir.dk)
    requires if f.append then f.v.chains[f.k] == [] ==> f.lastCluster == EMPTY_CLUSTER else f.Cursor()
    requires OpenEntry(dir, name, e) && time < 0x10000 && date < 0x10000
    requires AllBytes(data) && AllBytes(beyond) && |beyond| >= SECTOR_SIZE && f.size + |data| < 0x1_0000_0000
    modifies f, dir, dir.v
    ensures dir.Ok() && f.Ok() && dir.v.status != Dirty
    ensures f.writable ==>
      && 0 <= result <= |data|
      && var at := if f.append then old(f.size) else old(f.position);
         f.Bytes() == Spliced(old(f.Bytes()), at, data[..result])
    ensures !f.writable ==> result < 0 && f.Bytes() == old(f.Bytes())
    ensures result > 0 || !f.written ==> dir.Entries() == old(dir.Entries())
    ensures result <= 0 && f.written && f.size > 0 ==>
      D.NameSet(old(dir.Entries()), dir.Entries(), name,
                Info(D.WithArchive(old(dir.info.attribute)), time, date, f.firstCluster, f.size))
    ensures result <= 0 && f.written && f.size == 0 ==> D.NameGone(old(dir.Entries()), dir.Entries(), name)
  {
    hide VolumeOk, Volume.Valid, Content, EntriesOf, EntriesOk, Distinct, Places, Named, At, HasName, Printed, Unpack,
      Holds, InRange, D.NameSet, D.NameGone, D.LookedUp, OnlyAreas, DiskOk, InOrder, FreeClusters, OthersKept, AllBytes,
      CursorAt;
    ghost var d, areas := f.v.logical, dir.Areas();
    f.OkVolume();
    f.v.Facts();
    var err, count := f.Write(data, beyond);
    f.OkVolume();
    f.v.Facts();
    AreasNotInChain(dir, f.k);
    EntriesKept(f.v.g, d, f.v.logical, areas, f.v.chains[f.k]);
    result := if err == NoError then count else -1;
    if result <= 0 {
      FirstFits(dir.v, f.k);
      d := dir.v.logical;
      ChainInRange(dir.v, f.k);
      dir.Close(f.written, f.firstCluster, f.size, time, date, name, e);
      ChainInRange(dir.v, f.k);
      FileKept(dir.v.g, d, dir.v.logical, areas, dir.v.chains[f.k], f.size);
    }
  }

  /** Create a file, write at many places, close it. */
  method CreateAndWrite(dir: D.Directory, path: seq<nat>, from: nat, time: nat, date: nat, edits: seq<Edit>,
                        beyond: seq<nat>, ghost k: nat)
    returns (out: D.Outcome, counts: seq<nat>)
    requires dir.Ok() && dir.v.status != Dirty && D.PathOk(path, from) && time < 0x10000 && date < 0x10000
    requires !HasName(dir.Entries(), NameExtension(path, from))
    requires k < |dir.v.chains| && dir.v.chains[k] == [] && (dir.firstCluster != 0 ==> k != dir.dk)
    requires EditsOk(edits) && AllBytes(beyond) && |beyond| >= SECTOR_SIZE
    modifies dir, dir.v
    ensures out == D.Done <==>
      && Accepted(path, from)
      && !(D.Full(old(dir.Entries())) && (dir.firstCluster == 0 || FreeClusters(old(dir.v.fat)) == {}))
    ensures out == D.Done ==>
      && CountsOk(edits, counts) && dir.Ok() && dir.v.status != Dirty
      && HoldsFile(dir, NameExtension(path, from), k, Applied([], edits, counts))
      && OtherNames(old(dir.Entries()), dir.Entries(), NameExtension(path, from))
      && ((|counts| == |edits| && Complete([], edits, counts)) || FreeClusters(dir.v.fat) == {})
  {
    hide VolumeOk, Volume.Valid, Content, InOrder, FreeClusters, AllBytes, Applied, Complete, EntriesOf, EntriesOk,
      Distinct, Places, EditsOk, Named, HasName, Printed, NameExtension, Accepted, D.NameSet, D.Full, OnlyAreas,
      OtherNames, D.PathOk, Unpack, At, HoldsFile, Holds;
    ghost var name := NameExtension(path, from);
    NamedIfThere(dir.Entries(), name);
    counts := [];
    ghost var e;
    var made;
    out, made, e := dir.Open(path, from, true, false, true, time, date, k);
    if out != D.Done {
      return;
    }
    ghost var es := dir.Entries();
    D.AcceptedLookedUp(path, from);
    D.LookedUpFacts(name);
    FoundNew(old(dir.Entries()), es, name, D.NewFile(time, date), e);
    var f := new File(dir.v, k, dir.info.first, dir.info.size, true, true, false, made);
    NewIsEmpty(f);
    counts := WriteFile(dir, f, edits, beyond);
    f.OkFacts();
    AppliedSize([], edits, counts);
    CloseWritten(dir, f, time, date, name, e);
    SetThenOther(old(dir.Entries()), es, dir.Entries(), name, D.NewFile(time, date));
  }

  /** Open a file that is there and read it from its beginning to its end. */
  method OpenAndRead(dir: D.Directory, path: seq<nat>, from: nat, ghost k: nat, ghost content: seq<nat>)
    returns (out: D.Outcome, back: seq<nat>)
    requires dir.Ok() && dir.v.status != Dirty && D.PathOk(path, from) && Accepted(path, from)
    requires HoldsFile(dir, NameExtension(path, from), k, content)
    modifies dir, dir.v
    ensures out == if content == [] then D.NotFound else D.Done
    ensures back == content
    ensures dir.v.logical == old(dir.v.logical) && dir.v.chains == old(dir.v.chains)
  {
    hide VolumeOk, Volume.Valid, Content, InOrder, FreeClusters, EntriesOf, EntriesOk, Distinct, Places, Named, HasName,
      Printed, NameExtension, Accepted, D.NameSet, D.Full, OnlyAreas, OtherNames, D.PathOk, Unpack, At, Holds, InRange;
    ghost var name := NameExtension(path, from);
    NamedIfThere(dir.Entries(), name);
    ghost var e;
    var made;
    out, made, e := dir.Open(path, from, false, false, false, 0, 0, k);
    if out != D.Done {
      return out, [];
    }
    var f := new File(dir.v, k, dir.info.first, dir.info.size, true, false, false, made);
    f.CursorReads();
    var err;
    err, back := f.Read(dir.info.size);
    assert content[0..|content|] == content;
  }

  /** What a new file was given at all its offsets is what a later reader gets;
      a file that stayed empty is not there any more. */
  method WriteCloseReopenRead(dir: D.Directory, path: seq<nat>, from: nat, time: nat, date: nat, edits: seq<Edit>,
                              beyond: seq<nat>, ghost k: nat)
    returns (out: D.Outcome, counts: seq<nat>, again: D.Outcome, back: seq<nat>)
    requires dir.Ok() && dir.v.status != Dirty && D.PathOk(path, from) && time < 0x10000 && date < 0x10000
    requires !HasName(dir.Entries(), NameExtension(path, from))
    requires k < |dir.v.chains| && dir.v.chains[k] == [] && (dir.firstCluster != 0 ==> k != dir.dk)
    requires EditsOk(edits) && AllBytes(beyond) && |beyond| >= SECTOR_SIZE
    modifies dir, dir.v
    ensures out == D.Done <==>
      && Accepted(path, from)
      && !(D.Full(old(dir.Entries())) && (dir.firstCluster == 0 || FreeClusters(old(dir.v.fat)) == {}))
    ensures out == D.Done ==>
      && CountsOk(edits, counts) && back == Applied([], edits, counts)
      && again == if back == [] then D.NotFound else D.Done
  {
    hide VolumeOk, Volume.Valid, FreeClusters, AllBytes, Applied, Complete, EntriesOf, EntriesOk, EditsOk, HasName,
      HoldsFile, NameExtension, Accepted, D.Full, D.PathOk, OtherNames;
    again, back := D.NotFound, [];
    out, counts := CreateAndWrite(dir, path, from, time, date, edits, beyond, k);
    if out == D.Done {
      again, back := OpenAndRead(dir, path, from, k, Applied([], edits, counts));
    }
  }
}
